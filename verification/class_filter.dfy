/**
 * The class (`turma`) filter of the instructor panel: an empty class label
 * is shown as its own bucket, the selector offers every bucket once in
 * sorted order after an "all classes" entry, and a selection keeps the rows
 * of one bucket in their original order.
 */
module ClassFilter {
  import Text
  import Seqs
  import opened Rows

  /** The selector entry that keeps every row. */
  const AllClasses: string := "(Todas)"

  /** The bucket of rows stored without a class label. */
  const NoClass: string := "(Sem turma)"

  /** The bucket a stored class label falls in: only the exact empty string
      is renamed. */
  function Bucket(turma: string): (b: string)
    ensures b != ""
    ensures turma != "" ==> b == turma
    ensures turma == "" ==> b == NoClass
  {
    if turma == "" then NoClass else turma
  }

  /** Every row with its class label replaced by its bucket, in order. */
  function Normalize(rows: seq<Row>): (r: seq<Row>)
    ensures |r| == |rows|
    ensures forall i :: 0 <= i < |rows| ==> r[i].turma == Bucket(rows[i].turma)
    ensures forall i :: 0 <= i < |rows| ==> r[i] == rows[i].(turma := r[i].turma)
  {
    seq(|rows|, i requires 0 <= i < |rows| => rows[i].(turma := Bucket(rows[i].turma)))
  }

  /** The row mask of a selection: the (normalised) row is in the bucket. */
  function InBucket(selection: string): Row -> bool {
    (r: Row) => r.turma == selection
  }

  /** The rows the panel works on for a selection: every row for
      `AllClasses`, otherwise the rows whose bucket is the selection. */
  function Select(rows: seq<Row>, selection: string): (r: seq<Row>)
    ensures selection == AllClasses ==> r == Normalize(rows)
    ensures selection != AllClasses ==> forall x :: x in r ==> x.turma == selection
    ensures selection != AllClasses ==>
      forall i :: 0 <= i < |rows| && Bucket(rows[i].turma) == selection ==> Normalize(rows)[i] in r
  {
    var n := Normalize(rows);
    if selection == AllClasses then n else Seqs.Filter(InBucket(selection), n)
  }

  /** A selection other than `AllClasses` keeps exactly the rows of its
      bucket: each such row as many times as it occurs, no other row, and
      in the original order. */
  lemma SelectExact(rows: seq<Row>, selection: string, x: Row)
    requires selection != AllClasses
    ensures Seqs.IsSubseq(Select(rows, selection), Normalize(rows))
    ensures multiset(Select(rows, selection))[x]
            == if x.turma == selection then multiset(Normalize(rows))[x] else 0
  {
    Seqs.FilterIsSubseq(InBucket(selection), Normalize(rows));
    Seqs.FilterCounts(InBucket(selection), Normalize(rows), x);
  }

  /** Selecting from rows submitted in two batches gives the selection from
      the first batch followed by the selection from the second: later
      submissions never reorder or change earlier ones. */
  lemma SelectAppend(a: seq<Row>, b: seq<Row>, selection: string)
    ensures Select(a + b, selection) == Select(a, selection) + Select(b, selection)
  {
    assert Normalize(a + b) == Normalize(a) + Normalize(b);
    if selection != AllClasses {
      Seqs.FilterAppend(InBucket(selection), Normalize(a), Normalize(b));
    }
  }

  /** `xs` is in strictly increasing string order, so it has no duplicates. */
  predicate StrictlySorted(xs: seq<string>) {
    forall i, j :: 0 <= i < j < |xs| ==> Text.StrictlyBelow(xs[i], xs[j])
  }

  /** String order is a strict total order. */
  lemma StrictlyBelowTransitive(a: string, b: string, c: string)
    requires Text.StrictlyBelow(a, b) && Text.StrictlyBelow(b, c)
    ensures Text.StrictlyBelow(a, c)
  {
    Text.BelowTransitive(a, b, c);
    if a == c {
      Text.BelowAntisymmetric(a, b);
    }
  }

  /** `x` added to a sorted list of distinct labels, keeping it sorted and
      distinct. */
  function Insert(xs: seq<string>, x: string): (r: seq<string>)
    requires StrictlySorted(xs)
    ensures StrictlySorted(r)
    ensures forall y :: y in r <==> y in xs || y == x
  {
    if |xs| == 0 then [x]
    else if x == xs[0] then xs
    else if Text.Below(x, xs[0]) then
      assert forall j :: 0 < j < |xs| ==> Text.StrictlyBelow(x, xs[j]) by {
        forall j | 0 < j < |xs| ensures Text.StrictlyBelow(x, xs[j]) {
          StrictlyBelowTransitive(x, xs[0], xs[j]);
        }
      }
      [x] + xs
    else
      Text.BelowTotal(x, xs[0]);
      var rest := Insert(xs[1..], x);
      assert forall y :: y in rest ==> Text.StrictlyBelow(xs[0], y);
      [xs[0]] + rest
  }

  /** The distinct values of a list, sorted: Python's
      `sorted(set(values))`. */
  function SortedDistinct(values: seq<string>): (r: seq<string>)
    ensures StrictlySorted(r)
    ensures forall y :: y in r <==> y in values
  {
    if |values| == 0 then [] else Insert(SortedDistinct(values[1..]), values[0])
  }

  /** The buckets of the rows' class labels, in row order. */
  function Buckets(rows: seq<Row>): (b: seq<string>)
    ensures |b| == |rows|
    ensures forall i :: 0 <= i < |rows| ==> b[i] == Bucket(rows[i].turma)
  {
    seq(|rows|, i requires 0 <= i < |rows| => Bucket(rows[i].turma))
  }

  /** The selector's entries: `AllClasses`, then every bucket that occurs,
      once each, in increasing order. */
  function Options(rows: seq<Row>): (opts: seq<string>)
    ensures |opts| >= 1 && opts[0] == AllClasses
    ensures StrictlySorted(opts[1..])
    ensures forall b :: b in opts[1..] <==> exists i :: 0 <= i < |rows| && Bucket(rows[i].turma) == b
  {
    var tail := SortedDistinct(Buckets(rows));
    assert ([AllClasses] + tail)[1..] == tail;
    [AllClasses] + tail
  }

  /** The selector lists no entry twice exactly when no row's class label
      is literally "(Todas)"; such a label would appear next to the "all
      classes" entry, and choosing it would select every row. */
  lemma OptionsDistinct(rows: seq<Row>)
    ensures (forall i, j :: 0 <= i < j < |Options(rows)| ==> Options(rows)[i] != Options(rows)[j])
            <==> (forall i :: 0 <= i < |rows| ==> rows[i].turma != AllClasses)
  {
    var opts := Options(rows);
    var tail := opts[1..];
    if forall i :: 0 <= i < |rows| ==> rows[i].turma != AllClasses {
      forall i, j | 0 <= i < j < |opts| ensures opts[i] != opts[j] {
        if i == 0 {
          assert opts[j] == tail[j - 1];
          assert tail[j - 1] in tail;
          var k :| 0 <= k < |rows| && Bucket(rows[k].turma) == opts[j];
        } else {
          assert Text.StrictlyBelow(tail[i - 1], tail[j - 1]);
        }
      }
    } else {
      var k :| 0 <= k < |rows| && rows[k].turma == AllClasses;
      assert AllClasses in tail;
      var j :| 0 <= j < |tail| && tail[j] == AllClasses;
      assert opts[0] == opts[j + 1];
    }
  }
}
