/**
 * The feeling distribution of the instructor panel: one count per catalog
 * label, in catalog order, zero for a label no row carries. Rows whose
 * feeling is not a catalog label are counted under no label.
 */
module Distribution {
  import Seqs
  import Feelings
  import opened Rows

  /** The feelings of the rows, in row order. */
  function FeelingsOf(rows: seq<Row>): (fs: seq<string>)
    ensures |fs| == |rows|
    ensures forall i :: 0 <= i < |rows| ==> fs[i] == rows[i].feeling
  {
    seq(|rows|, i requires 0 <= i < |rows| => rows[i].feeling)
  }

  /** How many rows carry `name` as their feeling. */
  function CountOf(rows: seq<Row>, name: string): (n: nat)
    ensures n == multiset(FeelingsOf(rows))[name]
    ensures n <= |rows|
  {
    if |rows| == 0 then 0
    else
      assert FeelingsOf(rows) == [rows[0].feeling] + FeelingsOf(rows[1..]);
      (if rows[0].feeling == name then 1 else 0) + CountOf(rows[1..], name)
  }

  /** One (label, count) entry per label of `labels`, in that order. */
  function Tally(labels: seq<string>, rows: seq<Row>): (t: seq<(string, nat)>)
    ensures |t| == |labels|
    ensures forall i :: 0 <= i < |labels| ==> t[i] == (labels[i], multiset(FeelingsOf(rows))[labels[i]])
  {
    if |labels| == 0 then [] else [(labels[0], CountOf(rows, labels[0]))] + Tally(labels[1..], rows)
  }

  /** The distribution the bar chart shows: the catalog labels in catalog
      order, each with the number of rows carrying it (0 when none does). */
  function Counts(rows: seq<Row>): (t: seq<(string, nat)>)
    ensures |t| == |Feelings.Catalog|
    ensures forall i :: 0 <= i < |t| ==> t[i].0 == Feelings.Catalog[i].name
    ensures forall i :: 0 <= i < |t| ==> t[i].1 == multiset(FeelingsOf(rows))[Feelings.Catalog[i].name]
  {
    Tally(Feelings.Labels(), rows)
  }

  /** The sum of the counts of a distribution. */
  function Total(t: seq<(string, nat)>): nat {
    if |t| == 0 then 0 else t[0].1 + Total(t[1..])
  }

  /** How many entries of `labels` equal `f`. */
  function Hits(labels: seq<string>, f: string): nat {
    if |labels| == 0 then 0 else (if labels[0] == f then 1 else 0) + Hits(labels[1..], f)
  }

  /** Distinct labels: a feeling matches one label if it is among them and
      none otherwise. */
  lemma {:induction false} HitsDistinct(labels: seq<string>, f: string)
    requires forall i, j :: 0 <= i < j < |labels| ==> labels[i] != labels[j]
    ensures Hits(labels, f) == if f in labels then 1 else 0
  {
    if |labels| > 0 {
      HitsDistinct(labels[1..], f);
      if labels[0] == f {
        assert f !in labels[1..];
      }
    }
  }

  /** Adding one row in front adds one to the count of each label it
      matches. */
  lemma {:induction false} TallyCons(labels: seq<string>, x: Row, rest: seq<Row>)
    ensures Total(Tally(labels, [x] + rest)) == Hits(labels, x.feeling) + Total(Tally(labels, rest))
  {
    if |labels| > 0 {
      TallyCons(labels[1..], x, rest);
      assert ([x] + rest)[1..] == rest;
    }
  }

  /** The mask of rows whose feeling is one of `labels`. */
  function Among(labels: seq<string>): Row -> bool {
    (r: Row) => r.feeling in labels
  }

  /** With distinct labels, the counts add up to the number of rows whose
      feeling is one of the labels: every such row is counted once and
      every other row not at all. */
  lemma {:induction false} TallyTotal(labels: seq<string>, rows: seq<Row>)
    requires forall i, j :: 0 <= i < j < |labels| ==> labels[i] != labels[j]
    ensures Total(Tally(labels, rows)) == |Seqs.Filter(Among(labels), rows)|
  {
    if |rows| == 0 {
      TotalZero(labels, rows);
    } else {
      TallyTotal(labels, rows[1..]);
      assert rows == [rows[0]] + rows[1..];
      TallyCons(labels, rows[0], rows[1..]);
      HitsDistinct(labels, rows[0].feeling);
    }
  }

  /** With no rows every count is zero. */
  lemma {:induction false} TotalZero(labels: seq<string>, rows: seq<Row>)
    requires |rows| == 0
    ensures Total(Tally(labels, rows)) == 0
  {
    if |labels| > 0 {
      TotalZero(labels[1..], rows);
    }
  }

  /** The bar chart's counts add up to the number of rows whose feeling is
      a catalog label; rows with any other feeling are left out. */
  lemma CountsTotal(rows: seq<Row>)
    ensures Total(Counts(rows)) == |Seqs.Filter(Among(Feelings.Labels()), rows)|
    ensures Total(Counts(rows)) <= |rows|
  {
    Feelings.LabelsDistinct();
    TallyTotal(Feelings.Labels(), rows);
  }
}
