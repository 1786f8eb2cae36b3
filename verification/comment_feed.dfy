/**
 * The comment feed of the instructor panel: the selected rows whose comment
 * is not blank, reduced to four columns and listed newest first.
 */
module CommentFeed {
  import Text
  import Seqs
  import opened Rows

  /** One feed line: the columns the feed shows. */
  datatype Comment = Comment(timestamp: string, feeling: string, comment: string, turma: string)

  /** A row's feed line. */
  function Project(r: Row): Comment {
    Comment(r.timestamp, r.feeling, r.comment, r.turma)
  }

  /** The feed lines of rows, in row order. */
  function ProjectAll(rows: seq<Row>): (cs: seq<Comment>)
    ensures |cs| == |rows|
    ensures forall i :: 0 <= i < |rows| ==> cs[i] == Project(rows[i])
  {
    seq(|rows|, i requires 0 <= i < |rows| => Project(rows[i]))
  }

  /** The row's comment, stripped, is not empty. */
  predicate HasComment(r: Row) {
    Text.Trim(r.comment) != ""
  }

  /** A row has a comment exactly when its comment is not all whitespace. */
  lemma HasCommentIffNotBlank(r: Row)
    ensures HasComment(r) <==> !Text.AllSpace(r.comment)
  {
    Text.TrimEmptyIffAllSpace(r.comment);
  }

  /** The rows that have a comment, in row order. */
  function Commented(rows: seq<Row>): seq<Row> {
    Seqs.Filter(HasComment, rows)
  }

  /** Newest first: timestamps never increase along the feed. */
  predicate NewestFirst(cs: seq<Comment>) {
    forall i, j :: 0 <= i < j < |cs| ==> Text.Below(cs[j].timestamp, cs[i].timestamp)
  }

  /** No line of `cs` is newer than `t`. */
  predicate NoneNewer(cs: seq<Comment>, t: string) {
    forall j :: 0 <= j < |cs| ==> Text.Below(cs[j].timestamp, t)
  }

  /** A line no older than every line of a newest-first feed can head it. */
  lemma ConsNewestFirst(x: Comment, cs: seq<Comment>)
    requires NewestFirst(cs) && NoneNewer(cs, x.timestamp)
    ensures NewestFirst([x] + cs)
  {
    forall i, j | 0 <= i < j < |[x] + cs|
      ensures Text.Below(([x] + cs)[j].timestamp, ([x] + cs)[i].timestamp)
    {
      if i > 0 { assert ([x] + cs)[i] == cs[i - 1]; }
      assert ([x] + cs)[j] == cs[j - 1];
    }
  }

  /** Lines drawn from a multiset of lines none newer than `t` are none
      newer than `t`. */
  lemma NoneNewerByMultiset(cs: seq<Comment>, ds: seq<Comment>, t: string)
    requires NoneNewer(ds, t) && multiset(cs) <= multiset(ds)
    ensures NoneNewer(cs, t)
  {
    forall j | 0 <= j < |cs| ensures Text.Below(cs[j].timestamp, t) {
      assert cs[j] in multiset(cs);
      assert cs[j] in multiset(ds);
      var k :| 0 <= k < |ds| && ds[k] == cs[j];
    }
  }

  /** `c` placed into a newest-first feed, keeping it newest first. */
  function InsertByTime(cs: seq<Comment>, c: Comment): (r: seq<Comment>)
    requires NewestFirst(cs)
    ensures NewestFirst(r)
    ensures multiset(r) == multiset(cs) + multiset{c}
  {
    if |cs| == 0 then [c]
    else if Text.Below(cs[0].timestamp, c.timestamp) then
      assert NoneNewer(cs, c.timestamp) by {
        forall j | 0 < j < |cs| ensures Text.Below(cs[j].timestamp, c.timestamp) {
          Text.BelowTransitive(cs[j].timestamp, cs[0].timestamp, c.timestamp);
        }
      }
      ConsNewestFirst(c, cs);
      [c] + cs
    else
      Text.BelowTotal(cs[0].timestamp, c.timestamp);
      var rest := InsertByTime(cs[1..], c);
      assert NoneNewer(cs[1..] + [c], cs[0].timestamp);
      assert multiset(rest) == multiset(cs[1..] + [c]);
      NoneNewerByMultiset(rest, cs[1..] + [c], cs[0].timestamp);
      ConsNewestFirst(cs[0], rest);
      assert cs == [cs[0]] + cs[1..];
      [cs[0]] + rest
  }

  /** Feed lines sorted newest first. */
  function SortNewestFirst(cs: seq<Comment>): (r: seq<Comment>)
    ensures NewestFirst(r)
    ensures multiset(r) == multiset(cs)
  {
    if |cs| == 0 then []
    else
      assert cs == [cs[0]] + cs[1..];
      InsertByTime(SortNewestFirst(cs[1..]), cs[0])
  }

  /** The feed: exactly the feed lines of the rows with a comment, each as
      often as it occurs, newest first. */
  function Feed(rows: seq<Row>): (f: seq<Comment>)
    ensures multiset(f) == multiset(ProjectAll(Commented(rows)))
    ensures NewestFirst(f)
  {
    SortNewestFirst(ProjectAll(Commented(rows)))
  }

  /** A feed line stems from a row with a comment, and every row with a
      comment has its line in the feed. */
  lemma FeedMembers(rows: seq<Row>, c: Comment)
    ensures c in Feed(rows) <==> exists i :: 0 <= i < |rows| && HasComment(rows[i]) && Project(rows[i]) == c
  {
    var cs := ProjectAll(Commented(rows));
    assert c in Feed(rows) <==> c in multiset(cs);
    ProjectedMembers(Commented(rows), c);
    if exists r :: r in Commented(rows) && Project(r) == c {
      var r :| r in Commented(rows) && Project(r) == c;
      var i :| 0 <= i < |rows| && rows[i] == r;
    }
    if exists i :: 0 <= i < |rows| && HasComment(rows[i]) && Project(rows[i]) == c {
      var i :| 0 <= i < |rows| && HasComment(rows[i]) && Project(rows[i]) == c;
      assert rows[i] in Commented(rows);
    }
  }

  /** A line is among the lines of the rows with a comment exactly when
      some row with a comment has it. */
  lemma ProjectedMembers(commented: seq<Row>, c: Comment)
    ensures c in ProjectAll(commented) <==> exists r :: r in commented && Project(r) == c
  {
    if c in ProjectAll(commented) {
      var k :| 0 <= k < |commented| && ProjectAll(commented)[k] == c;
      assert commented[k] in commented;
    }
    if exists r :: r in commented && Project(r) == c {
      var r :| r in commented && Project(r) == c;
      var k :| 0 <= k < |commented| && commented[k] == r;
      assert ProjectAll(commented)[k] == c;
    }
  }

  /** The feed is empty (the panel says there are no comments yet) exactly
      when no row has a comment. */
  lemma FeedEmpty(rows: seq<Row>)
    ensures Feed(rows) == [] <==> forall i :: 0 <= i < |rows| ==> !HasComment(rows[i])
  {
    var commented := Commented(rows);
    assert |Feed(rows)| == |ProjectAll(commented)| by {
      assert multiset(Feed(rows)) == multiset(ProjectAll(commented));
    }
    if exists i :: 0 <= i < |rows| && HasComment(rows[i]) {
      var i :| 0 <= i < |rows| && HasComment(rows[i]);
      assert rows[i] in commented;
    }
    if |commented| > 0 {
      assert commented[0] in commented;
    }
  }
}
