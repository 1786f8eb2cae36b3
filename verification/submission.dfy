/** Shaping one check-in form submission into the row that is stored. */
module Submission {
  import opened Wrappers
  import Text
  import Feelings
  import opened Rows

  /** The row stored for a submission. The form's free-text fields may come
      back as None, which counts as ""; `comment` and `turma` are stripped
      of surrounding whitespace, and `detail` is looked up in the catalog. */
  function NewRow(timestamp: string, chosen: string, comment: Option<string>, turma: Option<string>): (r: Row)
    ensures r.timestamp == timestamp && r.feeling == chosen
    ensures Text.IsStripOf(comment.GetOr(""), r.comment)
    ensures |r.comment| <= |comment.GetOr("")|
    ensures Text.IsStripOf(turma.GetOr(""), r.turma)
    ensures forall i :: 0 <= i < |Feelings.Catalog| && Feelings.Catalog[i].name == chosen
              ==> r.detail == Feelings.Catalog[i].description
    ensures !Feelings.IsLabel(chosen) ==> r.detail == ""
  {
    Row(timestamp, chosen, Feelings.Detail(chosen),
        Text.Trim(comment.GetOr("")), Text.Trim(turma.GetOr("")))
  }

  /** Stored free text is already stripped: stripping a stored comment or
      class label again leaves it unchanged. */
  lemma StoredTextStable(timestamp: string, chosen: string, comment: Option<string>, turma: Option<string>)
    ensures var r := NewRow(timestamp, chosen, comment, turma);
      Text.Trim(r.comment) == r.comment && Text.Trim(r.turma) == r.turma
  {
    StrippedOnce(comment.GetOr(""));
    StrippedOnce(turma.GetOr(""));
  }

  /** A stored comment or class label is "" exactly when the typed text was
      missing or blank. */
  lemma StoredTextBlank(timestamp: string, chosen: string, comment: Option<string>, turma: Option<string>)
    ensures var r := NewRow(timestamp, chosen, comment, turma);
      (r.comment == "" <==> Text.AllSpace(comment.GetOr("")))
      && (r.turma == "" <==> Text.AllSpace(turma.GetOr("")))
  {
    var r := NewRow(timestamp, chosen, comment, turma);
    var c, t := comment.GetOr(""), turma.GetOr("");
    assert r.comment == Text.Trim(c);
    assert r.turma == Text.Trim(t);
    Text.TrimEmptyIffAllSpace(c);
    Text.TrimEmptyIffAllSpace(t);
  }

  /** One stripped field: stable under a second strip, and "" exactly when
      the typed text was blank. */
  lemma StrippedOnce(s: string)
    ensures Text.Trim(Text.Trim(s)) == Text.Trim(s)
    ensures Text.Trim(s) == "" <==> Text.AllSpace(s)
  {
    Text.TrimIdempotent(s);
    Text.TrimEmptyIffAllSpace(s);
  }
}
