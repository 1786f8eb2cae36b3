/**
 * Text primitives the check-in pipeline relies on: Python's `str.strip()`
 * with no argument, and Python's ordering of strings (lexicographic by code
 * point), which `sorted` and `sort_values` use on columns read as strings.
 */
module Text {

  /** Python's `str.isspace()` for one character: the characters whose
      bidirectional class is WS, B or S, or whose category is Zs. */
  predicate IsSpace(c: char) {
    || c == ' ' || c == '\t' || c == '\n' || c == '\r'
    || c == '\U{000B}' || c == '\U{000C}'
    || ('\U{001C}' <= c <= '\U{001F}')
    || c == '\U{0085}' || c == '\U{00A0}' || c == '\U{1680}'
    || ('\U{2000}' <= c <= '\U{200A}')
    || c == '\U{2028}' || c == '\U{2029}' || c == '\U{202F}' || c == '\U{205F}'
    || c == '\U{3000}'
  }

  /** Every character of `s` at a position in [lo, hi) is whitespace. */
  predicate SpaceBetween(s: string, lo: int, hi: int)
    requires 0 <= lo && hi <= |s|
  {
    forall k :: lo <= k < hi ==> IsSpace(s[k])
  }

  /** Every character of `s` is whitespace (vacuously true of ""). */
  predicate AllSpace(s: string) {
    SpaceBetween(s, 0, |s|)
  }

  /** `s[i..j]` is what remains of `s` once its whitespace prefix and its
      whitespace suffix are removed, and nothing more: the slice neither
      starts nor ends with whitespace. */
  predicate StripAt(s: string, i: int, j: int) {
    && 0 <= i <= j <= |s|
    && SpaceBetween(s, 0, i) && SpaceBetween(s, j, |s|)
    && (i == j || (!IsSpace(s[i]) && !IsSpace(s[j - 1])))
  }

  /** `r` is `s` stripped of surrounding whitespace. */
  ghost predicate IsStripOf(s: string, r: string) {
    exists i, j :: StripAt(s, i, j) && r == s[i..j]
  }

  /** Python's `s.lstrip()`. */
  function TrimLeft(s: string): (r: string)
    ensures |r| <= |s| && r == s[|s| - |r|..]
    ensures SpaceBetween(s, 0, |s| - |r|)
    ensures r == [] || !IsSpace(r[0])
  {
    if |s| > 0 && IsSpace(s[0]) then TrimLeft(s[1..]) else s
  }

  /** Python's `s.rstrip()`. */
  function TrimRight(s: string): (r: string)
    ensures |r| <= |s| && r == s[..|r|]
    ensures SpaceBetween(s, |r|, |s|)
    ensures r == [] || !IsSpace(r[|r| - 1])
  {
    if |s| > 0 && IsSpace(s[|s| - 1]) then TrimRight(s[..|s| - 1]) else s
  }

  /** Python's `s.strip()`. */
  function Trim(s: string): (r: string)
    ensures IsStripOf(s, r)
    ensures |r| <= |s|
  {
    var l := TrimLeft(s);
    var r := TrimRight(l);
    TrimIsStrip(s, l, r);
    r
  }

  /** Stripping the left, then the right, strips at the positions where the
      kept text starts and ends. */
  lemma TrimIsStrip(s: string, l: string, r: string)
    requires |l| <= |s| && l == s[|s| - |l|..] && SpaceBetween(s, 0, |s| - |l|)
    requires l == [] || !IsSpace(l[0])
    requires |r| <= |l| && r == l[..|r|] && SpaceBetween(l, |r|, |l|)
    requires r == [] || !IsSpace(r[|r| - 1])
    ensures StripAt(s, |s| - |l|, |s| - |l| + |r|)
    ensures r == s[|s| - |l|..|s| - |l| + |r|]
  {
    var i := |s| - |l|;
    var j := i + |r|;
    forall k | j <= k < |s| ensures IsSpace(s[k]) {
      assert s[k] == l[k - i];
    }
    assert r == l[..|r|];
    assert r != [] ==> s[i] == r[0] && s[j - 1] == r[|r| - 1];
  }

  /** The strip of a string is unique: whatever satisfies the strip
      characterisation is exactly what `Trim` returns. */
  lemma StripUnique(s: string, r: string)
    requires IsStripOf(s, r)
    ensures r == Trim(s)
  {
    var i, j :| StripAt(s, i, j) && r == s[i..j];
    var t := Trim(s);
    var i', j' :| StripAt(s, i', j') && t == s[i'..j'];
    StripPositionsAgree(s, i, j, i', j');
  }

  /** Any two strip positions of one string keep the same text. */
  lemma StripPositionsAgree(s: string, i: int, j: int, i': int, j': int)
    requires StripAt(s, i, j) && StripAt(s, i', j')
    ensures s[i..j] == s[i'..j']
  {
    // A non-space character can be neither in the stripped prefix nor in
    // the stripped suffix of the other position.
    assert i < j ==> i' <= i < j';
    assert i' < j' ==> i <= i' < j;
    assert i < j ==> i' <= j - 1 < j';
    assert i' < j' ==> i <= j' - 1 < j;
  }

  /** Stripping twice is stripping once. */
  lemma TrimIdempotent(s: string)
    ensures Trim(Trim(s)) == Trim(s)
  {
    var t := Trim(s);
    var i, j :| StripAt(s, i, j) && t == s[i..j];
    assert StripAt(t, 0, |t|);
    assert t == t[0..|t|];
    StripUnique(t, t);
  }

  /** A string strips to "" exactly when it is all whitespace. */
  lemma TrimEmptyIffAllSpace(s: string)
    ensures Trim(s) == "" <==> AllSpace(s)
  {
    var t := Trim(s);
    var i, j :| StripAt(s, i, j) && t == s[i..j];
    assert i < j ==> !IsSpace(s[i]);
    assert t == "" ==> i == j;
  }

  /** Python's `a <= b` on strings: lexicographic by code point, a proper
      prefix sorting first. */
  predicate Below(a: string, b: string)
    decreases |a|
  {
    |a| == 0 || (|b| > 0 && (a[0] < b[0] || (a[0] == b[0] && Below(a[1..], b[1..]))))
  }

  /** Python's `a < b` on strings. */
  predicate StrictlyBelow(a: string, b: string) {
    Below(a, b) && a != b
  }

  lemma {:induction false} BelowAntisymmetric(a: string, b: string)
    requires Below(a, b) && Below(b, a)
    ensures a == b
  {
    if |a| > 0 {
      BelowAntisymmetric(a[1..], b[1..]);
      assert a == [a[0]] + a[1..] && b == [b[0]] + b[1..];
    }
  }

  lemma {:induction false} BelowTransitive(a: string, b: string, c: string)
    requires Below(a, b) && Below(b, c)
    ensures Below(a, c)
  {
    if |a| > 0 && a[0] == b[0] && b[0] == c[0] {
      BelowTransitive(a[1..], b[1..], c[1..]);
    }
  }

  lemma {:induction false} BelowTotal(a: string, b: string)
    ensures Below(a, b) || Below(b, a)
  {
    if |a| > 0 && |b| > 0 && a[0] == b[0] {
      BelowTotal(a[1..], b[1..]);
    }
  }
}
