/** Whitespace trimming as the post store uses it: every title and content
    value is stripped of leading and trailing whitespace before it is checked
    for emptiness or stored.

    The lemmas below depend only on `IsWhitespace` being some predicate on
    characters; the particular set chosen here is the one Python's `str.isspace`
    accepts, written out by code point. */
module Text {

  /** The characters `str.strip()` removes when called without arguments. */
  predicate IsWhitespace(c: char): (b: bool)
    ensures c == ' ' || c == '\t' || c == '\n' || c == '\r' ==> b
    ensures 'a' <= c <= 'z' || 'A' <= c <= 'Z' || '0' <= c <= '9' ==> !b
  {
    var n := c as int;
    || (0x09 <= n <= 0x0D)      // tab, line feed, vertical tab, form feed, carriage return
    || (0x1C <= n <= 0x20)      // file/group/record/unit separators, space
    || n == 0x85 || n == 0xA0 || n == 0x1680
    || (0x2000 <= n <= 0x200A)
    || n == 0x2028 || n == 0x2029 || n == 0x202F || n == 0x205F || n == 0x3000
  }

  /** A value holding nothing but whitespace. The store treats such a value as
      missing: Python's `not s.strip()` holds exactly for these
      (`BlankIffTrimEmpty`). */
  predicate Blank(s: string) {
    forall k :: 0 <= k < |s| ==> IsWhitespace(s[k])
  }

  /** Every character of `s` at positions `lo` up to (not including) `hi` is
      whitespace. */
  predicate WhitespaceIn(s: string, lo: int, hi: int) {
    0 <= lo <= hi <= |s| && forall k :: lo <= k < hi ==> IsWhitespace(s[k])
  }

  /** The position of the first non-whitespace character at or after `k`, or
      `|s|` when there is none. */
  function SkipLeading(s: string, k: nat): (r: nat)
    requires k <= |s|
    ensures k <= r <= |s| && WhitespaceIn(s, k, r)
    ensures r == |s| || !IsWhitespace(s[r])
    decreases |s| - k
  {
    if k < |s| && IsWhitespace(s[k]) then SkipLeading(s, k + 1) else k
  }

  /** The position just after the last non-whitespace character before `k`
      and at or after `lo`, or `lo` when there is none. */
  function SkipTrailing(s: string, lo: nat, k: nat): (r: nat)
    requires lo <= k <= |s|
    ensures lo <= r <= k && WhitespaceIn(s, r, k)
    ensures r == lo || !IsWhitespace(s[r - 1])
    decreases k
  {
    if k > lo && IsWhitespace(s[k - 1]) then SkipTrailing(s, lo, k - 1) else k
  }

  /** The model of `str.strip()`: the text between the leading and the
      trailing whitespace. */
  function Trim(s: string): (r: string)
    ensures |r| <= |s|
    ensures r == [] || (!IsWhitespace(r[0]) && !IsWhitespace(r[|r| - 1]))
  {
    var i := SkipLeading(s, 0);
    s[i..SkipTrailing(s, i, |s|)]
  }

  /** An independent description of stripping: `r` is `s[i..j]`, the part of
      `s` between a whitespace-only prefix and a whitespace-only suffix, and `r`
      neither starts nor ends with whitespace. */
  predicate StripsAt(s: string, r: string, i: int, j: int) {
    && 0 <= i <= j <= |s| && r == s[i..j]
    && WhitespaceIn(s, 0, i) && WhitespaceIn(s, j, |s|)
    && (r == [] || (!IsWhitespace(r[0]) && !IsWhitespace(r[|r| - 1])))
  }

  ghost predicate StripsTo(s: string, r: string) {
    exists i, j :: StripsAt(s, r, i, j)
  }

  /** `Trim` removes only leading and trailing whitespace, and all of it. */
  lemma TrimStrips(s: string)
    ensures StripsTo(s, Trim(s))
  {
    var i := SkipLeading(s, 0);
    var j := SkipTrailing(s, i, |s|);
    var r := s[i..j];
    if i < j {
      assert r[0] == s[i] && r[|r| - 1] == s[j - 1];
    }
    assert StripsAt(s, r, i, j);
  }

  /** Any stripping of `s` is exactly what `Trim` returns. */
  lemma TrimCharacterized(s: string, r: string)
    requires StripsTo(s, r)
    ensures Trim(s) == r
  {
    var i, j :| StripsAt(s, r, i, j);
    var i' := SkipLeading(s, 0);
    var j' := SkipTrailing(s, i', |s|);
    if i < j {
      // `s[i]` and `s[j - 1]` are the outermost non-whitespace characters.
      assert s[i] == r[0] && s[j - 1] == r[|r| - 1];
      assert i' == i;
      assert j' == j;
    } else {
      // Everything is whitespace, so nothing is left.
      assert WhitespaceIn(s, 0, |s|);
      assert i' == |s|;
    }
  }

  /** At most one string is a stripping of `s`. */
  lemma StripsToUnique(s: string, r1: string, r2: string)
    requires StripsTo(s, r1) && StripsTo(s, r2)
    ensures r1 == r2
  {
    TrimCharacterized(s, r1);
    TrimCharacterized(s, r2);
  }

  /** Trimming twice is trimming once. */
  lemma TrimIdempotent(s: string)
    ensures Trim(Trim(s)) == Trim(s)
  {
    var r := Trim(s);
    TrimStrips(s);
    var i, j :| StripsAt(s, r, i, j);
    assert r[0..|r|] == r;
    assert StripsAt(r, r, 0, |r|);
    // Both `r` and `Trim(r)` are strippings of `r`.
    TrimStrips(r);
    StripsToUnique(r, Trim(r), r);
  }

  /** A value is blank exactly when trimming leaves nothing of it. */
  lemma BlankIffTrimEmpty(s: string)
    ensures Blank(s) <==> Trim(s) == []
  {
    var i := SkipLeading(s, 0);
    if Blank(s) {
      assert i == |s|;
    } else {
      var j := SkipTrailing(s, i, |s|);
      assert i < |s|;
      assert j > i;
    }
  }

  /** A trimmed value is blank only when it is empty. */
  lemma TrimmedBlankIsEmpty(s: string)
    ensures Blank(Trim(s)) <==> Trim(s) == []
  {
    TrimIdempotent(s);
    BlankIffTrimEmpty(Trim(s));
  }
}
