/** Whitespace trimming as strings.TrimSpace performs it on ASCII text. */
module Text {

  /** The ASCII whitespace set of strings.TrimSpace: space, tab, line feed,
      carriage return, vertical tab and form feed. */
  predicate IsSpace(c: char) {
    c == ' ' || c == '\t' || c == '\n' || c == '\r' || c == '\U{0B}' || c == '\U{0C}'
  }

  ghost predicate AllSpace(s: string) {
    forall k :: 0 <= k < |s| ==> IsSpace(s[k])
  }

  /** Neither the first nor the last character is whitespace. */
  predicate Unpadded(s: string) {
    s == [] || (!IsSpace(s[0]) && !IsSpace(s[|s| - 1]))
  }

  /** r is s[i..j], and only whitespace lies outside that slice. */
  ghost predicate TrimAt(r: string, s: string, i: int, j: int) {
    0 <= i <= j <= |s| && s[i..j] == r && AllSpace(s[..i]) && AllSpace(s[j..]) && Unpadded(r)
  }

  /** r is what remains of s once every leading and every trailing
      whitespace character is removed: a contiguous slice of s, with only
      whitespace cut away on either side, that neither starts nor ends
      with whitespace. */
  ghost predicate IsTrimOf(r: string, s: string) {
    exists i, j :: TrimAt(r, s, i, j)
  }

  /** The first position at or after i that holds no whitespace, or |s|. */
  function SkipLeading(s: string, i: nat): (k: nat)
    requires i <= |s|
    ensures i <= k <= |s|
    decreases |s| - i
  {
    if i < |s| && IsSpace(s[i]) then SkipLeading(s, i + 1) else i
  }

  lemma {:induction false} SkipLeadingSpec(s: string, i: nat)
    requires i <= |s|
    ensures forall x :: i <= x < SkipLeading(s, i) ==> IsSpace(s[x])
    ensures SkipLeading(s, i) == |s| || !IsSpace(s[SkipLeading(s, i)])
    decreases |s| - i
  {
    if i < |s| && IsSpace(s[i]) {
      SkipLeadingSpec(s, i + 1);
    }
  }

  /** Scanning back from j but not below lo, the end of the last stretch
      that holds no whitespace, or lo. */
  function SkipTrailing(s: string, lo: nat, j: nat): (k: nat)
    requires lo <= j <= |s|
    ensures lo <= k <= j
    decreases j
  {
    if lo < j && IsSpace(s[j - 1]) then SkipTrailing(s, lo, j - 1) else j
  }

  lemma {:induction false} SkipTrailingSpec(s: string, lo: nat, j: nat)
    requires lo <= j <= |s|
    ensures forall x :: SkipTrailing(s, lo, j) <= x < j ==> IsSpace(s[x])
    ensures SkipTrailing(s, lo, j) == lo || !IsSpace(s[SkipTrailing(s, lo, j) - 1])
    decreases j
  {
    if lo < j && IsSpace(s[j - 1]) {
      SkipTrailingSpec(s, lo, j - 1);
    }
  }

  /** strings.TrimSpace, restricted to the ASCII whitespace set: scan
      forward past the leading whitespace, back past the trailing
      whitespace, and keep what lies between. */
  function TrimSpace(s: string): string {
    var i := SkipLeading(s, 0);
    s[i..SkipTrailing(s, i, |s|)]
  }

  /** TrimSpace removes exactly the surrounding whitespace. */
  lemma TrimSpaceIsTrim(s: string)
    ensures IsTrimOf(TrimSpace(s), s)
  {
    var i := SkipLeading(s, 0);
    var j := SkipTrailing(s, i, |s|);
    SkipLeadingSpec(s, 0);
    SkipTrailingSpec(s, i, |s|);
    assert i < j ==> s[i..j][0] == s[i] && s[i..j][j - i - 1] == s[j - 1];
    assert TrimAt(s[i..j], s, i, j);
  }

  /** A non-empty trim starts at the first and ends after the last
      non-whitespace character of s; an empty one leaves only whitespace. */
  lemma TrimBounds(r: string, s: string, i: int, j: int)
    requires TrimAt(r, s, i, j)
    ensures r == [] ==> AllSpace(s)
    ensures r != [] ==> !IsSpace(s[i]) && !IsSpace(s[j - 1])
    ensures forall k :: 0 <= k < |s| && !IsSpace(s[k]) ==> i <= k < j
  {
    if r != [] {
      assert s[i] == r[0] && s[j - 1] == r[|r| - 1];
    }
  }

  /** There is only one way to trim a string, so IsTrimOf determines TrimSpace. */
  lemma TrimIsUnique(s: string, r1: string, r2: string)
    requires IsTrimOf(r1, s) && IsTrimOf(r2, s)
    ensures r1 == r2
  {
    var i1, j1 :| TrimAt(r1, s, i1, j1);
    var i2, j2 :| TrimAt(r2, s, i2, j2);
    TrimBounds(r1, s, i1, j1);
    TrimBounds(r2, s, i2, j2);
    if r1 != [] && r2 != [] {
      assert i1 == i2 && j1 == j2;
    }
  }

  /** A string with no surrounding whitespace is left as it is. */
  lemma TrimSpaceUnpadded(s: string)
    requires Unpadded(s)
    ensures TrimSpace(s) == s
  {
    assert TrimAt(s, s, 0, |s|);
    TrimSpaceIsTrim(s);
    TrimIsUnique(s, s, TrimSpace(s));
  }

  /** Trimming twice is trimming once. */
  lemma TrimSpaceIdempotent(s: string)
    ensures TrimSpace(TrimSpace(s)) == TrimSpace(s)
  {
    TrimSpaceIsTrim(s);
    TrimSpaceUnpadded(TrimSpace(s));
  }

  /** A string made of whitespace only trims to the empty string. */
  lemma TrimSpaceAllSpace(s: string)
    requires AllSpace(s)
    ensures TrimSpace(s) == ""
  {
    assert TrimAt("", s, 0, 0);
    TrimSpaceIsTrim(s);
    TrimIsUnique(s, "", TrimSpace(s));
  }
}
