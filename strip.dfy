/** `str.strip()` with no argument, used on the description (app.py:26) and
    on the extracted text (app.py:56): it removes the whitespace at both
    ends, where whitespace is the `\s` class of module Lexical. */
module Trim {
  import opened Lexical

  /** Where the text before `j` ends once its trailing whitespace back to
      `i` is removed. */
  function CoreEnd(s: string, i: nat, j: nat): (e: nat)
    requires i <= j <= |s|
    ensures i <= e <= j && AllSpace(s, e, j)
    ensures e == i || !IsSpace(s[e - 1])
    decreases j
  {
    if j > i && IsSpace(s[j - 1]) then CoreEnd(s, i, j - 1) else j
  }

  /** `s.strip()`: the text between the leading and the trailing whitespace. */
  function Strip(s: string): string {
    var i := SpaceRun(s, 0);
    s[i..CoreEnd(s, i, |s|)]
  }

  /** The stripped text is what is left of `s` after removing whitespace at
      both ends, and it neither starts nor ends with whitespace. */
  lemma StripIsCore(s: string)
    ensures var r := Strip(s); var i := SpaceRun(s, 0);
      && i + |r| <= |s| && r == s[i..i + |r|]
      && AllSpace(s, 0, i) && AllSpace(s, i + |r|, |s|)
      && (r == [] || (!IsSpace(r[0]) && !IsSpace(r[|r| - 1])))
  {
    var i := SpaceRun(s, 0);
    var j := CoreEnd(s, i, |s|);
    var r := s[i..j];
    if r != [] {
      assert r[0] == s[i] && r[|r| - 1] == s[j - 1];
    }
  }

  /** The text strips to nothing exactly when it is all whitespace. */
  lemma StripEmptyIffBlank(s: string)
    ensures Strip(s) == [] <==> AllSpace(s, 0, |s|)
  {
    var i := SpaceRun(s, 0);
    var j := CoreEnd(s, i, |s|);
    if AllSpace(s, 0, |s|) {
      SpaceRunIs(s, 0, |s|);
    }
    if i == j {
      assert i == |s|;
    }
  }

  /** Stripping twice is stripping once. */
  lemma StripIdempotent(s: string)
    ensures Strip(Strip(s)) == Strip(s)
  {
    var r := Strip(s);
    StripIsCore(s);
    SpaceRunIs(r, 0, 0);
    assert CoreEnd(r, 0, |r|) == |r|;
    assert r[0..|r|] == r;
  }

  /** Stripping keeps only characters of the text, so it keeps a class all
      of the text's characters belong to. */
  lemma StripKeepsDescChars(s: string)
    requires AllDescChars(s, 0, |s|)
    ensures AllDescChars(Strip(s), 0, |Strip(s)|)
  {
    var i := SpaceRun(s, 0);
    var r := Strip(s);
    forall k | 0 <= k < |r|
      ensures IsDescChar(r[k])
    {
      assert r[k] == s[i + k];
    }
  }
}
