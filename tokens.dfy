/** The date token `\d{2,4}[-/]\d{2}[-/]\d{2,4}` and the amount token
    `[-+]?\d+(?:\.\d{1,2})?` of the transaction pattern (app.py:17), each
    stated as a decomposition of the text at given lengths, and the choice the
    backtracking engine makes among those decompositions. */
module Tokens {
  import opened Wrappers
  import opened Lexical

  /** A date at `p` whose first field has `a` digits and whose last has `c`. */
  predicate DateToken(s: string, p: nat, a: nat, c: nat) {
    && 2 <= a <= 4 && 2 <= c <= 4
    && p + a + 4 + c <= |s|
    && AllDigits(s, p, p + a)
    && IsSeparator(s[p + a])
    && AllDigits(s, p + a + 1, p + a + 3)
    && IsSeparator(s[p + a + 3])
    && AllDigits(s, p + a + 4, p + a + 4 + c)
  }

  /** An amount at `q` made of `sign` sign characters (0 or 1), `digits`
      integer digits and `frac` characters of fraction: 0, or the point
      followed by one digit (2) or by two digits (3). */
  predicate AmountToken(s: string, q: nat, sign: nat, digits: nat, frac: nat) {
    && sign <= 1 && digits >= 1 && (frac == 0 || frac == 2 || frac == 3)
    && q + sign + digits + frac <= |s|
    && (sign == 1 ==> IsSign(s[q]))
    && AllDigits(s, q + sign, q + sign + digits)
    && (frac > 0 ==>
          s[q + sign + digits] == '.' && AllDigits(s, q + sign + digits + 1, q + sign + digits + frac))
  }

  /** The date the pattern takes at `p` when whitespace must follow it: the
      greedy `\d{2,4}` fields can only end where a separator, or whitespace,
      comes next, so at most one date qualifies (`DateAtForced`). */
  function DateAt(s: string, p: nat): (r: Option<(nat, nat)>)
    requires p <= |s|
    ensures r.Some? ==> var (a, c) := r.value;
      DateToken(s, p, a, c) && p + a + 4 + c < |s| && IsSpace(s[p + a + 4 + c])
  {
    var a := DigitRun(s, p);
    if 2 <= a <= 4 && p + a + 4 <= |s| && IsSeparator(s[p + a])
       && IsDigit(s[p + a + 1]) && IsDigit(s[p + a + 2]) && IsSeparator(s[p + a + 3])
    then
      var c := DigitRun(s, p + a + 4);
      if 2 <= c <= 4 && p + a + 4 + c < |s| && IsSpace(s[p + a + 4 + c]) then Some((a, c))
      else None
    else None
  }

  /** Every date at `p` that whitespace follows is the one `DateAt` reads. */
  lemma DateAtForced(s: string, p: nat, a: nat, c: nat)
    requires DateToken(s, p, a, c) && p + a + 4 + c < |s| && IsSpace(s[p + a + 4 + c])
    ensures DateAt(s, p) == Some((a, c))
  {
    assert !IsDigit(s[p + a]);
    DigitRunIs(s, p, a);
    assert !IsDigit(s[p + a + 4 + c]);
    DigitRunIs(s, p + a + 4, c);
  }

  /** The amount the pattern takes at `q`: the sign when there is one, all the
      digits that follow, then the longest fraction. Nothing follows the
      amount in the pattern, so this first choice always stands; every other
      amount at `q` is a shorter one (`AmountAtLongest`). */
  function AmountAt(s: string, q: nat): (r: Option<(nat, nat, nat)>)
    requires q <= |s|
    ensures r.Some? ==> AmountToken(s, q, r.value.0, r.value.1, r.value.2)
  {
    var sign := if q < |s| && IsSign(s[q]) then 1 else 0;
    var digits := DigitRun(s, q + sign);
    if digits == 0 then None
    else
      var e := q + sign + digits;
      var frac :=
        if e + 1 < |s| && s[e] == '.' && IsDigit(s[e + 1]) then
          (if e + 2 < |s| && IsDigit(s[e + 2]) then 3 else 2)
        else 0;
      Some((sign, digits, frac))
  }

  /** Every amount at `q` has the sign `AmountAt` takes and is no longer than
      it: fewer integer digits, or as many and no more fraction. */
  lemma AmountAtLongest(s: string, q: nat, sign: nat, digits: nat, frac: nat)
    requires AmountToken(s, q, sign, digits, frac)
    ensures var r := AmountAt(s, q);
      && r.Some? && r.value.0 == sign && digits <= r.value.1
      && (digits == r.value.1 ==> frac <= r.value.2)
  {
    if sign == 0 {
      assert IsDigit(s[q]);
    }
    DigitRunBound(s, q + sign, digits);
    var e := q + sign + digits;
    if frac > 0 && digits == DigitRun(s, q + sign) {
      assert IsDigit(s[e + 1]);
      if frac == 3 {
        assert IsDigit(s[e + 2]);
      }
    }
  }
}
