/** The value of an amount token, `float(amount)` at app.py:21. The token
    is `[-+]?\d+(?:\.\d{1,2})?`, so its value is an exact number of
    hundredths; the model keeps that integer instead of a binary float. */
module Amount {
  import opened Wrappers
  import opened Lexical
  import opened Tokens

  /** The whole of `t` is one amount token: the longest amount at its start
      covers it. */
  predicate WholeAmount(t: string) {
    var r := AmountAt(t, 0);
    r.Some? && r.value.0 + r.value.1 + r.value.2 == |t|
  }

  /** Every amount token cut out of a text, at the lengths of any
      decomposition, is a whole amount read with those same lengths. */
  lemma WholeAmountOf(s: string, q: nat, sign: nat, digits: nat, frac: nat)
    requires AmountToken(s, q, sign, digits, frac)
    ensures WholeAmount(s[q..q + sign + digits + frac])
    ensures AmountAt(s[q..q + sign + digits + frac], 0) == Some((sign, digits, frac))
  {
    var t := s[q..q + sign + digits + frac];
    assert AmountToken(t, 0, sign, digits, frac) by {
      assert sign == 1 ==> t[0] == s[q];
      assert forall k :: sign <= k < sign + digits ==> t[k] == s[q + k];
      if frac > 0 {
        assert t[sign + digits] == s[q + sign + digits];
        assert forall k :: sign + digits + 1 <= k < sign + digits + frac ==> t[k] == s[q + k];
      }
    }
    AmountAtLongest(t, 0, sign, digits, frac);
    var r := AmountAt(t, 0).value;
    if frac > 0 {
      assert !IsDigit(t[sign + digits]);
      DigitRunIs(t, sign, digits);
    } else {
      DigitRunIs(t, sign, digits);
    }
    assert r.1 == digits;
  }

  /** The value of one ASCII digit. */
  function DigitValue(c: char): nat
    requires IsDigit(c)
  {
    (c as int) - ('0' as int)
  }

  /** The ASCII digit of a value below ten. */
  function DigitChar(n: nat): (c: char)
    requires n < 10
    ensures IsDigit(c) && DigitValue(c) == n
  {
    ('0' as int + n) as char
  }

  /** The number a string of decimal digits writes, most significant first. */
  function DigitsValue(d: string): nat
    requires AllDigits(d, 0, |d|)
    decreases |d|
  {
    if d == [] then 0
    else
      assert AllDigits(d[..|d| - 1], 0, |d| - 1) by {
        assert forall k :: 0 <= k < |d| - 1 ==> d[..|d| - 1][k] == d[k];
      }
      10 * DigitsValue(d[..|d| - 1]) + DigitValue(d[|d| - 1])
  }

  /** The decimal digits of `n` without leading zeros, the inverse of
      `DigitsValue`. */
  function NatToDigits(n: nat): (d: string)
    ensures 1 <= |d| && AllDigits(d, 0, |d|) && DigitsValue(d) == n
    decreases n
  {
    if n < 10 then [DigitChar(n)]
    else
      var front := NatToDigits(n / 10);
      var d := front + [DigitChar(n % 10)];
      assert d[..|d| - 1] == front;
      d
  }

  /** `float(amount)` for a whole amount token, in hundredths: the sign, the
      integer digits, and the one or two digits after the point. */
  function AmountValue(t: string): int
    requires WholeAmount(t)
  {
    var (sign, digits, frac) := AmountAt(t, 0).value;
    var whole := DigitsValue(t[sign..sign + digits]);
    var cents :=
      if frac == 0 then 0
      else if frac == 2 then 10 * DigitValue(t[sign + digits + 1])
      else 10 * DigitValue(t[sign + digits + 1]) + DigitValue(t[sign + digits + 2]);
    var magnitude := 100 * whole + cents;
    if sign == 1 && t[0] == '-' then -magnitude else magnitude
  }

  /** Ten to the power `k`. */
  function Pow10(k: nat): nat {
    if k == 0 then 1 else 10 * Pow10(k - 1)
  }

  lemma AllDigitsConcat(a: string, b: string)
    requires AllDigits(a, 0, |a|) && AllDigits(b, 0, |b|)
    ensures AllDigits(a + b, 0, |a + b|)
  {
    var ab := a + b;
    forall k | 0 <= k < |ab|
      ensures IsDigit(ab[k])
    {
      if k < |a| {
        assert ab[k] == a[k];
      } else {
        assert ab[k] == b[k - |a|];
      }
    }
  }

  /** The value of digits written one after the other: the first string's
      value shifted left by the length of the second, plus the second's. */
  lemma {:induction false} DigitsValueConcat(a: string, b: string)
    requires AllDigits(a, 0, |a|) && AllDigits(b, 0, |b|)
    ensures AllDigits(a + b, 0, |a + b|)
    ensures DigitsValue(a + b) == DigitsValue(a) * Pow10(|b|) + DigitsValue(b)
    decreases |b|
  {
    AllDigitsConcat(a, b);
    if b == [] {
      assert a + b == a;
    } else {
      var front := b[..|b| - 1];
      assert AllDigits(front, 0, |front|) by {
        assert forall k :: 0 <= k < |front| ==> front[k] == b[k];
      }
      DigitsValueConcat(a, front);
      ConcatLast(a, b);
      ShiftStep(DigitsValue(a), Pow10(|front|), DigitsValue(front), DigitValue(b[|b| - 1]));
    }
  }

  /** Removing the last character of `a + b`, for a non-empty `b`. */
  lemma ConcatLast(a: string, b: string)
    requires b != [] && AllDigits(a, 0, |a|) && AllDigits(b, 0, |b|) && AllDigits(a + b, 0, |a + b|)
    ensures var front := b[..|b| - 1];
      && AllDigits(front, 0, |front|) && AllDigits(a + front, 0, |a + front|)
      && DigitsValue(a + b) == 10 * DigitsValue(a + front) + DigitValue(b[|b| - 1])
      && DigitsValue(b) == 10 * DigitsValue(front) + DigitValue(b[|b| - 1])
      && Pow10(|b|) == 10 * Pow10(|front|)
  {
    var ab, front := a + b, b[..|b| - 1];
    assert ab[..|ab| - 1] == a + front;
    assert ab[|ab| - 1] == b[|b| - 1];
    assert forall k :: 0 <= k < |front| ==> front[k] == b[k];
    AllDigitsConcat(a, front);
  }

  lemma ShiftStep(va: int, p: int, vf: int, x: int)
    ensures 10 * (va * p + vf) + x == va * (10 * p) + (10 * vf + x)
  {
  }

  /** The number of digits after the point of a whole amount token. */
  function Decimals(t: string): nat
    requires WholeAmount(t)
  {
    var frac := AmountAt(t, 0).value.2;
    if frac == 0 then 0 else frac - 1
  }

  /** The digits of a whole amount token, without its sign and its point. */
  function Unpointed(t: string): (u: string)
    requires WholeAmount(t)
    ensures AllDigits(u, 0, |u|)
  {
    var (sign, digits, frac) := AmountAt(t, 0).value;
    var e := sign + digits;
    IntegerDigits(t);
    if frac == 0 then t[sign..e]
    else
      FractionValue(t, e, frac);
      AllDigitsConcat(t[sign..e], t[e + 1..]);
      t[sign..e] + t[e + 1..]
  }

  /** The integer digits of a whole amount token are digits. */
  lemma IntegerDigits(t: string)
    requires WholeAmount(t)
    ensures var (sign, digits, frac) := AmountAt(t, 0).value;
      var w := t[sign..sign + digits]; AllDigits(w, 0, |w|)
  {
    var (sign, digits, frac) := AmountAt(t, 0).value;
    var w := t[sign..sign + digits];
    assert forall k :: 0 <= k < |w| ==> w[k] == t[sign + k];
  }

  /** A whole amount token that starts with a minus sign has it as its sign. */
  lemma MinusIsSign(t: string)
    requires WholeAmount(t) && t[0] == '-'
    ensures AmountAt(t, 0).value.0 == 1
  {
  }

  /** The exact decimal value of every whole amount token, in hundredths:
      the number its digits write once the sign and the point are removed,
      scaled by the missing decimals (two, one or none), and negated exactly
      when the token starts with a minus sign. */
  lemma AmountValueExact(t: string)
    requires WholeAmount(t)
    ensures Decimals(t) <= 2
    ensures var magnitude := DigitsValue(Unpointed(t)) * Pow10(2 - Decimals(t));
      AmountValue(t) == if t[0] == '-' then -magnitude else magnitude
  {
    if t[0] == '-' {
      MinusIsSign(t);
    }
    if AmountAt(t, 0).value.2 == 0 {
      WholeValueExact(t);
    } else {
      FractionValueExact(t);
    }
  }

  /** The magnitude of a token without a fraction is its digits in hundreds. */
  lemma WholeValueExact(t: string)
    requires WholeAmount(t) && AmountAt(t, 0).value.2 == 0
    ensures Decimals(t) == 0
    ensures var (sign, digits, frac) := AmountAt(t, 0).value;
      var magnitude := DigitsValue(Unpointed(t)) * Pow10(2);
      AmountValue(t) == if sign == 1 && t[0] == '-' then -magnitude else magnitude
  {
    assert Pow10(2) == 100 by {
      assert Pow10(1) == 10;
    }
  }

  /** The magnitude of a token with a fraction is its digits with the point
      removed, scaled by the decimals the fraction lacks. */
  lemma FractionValueExact(t: string)
    requires WholeAmount(t) && AmountAt(t, 0).value.2 > 0
    ensures 1 <= Decimals(t) <= 2
    ensures var (sign, digits, frac) := AmountAt(t, 0).value;
      var magnitude := DigitsValue(Unpointed(t)) * Pow10(2 - Decimals(t));
      AmountValue(t) == if sign == 1 && t[0] == '-' then -magnitude else magnitude
  {
    var (sign, digits, frac) := AmountAt(t, 0).value;
    var e := sign + digits;
    IntegerDigits(t);
    FractionDigitsValue(t, sign, e, frac, t[sign..e]);
    assert Unpointed(t) == t[sign..e] + t[e + 1..];
    assert Pow10(2 - Decimals(t)) == Pow10(3 - frac);
  }

  /** The digits of a token with a fraction, with the point removed. */
  lemma FractionDigitsValue(t: string, sign: nat, e: nat, frac: nat, w: string)
    requires sign <= e && (frac == 2 || frac == 3) && e + frac == |t| && t[e] == '.' && AllDigits(t, e + 1, |t|)
    requires w == t[sign..e] && AllDigits(w, 0, |w|)
    ensures var u := w + t[e + 1..];
      && AllDigits(u, 0, |u|)
      && DigitsValue(u) * Pow10(3 - frac) == 100 * DigitsValue(w) + 10 * DigitValue(t[e + 1])
                                             + (if frac == 3 then DigitValue(t[e + 2]) else 0)
  {
    var f := t[e + 1..];
    FractionValue(t, e, frac);
    DigitsValueConcat(w, f);
    assert Pow10(0) == 1 && Pow10(1) == 10 && Pow10(2) == 100;
  }

  /** The one or two digits after the point, read as a number. */
  lemma FractionValue(t: string, e: nat, frac: nat)
    requires (frac == 2 || frac == 3) && e + frac == |t| && t[e] == '.' && AllDigits(t, e + 1, |t|)
    ensures var f := t[e + 1..];
      && AllDigits(f, 0, |f|)
      && DigitsValue(f) == if frac == 2 then DigitValue(t[e + 1]) else 10 * DigitValue(t[e + 1]) + DigitValue(t[e + 2])
  {
    var f := t[e + 1..];
    assert forall k :: 0 <= k < |f| ==> f[k] == t[e + 1 + k];
    if frac == 2 {
      assert f[..0] == [];
    } else {
      assert f[..1][..0] == [];
      assert DigitsValue(f[..1]) == DigitValue(f[0]);
      assert f[..|f| - 1] == f[..1];
    }
  }

  /** The canonical token of a number of hundredths: a minus sign when it is
      negative, the integer digits, the point and two digits. */
  function FormatAmount(v: int): string {
    var m := if v < 0 then -v else v;
    (if v < 0 then "-" else "") + NatToDigits(m / 100) + ['.', DigitChar(m % 100 / 10), DigitChar(m % 10)]
  }

  lemma DigitsValueSlice(t: string, i: nat, d: string)
    requires i + |d| <= |t| && t[i..i + |d|] == d && AllDigits(d, 0, |d|)
    ensures AllDigits(t, i, i + |d|)
  {
    assert forall k :: i <= k < i + |d| ==> t[k] == d[k - i];
  }

  /** The pieces of a token written as an optional minus sign, digits, the
      point and two digits. */
  lemma CanonicalPieces(minus: bool, d: string, x: char, y: char)
    requires 1 <= |d| && AllDigits(d, 0, |d|) && IsDigit(x) && IsDigit(y)
    ensures var t := (if minus then "-" else "") + d + ['.', x, y];
      var sign: nat := if minus then 1 else 0;
      && |t| == sign + |d| + 3 && AmountToken(t, 0, sign, |d|, 3)
      && t[sign..sign + |d|] == d && t[sign + |d| + 1] == x && t[sign + |d| + 2] == y
      && (minus ==> t[0] == '-')
  {
    var t := (if minus then "-" else "") + d + ['.', x, y];
    var sign: nat := if minus then 1 else 0;
    assert t[sign..sign + |d|] == d;
    DigitsValueSlice(t, sign, d);
    assert t[sign + |d|] == '.';
    assert AllDigits(t, sign + |d| + 1, sign + |d| + 3) by {
      forall k | sign + |d| + 1 <= k < sign + |d| + 3
        ensures IsDigit(t[k])
      {
        assert t[k] == x || t[k] == y;
      }
    }
  }

  /** Such a token is read with all its digits and both decimals. */
  lemma CanonicalAmountAt(minus: bool, d: string, x: char, y: char)
    requires 1 <= |d| && AllDigits(d, 0, |d|) && IsDigit(x) && IsDigit(y)
    ensures var t := (if minus then "-" else "") + d + ['.', x, y];
      var r := AmountAt(t, 0);
      r.Some? && r.value.0 == (if minus then 1 else 0) && r.value.1 == |d| && r.value.2 == 3
  {
    var t := (if minus then "-" else "") + d + ['.', x, y];
    var sign: nat := if minus then 1 else 0;
    CanonicalPieces(minus, d, x, y);
    AmountAtLongest(t, 0, sign, |d|, 3);
    DigitRunIs(t, sign, |d|);
  }

  /** Such a token is a whole amount and reads as the number its digits
      write. */
  lemma ReadCanonical(minus: bool, d: string, x: char, y: char)
    requires 1 <= |d| && AllDigits(d, 0, |d|) && IsDigit(x) && IsDigit(y)
    ensures var t := (if minus then "-" else "") + d + ['.', x, y];
      var magnitude := 100 * DigitsValue(d) + 10 * DigitValue(x) + DigitValue(y);
      && WholeAmount(t)
      && AmountValue(t) == if minus then -magnitude else magnitude
  {
    CanonicalPieces(minus, d, x, y);
    CanonicalAmountAt(minus, d, x, y);
  }

  /** A number of hundredths is its whole part and its two decimal digits. */
  lemma SplitHundredths(m: nat)
    ensures 100 * (m / 100) + 10 * (m % 100 / 10) + m % 10 == m
  {
    var q, r := m / 100, m % 100;
    assert m == 100 * q + r;
    assert r == 10 * (r / 10) + r % 10;
    assert m == 10 * (10 * q + r / 10) + r % 10;
    assert m % 10 == r % 10;
  }

  /** Reading back the canonical token of a value gives the value: every
      number of hundredths is the value of some amount token. */
  lemma AmountRoundTrip(v: int)
    ensures WholeAmount(FormatAmount(v))
    ensures AmountValue(FormatAmount(v)) == v
  {
    var m := if v < 0 then -v else v;
    var d, x, y := NatToDigits(m / 100), DigitChar(m % 100 / 10), DigitChar(m % 10);
    ReadCanonical(v < 0, d, x, y);
    SplitHundredths(m);
    assert FormatAmount(v) == (if v < 0 then "-" else "") + d + ['.', x, y];
  }

  /** Only a token written with a minus sign has a negative value, and a
      token written with a minus sign is never positive. */
  lemma AmountSign(t: string)
    requires WholeAmount(t)
    ensures AmountValue(t) < 0 ==> t[0] == '-'
    ensures t[0] == '-' ==> AmountValue(t) <= 0
  {
    var (sign, digits, frac) := AmountAt(t, 0).value;
    if t[0] == '-' {
      assert IsSign(t[0]);
      assert sign == 1;
    }
  }
}
