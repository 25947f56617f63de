/** Character classes of the transaction pattern in app.py and the runs of
    characters the matching engine measures. */
module Lexical {

  /** `\d`, restricted to the ASCII digits. */
  predicate IsDigit(c: char) {
    '0' <= c <= '9'
  }

  /** `\s` on a str pattern, which is also what `str.strip()` removes:
      the characters for which Python's `str.isspace()` holds. */
  predicate IsSpace(c: char) {
    var n := c as int;
    n == 0x20 || 0x09 <= n <= 0x0D || 0x1C <= n <= 0x1F || n == 0x85 || n == 0xA0
    || n == 0x1680 || 0x2000 <= n <= 0x200A || n == 0x2028 || n == 0x2029
    || n == 0x202F || n == 0x205F || n == 0x3000
  }

  /** `[-/]`, between the fields of a date. */
  predicate IsSeparator(c: char) {
    c == '-' || c == '/'
  }

  /** `[-+]`, the optional sign of an amount. */
  predicate IsSign(c: char) {
    c == '-' || c == '+'
  }

  /** `[A-Za-z0-9\s,.-]`, a character of the description. */
  predicate IsDescChar(c: char) {
    ('A' <= c <= 'Z') || ('a' <= c <= 'z') || IsDigit(c) || IsSpace(c)
    || c == ',' || c == '.' || c == '-'
  }

  predicate AllDigits(s: string, i: nat, j: nat)
    requires i <= j <= |s|
  {
    forall k {:trigger IsDigit(s[k])} :: i <= k < j ==> IsDigit(s[k])
  }

  predicate AllSpace(s: string, i: nat, j: nat)
    requires i <= j <= |s|
  {
    forall k {:trigger IsSpace(s[k])} :: i <= k < j ==> IsSpace(s[k])
  }

  predicate AllDescChars(s: string, i: nat, j: nat)
    requires i <= j <= |s|
  {
    forall k {:trigger IsDescChar(s[k])} :: i <= k < j ==> IsDescChar(s[k])
  }

  /** The length of the longest run of digits that starts at `i`. */
  function DigitRun(s: string, i: nat): (n: nat)
    requires i <= |s|
    ensures i + n <= |s| && AllDigits(s, i, i + n)
    ensures i + n == |s| || !IsDigit(s[i + n])
    decreases |s| - i
  {
    if i < |s| && IsDigit(s[i]) then 1 + DigitRun(s, i + 1) else 0
  }

  /** The length of the longest run of whitespace that starts at `i`. */
  function SpaceRun(s: string, i: nat): (n: nat)
    requires i <= |s|
    ensures i + n <= |s| && AllSpace(s, i, i + n)
    ensures i + n == |s| || !IsSpace(s[i + n])
    decreases |s| - i
  {
    if i < |s| && IsSpace(s[i]) then 1 + SpaceRun(s, i + 1) else 0
  }

  /** A run of whitespace followed by something else is the longest run. */
  lemma {:induction false} SpaceRunIs(s: string, i: nat, n: nat)
    requires i + n <= |s| && AllSpace(s, i, i + n)
    requires i + n == |s| || !IsSpace(s[i + n])
    ensures SpaceRun(s, i) == n
    decreases n
  {
    if n > 0 {
      SpaceRunIs(s, i + 1, n - 1);
    }
  }

  /** Every run of whitespace is at most the longest one. */
  lemma {:induction false} SpaceRunBound(s: string, i: nat, n: nat)
    requires i + n <= |s| && AllSpace(s, i, i + n)
    ensures n <= SpaceRun(s, i)
    decreases n
  {
    if n > 0 {
      SpaceRunBound(s, i + 1, n - 1);
    }
  }

  /** A run of digits followed by something else is the longest run. */
  lemma {:induction false} DigitRunIs(s: string, i: nat, n: nat)
    requires i + n <= |s| && AllDigits(s, i, i + n)
    requires i + n == |s| || !IsDigit(s[i + n])
    ensures DigitRun(s, i) == n
    decreases n
  {
    if n > 0 {
      DigitRunIs(s, i + 1, n - 1);
    }
  }

  /** Every run of digits is at most the longest one. */
  lemma {:induction false} DigitRunBound(s: string, i: nat, n: nat)
    requires i + n <= |s| && AllDigits(s, i, i + n)
    ensures n <= DigitRun(s, i)
    decreases n
  {
    if n > 0 {
      DigitRunBound(s, i + 1, n - 1);
    }
  }
}
