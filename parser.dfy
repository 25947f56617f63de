/** `parse_transactions` (app.py:14-31): the groups `re.findall` returns for
    the transaction pattern, and one record per match with the amount, the
    credit and the debit derived from it and the stripped description. */
module Parser {
  import opened Wrappers
  import opened Lexical
  import opened Tokens
  import opened Pattern
  import opened Engine
  import opened Amount
  import opened Trim

  /** The three captured groups of one match: date, description, amount. */
  datatype Groups = Groups(date: string, desc: string, amount: string)

  /** The groups of the match `m` in `s`. */
  function GroupsOf(s: string, m: Span): (g: Groups)
    requires IsMatch(s, m)
    ensures GroupsShaped(g)
  {
    GroupsOfShaped(s, m);
    Groups(s[m.start..m.DateEnd()], s[m.DescStart()..m.DescEnd()], s[m.AmountStart()..m.End()])
  }

  /** A date whose first field has `a` digits. */
  predicate DateFields(d: string, a: nat) {
    a + 6 <= |d| <= a + 8 && DateToken(d, 0, a, |d| - a - 4)
  }

  /** `\d{2,4}[-/]\d{2}[-/]\d{2,4}` and nothing else. */
  predicate DateShaped(d: string) {
    DateFields(d, 2) || DateFields(d, 3) || DateFields(d, 4)
  }

  /** What every match's groups look like: a date, a non-empty description
      of class characters, and a whole amount token. */
  predicate GroupsShaped(g: Groups) {
    && DateShaped(g.date)
    && 1 <= |g.desc| && AllDescChars(g.desc, 0, |g.desc|)
    && WholeAmount(g.amount)
  }

  /** The date group of a match is a date and nothing else. */
  lemma DateGroupShaped(s: string, m: Span)
    requires IsMatch(s, m)
    ensures DateFields(s[m.start..m.DateEnd()], m.firstLen)
  {
    var d := s[m.start..m.DateEnd()];
    var a := m.firstLen;
    assert DateToken(s, m.start, a, m.lastLen);
    forall k | 0 <= k < |d|
      ensures d[k] == s[m.start + k]
    {
    }
    assert AllDigits(d, 0, a);
    assert AllDigits(d, a + 1, a + 3);
    assert AllDigits(d, a + 4, a + 4 + m.lastLen);
  }

  /** The date group of a match has the date shape. */
  lemma DateGroupIsDate(s: string, m: Span)
    requires IsMatch(s, m)
    ensures DateShaped(s[m.start..m.DateEnd()])
  {
    DateGroupShaped(s, m);
    assert 2 <= m.firstLen <= 4;
  }

  /** The description group of a match is made of class characters. */
  lemma DescGroupShaped(s: string, m: Span)
    requires IsMatch(s, m)
    ensures var d := s[m.DescStart()..m.DescEnd()]; 1 <= |d| && AllDescChars(d, 0, |d|)
  {
    var d := s[m.DescStart()..m.DescEnd()];
    forall k | 0 <= k < |d|
      ensures IsDescChar(d[k])
    {
      assert d[k] == s[m.DescStart() + k];
    }
  }

  /** The groups of every match have the shape of the pattern's groups. */
  lemma GroupsOfShaped(s: string, m: Span)
    requires IsMatch(s, m)
    ensures GroupsShaped(Groups(s[m.start..m.DateEnd()], s[m.DescStart()..m.DescEnd()], s[m.AmountStart()..m.End()]))
  {
    DateGroupIsDate(s, m);
    DescGroupShaped(s, m);
    WholeAmountOf(s, m.AmountStart(), m.signLen, m.intLen, m.fracLen);
  }

  /** The groups of a list of matches. */
  function GroupsOfAll(s: string, ms: seq<Span>): (r: seq<Groups>)
    requires forall i :: 0 <= i < |ms| ==> IsMatch(s, ms[i])
    ensures |r| == |ms|
    ensures forall i :: 0 <= i < |r| ==> GroupsShaped(r[i])
  {
    seq(|ms|, i requires 0 <= i < |ms| => GroupsOf(s, ms[i]))
  }

  /** `re.findall(pattern, text)`: the groups of every match, in the order
      the scan finds them. */
  function FindAll(text: string): (r: seq<Groups>)
    ensures forall i :: 0 <= i < |r| ==> GroupsShaped(r[i])
  {
    var ms := Matches(text, 0);
    MatchListOrdered(text, 0, ms);
    GroupsOfAll(text, ms)
  }

  /** The scan yields one group per match of the declarative meaning of
      `findall`, in order; those matches lie left to right without overlap. */
  lemma FindAllFollowsMatches(text: string, ms: seq<Span>)
    requires IsMatchList(text, 0, ms)
    ensures forall i :: 0 <= i < |ms| ==> IsMatch(text, ms[i])
    ensures forall i :: 0 <= i < |ms| - 1 ==> ms[i].End() <= ms[i + 1].start
    ensures |FindAll(text)| == |ms|
    ensures forall i :: 0 <= i < |ms| ==> FindAll(text)[i] == GroupsOf(text, ms[i])
  {
    MatchListOrdered(text, 0, ms);
    MatchListUnique(text, 0, ms, Matches(text, 0));
  }

  /** The scan is empty exactly when the pattern matches nowhere. */
  lemma FindAllEmptyIffNoMatch(text: string)
    ensures FindAll(text) == [] <==> forall n :: !IsMatch(text, n)
  {
    NoMatchIffEmpty(text, Matches(text, 0));
  }

  /** One record of the result: the amount, credit and debit are in
      hundredths. */
  datatype Transaction = Transaction(date: string, description: string, amount: int, credit: int, debit: int)

  /** The credit and the debit of an amount: a positive amount is all
      credit, a negative one all debit. */
  function CreditDebit(amount: int): (r: (int, int))
    ensures r.0 >= 0 && r.1 >= 0 && r.0 - r.1 == amount
    ensures r.0 == 0 || r.1 == 0
  {
    (if amount > 0 then amount else 0, if amount < 0 then -amount else 0)
  }

  /** The credit and the debit are both zero exactly for a zero amount, and
      they are the only split of the amount into two non-negative parts of
      which one is zero. */
  lemma CreditDebitUnique(amount: int, credit: int, debit: int)
    requires credit >= 0 && debit >= 0 && credit - debit == amount && (credit == 0 || debit == 0)
    ensures CreditDebit(amount) == (credit, debit)
    ensures (credit == 0 && debit == 0) <==> amount == 0
  {
  }

  /** The record built from one match's groups. */
  function RecordOf(g: Groups): Transaction
    requires WholeAmount(g.amount)
  {
    var amount := AmountValue(g.amount);
    var (credit, debit) := CreditDebit(amount);
    Transaction(g.date, Strip(g.desc), amount, credit, debit)
  }

  /** What `parse_transactions` returns: one record per group, in order. */
  function Transactions(text: string): seq<Transaction> {
    Records(FindAll(text))
  }

  /** One record per group, in order. */
  function Records(gs: seq<Groups>): seq<Transaction>
    requires forall i :: 0 <= i < |gs| ==> GroupsShaped(gs[i])
  {
    seq(|gs|, i requires 0 <= i < |gs| => assert GroupsShaped(gs[i]); RecordOf(gs[i]))
  }

  /** `parse_transactions(text)`: an empty list, then one record appended
      for each match. */
  method ParseTransactions(text: string) returns (transactions: seq<Transaction>)
    ensures transactions == Transactions(text)
  {
    transactions := [];
    var matches := FindAll(text);
    for i := 0 to |matches|
      invariant |transactions| == i
      invariant forall k :: 0 <= k < i ==> transactions[k] == RecordOf(matches[k])
    {
      var date, desc, amountText := matches[i].date, matches[i].desc, matches[i].amount;
      var amount := AmountValue(amountText);
      var (credit, debit) := CreditDebit(amount);
      transactions := transactions + [Transaction(date, Strip(desc), amount, credit, debit)];
    }
  }

  /** What every record looks like: credit and debit split the amount, the
      date has the date shape, and the description is stripped and made of
      class characters only. */
  predicate WellFormed(t: Transaction) {
    && t.credit >= 0 && t.debit >= 0 && t.credit - t.debit == t.amount
    && (t.credit == 0 || t.debit == 0)
    && DateShaped(t.date)
    && AllDescChars(t.description, 0, |t.description|)
    && (t.description == [] || (!IsSpace(t.description[0]) && !IsSpace(t.description[|t.description| - 1])))
  }

  /** Every record is well formed. */
  lemma TransactionsWellFormed(text: string)
    ensures forall i :: 0 <= i < |Transactions(text)| ==> WellFormed(Transactions(text)[i])
  {
    var gs := FindAll(text);
    forall i | 0 <= i < |Transactions(text)|
      ensures WellFormed(Transactions(text)[i])
    {
      StripIsCore(gs[i].desc);
      StripKeepsDescChars(gs[i].desc);
    }
  }

  /** There is one record per match of the declarative meaning of `findall`,
      in order: its date and the description before stripping are the
      text of the match's groups, and its amount is the value of the
      amount group. */
  lemma TransactionsFollowMatches(text: string, ms: seq<Span>)
    requires IsMatchList(text, 0, ms)
    ensures |Transactions(text)| == |ms|
    ensures forall i :: 0 <= i < |ms| ==> IsMatch(text, ms[i])
    ensures forall i :: 0 <= i < |ms| ==>
      var g := GroupsOf(text, ms[i]); var t := Transactions(text)[i];
      && t.date == g.date && t.description == Strip(g.desc) && t.amount == AmountValue(g.amount)
  {
    FindAllFollowsMatches(text, ms);
    var gs := FindAll(text);
    forall i | 0 <= i < |ms|
      ensures Transactions(text)[i] == RecordOf(GroupsOf(text, ms[i]))
    {
      assert gs[i] == GroupsOf(text, ms[i]);
    }
  }

  /** A text without any match yields no records, and no error. */
  lemma NoMatchNoTransactions(text: string)
    ensures Transactions(text) == [] <==> forall n :: !IsMatch(text, n)
  {
    FindAllEmptyIffNoMatch(text);
  }

  /** Every match starts with a digit, which is not whitespace. */
  lemma MatchStartsWithDigit(s: string, n: Span)
    ensures IsMatch(s, n) ==> n.start < |s| && IsDigit(s[n.start]) && !IsSpace(s[n.start])
  {
    if IsMatch(s, n) {
      assert DateToken(s, n.start, n.firstLen, n.lastLen);
    }
  }

  /** Whitespace alone never matches, so it yields no records. */
  lemma BlankHasNoTransactions(text: string)
    requires AllSpace(text, 0, |text|)
    ensures Transactions(text) == []
  {
    forall n
      ensures !IsMatch(text, n)
    {
      MatchStartsWithDigit(text, n);
    }
    NoMatchNoTransactions(text);
  }

  /** The amount of a match ends at the first character after its digits
      that is neither a digit nor a point: there is no digit grouping. */
  lemma AmountStopsAtNonDigit(s: string, pos: nat, m: Span, k: nat)
    requires IsFirstMatch(s, pos, m)
    requires 1 <= k && m.AmountStart() + k < |s| && AllDigits(s, m.AmountStart(), m.AmountStart() + k)
    requires !IsDigit(s[m.AmountStart() + k]) && s[m.AmountStart() + k] != '.'
    ensures GroupsOf(s, m).amount == s[m.AmountStart()..m.AmountStart() + k]
    ensures AmountValue(GroupsOf(s, m).amount) == 100 * DigitsValue(s[m.AmountStart()..m.AmountStart() + k])
  {
    var q := m.AmountStart();
    FirstMatchAmountLongest(s, pos, m);
    DigitsThenStop(s, q, k);
    assert GroupsOf(s, m).amount == s[q..q + k];
  }

  /** Digits followed by neither a digit nor a point are read as a whole
      amount with no sign and no decimals. */
  lemma DigitsThenStop(s: string, q: nat, k: nat)
    requires 1 <= k && q + k < |s| && AllDigits(s, q, q + k)
    requires !IsDigit(s[q + k]) && s[q + k] != '.'
    ensures AmountAt(s, q) == Some((0, k, 0))
    ensures WholeAmount(s[q..q + k]) && AmountValue(s[q..q + k]) == 100 * DigitsValue(s[q..q + k])
  {
    assert !IsSign(s[q]) by {
      assert IsDigit(s[q]);
    }
    DigitRunIs(s, q, k);
    var t := s[q..q + k];
    WholeAmountOf(s, q, 0, k, 0);
    assert t[0..k] == t;
  }

  /** "1,234.56" after a description reads as the amount 1. */
  lemma GroupedAmountReadsAsOne(s: string, pos: nat, m: Span)
    requires IsFirstMatch(s, pos, m)
    requires m.AmountStart() + 8 <= |s| && s[m.AmountStart()..m.AmountStart() + 8] == "1,234.56"
    ensures GroupsOf(s, m).amount == "1"
    ensures AmountValue(GroupsOf(s, m).amount) == 100
  {
    var q := m.AmountStart();
    assert s[q] == '1' && s[q + 1] == ',';
    AmountStopsAtNonDigit(s, pos, m, 1);
    assert s[q..q + 1] == "1";
  }

  /** An amount missing from a line takes the year of the date on the next
      line: "2025-..." after a description reads as the amount 2025. */
  lemma NextYearReadsAsAmount(s: string, pos: nat, m: Span)
    requires IsFirstMatch(s, pos, m)
    requires m.AmountStart() + 5 <= |s| && s[m.AmountStart()..m.AmountStart() + 5] == "2025-"
    ensures GroupsOf(s, m).amount == "2025"
    ensures AmountValue(GroupsOf(s, m).amount) == 202500
  {
    var q := m.AmountStart();
    var w := s[q..q + 5];
    assert w[..4] == s[q..q + 4] && w[4] == s[q + 4];
    assert "2025-"[..4] == "2025";
    assert AllDigits(s, q, q + 4);
    AmountStopsAtNonDigit(s, pos, m, 4);
    YearDigits();
  }

  lemma YearDigits()
    ensures DigitsValue("2025") == 2025
  {
    assert "2"[..0] == "";
    assert DigitsValue("2") == 2;
    assert "20"[..1] == "2";
    assert DigitsValue("20") == 20;
    assert "202"[..2] == "20";
    assert DigitsValue("202") == 202;
    assert "2025"[..3] == "202";
  }
}
