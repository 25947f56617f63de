/** The declarative meaning of `re.findall` with the transaction pattern of
    app.py:17,

      (\d{2,4}[-/]\d{2}[-/]\d{2,4})\s+([A-Za-z0-9\s,.-]+?)\s+([-+]?\d+(?:\.\d{1,2})?)

    A `Span` fixes the length of every piece of the pattern; `IsMatch` says
    the text fits those lengths. A backtracking engine returns, at the
    leftmost start where some span fits, the span it tries first (`TriedFirst`),
    and `findall` resumes the search where that match ended. */
module Pattern {
  import opened Lexical
  import opened Tokens

  /** Lengths of the pieces of one match starting at `start`: the date's first
      and last fields, the whitespace before the description (`lead`), the
      description, the whitespace before the amount (`gap`), and the amount's
      sign, integer digits and fraction. */
  datatype Span = Span(start: nat, firstLen: nat, lastLen: nat, lead: nat, descLen: nat,
                       gap: nat, signLen: nat, intLen: nat, fracLen: nat)
  {
    function DateEnd(): nat { start + firstLen + 4 + lastLen }
    function DescStart(): nat { DateEnd() + lead }
    function DescEnd(): nat { DescStart() + descLen }
    function AmountStart(): nat { DescEnd() + gap }
    function End(): nat { AmountStart() + signLen + intLen + fracLen }
  }

  /** The text fits the pattern with the lengths of `m`. */
  predicate IsMatch(s: string, m: Span) {
    && m.End() <= |s|
    && DateToken(s, m.start, m.firstLen, m.lastLen)
    && m.lead >= 1 && AllSpace(s, m.DateEnd(), m.DescStart())
    && m.descLen >= 1 && AllDescChars(s, m.DescStart(), m.DescEnd())
    && m.gap >= 1 && AllSpace(s, m.DescEnd(), m.AmountStart())
    && AmountToken(s, m.AmountStart(), m.signLen, m.intLen, m.fracLen)
  }

  /** The backtracking order for two spans at one start: the engine tries the
      greedy pieces longest first and the lazy description shortest first,
      piece by piece from the left. */
  predicate TriedFirst(m: Span, n: Span) {
    if m.firstLen != n.firstLen then m.firstLen > n.firstLen
    else if m.lastLen != n.lastLen then m.lastLen > n.lastLen
    else if m.lead != n.lead then m.lead > n.lead
    else if m.descLen != n.descLen then m.descLen < n.descLen
    else if m.gap != n.gap then m.gap > n.gap
    else if m.signLen != n.signLen then m.signLen > n.signLen
    else if m.intLen != n.intLen then m.intLen > n.intLen
    else m.fracLen >= n.fracLen
  }

  /** `m` is what a search from `pos` returns: it fits, no span fits at an
      earlier start from `pos` on, and it is tried before every other span at
      its own start. */
  ghost predicate IsFirstMatch(s: string, pos: nat, m: Span) {
    && IsMatch(s, m) && pos <= m.start
    && forall n :: IsMatch(s, n) && pos <= n.start ==>
         m.start < n.start || (m.start == n.start && TriedFirst(m, n))
  }

  /** A search from `pos` finds nothing. */
  ghost predicate NoMatchFrom(s: string, pos: nat) {
    forall n :: IsMatch(s, n) ==> n.start < pos
  }

  /** `ms` is what `re.findall` scans from `pos`: the first match, then the
      matches found by resuming at its end. */
  ghost predicate IsMatchList(s: string, pos: nat, ms: seq<Span>)
    decreases |ms|
  {
    if ms == [] then NoMatchFrom(s, pos)
    else IsFirstMatch(s, pos, ms[0]) && IsMatchList(s, ms[0].End(), ms[1..])
  }

  /** Two different spans at one start are strictly ordered. */
  lemma TriedFirstAntisymmetric(m: Span, n: Span)
    requires m.start == n.start && TriedFirst(m, n) && TriedFirst(n, m)
    ensures m == n
  {
  }

  /** A search has one result. */
  lemma FirstMatchUnique(s: string, pos: nat, m: Span, n: Span)
    requires IsFirstMatch(s, pos, m) && IsFirstMatch(s, pos, n)
    ensures m == n
  {
    TriedFirstAntisymmetric(m, n);
  }

  /** The scan has one result: the matches depend on the text alone. */
  lemma {:induction false} MatchListUnique(s: string, pos: nat, ms: seq<Span>, ns: seq<Span>)
    requires IsMatchList(s, pos, ms) && IsMatchList(s, pos, ns)
    ensures ms == ns
    decreases |ms|
  {
    if ms != [] && ns != [] {
      FirstMatchUnique(s, pos, ms[0], ns[0]);
      MatchListUnique(s, ms[0].End(), ms[1..], ns[1..]);
    }
  }

  /** The matches lie inside the text from `pos` on, left to right, and do not
      overlap: each ends no later than the next one starts. */
  lemma {:induction false} MatchListOrdered(s: string, pos: nat, ms: seq<Span>)
    requires IsMatchList(s, pos, ms)
    ensures forall i :: 0 <= i < |ms| ==> IsMatch(s, ms[i]) && pos <= ms[i].start
    ensures forall i :: 0 <= i < |ms| - 1 ==> ms[i].End() <= ms[i + 1].start
    decreases |ms|
  {
    if ms != [] {
      MatchListOrdered(s, ms[0].End(), ms[1..]);
      assert forall i :: 1 <= i < |ms| ==> ms[i] == ms[1..][i - 1];
    }
  }

  /** The scan is empty exactly when the pattern fits nowhere in the text. */
  lemma NoMatchIffEmpty(s: string, ms: seq<Span>)
    requires IsMatchList(s, 0, ms)
    ensures ms == [] <==> forall n :: !IsMatch(s, n)
  {
    if ms != [] {
      assert IsMatch(s, ms[0]);
    }
  }
}
