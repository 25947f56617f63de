/** A backtracking matcher for the transaction pattern, written the way the
    regular-expression engine explores it, and proved to return what the
    declarative meaning in module Pattern prescribes. Only two pieces ever
    need to backtrack: the whitespace after the date (`\s+`, tried longest
    first) and the description (`+?`, tried shortest first); the date fields,
    the whitespace before the amount and the amount are each forced by the
    characters that must follow them. */
module Engine {
  import opened Wrappers
  import opened Lexical
  import opened Tokens
  import opened Pattern

  /** The end of the pattern, `\s+([-+]?\d+(?:\.\d{1,2})?)`, read at `e`:
      the whitespace and the amount the engine takes there. */
  function Tail(s: string, e: nat): (r: Option<(nat, nat, nat, nat)>)
    requires e <= |s|
    ensures r.Some? ==> var (gap, sign, digits, frac) := r.value;
      gap >= 1 && e + gap <= |s| && AllSpace(s, e, e + gap) && AmountToken(s, e + gap, sign, digits, frac)
  {
    var gap := SpaceRun(s, e);
    if gap == 0 then None
    else match AmountAt(s, e + gap)
      case None => None
      case Some((sign, digits, frac)) => Some((gap, sign, digits, frac))
  }

  /** An amount never starts with whitespace, so the whitespace before any
      amount at `q` is all the whitespace from `e`, and the amount is one
      `Tail` takes or a shorter one. */
  lemma TailForced(s: string, e: nat, q: nat, sign: nat, digits: nat, frac: nat)
    requires e < q <= |s| && AllSpace(s, e, q) && AmountToken(s, q, sign, digits, frac)
    ensures var t := Tail(s, e);
      && t.Some? && e + t.value.0 == q && t.value.1 == sign && digits <= t.value.2
      && (digits == t.value.2 ==> frac <= t.value.3)
  {
    assert !IsSpace(s[q]) by {
      if sign == 1 {
        assert IsSign(s[q]);
      } else {
        assert IsDigit(s[q]);
      }
    }
    SpaceRunIs(s, e, q - e);
    AmountAtLongest(s, q, sign, digits, frac);
  }

  /** In every match, the date is the one the engine reads. */
  lemma MatchDateForced(s: string, n: Span)
    requires IsMatch(s, n)
    ensures DateAt(s, n.start) == Some((n.firstLen, n.lastLen))
  {
    assert IsSpace(s[n.DateEnd()]);
    DateAtForced(s, n.start, n.firstLen, n.lastLen);
  }

  /** In every match, the whitespace after the date is no longer than the
      engine's first try. */
  lemma MatchLeadBounded(s: string, n: Span)
    requires IsMatch(s, n)
    ensures n.lead <= SpaceRun(s, n.DateEnd())
  {
    SpaceRunBound(s, n.DateEnd(), n.lead);
  }

  /** In every match, what follows the description is the engine's `Tail`
      or the same whitespace and a shorter amount. */
  lemma MatchTailForced(s: string, n: Span)
    requires IsMatch(s, n)
    ensures var t := Tail(s, n.DescEnd());
      && t.Some? && t.value.0 == n.gap && t.value.1 == n.signLen && n.intLen <= t.value.2
      && (n.intLen == t.value.2 ==> n.fracLen <= t.value.3)
  {
    TailForced(s, n.DescEnd(), n.AmountStart(), n.signLen, n.intLen, n.fracLen);
  }

  /** Tries descriptions of length `len`, `len + 1`, ... after a date with
      fields `a`, `c` at `p` and `lead` whitespace characters: the first
      length after which whitespace and an amount follow wins. */
  function TryDescription(s: string, p: nat, a: nat, c: nat, lead: nat, len: nat): Option<Span>
    requires 1 <= len
    decreases |s| - len
  {
    var d := p + a + 4 + c + lead;
    if d + len > |s| || !IsDescChar(s[d + len - 1]) then None
    else
      match Tail(s, d + len)
      case Some((gap, sign, digits, frac)) => Some(Span(p, a, c, lead, len, gap, sign, digits, frac))
      case None => TryDescription(s, p, a, c, lead, len + 1)
  }

  /** A match whose description is at least `len` long has a description
      character at the `len`-th place. */
  lemma DescriptionCharAt(s: string, n: Span, len: nat)
    requires IsMatch(s, n) && 1 <= len <= n.descLen
    ensures n.DescStart() + len <= |s| && IsDescChar(s[n.DescStart() + len - 1])
  {
  }

  /** A description followed by what `Tail` reads is a match. */
  lemma MatchFromTail(s: string, m: Span)
    requires m.DateEnd() < |s| && DateToken(s, m.start, m.firstLen, m.lastLen)
    requires m.lead >= 1 && m.DescStart() <= |s| && AllSpace(s, m.DateEnd(), m.DescStart())
    requires m.descLen >= 1 && m.DescEnd() <= |s| && AllDescChars(s, m.DescStart(), m.DescEnd())
    requires Tail(s, m.DescEnd()) == Some((m.gap, m.signLen, m.intLen, m.fracLen))
    ensures IsMatch(s, m)
  {
  }

  /** The match built from `Tail` is tried before every match with the same
      date and leading whitespace and a description at least as long. */
  lemma TailTriedFirst(s: string, m: Span, n: Span)
    requires IsMatch(s, n) && m.start == n.start && m.firstLen == n.firstLen && m.lastLen == n.lastLen
    requires m.lead == n.lead && m.descLen <= n.descLen
    requires Tail(s, m.DescEnd()) == Some((m.gap, m.signLen, m.intLen, m.fracLen))
    ensures TriedFirst(m, n)
  {
    if m.descLen == n.descLen {
      MatchTailForced(s, n);
      assert m.DescEnd() == n.DescEnd();
    }
  }

  /** What `TryDescription` promises from `len` on: the match it returns
      has the given date and leading whitespace and a description of at
      least `len` characters, and it is tried before every such match. */
  ghost predicate DescriptionFirst(s: string, p: nat, a: nat, c: nat, lead: nat, len: nat, r: Option<Span>) {
    && (r.Some? ==>
          && IsMatch(s, r.value) && r.value.start == p && r.value.firstLen == a
          && r.value.lastLen == c && r.value.lead == lead && len <= r.value.descLen)
    && (forall n ::
          (IsMatch(s, n) && n.start == p && n.firstLen == a && n.lastLen == c && n.lead == lead
           && len <= n.descLen) ==> r.Some? && TriedFirst(r.value, n))
  }

  /** The `len`-th description character is missing: no match has a
      description that long, and the engine gives up. */
  lemma DescriptionStops(s: string, p: nat, a: nat, c: nat, lead: nat, len: nat)
    requires 1 <= len
    requires var d := p + a + 4 + c + lead; d + len > |s| || !IsDescChar(s[d + len - 1])
    ensures DescriptionFirst(s, p, a, c, lead, len, TryDescription(s, p, a, c, lead, len))
  {
    assert TryDescription(s, p, a, c, lead, len) == None;
    forall n | IsMatch(s, n) && n.start == p && n.firstLen == a && n.lastLen == c && n.lead == lead
               && len <= n.descLen
      ensures false
    {
      DescriptionCharAt(s, n, len);
    }
  }

  /** Whitespace and an amount follow the description of length `len`: the
      engine returns that match. */
  lemma DescriptionFound(s: string, p: nat, a: nat, c: nat, lead: nat, len: nat)
    requires p + a + 4 + c < |s| && DateToken(s, p, a, c)
    requires 1 <= lead && p + a + 4 + c + lead <= |s| && AllSpace(s, p + a + 4 + c, p + a + 4 + c + lead)
    requires 1 <= len && p + a + 4 + c + lead + len <= |s|
    requires AllDescChars(s, p + a + 4 + c + lead, p + a + 4 + c + lead + len)
    requires Tail(s, p + a + 4 + c + lead + len).Some?
    ensures DescriptionFirst(s, p, a, c, lead, len, TryDescription(s, p, a, c, lead, len))
  {
    var t := Tail(s, p + a + 4 + c + lead + len).value;
    var m := Span(p, a, c, lead, len, t.0, t.1, t.2, t.3);
    assert TryDescription(s, p, a, c, lead, len) == Some(m);
    MatchFromTail(s, m);
    FoundTriedFirst(s, m);
  }

  /** A span whose tail is the one `Tail` reads is tried before every match
      that agrees with it up to the description and has a description at
      least as long. */
  lemma FoundTriedFirst(s: string, m: Span)
    requires m.DescEnd() <= |s| && Tail(s, m.DescEnd()) == Some((m.gap, m.signLen, m.intLen, m.fracLen))
    ensures forall n :: (IsMatch(s, n) && n.start == m.start && n.firstLen == m.firstLen && n.lastLen == m.lastLen
                         && n.lead == m.lead && m.descLen <= n.descLen) ==> TriedFirst(m, n)
  {
    forall n | IsMatch(s, n) && n.start == m.start && n.firstLen == m.firstLen && n.lastLen == m.lastLen
               && n.lead == m.lead && m.descLen <= n.descLen
      ensures TriedFirst(m, n)
    {
      TailTriedFirst(s, m, n);
    }
  }

  /** No match has its description end where `Tail` finds nothing. */
  lemma NoMatchEndsAt(s: string, e: nat)
    requires e <= |s| && Tail(s, e).None?
    ensures forall n :: IsMatch(s, n) ==> n.DescEnd() != e
  {
    forall n | IsMatch(s, n)
      ensures n.DescEnd() != e
    {
      MatchTailForced(s, n);
    }
  }

  /** Nothing follows the description of length `len`: the engine tries a
      longer one, and what holds from `len + 1` on holds from `len` on. */
  lemma DescriptionGrows(s: string, p: nat, a: nat, c: nat, lead: nat, len: nat)
    requires 1 <= len && p + a + 4 + c + lead + len <= |s|
    requires IsDescChar(s[p + a + 4 + c + lead + len - 1])
    requires Tail(s, p + a + 4 + c + lead + len).None?
    requires DescriptionFirst(s, p, a, c, lead, len + 1, TryDescription(s, p, a, c, lead, len + 1))
    ensures DescriptionFirst(s, p, a, c, lead, len, TryDescription(s, p, a, c, lead, len))
  {
    assert TryDescription(s, p, a, c, lead, len) == TryDescription(s, p, a, c, lead, len + 1);
    NoMatchEndsAt(s, p + a + 4 + c + lead + len);
  }

  /** Given the date and the whitespace after it, `TryDescription` returns
      the match with the shortest description of at least `len` characters,
      and returns one whenever such a match exists. */
  lemma {:induction false} TryDescriptionCorrect(s: string, p: nat, a: nat, c: nat, lead: nat, len: nat)
    requires p + a + 4 + c < |s| && DateToken(s, p, a, c)
    requires 1 <= lead && p + a + 4 + c + lead <= |s| && AllSpace(s, p + a + 4 + c, p + a + 4 + c + lead)
    requires 1 <= len && p + a + 4 + c + lead + len - 1 <= |s|
    requires AllDescChars(s, p + a + 4 + c + lead, p + a + 4 + c + lead + len - 1)
    ensures DescriptionFirst(s, p, a, c, lead, len, TryDescription(s, p, a, c, lead, len))
    decreases |s| - len, 2
  {
    var d := p + a + 4 + c + lead;
    if d + len > |s| || !IsDescChar(s[d + len - 1]) {
      DescriptionStops(s, p, a, c, lead, len);
    } else {
      DescriptionCharPresent(s, p, a, c, lead, len);
    }
  }

  /** The case of `TryDescriptionCorrect` where the `len`-th description
      character is present. */
  lemma {:induction false} DescriptionCharPresent(s: string, p: nat, a: nat, c: nat, lead: nat, len: nat)
    requires p + a + 4 + c < |s| && DateToken(s, p, a, c)
    requires 1 <= lead && p + a + 4 + c + lead <= |s| && AllSpace(s, p + a + 4 + c, p + a + 4 + c + lead)
    requires 1 <= len && p + a + 4 + c + lead + len <= |s|
    requires AllDescChars(s, p + a + 4 + c + lead, p + a + 4 + c + lead + len - 1)
    requires IsDescChar(s[p + a + 4 + c + lead + len - 1])
    ensures DescriptionFirst(s, p, a, c, lead, len, TryDescription(s, p, a, c, lead, len))
    decreases |s| - len, 1
  {
    var d := p + a + 4 + c + lead;
    DescCharsExtend(s, d, d + len);
    if Tail(s, d + len).Some? {
      DescriptionFound(s, p, a, c, lead, len);
    } else {
      DescriptionTailMissing(s, p, a, c, lead, len);
    }
  }

  /** The case of `DescriptionCharPresent` where no tail follows: the answer
      is the one for `len + 1`. */
  lemma {:induction false} DescriptionTailMissing(s: string, p: nat, a: nat, c: nat, lead: nat, len: nat)
    requires p + a + 4 + c < |s| && DateToken(s, p, a, c)
    requires 1 <= lead && p + a + 4 + c + lead <= |s| && AllSpace(s, p + a + 4 + c, p + a + 4 + c + lead)
    requires 1 <= len && p + a + 4 + c + lead + len <= |s|
    requires AllDescChars(s, p + a + 4 + c + lead, p + a + 4 + c + lead + len)
    requires Tail(s, p + a + 4 + c + lead + len).None?
    ensures DescriptionFirst(s, p, a, c, lead, len, TryDescription(s, p, a, c, lead, len))
    decreases |s| - len, 0
  {
    TryDescriptionCorrect(s, p, a, c, lead, len + 1);
    DescriptionGrows(s, p, a, c, lead, len);
  }

  lemma DescCharsExtend(s: string, i: nat, j: nat)
    requires i < j <= |s| && AllDescChars(s, i, j - 1) && IsDescChar(s[j - 1])
    ensures AllDescChars(s, i, j)
  {
  }

  /** Tries the whitespace after the date with `lead`, `lead - 1`, ... 1
      characters, each with the shortest description first. */
  function TryLead(s: string, p: nat, a: nat, c: nat, lead: nat): Option<Span>
    decreases lead
  {
    if lead == 0 then None
    else
      match TryDescription(s, p, a, c, lead, 1)
      case Some(m) => Some(m)
      case None => TryLead(s, p, a, c, lead - 1)
  }

  /** What `TryLead` promises: the match it returns has the given date and at
      most `lead` whitespace characters after it, and it is tried before
      every such match. */
  ghost predicate LeadFirst(s: string, p: nat, a: nat, c: nat, lead: nat, r: Option<Span>) {
    && (r.Some? ==>
          && IsMatch(s, r.value) && r.value.start == p && r.value.firstLen == a
          && r.value.lastLen == c && r.value.lead <= lead)
    && (forall n ::
          (IsMatch(s, n) && n.start == p && n.firstLen == a && n.lastLen == c && n.lead <= lead)
          ==> r.Some? && TriedFirst(r.value, n))
  }

  /** A description found after `lead` whitespace characters beats every
      match with less whitespace. */
  lemma LeadFound(s: string, p: nat, a: nat, c: nat, lead: nat, m: Span)
    requires DescriptionFirst(s, p, a, c, lead, 1, Some(m))
    ensures LeadFirst(s, p, a, c, lead, Some(m))
  {
  }

  /** No description follows `lead` whitespace characters: what holds for
      `lead - 1` holds for `lead`. */
  lemma LeadShrinks(s: string, p: nat, a: nat, c: nat, lead: nat, r: Option<Span>)
    requires 1 <= lead
    requires DescriptionFirst(s, p, a, c, lead, 1, None)
    requires LeadFirst(s, p, a, c, lead - 1, r)
    ensures LeadFirst(s, p, a, c, lead, r)
  {
  }

  /** `TryLead` returns the first match with the date `a`, `c` at `p`, trying
      at most `lead` whitespace characters after the date. */
  lemma {:induction false} TryLeadCorrect(s: string, p: nat, a: nat, c: nat, lead: nat)
    requires p + a + 4 + c < |s| && DateToken(s, p, a, c)
    requires lead <= SpaceRun(s, p + a + 4 + c)
    ensures LeadFirst(s, p, a, c, lead, TryLead(s, p, a, c, lead))
    decreases lead
  {
    if lead == 0 {
      assert TryLead(s, p, a, c, lead) == None;
    } else {
      assert AllSpace(s, p + a + 4 + c, p + a + 4 + c + lead);
      TryDescriptionCorrect(s, p, a, c, lead, 1);
      var r := TryDescription(s, p, a, c, lead, 1);
      if r.Some? {
        assert TryLead(s, p, a, c, lead) == r;
        LeadFound(s, p, a, c, lead, r.value);
      } else {
        assert TryLead(s, p, a, c, lead) == TryLead(s, p, a, c, lead - 1);
        TryLeadCorrect(s, p, a, c, lead - 1);
        LeadShrinks(s, p, a, c, lead, TryLead(s, p, a, c, lead - 1));
      }
    }
  }

  /** The match the engine finds when it tries the pattern at `p` alone: the
      date, then the whitespace after it from the longest run down. */
  function MatchAt(s: string, p: nat): Option<Span>
    requires p <= |s|
  {
    match DateAt(s, p)
    case None => None
    case Some((a, c)) => TryLead(s, p, a, c, SpaceRun(s, p + a + 4 + c))
  }

  /** What a match attempt at `p` promises: a match at `p` when there is one,
      and then the one tried first. */
  ghost predicate FirstAt(s: string, p: nat, r: Option<Span>) {
    && (r.Some? ==> IsMatch(s, r.value) && r.value.start == p)
    && (forall n :: IsMatch(s, n) && n.start == p ==> r.Some? && TriedFirst(r.value, n))
  }

  /** `MatchAt` returns the match at `p` the engine tries first, and finds one
      whenever the pattern matches at `p`. */
  lemma MatchAtCorrect(s: string, p: nat)
    requires p <= |s|
    ensures FirstAt(s, p, MatchAt(s, p))
  {
    if DateAt(s, p).None? {
      MatchAtWithoutDate(s, p);
    } else {
      MatchAtWithDate(s, p);
    }
  }

  lemma MatchAtWithoutDate(s: string, p: nat)
    requires p <= |s| && DateAt(s, p).None?
    ensures FirstAt(s, p, MatchAt(s, p))
  {
    NoDateNoMatch(s, p);
    assert MatchAt(s, p) == None;
  }

  lemma MatchAtWithDate(s: string, p: nat)
    requires p <= |s| && DateAt(s, p).Some?
    ensures FirstAt(s, p, MatchAt(s, p))
  {
    var (a, c) := DateAt(s, p).value;
    var lead := SpaceRun(s, p + a + 4 + c);
    TryLeadCorrect(s, p, a, c, lead);
    assert MatchAt(s, p) == TryLead(s, p, a, c, lead);
    DateAndLeadForced(s, p, a, c);
  }

  /** Without a date at `p` there is no match at `p`. */
  lemma NoDateNoMatch(s: string, p: nat)
    requires p <= |s| && DateAt(s, p).None?
    ensures forall n :: IsMatch(s, n) ==> n.start != p
  {
    forall n | IsMatch(s, n)
      ensures n.start != p
    {
      MatchDateForced(s, n);
    }
  }

  lemma MatchAtDateForced(s: string, p: nat, a: nat, c: nat, n: Span)
    requires p <= |s| && DateAt(s, p) == Some((a, c)) && IsMatch(s, n) && n.start == p
    ensures n.firstLen == a && n.lastLen == c && n.lead <= SpaceRun(s, p + a + 4 + c)
  {
    MatchDateForced(s, n);
    MatchLeadBounded(s, n);
  }

  /** Every match at `p` has the date the engine reads there and at most
      the whitespace it tries first. */
  lemma DateAndLeadForced(s: string, p: nat, a: nat, c: nat)
    requires p <= |s| && DateAt(s, p) == Some((a, c))
    ensures forall n :: IsMatch(s, n) && n.start == p ==>
      n.firstLen == a && n.lastLen == c && n.lead <= SpaceRun(s, p + a + 4 + c)
  {
    forall n | IsMatch(s, n) && n.start == p
      ensures n.firstLen == a && n.lastLen == c && n.lead <= SpaceRun(s, p + a + 4 + c)
    {
      MatchAtDateForced(s, p, a, c, n);
    }
  }

  /** The amount of the match a search returns is the longest amount token
      after the whitespace that follows the description. */
  lemma FirstMatchAmountLongest(s: string, pos: nat, m: Span)
    requires IsFirstMatch(s, pos, m)
    ensures AmountAt(s, m.AmountStart()) == Some((m.signLen, m.intLen, m.fracLen))
  {
    var longest := LongestAmountMatch(s, m);
    assert IsMatch(s, longest) && longest.start == m.start;
    assert TriedFirst(m, longest);
  }

  /** A match with its amount replaced by another amount token at the same
      place and with the same sign is still a match. */
  lemma ReplaceAmount(s: string, m: Span, digits: nat, frac: nat)
    requires IsMatch(s, m) && AmountToken(s, m.AmountStart(), m.signLen, digits, frac)
    ensures IsMatch(s, m.(intLen := digits, fracLen := frac))
  {
  }

  /** Any match with its amount replaced by the longest amount at the same
      place is still a match. */
  lemma LongestAmountMatch(s: string, m: Span) returns (longest: Span)
    requires IsMatch(s, m)
    ensures IsMatch(s, longest)
    ensures longest == m.(intLen := longest.intLen, fracLen := longest.fracLen)
    ensures m.intLen <= longest.intLen && (m.intLen == longest.intLen ==> m.fracLen <= longest.fracLen)
    ensures AmountAt(s, m.AmountStart()) == Some((m.signLen, longest.intLen, longest.fracLen))
  {
    var q := m.AmountStart();
    AmountAtLongest(s, q, m.signLen, m.intLen, m.fracLen);
    var r := AmountAt(s, q).value;
    ReplaceAmount(s, m, r.1, r.2);
    longest := m.(intLen := r.1, fracLen := r.2);
  }

  /** `re.search` from `pos`: the first start from which the pattern matches. */
  function Search(s: string, pos: nat): (r: Option<Span>)
    requires pos <= |s|
    ensures r.Some? ==> IsFirstMatch(s, pos, r.value)
    ensures r.None? ==> NoMatchFrom(s, pos)
    decreases |s| - pos
  {
    MatchAtCorrect(s, pos);
    match MatchAt(s, pos)
    case Some(m) => Some(m)
    case None => if pos == |s| then None else Search(s, pos + 1)
  }

  /** `re.findall` from `pos`: each search resumes where the previous match
      ended. */
  function Matches(s: string, pos: nat): (r: seq<Span>)
    requires pos <= |s|
    ensures IsMatchList(s, pos, r)
    decreases |s| - pos
  {
    match Search(s, pos)
    case None => []
    case Some(m) => [m] + Matches(s, m.End())
  }
}
