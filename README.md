# Bank-statement transaction parser, modelled in Dafny

The converter takes a PDF bank statement and builds a table of transactions.
On its text-based path, it joins the text of all pages and reads transactions
out of it with one regular expression:

    (\d{2,4}[-/]\d{2}[-/]\d{2,4})\s+([A-Za-z0-9\s,.-]+?)\s+([-+]?\d+(?:\.\d{1,2})?)

Each match becomes one record with five fields:

- the date group;
- the description group, with surrounding whitespace stripped;
- the amount read as a number;
- a credit (the amount when positive, otherwise 0);
- a debit (minus the amount when negative, otherwise 0).

It reports one of three outcomes:

- "no text" when the extracted text is blank;
- "could not parse" when no record was found;
- otherwise the records and their count.

This project models that core, `parse_transactions` and the text branch
that calls it, and proves its properties.

The modules, in dependency order:

- `Lexical`: the character classes of the pattern (`\d`, `\s`, `[-/]`,
  `[-+]`, the description class) and the longest runs of digits and of
  whitespace.
- `Tokens`: the date token and the amount token, each as a decomposition of
  the text at given lengths. It also gives the one date and the longest
  amount that the regular-expression engine takes at a position.
- `Pattern`: the declarative meaning of `re.findall`.
  - A `Span` fixes the length of each piece of the pattern, and `IsMatch`
    says the text fits those lengths.
  - `TriedFirst` is the backtracking order: greedy pieces are tried longest
    first, and the lazy description shortest first.
  - `IsFirstMatch` is the leftmost match that is tried first.
  - `IsMatchList` is the scan in which each search resumes where the previous
    match ended.
- `Engine`: a backtracking matcher with the same search order as Python's
  `re`. It is proved to return exactly what `Pattern` prescribes, and nothing
  when `Pattern` admits no match.
- `Amount`: `float(amount)` as an exact number of hundredths. Every amount
  token is proved to be worth its digits with the point removed, scaled by
  the missing decimals and negated under a minus sign. A round trip through
  a canonical amount token shows that every value is reachable.
- `Trim`: `str.strip()`.
- `Parser`: the groups of each match, the credit and debit of an amount,
  the record, and `parse_transactions` itself. The latter is a method with a
  loop that appends one record per match, proved equal to the specification
  function `Transactions`.
- `TextBranch`: the three outcomes of the text-based branch.

How matching behaves, as the model makes explicit:

- Only the whitespace after the date and the description length ever
  backtrack. Both date fields and the whitespace before the amount are
  forced by what must follow them. Nothing follows the amount in the
  pattern, so the engine's first, greedy amount always succeeds and is kept.
- A description may be whitespace only, for example when the date is
  followed by several spaces and then an amount. It then strips to the empty
  string, and a record with an empty description is produced.
- An amount written with digit grouping such as `1,234.56` is read as `1`.
- When a line has no amount, the year of a date on a following line can be
  taken as the amount.

## Model

| member | source | states |
|---|---|---|
| Lexical.IsDigit | app.py:17 | `\d`: the ASCII digits `0` to `9` |
| Lexical.IsSpace | app.py:17 | `\s`, which is also what `strip()` removes at app.py:26 and app.py:56: the characters for which Python's `str.isspace()` holds, namely space, tab to carriage return, U+001C to U+001F, U+0085, U+00A0, U+1680, U+2000 to U+200A, U+2028, U+2029, U+202F, U+205F and U+3000 |
| Lexical.IsDescChar | app.py:17 | `[A-Za-z0-9\s,.-]`: an ASCII letter or digit, a whitespace character, a comma, a point or a hyphen |
| Tokens.DateToken | app.py:17 | `\d{2,4}[-/]\d{2}[-/]\d{2,4}` at a position with given field lengths: 2 to 4 digits, a `-` or `/`, exactly 2 digits, a `-` or `/`, then 2 to 4 digits |
| Tokens.AmountToken | app.py:17 | `[-+]?\d+(?:\.\d{1,2})?` at a position with given lengths: an optional `-` or `+`, at least one digit, then either nothing or a point followed by one or two digits |
| Lexical.SpaceRun | app.py:17 | the greedy `\s+` run at a position: all whitespace, and followed by a non-whitespace character or the end of the text |
| Tokens.DateAt | app.py:17 | a date read by the engine is a `\d{2,4}[-/]\d{2}[-/]\d{2,4}` token followed by whitespace |
| Tokens.DateAtForced | app.py:17 | every date token followed by whitespace is the one `DateAt` reads, so the greedy date fields never backtrack |
| Tokens.AmountAt | app.py:17 | the amount read by the engine is a `[-+]?\d+(?:\.\d{1,2})?` token |
| Tokens.AmountAtLongest | app.py:17 | every amount token at a position has the sign `AmountAt` takes and is no longer than it (fewer digits, or as many and no more fraction) |
| Pattern.IsMatch | app.py:17 | the text fits the pattern at the given piece lengths: a date token, then at least one whitespace character, then a non-empty run of description-class characters, then at least one whitespace character, then an amount token |
| Pattern.TriedFirst | app.py:17 | the backtracking order at one start: greedy date fields, leading whitespace, gap and amount pieces are tried longest first, and the lazy description shortest first, piece by piece from the left |
| Pattern.IsFirstMatch | app.py:18 | what one search from a position returns: a match at the leftmost start at or after the position, tried before every other match at that start |
| Pattern.IsMatchList | app.py:18 | the `findall` scan: the first match from the position, then the matches found by resuming at its end, and an empty list exactly when no match starts at or after the position |
| Pattern.TriedFirstAntisymmetric | app.py:17 | two different spans at one start are strictly ordered by backtracking priority |
| Pattern.FirstMatchUnique | app.py:18 | a search from a position has at most one result |
| Pattern.MatchListUnique | app.py:18 | the list of matches is determined by the text alone |
| Pattern.MatchListOrdered | app.py:18 | every listed match fits the text, and the matches lie left to right without overlapping |
| Pattern.NoMatchIffEmpty | app.py:18 | the match list is empty exactly when the pattern fits nowhere in the text |
| Engine.Tail | app.py:17 | what the engine reads after the description is whitespace and then an amount token |
| Engine.TailForced | app.py:17 | the whitespace before any amount is the whole whitespace run, and the amount is the one `Tail` takes or a shorter one |
| Engine.MatchDateForced | app.py:17 | every match's date is the date the engine reads at its start |
| Engine.MatchLeadBounded | app.py:17 | every match's whitespace after the date is at most the longest run, which is the engine's first try |
| Engine.MatchTailForced | app.py:17 | every match has the gap and sign that `Tail` reads after its description, and an amount no longer than that one |
| Engine.TryDescription | app.py:17 | the lazy description loop: from the given length upwards, the first length whose last character is in the class and after which `Tail` reads whitespace and an amount; nothing once a non-class character or the end of the text is reached |
| Engine.TryLead | app.py:17 | the greedy whitespace after the date, tried from the given length down to 1, each with the shortest description first |
| Engine.TryDescriptionCorrect | app.py:17 | the lazy description loop returns the match with the shortest description of at least the given length, tried before every such match, and finds one whenever one exists |
| Engine.TryLeadCorrect | app.py:17 | trying the whitespace after the date from the longest run down returns the match tried first among all with that date, and finds one whenever one exists |
| Engine.MatchAt | app.py:17 | one match attempt at a position: the date read there, then `TryLead` from the longest whitespace run after it; nothing without a date |
| Engine.MatchAtCorrect | app.py:17 | a match attempt at a position returns the match tried first there, and returns one exactly when the pattern matches there |
| Engine.NoDateNoMatch | app.py:17 | without a date followed by whitespace at a position, no match starts there |
| Engine.DateAndLeadForced | app.py:17 | every match at a position has the date read there and no more whitespace after it than the engine's first try |
| Engine.LongestAmountMatch | app.py:17 | a match with its amount extended to the longest amount token at the same place is still a match |
| Engine.FirstMatchAmountLongest | app.py:17-18 | the amount of a match that a search returns is the longest amount token at its place |
| Engine.Search | app.py:18 | scanning from a position returns the leftmost match tried first, or nothing when no match starts at or after it |
| Engine.Matches | app.py:18 | the engine's scan is the `findall` list: first match, then resume at its end |
| Amount.AmountValue | app.py:21 | `float(amount)` in hundredths: the integer digits times 100 plus the one or two decimals, negated under a minus sign |
| Amount.DigitsValue | app.py:21 | the decimal reading inside `float()`: the number a string of digits writes, most significant digit first |
| Amount.WholeAmountOf | app.py:17-21 | the amount group cut out of a match is one whole amount token, read with the same lengths |
| Amount.DigitChar | app.py:21 | the digit character written for a value below ten is a digit with that value |
| Amount.NatToDigits | app.py:21 | every natural number is written by a non-empty string of digits whose decimal value is that number |
| Amount.ReadCanonical | app.py:21 | a token made of an optional minus, digits, a point and two digits is a whole amount worth its digits in hundredths, negated under the minus |
| Amount.AmountRoundTrip | app.py:21 | every number of hundredths is the value of the canonical amount token written for it |
| Amount.AmountSign | app.py:21 | only a token written with a minus sign has a negative value, and a token with a minus is never positive |
| Amount.DigitsValueConcat | app.py:21 | the value of two digit strings written one after the other is the first value shifted by the length of the second, plus the second value |
| Amount.AmountValueExact | app.py:17-21 | every whole amount token is worth exactly its digits with the sign and point removed, scaled to hundredths by the two, one or zero missing decimals, and negated exactly when it starts with a minus sign |
| Trim.Strip | app.py:26 | `str.strip()`, also used on the extracted text at app.py:56: the text between the leading whitespace run and the trailing whitespace run |
| Trim.CoreEnd | app.py:26 | cutting trailing whitespace removes only whitespace and stops after a non-whitespace character |
| Trim.StripIsCore | app.py:26 | the stripped text is the text between the leading and trailing whitespace, and it neither starts nor ends with whitespace |
| Trim.StripEmptyIffBlank | app.py:56 | a text strips to nothing exactly when it is all whitespace |
| Trim.StripIdempotent | app.py:26 | stripping twice is stripping once |
| Trim.StripKeepsDescChars | app.py:26 | stripping a description keeps it within the description class |
| Parser.GroupsOf | app.py:18-20 | the three groups of a match have the shape of the pattern's groups |
| Parser.DateGroupShaped | app.py:17-20 | the date group is a date token with nothing else in it |
| Parser.DateGroupIsDate | app.py:17-20 | the date group has a 2-, 3- or 4-digit first field and the date shape |
| Parser.DescGroupShaped | app.py:17-20 | the description group is non-empty and made of description-class characters only |
| Parser.GroupsOfShaped | app.py:17-20 | each group cut out of a match is a date, a non-empty description and a whole amount |
| Parser.FindAll | app.py:18 | every group triple `re.findall` returns is well shaped |
| Parser.FindAllFollowsMatches | app.py:18 | `findall` returns one group triple per match of the declarative scan, in order, and those matches do not overlap |
| Parser.FindAllEmptyIffNoMatch | app.py:18 | `findall` is empty exactly when the pattern matches nowhere |
| Parser.CreditDebit | app.py:22-23 | credit and debit are non-negative, their difference is the amount, and at least one of them is zero |
| Parser.CreditDebitUnique | app.py:22-23 | credit and debit are the only such split of the amount, and both are zero exactly for a zero amount |
| Parser.RecordOf | app.py:20-30 | the record built from one match: the date group, the stripped description, the amount value, and the credit and debit of that amount |
| Parser.Transactions | app.py:14-31 | what `parse_transactions` returns: one record per `findall` triple, in order |
| Parser.ParseTransactions | app.py:14-31 | the loop's result is one record per `findall` triple, in order, as `Transactions` defines it |
| Parser.TransactionsWellFormed | app.py:19-30 | every record splits its amount into credit and debit, has a date-shaped date, and has a stripped description made of class characters |
| Parser.TransactionsFollowMatches | app.py:18-27 | there is one record per match of the declarative scan, with the match's date, stripped description and amount value |
| Parser.NoMatchNoTransactions | app.py:18-31 | the result is empty exactly when the pattern matches nowhere in the text |
| Parser.MatchStartsWithDigit | app.py:17 | every match starts with a digit, which is not whitespace |
| Parser.BlankHasNoTransactions | app.py:14-31 | a text of whitespace only yields no records |
| Parser.AmountStopsAtNonDigit | app.py:17-21 | the amount of a match stops at the first character after its digits that is neither a digit nor a point, and is worth those digits |
| Parser.DigitsThenStop | app.py:17-21 | digits followed by neither a digit nor a point are read as a whole amount without sign or fraction, worth the number they write |
| Parser.GroupedAmountReadsAsOne | app.py:17-21 | the amount text `1,234.56` is read as the amount `1`, worth 1.00 |
| Parser.NextYearReadsAsAmount | app.py:17-21 | when a year such as `2025-` follows the description, the amount read is 2025 |
| TextBranch.StrippedEmptyHasNoTransactions | app.py:56-59 | a text that strips to nothing has no transactions, so reporting it before parsing loses none |
| TextBranch.TextOutcome | app.py:56-64 | blank text gives "no text"; otherwise no records gives "could not parse"; otherwise the records with their count |

## Left out

- The Streamlit page, the upload widget, the method choice, the messages and
  the table display (app.py:8-12, 33-38, 66-67) are user interface.
- PDF text extraction with pdfplumber, including the joining of page texts
  with newlines (app.py:53-54), is a foreign library. The text branch takes
  the joined text as its input.
- The table-based branch is not modelled: camelot's table extraction, its
  error handling and the concatenation of data frames (app.py:40-50). It
  calls foreign code and does not use `parse_transactions`.
- The Excel export and the download button (app.py:69-77) are output
  through foreign libraries.
- Parser.ParseTransactions: amounts, credits and debits are kept as exact
  integers of hundredths, not as binary floats. This leaves out three
  things:
  - the rounding of `float()`;
  - the value `-0.0` that `float("-0")` gives;
  - the integer `0` the source stores for an empty credit or debit beside
    a float amount.
- Lexical.IsDigit: `\d` also matches non-ASCII decimal digits in Python,
  such as Arabic-Indic digits. The model accepts ASCII digits only, because
  the Unicode digit table is not part of this model.
- The model contains no whole-text examples that run the scan over a concrete
  statement. The examples are stated about a match at a given position
  (`GroupedAmountReadsAsOne`, `NextYearReadsAsAmount`).
