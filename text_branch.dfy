/** The text-based branch of the converter (app.py:56-64): what it reports
    for the text extracted from the pages. */
module TextBranch {
  import opened Trim
  import opened Parser

  /** The three ends of the branch: no text at all, text without any
      transaction, or the records and the count reported with them. */
  datatype Outcome = NoText | Unparsed | Extracted(rows: seq<Transaction>, count: nat)

  /** A text that strips to nothing has no transactions, so reporting it
      before parsing loses none. */
  lemma StrippedEmptyHasNoTransactions(fullText: string)
    ensures Strip(fullText) == [] ==> Transactions(fullText) == []
  {
    StripEmptyIffBlank(fullText);
    if Strip(fullText) == [] {
      BlankHasNoTransactions(fullText);
    }
  }

  /** The branch: blank text is reported before any parsing; otherwise the
      text is parsed and an empty result is reported as unparsed. */
  function TextOutcome(fullText: string): (o: Outcome)
    ensures o == NoText <==> Strip(fullText) == []
    ensures o == Unparsed <==> Strip(fullText) != [] && Transactions(fullText) == []
    ensures o.Extracted? <==> Transactions(fullText) != []
    ensures o.Extracted? ==> o.rows == Transactions(fullText) && o.count == |o.rows|
  {
    StrippedEmptyHasNoTransactions(fullText);
    if Strip(fullText) == [] then NoText
    else
      var transactions := Transactions(fullText);
      if transactions != [] then Extracted(transactions, |transactions|) else Unparsed
  }
}
