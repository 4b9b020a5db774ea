/**
 * The analyzer's main: read the deck, stop when no cost was kept, void the
 * report when the deck is too large or has too many invalid lines, and
 * otherwise build the histogram and the full report.
 *
 * The file name typed on standard input is replaced by the file's lines,
 * and Random.nextInt(1000000000) by the deck number passed in.
 */
module Driver {
  import opened JavaText
  import opened DeckReader
  import opened Aggregator
  import opened Report

  /** Maximum number of kept cards before the report is void. */
  const MAX_CARDS: nat := 1000

  /** Maximum number of invalid lines before the report is void. */
  const MAX_INVALID_CARDS: nat := 10

  /** The three ways a run ends. */
  datatype Decision = NoValidData | Void | Full

  /** main's decision from the number of kept costs and the size of its invalid list. */
  function Decide(validCount: nat, invalidCount: nat): (d: Decision)
    ensures d == NoValidData <==> validCount == 0
    ensures d == Void <==> validCount != 0 && (validCount > MAX_CARDS || invalidCount > MAX_INVALID_CARDS)
    ensures d == Full <==> 0 < validCount <= MAX_CARDS && invalidCount <= MAX_INVALID_CARDS
  {
    if validCount == 0 then NoValidData
    else if validCount > MAX_CARDS || invalidCount > MAX_INVALID_CARDS then Void
    else Full
  }

  /** What a run produces. */
  datatype RunOutcome =
    | NoData
    | VoidReport(pdf: PdfOutcome)
    | FullReport(dataset: seq<DataPoint>, pdf: PdfOutcome)

  /** The file name a report was to be written to, whether or not it was completed. */
  function PdfFileNameOf(pdf: PdfOutcome): string
  {
    match pdf
    case Written(report) => report.fileName
    case Failed(fileName) => fileName
  }

  /** The four elements every completed report starts with: title, deck ID, total and histogram. */
  function ReportHeader(deckId: string, energyCosts: seq<int>): seq<Element>
  {
    [TITLE, DeckIdLine(deckId), TotalLine(TotalEnergyCost(energyCosts)), Image(HISTOGRAM_FILE)]
  }

  function DecisionOf(outcome: RunOutcome): Decision
  {
    match outcome
    case NoData => NoValidData
    case VoidReport(_) => Void
    case FullReport(_, _) => Full
  }

  /**
   * main from line 173 on, given the deck ID and the two lists it works
   * with: stop when no cost was kept, write a void report when either list
   * is too long, otherwise build the histogram and the full report.
   * `histogramExists` says whether energy_histogram.png is already on disk
   * before the run; the full path writes it before the report.
   */
  method ReportOnDeck(deckId: string, energyCosts: seq<int>, invalidCards: seq<string>, histogramExists: bool)
    returns (outcome: RunOutcome)
    ensures DecisionOf(outcome) == Decide(|energyCosts|, |invalidCards|)
    ensures outcome.VoidReport? ==>
      && (outcome.pdf.Failed? <==> !histogramExists)
      && PdfFileNameOf(outcome.pdf) == PdfFileName(deckId, true)
      && (outcome.pdf.Written? ==> outcome.pdf.report.elements == ReportHeader(deckId, energyCosts))
    ensures outcome.FullReport? ==>
      && |outcome.dataset| == MAX_COST + 1
      && (forall i :: 0 <= i <= MAX_COST ==> outcome.dataset[i].value == Occurrences(energyCosts, i))
      && outcome.pdf.Written?
      && outcome.pdf.report.fileName == PdfFileName(deckId, false)
      && var e := outcome.pdf.report.elements;
         |e| >= 4 && e[..4] == ReportHeader(deckId, energyCosts)
         && |e| == 4 + (if invalidCards == [] then 0 else 1 + |invalidCards|)
         && (invalidCards != [] ==> e[4] == INVALID_HEADING)
         && forall i :: 0 <= i < |invalidCards| ==> e[5 + i] == Paragraph(invalidCards[i], false, 12)
  {
    if |energyCosts| == 0 {
      return NoData;
    }
    var totalCost := TotalEnergyCost(energyCosts);
    if |energyCosts| > MAX_CARDS || |invalidCards| > MAX_INVALID_CARDS {
      var pdf := GeneratePdfReport(deckId, totalCost, invalidCards, true, histogramExists);
      return VoidReport(pdf);
    }
    var dataset := CreateHistogram(energyCosts);
    var pdf := GeneratePdfReport(deckId, totalCost, invalidCards, false, true);
    outcome := FullReport(dataset, pdf);
  }

  /**
   * main as written: the invalid list main uses is a fresh empty list, since
   * readDeck returns only the costs.
   */
  method AnalyzeDeck(lines: seq<string>, deckNumber: nat, histogramExists: bool) returns (outcome: RunOutcome)
    requires deckNumber < DECK_ID_BOUND
    ensures DecisionOf(outcome) == Decide(|ValidCosts(lines)|, 0)
    ensures outcome.VoidReport? ==>
      && (outcome.pdf.Failed? <==> !histogramExists)
      && PdfFileNameOf(outcome.pdf) == PdfFileName(GenerateDeckId(deckNumber), true)
      && (outcome.pdf.Written? ==>
            outcome.pdf.report.elements == ReportHeader(GenerateDeckId(deckNumber), ValidCosts(lines)))
    ensures outcome.FullReport? ==>
      && |outcome.dataset| == MAX_COST + 1
      && (forall i :: 0 <= i <= MAX_COST ==> outcome.dataset[i].value == Occurrences(ValidCosts(lines), i))
      && outcome.pdf.Written?
      && outcome.pdf.report.fileName == PdfFileName(GenerateDeckId(deckNumber), false)
      && outcome.pdf.report.elements == ReportHeader(GenerateDeckId(deckNumber), ValidCosts(lines))
  {
    var deckId := GenerateDeckId(deckNumber);
    var energyCosts := ReadDeck(lines);
    var invalidCards: seq<string> := [];
    outcome := ReportOnDeck(deckId, energyCosts, invalidCards, histogramExists);
    if outcome.FullReport? {
      var e := outcome.pdf.report.elements;
      assert e == e[..4];
    }
  }

  /**
   * main with readDeck's invalid list passed on: the void rule counts the
   * invalid lines and the full report lists them.
   */
  method AnalyzeDeckCorrected(lines: seq<string>, deckNumber: nat, histogramExists: bool)
    returns (outcome: RunOutcome)
    requires deckNumber < DECK_ID_BOUND
    ensures DecisionOf(outcome) == Decide(|ValidCosts(lines)|, |InvalidLines(lines)|)
    ensures outcome.VoidReport? ==>
      && (outcome.pdf.Failed? <==> !histogramExists)
      && PdfFileNameOf(outcome.pdf) == PdfFileName(GenerateDeckId(deckNumber), true)
      && (outcome.pdf.Written? ==>
            outcome.pdf.report.elements == ReportHeader(GenerateDeckId(deckNumber), ValidCosts(lines)))
    ensures outcome.FullReport? ==>
      && |outcome.dataset| == MAX_COST + 1
      && (forall i :: 0 <= i <= MAX_COST ==> outcome.dataset[i].value == Occurrences(ValidCosts(lines), i))
      && outcome.pdf.Written?
      && outcome.pdf.report.fileName == PdfFileName(GenerateDeckId(deckNumber), false)
      && var e := outcome.pdf.report.elements;
         |e| >= 4 && e[..4] == ReportHeader(GenerateDeckId(deckNumber), ValidCosts(lines))
         && |e| == 4 + (if InvalidLines(lines) == [] then 0 else 1 + |InvalidLines(lines)|)
         && (InvalidLines(lines) != [] ==> e[4] == INVALID_HEADING)
         && forall i :: 0 <= i < |InvalidLines(lines)| ==> e[5 + i] == Paragraph(InvalidLines(lines)[i], false, 12)
  {
    var deckId := GenerateDeckId(deckNumber);
    var energyCosts, invalidCards := ScanLines(lines);
    outcome := ReportOnDeck(deckId, energyCosts, invalidCards, histogramExists);
  }

  // ---------------------------------------------------------------------
  // The effect of dropping the invalid list
  // ---------------------------------------------------------------------

  /** As written, invalid lines never void a report: only the number of kept costs decides. */
  lemma InvalidLinesNeverVoid(lines: seq<string>)
    ensures Decide(|ValidCosts(lines)|, 0) == Void <==> |ValidCosts(lines)| > MAX_CARDS
  {
  }

  /** The two versions differ exactly when a deck of at most 1000 kept cards has more than 10 invalid lines. */
  lemma VersionsDiffer(lines: seq<string>)
    ensures Decide(|ValidCosts(lines)|, 0) != Decide(|ValidCosts(lines)|, |InvalidLines(lines)|) <==>
      0 < |ValidCosts(lines)| <= MAX_CARDS && |InvalidLines(lines)| > MAX_INVALID_CARDS
  {
  }

  /**
   * A deck of one accepted line followed by eleven rejected lines keeps one
   * cost and has eleven invalid lines: as written it gets a full report with
   * no invalid lines listed, where the void rule calls for a void report.
   */
  lemma {:induction false} DroppedInvalidList(good: string, bad: string, cost: int)
    requires ClassifyLine(good) == Accepted(cost) && ClassifyLine(bad) == Rejected
    ensures var deck := [good] + seq(MAX_INVALID_CARDS + 1, _ => bad);
      && ValidCosts(deck) == [cost]
      && InvalidLines(deck) == seq(MAX_INVALID_CARDS + 1, _ => bad)
      && Decide(|ValidCosts(deck)|, 0) == Full
      && Decide(|ValidCosts(deck)|, |InvalidLines(deck)|) == Void
  {
    var bads := seq(MAX_INVALID_CARDS + 1, _ => bad);
    RepeatedLine(bad, MAX_INVALID_CARDS + 1);
    RepeatedLine(good, 1);
    assert seq(1, _ => good) == [good];
    assert seq(1, _ => cost) == [cost];
    ReaderAppend([good], bads);
    assert [] + bads == bads;
  }

  /** "Strike:1" followed by eleven "Foo:2" lines: the deck that shows the dropped list. */
  lemma DroppedInvalidListShows()
    ensures var deck := ["Strike:1"] + seq(MAX_INVALID_CARDS + 1, _ => "Foo:2");
      Decide(|ValidCosts(deck)|, 0) == Full && Decide(|ValidCosts(deck)|, |InvalidLines(deck)|) == Void
  {
    StrikeAccepted();
    FooRejected();
    DroppedInvalidList("Strike:1", "Foo:2", 1);
  }

  /** A deck of 1001 "Strike:1" lines is too large: its report is void in both versions. */
  lemma OversizedDeckIsVoid()
    ensures |ValidCosts(seq(MAX_CARDS + 1, _ => "Strike:1"))| == MAX_CARDS + 1
    ensures InvalidLines(seq(MAX_CARDS + 1, _ => "Strike:1")) == []
    ensures Decide(MAX_CARDS + 1, 0) == Void
  {
    StrikeAccepted();
    RepeatedLine("Strike:1", MAX_CARDS + 1);
  }
}
