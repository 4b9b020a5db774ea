/**
 * The report side of the analyzer: the nine-digit deck ID, the PDF file
 * name, and the list of elements generatePdfReport adds to the document.
 */
module Report {
  import opened JavaText
  import opened Aggregator

  // ---------------------------------------------------------------------
  // generateDeckId
  // ---------------------------------------------------------------------

  /** Length of the deck ID. */
  const DECK_ID_LENGTH: nat := 9

  /** Random.nextInt's exclusive bound for the deck number. */
  const DECK_ID_BOUND: nat := 1_000_000_000

  /**
   * String.format("%09d", n) for the random number n in [0, 10^9): the
   * number in decimal, padded with zeros to nine digits.
   */
  function GenerateDeckId(n: nat): (deckId: string)
    requires n < DECK_ID_BOUND
    ensures |deckId| == DECK_ID_LENGTH && AllDigits(deckId)
    ensures DigitsValue(deckId) == n
  {
    assert Pow10(DECK_ID_LENGTH) == DECK_ID_BOUND;
    ZeroPadded(n, DECK_ID_LENGTH)
  }

  /** The deck ID reads back as the number it was made from. */
  lemma DeckIdRoundTrip(n: nat)
    requires n < DECK_ID_BOUND
    ensures ParseInt(GenerateDeckId(n)) == Some(n)
  {
    var id := GenerateDeckId(n);
    assert IsDigit(id[0]);
  }

  // ---------------------------------------------------------------------
  // The PDF file name
  // ---------------------------------------------------------------------

  const FILE_PREFIX: string := "SpireDeck "
  const VOID_MARKER: string := "(VOID)"
  const FILE_SUFFIX: string := ".pdf"

  /** "SpireDeck " + deckId, then "(VOID)" for a void report, then ".pdf". */
  function PdfFileName(deckId: string, isVoid: bool): (fileName: string)
    ensures |fileName| == |FILE_PREFIX| + |deckId| + (if isVoid then |VOID_MARKER| else 0) + |FILE_SUFFIX|
    ensures fileName[..|FILE_PREFIX|] == FILE_PREFIX
    ensures fileName[|fileName| - |FILE_SUFFIX|..] == FILE_SUFFIX
  {
    FILE_PREFIX + deckId + (if isVoid then VOID_MARKER else "") + FILE_SUFFIX
  }

  /** The name ends in "(VOID).pdf". */
  predicate HasVoidMarker(fileName: string)
  {
    |fileName| >= |VOID_MARKER| + |FILE_SUFFIX| &&
    fileName[|fileName| - |VOID_MARKER| - |FILE_SUFFIX|..] == VOID_MARKER + FILE_SUFFIX
  }

  /** For a deck ID of digits the name carries the void marker exactly when the report is void. */
  lemma VoidMarkerIff(deckId: string, isVoid: bool)
    requires AllDigits(deckId)
    ensures HasVoidMarker(PdfFileName(deckId, isVoid)) <==> isVoid
  {
    var f := PdfFileName(deckId, isVoid);
    if isVoid {
      assert f[|f| - |VOID_MARKER| - |FILE_SUFFIX|..] == VOID_MARKER + FILE_SUFFIX;
    } else {
      // the character before ".pdf" is a digit of the ID or the prefix's blank, never ')'
      if |f| >= |VOID_MARKER| + |FILE_SUFFIX| {
        var j := |f| - |FILE_SUFFIX| - 1;
        assert f[j] == (FILE_PREFIX + deckId)[j];
        assert f[j] != ')';
        assert (VOID_MARKER + FILE_SUFFIX)[|VOID_MARKER| - 1] == ')';
      }
    }
  }

  /** Two reports of digit IDs share a file name only when they share the ID and the void flag. */
  lemma PdfFileNameInjective(a: string, va: bool, b: string, vb: bool)
    requires AllDigits(a) && AllDigits(b)
    ensures PdfFileName(a, va) == PdfFileName(b, vb) <==> a == b && va == vb
  {
    if PdfFileName(a, va) == PdfFileName(b, vb) {
      VoidMarkerIff(a, va);
      VoidMarkerIff(b, vb);
      var f := PdfFileName(a, va);
      var p := |FILE_PREFIX|;
      assert f[p..p + |a|] == a;
      assert PdfFileName(b, vb)[p..p + |b|] == b;
    }
  }

  // ---------------------------------------------------------------------
  // generatePdfReport
  // ---------------------------------------------------------------------

  /** What the report adds to the document: a styled paragraph or an image. */
  datatype Element = Paragraph(text: string, bold: bool, fontSize: int) | Image(path: string)

  /** A finished report: its file name and its elements in order. */
  datatype PdfReport = PdfReport(fileName: string, elements: seq<Element>)

  /**
   * How generatePdfReport ends: the document is written, or an exception
   * (here, the histogram image missing) stops it before the document is
   * closed.
   */
  datatype PdfOutcome = Written(report: PdfReport) | Failed(fileName: string)

  const TITLE: Element := Paragraph("Slay the Spire Deck Energy Cost Report", true, 16)
  const INVALID_HEADING: Element := Paragraph("Invalid Cards:", true, 12)

  function DeckIdLine(deckId: string): Element
  {
    Paragraph("Deck ID: " + deckId, false, 12)
  }

  const TOTAL_PREFIX: string := "Total Energy Cost: "
  const TOTAL_SUFFIX: string := " energy"

  /** The total line: Java's string concatenation prints the int with Integer.toString. */
  function TotalLine(totalCost: int): Element
  {
    Paragraph(TOTAL_PREFIX + IntToString(totalCost) + TOTAL_SUFFIX, false, 12)
  }

  /** The total printed in the report reads back as the total. */
  lemma TotalLineRoundTrip(totalCost: int)
    requires INT_MIN <= totalCost <= INT_MAX
    ensures var t := TotalLine(totalCost).text;
      |t| > |TOTAL_PREFIX| + |TOTAL_SUFFIX| &&
      ParseInt(t[|TOTAL_PREFIX|..|t| - |TOTAL_SUFFIX|]) == Some(totalCost)
  {
    var t := TotalLine(totalCost).text;
    assert t[|TOTAL_PREFIX|..|t| - |TOTAL_SUFFIX|] == IntToString(totalCost);
    ParseIntOfIntToString(totalCost);
  }

  /** The "Invalid Cards" section appears only in a report that is not void and has invalid lines. */
  predicate ShowsInvalidSection(invalidCards: seq<string>, isVoid: bool)
  {
    !isVoid && |invalidCards| > 0
  }

  /**
   * generatePdfReport: title, deck ID, total and histogram, then the
   * "Invalid Cards" heading and one paragraph per invalid line when the
   * report is not void and the list is not empty.  The histogram image is
   * read from energy_histogram.png; when that file is missing the image
   * cannot be created and the document is never completed.
   */
  method GeneratePdfReport(deckId: string, totalCost: int, invalidCards: seq<string>, isVoid: bool,
                           histogramExists: bool)
    returns (outcome: PdfOutcome)
    ensures outcome.Failed? <==> !histogramExists
    ensures outcome.Failed? ==> outcome.fileName == PdfFileName(deckId, isVoid)
    ensures outcome.Written? ==> outcome.report.fileName == PdfFileName(deckId, isVoid)
    ensures outcome.Written? ==>
      var e := outcome.report.elements;
      && |e| == 4 + (if ShowsInvalidSection(invalidCards, isVoid) then 1 + |invalidCards| else 0)
      && e[0] == TITLE && e[1] == DeckIdLine(deckId) && e[2] == TotalLine(totalCost)
      && e[3] == Image(HISTOGRAM_FILE)
      && (ShowsInvalidSection(invalidCards, isVoid) ==>
            e[4] == INVALID_HEADING &&
            forall i :: 0 <= i < |invalidCards| ==> e[5 + i] == Paragraph(invalidCards[i], false, 12))
  {
    var fileName := PdfFileName(deckId, isVoid);
    var document := [TITLE, DeckIdLine(deckId), TotalLine(totalCost)];
    if !histogramExists {
      return Failed(fileName);
    }
    document := document + [Image(HISTOGRAM_FILE)];
    if !isVoid && |invalidCards| != 0 {
      document := document + [INVALID_HEADING];
      for i := 0 to |invalidCards|
        invariant |document| == 5 + i
        invariant document[..4] == [TITLE, DeckIdLine(deckId), TotalLine(totalCost), Image(HISTOGRAM_FILE)]
        invariant document[4] == INVALID_HEADING
        invariant forall j :: 0 <= j < i ==> document[5 + j] == Paragraph(invalidCards[j], false, 12)
      {
        document := document + [Paragraph(invalidCards[i], false, 12)];
      }
    }
    outcome := Written(PdfReport(fileName, document));
  }

  /** Every line listed under "Invalid Cards" is one of the invalid lines, and each is listed. */
  lemma InvalidSectionListsEachLine(e: seq<Element>, invalidCards: seq<string>, line: string)
    requires |e| == 5 + |invalidCards|
    requires forall i :: 0 <= i < |invalidCards| ==> e[5 + i] == Paragraph(invalidCards[i], false, 12)
    ensures line in invalidCards <==> Paragraph(line, false, 12) in e[5..]
  {
    if line in invalidCards {
      var i :| 0 <= i < |invalidCards| && invalidCards[i] == line;
      assert e[5..][i] == e[5 + i];
    }
    if Paragraph(line, false, 12) in e[5..] {
      var i :| 0 <= i < |e[5..]| && e[5..][i] == Paragraph(line, false, 12);
      assert e[5 + i] == Paragraph(invalidCards[i], false, 12);
    }
  }
}
