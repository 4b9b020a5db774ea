# Slay the Spire deck analyzer — Dafny model

This project models the core of the Slay the Spire deck energy analyzer
(`SlayTheSpireDeckAnalyzer.java`). The analyzer works in five steps:

1. It reads a deck file of `<card name>:<cost>` lines.
2. It keeps the cost of every valid entry. A valid entry has one of the five
   known card names and a cost from 0 to 6. Every other line counts as invalid.
3. It sums the costs.
4. It counts the costs into a seven-bucket histogram.
5. It writes a PDF report named after a random nine-digit deck ID. The report
   is void when the deck has more than 1000 valid cards. `main` also tests
   for more than 10 invalid lines, but that list is always empty (see
   Findings).

The Dafny modules follow the program's structure:

- `JavaText`: the parts of the Java library the reader and the report rely on.
  - `String.split(":")`: trailing empty fields are dropped, and a string
    without ':' is a single field.
  - `String.trim()`: strips every char at or below U+0020 from both ends.
  - `Integer.parseInt`: an optional sign, leading zeros allowed, and the
    value must fit an int.
  - `Integer.toString`, and `%0Nd` zero padding.
- `DeckReader`: the per-line decision of `readDeck` (`ClassifyLine`).
  - Two specification functions give the lists the reader builds:
    `ValidCosts` and `InvalidLines`.
  - The imperative loop is `ScanLines`, proved against those two functions.
  - `ReadDeck` returns only the costs, as the source does.
- `Aggregator`: `totalEnergyCost` as a 32-bit sum, and the bucket loop of
  `createHistogram` over an `int[7]` array.
- `Report`: the deck ID, the PDF file name, and the ordered list of elements
  `generatePdfReport` adds to the document.
- `Driver`: the decision `main` makes. There are two versions:
  - `AnalyzeDeck` as written, where `main` uses a fresh, empty invalid list;
  - `AnalyzeDeckCorrected`, which passes on the reader's invalid list.

A void report skips `createHistogram`, but `generatePdfReport` always embeds
`energy_histogram.png` (line 142). When no earlier run left that file on
disk, the image cannot be built and the report is not completed, so
`GeneratePdfReport` returns `Failed`. `AnalyzeDeck` takes `histogramExists`
to say whether an earlier run left the file on disk.

## Model

| member | source | states |
|---|---|---|
| JavaText.ParseInt | SlayTheSpire/src/main/java/SlayTheSpireDeckAnalyzer.java:54 | Integer.parseInt accepts an optional '+' or '-' and then one or more digits, with leading zeros allowed. The value must fit in an int; every other string is a NumberFormatException (None). |
| JavaText.ParseIntMeaning | SlayTheSpire/src/main/java/SlayTheSpireDeckAnalyzer.java:54 | A successful parse has at least one digit after the optional sign, and its value is exactly what those digits say, negated after '-'. |
| JavaText.ParseIntOfIntToString | SlayTheSpire/src/main/java/SlayTheSpireDeckAnalyzer.java:54 | Every int printed in decimal parses back to itself. |
| JavaText.ParseIntOfNatToString | SlayTheSpire/src/main/java/SlayTheSpireDeckAnalyzer.java:54 | Decimal text parses to its value when that fits an int. Larger values are rejected. |
| JavaText.ParseIntOfDigits | SlayTheSpire/src/main/java/SlayTheSpireDeckAnalyzer.java:54 | Digits that fit an int parse to their value unsigned or after '+', and to its negation after '-'. |
| JavaText.ParseIntOfNegatedNatToString | SlayTheSpire/src/main/java/SlayTheSpireDeckAnalyzer.java:54 | "-" followed by decimal text parses to the negated value when it is at least INT_MIN, and fails otherwise. |
| JavaText.ParseIntLeadingZeros | SlayTheSpire/src/main/java/SlayTheSpireDeckAnalyzer.java:54 | Leading zeros do not change the value: "003" is 3, "+3" is 3, and "-0" is 0. |
| JavaText.NatToString | SlayTheSpire/src/main/java/SlayTheSpireDeckAnalyzer.java:101 | Integer.toString of a non-negative number is non-empty and all digits. It has no leading zero and its digits denote the number. |
| JavaText.ZeroPadded | SlayTheSpire/src/main/java/SlayTheSpireDeckAnalyzer.java:34 | %0Nd of a number below 10^N gives exactly N digits that denote the number. |
| JavaText.DigitsValueInjective | SlayTheSpire/src/main/java/SlayTheSpireDeckAnalyzer.java:34 | Two digit strings of the same length with the same value are equal. |
| JavaText.TrimMeaning | SlayTheSpire/src/main/java/SlayTheSpireDeckAnalyzer.java:51-52 | trim() removes only chars at or below U+0020 from each end. The result is empty or starts and ends with a char above U+0020. |
| JavaText.TrimPadded | SlayTheSpire/src/main/java/SlayTheSpireDeckAnalyzer.java:51-52 | Blanks around a text that starts and ends with a non-blank are exactly what trim() removes. |
| JavaText.TrimIdempotent | SlayTheSpire/src/main/java/SlayTheSpireDeckAnalyzer.java:51-52 | Trimming twice is trimming once. |
| JavaText.SplitAllMeaning | SlayTheSpire/src/main/java/SlayTheSpireDeckAnalyzer.java:49 | No piece holds ':'. Joining the pieces with ':' gives back the line. |
| JavaText.DropTrailingEmptyMeaning | SlayTheSpire/src/main/java/SlayTheSpireDeckAnalyzer.java:49 | split keeps a prefix of the pieces and drops only empty pieces at the end. The last kept piece is not empty. |
| JavaText.TwoFieldsOfSplit | SlayTheSpire/src/main/java/SlayTheSpireDeckAnalyzer.java:49-50 | A line that splits into exactly two fields is those fields joined by ':', followed only by ':' characters. |
| JavaText.SplitTwoFields | SlayTheSpire/src/main/java/SlayTheSpireDeckAnalyzer.java:49-50 | "a:b" followed by any number of ':' splits into [a, b] when a and b hold no ':' and b is non-empty. |
| JavaText.SplitThreeFields | SlayTheSpire/src/main/java/SlayTheSpireDeckAnalyzer.java:49-50 | "a:b:c" followed by any number of ':' splits into [a, b, c] when c is non-empty. |
| JavaText.SplitFieldThenColons | SlayTheSpire/src/main/java/SlayTheSpireDeckAnalyzer.java:49-50 | A field followed only by ':' splits into that one field, or into nothing when the field is empty. |
| DeckReader.ClassifyLine | SlayTheSpire/src/main/java/SlayTheSpireDeckAnalyzer.java:49-66 | The per-line decision of readDeck. An accepted line always carries a cost from 0 to 6. |
| DeckReader.ClassifyEntry | SlayTheSpire/src/main/java/SlayTheSpireDeckAnalyzer.java:49-66 | For a line "name:cost" followed only by ':', the verdict depends only on the trimmed name and the parsed trimmed cost. |
| DeckReader.ClassifyLineIff | SlayTheSpire/src/main/java/SlayTheSpireDeckAnalyzer.java:49-66 | A line is accepted with cost c if and only if it is a recognised name, ':', and text parsing to c in 0..6, followed only by ':'. Both fields may carry blanks. |
| DeckReader.NoColonRejected | SlayTheSpire/src/main/java/SlayTheSpireDeckAnalyzer.java:49-66 | A line without ':' is invalid. |
| DeckReader.WellFormedLineAccepted | SlayTheSpire/src/main/java/SlayTheSpireDeckAnalyzer.java:49-57 | A known card and a cost 0..6 are accepted with that cost, whatever blanks surround either field and however many ':' follow. |
| DeckReader.SignedCostClassified | SlayTheSpire/src/main/java/SlayTheSpireDeckAnalyzer.java:54-60 | For costs 0 to 6: leading zeros or a '+' sign still give an accepted line, and so does "-0"; the negative costs -1 to -6 are invalid. |
| DeckReader.NegativeCostRejected | SlayTheSpire/src/main/java/SlayTheSpireDeckAnalyzer.java:54-63 | Every negative cost is invalid: down to INT_MIN it fails the range test, and below INT_MIN parseInt throws. |
| DeckReader.CostAboveRangeRejected | SlayTheSpire/src/main/java/SlayTheSpireDeckAnalyzer.java:54-63 | A cost above 6 is invalid, including one too large for an int. |
| DeckReader.UnknownCardRejected | SlayTheSpire/src/main/java/SlayTheSpireDeckAnalyzer.java:49-66 | A name outside the five known cards is invalid whatever follows it. |
| DeckReader.MissingCostRejected | SlayTheSpire/src/main/java/SlayTheSpireDeckAnalyzer.java:49-66 | A name followed only by ':' ("Strike:") is invalid. |
| DeckReader.ExtraFieldRejected | SlayTheSpire/src/main/java/SlayTheSpireDeckAnalyzer.java:49-66 | A third non-empty field makes the line invalid. |
| DeckReader.ScanLines | SlayTheSpire/src/main/java/SlayTheSpireDeckAnalyzer.java:44-67 | The loop appends each line's cost or the line itself to one of two lists. The lists are exactly the kept costs and the invalid lines, in input order. |
| DeckReader.ReadDeck | SlayTheSpire/src/main/java/SlayTheSpireDeckAnalyzer.java:43-72 | readDeck returns exactly the kept costs, every one of them in 0..6. |
| DeckReader.ValidCostsInRange | SlayTheSpire/src/main/java/SlayTheSpireDeckAnalyzer.java:56-57 | Every cost the reader keeps is in 0..6. |
| DeckReader.PartitionCount | SlayTheSpire/src/main/java/SlayTheSpireDeckAnalyzer.java:48-66 | Every line goes to exactly one of the two lists. |
| DeckReader.ReaderAppend | SlayTheSpire/src/main/java/SlayTheSpireDeckAnalyzer.java:46-70 | Reading two stretches of lines gives the first stretch's lists followed by the second's. In particular, the costs read before an IOException are a prefix of the whole file's costs. |
| DeckReader.InvalidLinesAreRejected | SlayTheSpire/src/main/java/SlayTheSpireDeckAnalyzer.java:58-65 | The invalid list holds exactly the rejected input lines. |
| DeckReader.ValidCostsFromAcceptedLines | SlayTheSpire/src/main/java/SlayTheSpireDeckAnalyzer.java:56-57 | A cost is kept if and only if some line is accepted with it. |
| DeckReader.RepeatedLine | SlayTheSpire/src/main/java/SlayTheSpireDeckAnalyzer.java:48-66 | A deck of n copies of one line keeps n copies of its cost, or lists the line n times as invalid. |
| DeckReader.StrikeAccepted | SlayTheSpire/src/main/java/SlayTheSpireDeckAnalyzer.java:56-57 | "Strike:1" is accepted with cost 1. |
| DeckReader.FooRejected | SlayTheSpire/src/main/java/SlayTheSpireDeckAnalyzer.java:56-59 | "Foo:2" is invalid. |
| Aggregator.ToInt32 | SlayTheSpire/src/main/java/SlayTheSpireDeckAnalyzer.java:81 | An int addition result lies in the int range and is congruent to the exact value modulo 2^32. It equals the exact value when that fits. |
| Aggregator.TotalEnergyCost | SlayTheSpire/src/main/java/SlayTheSpireDeckAnalyzer.java:80-82 | The total is an int congruent to the exact sum of the costs modulo 2^32. |
| Aggregator.SumAppend | SlayTheSpire/src/main/java/SlayTheSpireDeckAnalyzer.java:81 | The sum of a concatenation is the sum of the parts. |
| Aggregator.SumBounds | SlayTheSpire/src/main/java/SlayTheSpireDeckAnalyzer.java:80-82 | Costs in 0..6 sum to between 0 and 6 per card. |
| Aggregator.TotalIsExactSum | SlayTheSpire/src/main/java/SlayTheSpireDeckAnalyzer.java:80-82 | For up to 357913941 kept cards the total is the exact sum of the kept costs, at most 6 per card. |
| Aggregator.TotalWraps | SlayTheSpire/src/main/java/SlayTheSpireDeckAnalyzer.java:81 | 357913942 costs of 6 give a negative total: the int sum wraps. |
| Aggregator.CreateHistogram | SlayTheSpire/src/main/java/SlayTheSpireDeckAnalyzer.java:90-102 | The dataset has seven values. Value i is the number of costs equal to i, in series "Energy Cost" with category Integer.toString(i). |
| Aggregator.BucketsTotal | SlayTheSpire/src/main/java/SlayTheSpireDeckAnalyzer.java:92-98 | The seven buckets add up to the number of costs in 0..6. |
| Aggregator.HistogramCountsEveryCard | SlayTheSpire/src/main/java/SlayTheSpireDeckAnalyzer.java:92-98 | For the reader's costs the buckets add up to the number of kept cards. |
| Report.GenerateDeckId | SlayTheSpire/src/main/java/SlayTheSpireDeckAnalyzer.java:33-35 | The deck ID is nine digits denoting the random number. |
| Report.DeckIdRoundTrip | SlayTheSpire/src/main/java/SlayTheSpireDeckAnalyzer.java:34 | The deck ID parses back to the number it was made from. |
| Report.PdfFileName | SlayTheSpire/src/main/java/SlayTheSpireDeckAnalyzer.java:126 | The file name starts with "SpireDeck " and ends with ".pdf". Its length is the ID's length plus 14, plus 6 for a void report. |
| Report.VoidMarkerIff | SlayTheSpire/src/main/java/SlayTheSpireDeckAnalyzer.java:126 | For a digit ID the name ends in "(VOID).pdf" if and only if the report is void. |
| Report.PdfFileNameInjective | SlayTheSpire/src/main/java/SlayTheSpireDeckAnalyzer.java:126 | Two digit-ID reports share a file name if and only if they share the ID and the void flag. |
| Report.TotalLineRoundTrip | SlayTheSpire/src/main/java/SlayTheSpireDeckAnalyzer.java:139 | The number printed between "Total Energy Cost: " and " energy" parses back to the total. |
| Report.GeneratePdfReport | SlayTheSpire/src/main/java/SlayTheSpireDeckAnalyzer.java:125-158 | The document holds the title, the deck ID, the total and the histogram image, in that order. The "Invalid Cards:" heading and one paragraph per invalid line, in order, appear if and only if the report is not void and the list is non-empty. The report fails if and only if the image file is missing. |
| Report.InvalidSectionListsEachLine | SlayTheSpire/src/main/java/SlayTheSpireDeckAnalyzer.java:146-151 | A line is listed under "Invalid Cards" if and only if it is in the invalid list. |
| Driver.Decide | SlayTheSpire/src/main/java/SlayTheSpireDeckAnalyzer.java:173-185 | A run stops if and only if no cost was kept. It is void if and only if costs were kept and either there are more than 1000 costs or more than 10 invalid lines. Otherwise it is full. |
| Driver.ReportOnDeck | SlayTheSpire/src/main/java/SlayTheSpireDeckAnalyzer.java:173-195 | Given the two lists, the run ends as Decide says. A void report is named with "(VOID)" and holds only the title, deck ID, total and image; it fails if and only if no histogram file is on disk. A full run counts each cost 0..6 and writes the non-void report: the same four elements, then the "Invalid Cards:" heading and each invalid line in order when the list is non-empty. |
| Driver.AnalyzeDeck | SlayTheSpire/src/main/java/SlayTheSpireDeckAnalyzer.java:160-196 | main as written decides on the kept costs and an empty invalid list. A void report holds only the title, deck ID, total and image, and fails if and only if no histogram file is on disk. A full run's histogram counts the kept costs, and its report is written under the non-void name with exactly those four elements, so no invalid section. |
| Driver.AnalyzeDeckCorrected | SlayTheSpire/src/main/java/SlayTheSpireDeckAnalyzer.java:169-195 | With the reader's invalid list passed on, the decision counts the invalid lines. A void report (more than 1000 costs or more than 10 invalid lines) holds only the title, deck ID, total and image, so no invalid section. A full report starts with those four elements and then lists every invalid line in order under "Invalid Cards:". |
| Driver.InvalidLinesNeverVoid | SlayTheSpire/src/main/java/SlayTheSpireDeckAnalyzer.java:170-185 | As written, a report is void if and only if more than 1000 costs were kept. |
| Driver.VersionsDiffer | SlayTheSpire/src/main/java/SlayTheSpireDeckAnalyzer.java:170-185 | The two versions decide differently if and only if 1 to 1000 costs were kept and there are more than 10 invalid lines. |
| Driver.DroppedInvalidList | SlayTheSpire/src/main/java/SlayTheSpireDeckAnalyzer.java:170-185 | One accepted line and then eleven rejected lines give a full report as written and a void report when corrected. |
| Driver.DroppedInvalidListShows | SlayTheSpire/src/main/java/SlayTheSpireDeckAnalyzer.java:170-185 | "Strike:1" followed by eleven "Foo:2" lines is such a deck. |
| Driver.OversizedDeckIsVoid | SlayTheSpire/src/main/java/SlayTheSpireDeckAnalyzer.java:182-184 | 1001 "Strike:1" lines keep 1001 costs with no invalid line, and the run is void. |

## Left out

- Reading the file: `FileReader`, `BufferedReader` and the file name read
  from standard input are replaced by the sequence of lines.
  - A missing file (FileNotFoundException) is the empty sequence.
  - An IOException part-way through leaves the lines read before it
    (`ReaderAppend`).
- Random: `new Random().nextInt(1000000000)` becomes the deck number passed in.
- Console output: the prompt, the error messages and the confirmations are
  not modelled.
- Drawing and saving the chart: JFreeChart and ImageIO are not modelled, and
  neither is the 640×480 size. `CreateHistogram` stops at the dataset.
- The full path assumes the chart file was written.
- iText: PDF rendering is not modelled. The document is the ordered list of
  paragraphs (text, bold, font size) and images it is given.
- Exceptions in generatePdfReport: the only one modelled is the missing
  histogram image. Other I/O errors are not.
- JavaText.ParseInt: only ASCII digits are modelled. Integer.parseInt also
  accepts other Unicode decimal digits.
- JavaText.ZeroPadded: assumes a locale whose digits are ASCII, for `%09d`.
- Aggregator.CreateHistogram: the `int[7]` counters are unbounded. A counter
  could only wrap after more than 2^31 - 1 cards of one cost.
- `DECK_ID_LENGTH`: the source declares it but never uses it. The model uses
  it as the width of the ID.

## Findings

| source | as written | input that shows it | evidently intended | confidence | as-written member | corrected member |
|---|---|---|---|---|---|---|
| SlayTheSpire/src/main/java/SlayTheSpireDeckAnalyzer.java:71 | readDeck builds the list of invalid lines but returns only the costs. main then checks a fresh empty list (line 170). As a result, the invalid-line void rule and the "Invalid Cards" section never take effect. | "Strike:1" followed by eleven "Foo:2" lines: a full report with no invalid lines listed | the void rule counts the reader's invalid lines, and a full report lists them | not executed | Driver.DroppedInvalidListShows | Driver.AnalyzeDeckCorrected |
