/**
 * The deck reader: every line of the deck file is either a card entry
 * "<name>:<cost>" with a recognised name and a cost from 0 to 6, whose cost
 * is kept, or an invalid line, which is collected separately.
 *
 * The file is modelled as the sequence of lines BufferedReader.readLine
 * delivers.  When reading stops on an IOException, the lines are those
 * delivered before it; ReaderAppend shows that the costs collected up to
 * that point are a prefix of the costs of the whole file.
 */
module DeckReader {
  import opened JavaText

  /** The five card names the analyzer recognises. */
  const VALID_CARDS: set<string> :=
    {"Strike", "Genetic Algorithm", "Crush", "Biased Cognition", "All For One"}

  /** The accepted range of energy costs. */
  const MIN_COST: int := 0
  const MAX_COST: int := 6

  /** Where one line ends up: its cost is kept, or the line is invalid. */
  datatype LineVerdict = Accepted(cost: int) | Rejected

  /**
   * The decision the reader makes for one line: split on ':', exactly two
   * fields, both trimmed, the cost parsed as a Java int in 0..6, the name
   * non-empty and one of VALID_CARDS.
   */
  function ClassifyLine(line: string): (v: LineVerdict)
    ensures v.Accepted? ==> MIN_COST <= v.cost <= MAX_COST
  {
    var parts := Split(line);
    if |parts| != 2 then
      Rejected
    else
      var cardName := Trim(parts[0]);
      var costStr := Trim(parts[1]);
      match ParseInt(costStr)
      case None => Rejected
      case Some(cost) =>
        if MIN_COST <= cost <= MAX_COST && cardName != "" && cardName in VALID_CARDS
        then Accepted(cost)
        else Rejected
  }

  // ---------------------------------------------------------------------
  // An independent description of the accepted lines
  // ---------------------------------------------------------------------

  /** A line made of a name field, ':', a cost field, and then only ':' characters. */
  function Entry(name: string, costText: string, k: nat): string
  {
    name + [':'] + costText + Colons(k)
  }

  /** The fields of an Entry hold a recognised card and a cost from 0 to 6. */
  predicate WellFormedEntry(name: string, costText: string, cost: int)
  {
    && ':' !in name && ':' !in costText
    && Trim(name) in VALID_CARDS
    && ParseInt(Trim(costText)) == Some(cost)
    && MIN_COST <= cost <= MAX_COST
  }

  /** How a line of Entry shape is classified: only its two fields matter. */
  lemma ClassifyEntry(name: string, costText: string, k: nat)
    requires ':' !in name && ':' !in costText && costText != []
    ensures ClassifyLine(Entry(name, costText, k)) ==
      match ParseInt(Trim(costText))
      case Some(c) =>
        if MIN_COST <= c <= MAX_COST && Trim(name) in VALID_CARDS then Accepted(c) else Rejected
      case None => Rejected
  {
    SplitTwoFields(name, costText, k);
    assert "" !in VALID_CARDS;
  }

  /** A line is accepted with a cost exactly when it is a well-formed Entry with that cost. */
  lemma ClassifyLineIff(line: string, cost: int)
    ensures ClassifyLine(line) == Accepted(cost) <==>
      exists name, costText, k :: line == Entry(name, costText, k) && WellFormedEntry(name, costText, cost)
  {
    if ClassifyLine(line) == Accepted(cost) {
      AcceptedIsEntry(line, cost);
    }
    if exists name, costText, k :: line == Entry(name, costText, k) && WellFormedEntry(name, costText, cost) {
      var name, costText, k :| line == Entry(name, costText, k) && WellFormedEntry(name, costText, cost);
      assert costText != [] by {
        assert |Trim(costText)| <= |costText|;
      }
      ClassifyEntry(name, costText, k);
    }
  }

  /** An accepted line is its two split fields joined as an Entry. */
  lemma AcceptedIsEntry(line: string, cost: int)
    requires ClassifyLine(line) == Accepted(cost)
    ensures var parts := Split(line);
      |parts| == 2 && line == Entry(parts[0], parts[1], |SplitAll(line)| - 2) && WellFormedEntry(parts[0], parts[1], cost)
  {
    var parts := Split(line);
    assert |parts| == 2 && ParseInt(Trim(parts[1])) == Some(cost) && Trim(parts[0]) in VALID_CARDS;
    TwoFieldsOfSplit(line);
    assert ':' in line;
    DropTrailingEmptyMeaning(SplitAll(line));
    SplitAllMeaning(line);
    assert parts == SplitAll(line)[..2];
    assert ':' !in parts[0] && ':' !in parts[1];
  }

  /** A line without any ':' is a single field, so it is always invalid. */
  lemma NoColonRejected(line: string)
    requires ':' !in line
    ensures ClassifyLine(line) == Rejected
  {
  }

  /** The card names hold no ':' and start and end with a letter. */
  lemma CardNameShape(name: string)
    requires name in VALID_CARDS
    ensures ':' !in name && name != [] && !IsTrimmable(name[0]) && !IsTrimmable(name[|name| - 1])
  {
  }

  /** Blank text holds no ':'. */
  lemma BlankHasNoColon(s: string)
    requires AllBlank(s)
    ensures ':' !in s
  {
  }

  /**
   * A recognised card and a cost from 0 to 6 in decimal are accepted with
   * that cost, whatever blanks surround either field and however many ':'
   * follow the cost.
   */
  lemma WellFormedLineAccepted(name: string, cost: int, b1: string, b2: string, b3: string, b4: string, k: nat)
    requires name in VALID_CARDS && MIN_COST <= cost <= MAX_COST
    requires AllBlank(b1) && AllBlank(b2) && AllBlank(b3) && AllBlank(b4)
    ensures ClassifyLine(b1 + name + b2 + ":" + b3 + IntToString(cost) + b4 + Colons(k)) == Accepted(cost)
  {
    var text := IntToString(cost);
    assert text == NatToString(cost) && |text| == 1;
    CardNameShape(name);
    BlankHasNoColon(b1);
    BlankHasNoColon(b2);
    BlankHasNoColon(b3);
    BlankHasNoColon(b4);
    var nameField := b1 + name + b2;
    var costField := b3 + text + b4;
    assert ':' !in nameField && ':' !in costField && costField != [];
    TrimPadded(b1, name, b2);
    TrimPadded(b3, text, b4);
    ParseIntOfIntToString(cost);
    assert b1 + name + b2 + ":" + b3 + text + b4 + Colons(k) == Entry(nameField, costField, k);
    ClassifyEntry(nameField, costField, k);
  }

  /** A recognised card followed by untrimmed cost text: the parsed value decides. */
  lemma CardWithCostText(name: string, t: string, c: int)
    requires name in VALID_CARDS && ':' !in t && t != [] && Trim(t) == t && ParseInt(t) == Some(c)
    ensures ClassifyLine(name + ":" + t) == if MIN_COST <= c <= MAX_COST then Accepted(c) else Rejected
  {
    CardNameShape(name);
    TrimPadded([], name, []);
    assert [] + name + [] == name;
    assert name + ":" + t == Entry(name, t, 0);
    ClassifyEntry(name, t, 0);
  }

  /** An optional sign and then digits: neither blank nor ':', so such text is its own trim. */
  lemma NumberTextShape(sign: string, digits: string)
    requires sign == "" || sign == "+" || sign == "-"
    requires digits != [] && AllDigits(digits)
    ensures ':' !in sign + digits && Trim(sign + digits) == sign + digits
  {
    var t := sign + digits;
    forall i | 0 <= i < |t|
      ensures t[i] != ':' && !IsTrimmable(t[i])
    {
      if i < |sign| {
        assert t[i] == sign[0];
      } else {
        assert t[i] == digits[i - |sign|];
        assert IsDigit(digits[i - |sign|]);
      }
    }
    TrimPadded([], t, []);
    assert [] + t + [] == t;
  }

  /**
   * Integer.parseInt takes a '+' sign and leading zeros, and "-0" is 0: such
   * costs from 0 to 6 are accepted, and -1 to -6 are invalid.
   */
  lemma SignedCostClassified(name: string, sign: string, zeros: nat, cost: nat)
    requires name in VALID_CARDS && cost <= MAX_COST
    requires sign == "" || sign == "+" || sign == "-"
    ensures ClassifyLine(name + ":" + sign + Zeros(zeros) + NatToString(cost)) ==
      if sign == "-" && cost > 0 then Rejected else Accepted(cost)
  {
    var t := sign + (Zeros(zeros) + NatToString(cost));
    var c := if sign == "-" then -(cost as int) else cost;
    var line := name + ":" + sign + Zeros(zeros) + NatToString(cost);
    assert line == name + ":" + t;
    SignedCostText(sign, zeros, cost);
    CardWithCostText(name, t, c);
  }

  lemma SignedCostText(sign: string, zeros: nat, cost: nat)
    requires cost <= MAX_COST
    requires sign == "" || sign == "+" || sign == "-"
    ensures var t := sign + (Zeros(zeros) + NatToString(cost));
      ':' !in t && t != [] && Trim(t) == t && ParseInt(t) == Some(if sign == "-" then -(cost as int) else cost)
  {
    var digits := Zeros(zeros) + NatToString(cost);
    LeadingZerosValue(zeros, NatToString(cost));
    ParseIntLeadingZeros(zeros, cost);
    NumberTextShape(sign, digits);
    if sign == "" {
      assert sign + digits == digits;
    }
  }

  /** A cost above 6 is invalid, and so is one too large for a Java int. */
  lemma CostAboveRangeRejected(name: string, n: nat, k: nat)
    requires ':' !in name && n > MAX_COST
    ensures ClassifyLine(name + ":" + NatToString(n) + Colons(k)) == Rejected
  {
    var text := NatToString(n);
    assert ':' !in text by {
      assert forall i :: 0 <= i < |text| ==> IsDigit(text[i]);
    }
    TrimPadded([], text, []);
    assert [] + text + [] == text;
    ParseIntOfNatToString(n);
    assert name + ":" + text + Colons(k) == Entry(name, text, k);
    ClassifyEntry(name, text, k);
  }

  /**
   * Any negative cost is invalid: down to INT_MIN it parses and fails the
   * range test, and below INT_MIN Integer.parseInt throws.
   */
  lemma NegativeCostRejected(name: string, n: nat, k: nat)
    requires ':' !in name && n > 0
    ensures ClassifyLine(name + ":-" + NatToString(n) + Colons(k)) == Rejected
  {
    var text := "-" + NatToString(n);
    var line := name + ":-" + NatToString(n) + Colons(k);
    assert line == Entry(name, text, k);
    assert AllDigits(NatToString(n));
    NumberTextShape("-", NatToString(n));
    ParseIntOfNegatedNatToString(n);
    ClassifyEntry(name, text, k);
  }

  /** A name the analyzer does not know is invalid whatever its cost. */
  lemma UnknownCardRejected(name: string, costText: string, k: nat)
    requires ':' !in name && ':' !in costText && Trim(name) !in VALID_CARDS
    ensures ClassifyLine(Entry(name, costText, k)) == Rejected
  {
    if costText == [] {
      assert Entry(name, costText, k) == name + Colons(k + 1);
      MissingCostRejected(name, k + 1);
    } else {
      ClassifyEntry(name, costText, k);
    }
  }

  /** A name followed only by ':'s has no cost field and is invalid. */
  lemma MissingCostRejected(name: string, k: nat)
    requires ':' !in name && k >= 1
    ensures ClassifyLine(name + Colons(k)) == Rejected
  {
    SplitFieldThenColons(name, k);
  }

  /** A third non-empty field makes the line invalid. */
  lemma ExtraFieldRejected(a: string, b: string, c: string, k: nat)
    requires ':' !in a && ':' !in b && ':' !in c && c != []
    ensures ClassifyLine(a + ":" + b + ":" + c + Colons(k)) == Rejected
  {
    SplitThreeFields(a, b, c, k);
  }

  // ---------------------------------------------------------------------
  // The two lists the reader builds
  // ---------------------------------------------------------------------

  /** The costs of the lines `classify` accepts, in input order. */
  function Kept(classify: string -> LineVerdict, lines: seq<string>): seq<int>
  {
    if lines == [] then []
    else
      var last := lines[|lines| - 1];
      Kept(classify, lines[..|lines| - 1]) + match classify(last) case Accepted(c) => [c] case Rejected => []
  }

  /** The lines `classify` rejects, in input order. */
  function Dropped(classify: string -> LineVerdict, lines: seq<string>): seq<string>
  {
    if lines == [] then []
    else
      var last := lines[|lines| - 1];
      Dropped(classify, lines[..|lines| - 1]) + if classify(last).Rejected? then [last] else []
  }

  /** The costs the reader keeps for `lines`, in input order. */
  function ValidCosts(lines: seq<string>): seq<int>
  {
    Kept(ClassifyLine, lines)
  }

  /** The lines the reader collects as invalid, in input order. */
  function InvalidLines(lines: seq<string>): seq<string>
  {
    Dropped(ClassifyLine, lines)
  }

  /**
   * The loop of readDeck: each line read is appended to energyCosts or to
   * invalidCards, by the same tests in the same order as the source.
   */
  method ScanLines(lines: seq<string>) returns (energyCosts: seq<int>, invalidCards: seq<string>)
    ensures energyCosts == ValidCosts(lines)
    ensures invalidCards == InvalidLines(lines)
  {
    energyCosts, invalidCards := [], [];
    for i := 0 to |lines|
      invariant energyCosts == ValidCosts(lines[..i])
      invariant invalidCards == InvalidLines(lines[..i])
    {
      var line := lines[i];
      var parts := Split(line);
      if |parts| == 2 {
        var cardName := Trim(parts[0]);
        var costStr := Trim(parts[1]);
        var parsed := ParseInt(costStr);
        if parsed.Some? {
          var cost := parsed.value;
          if cost >= 0 && cost <= 6 && cardName != "" && cardName in VALID_CARDS {
            energyCosts := energyCosts + [cost];
          } else {
            invalidCards := invalidCards + [line];
          }
        } else {
          // Integer.parseInt threw a NumberFormatException
          invalidCards := invalidCards + [line];
        }
      } else {
        invalidCards := invalidCards + [line];
      }
      assert lines[..i + 1][..i] == lines[..i];
    }
    assert lines[..|lines|] == lines;
  }

  /**
   * readDeck: scans the lines and returns only the list of costs; the list
   * of invalid lines it built is dropped.
   */
  method ReadDeck(lines: seq<string>) returns (energyCosts: seq<int>)
    ensures energyCosts == ValidCosts(lines)
    ensures forall i :: 0 <= i < |energyCosts| ==> MIN_COST <= energyCosts[i] <= MAX_COST
  {
    var invalidCards;
    energyCosts, invalidCards := ScanLines(lines);
    ValidCostsInRange(lines);
  }

  // ---------------------------------------------------------------------
  // Properties of the two lists, for any verdict
  // ---------------------------------------------------------------------

  lemma {:induction false} KeptInRange(classify: string -> LineVerdict, lines: seq<string>)
    requires forall line :: classify(line).Accepted? ==> MIN_COST <= classify(line).cost <= MAX_COST
    ensures forall i :: 0 <= i < |Kept(classify, lines)| ==> MIN_COST <= Kept(classify, lines)[i] <= MAX_COST
  {
    if lines != [] {
      KeptInRange(classify, lines[..|lines| - 1]);
    }
  }

  lemma {:induction false} KeptDroppedCount(classify: string -> LineVerdict, lines: seq<string>)
    ensures |Kept(classify, lines)| + |Dropped(classify, lines)| == |lines|
  {
    if lines != [] {
      KeptDroppedCount(classify, lines[..|lines| - 1]);
    }
  }

  lemma {:induction false} KeptDroppedAppend(classify: string -> LineVerdict, a: seq<string>, b: seq<string>)
    ensures Kept(classify, a + b) == Kept(classify, a) + Kept(classify, b)
    ensures Dropped(classify, a + b) == Dropped(classify, a) + Dropped(classify, b)
    decreases |b|
  {
    if b == [] {
      assert a + b == a;
    } else {
      var n := |b| - 1;
      assert (a + b)[..|a + b| - 1] == a + b[..n];
      assert (a + b)[|a + b| - 1] == b[n];
      KeptDroppedAppend(classify, a, b[..n]);
    }
  }

  lemma {:induction false} DroppedAreRejected(classify: string -> LineVerdict, lines: seq<string>, line: string)
    ensures line in Dropped(classify, lines) <==> line in lines && classify(line).Rejected?
  {
    if lines != [] {
      var init := lines[..|lines| - 1];
      DroppedAreRejected(classify, init, line);
      assert lines == init + [lines[|lines| - 1]];
    }
  }

  lemma {:induction false} KeptFromAccepted(classify: string -> LineVerdict, lines: seq<string>, cost: int)
    ensures cost in Kept(classify, lines) <==> exists line :: line in lines && classify(line) == Accepted(cost)
  {
    if lines != [] {
      var init := lines[..|lines| - 1];
      var last := lines[|lines| - 1];
      KeptFromAccepted(classify, init, cost);
      assert lines == init + [last];
      if exists line :: line in lines && classify(line) == Accepted(cost) {
        var line :| line in lines && classify(line) == Accepted(cost);
        assert line in init || line == last;
      }
    }
  }

  lemma {:induction false} KeptRepeated(classify: string -> LineVerdict, line: string, n: nat)
    ensures classify(line).Accepted? ==>
      Kept(classify, seq(n, _ => line)) == seq(n, _ => classify(line).cost) && Dropped(classify, seq(n, _ => line)) == []
    ensures classify(line).Rejected? ==>
      Kept(classify, seq(n, _ => line)) == [] && Dropped(classify, seq(n, _ => line)) == seq(n, _ => line)
  {
    if n > 0 {
      var lines := seq(n, _ => line);
      var init := seq(n - 1, _ => line);
      assert lines[..n - 1] == init;
      assert lines[n - 1] == line;
      KeptRepeated(classify, line, n - 1);
      assert lines == init + [line];
      match classify(line)
      case Accepted(c) =>
        assert seq(n, _ => c) == seq(n - 1, _ => c) + [c];
      case Rejected =>
    }
  }

  // ---------------------------------------------------------------------
  // Properties of the reader's two lists
  // ---------------------------------------------------------------------

  /** Every kept cost lies between 0 and 6. */
  lemma {:induction false} ValidCostsInRange(lines: seq<string>)
    ensures forall i :: 0 <= i < |ValidCosts(lines)| ==> MIN_COST <= ValidCosts(lines)[i] <= MAX_COST
  {
    KeptInRange(ClassifyLine, lines);
  }

  /** Every line goes to exactly one of the two lists. */
  lemma {:induction false} PartitionCount(lines: seq<string>)
    ensures |ValidCosts(lines)| + |InvalidLines(lines)| == |lines|
  {
    KeptDroppedCount(ClassifyLine, lines);
  }

  /**
   * Reading two stretches of lines one after the other gives the lists of
   * the first followed by those of the second: both lists keep input order,
   * and the costs collected before a read error are a prefix of the whole.
   */
  lemma {:induction false} ReaderAppend(a: seq<string>, b: seq<string>)
    ensures ValidCosts(a + b) == ValidCosts(a) + ValidCosts(b)
    ensures InvalidLines(a + b) == InvalidLines(a) + InvalidLines(b)
  {
    KeptDroppedAppend(ClassifyLine, a, b);
  }

  /** The invalid list holds exactly the rejected lines of the input. */
  lemma {:induction false} InvalidLinesAreRejected(lines: seq<string>, line: string)
    ensures line in InvalidLines(lines) <==> line in lines && ClassifyLine(line).Rejected?
  {
    DroppedAreRejected(ClassifyLine, lines, line);
  }

  /** A cost is kept exactly when some input line is accepted with it. */
  lemma {:induction false} ValidCostsFromAcceptedLines(lines: seq<string>, cost: int)
    ensures cost in ValidCosts(lines) <==> exists line :: line in lines && ClassifyLine(line) == Accepted(cost)
  {
    KeptFromAccepted(ClassifyLine, lines, cost);
  }

  /** A deck of n copies of one line keeps n copies of its cost, or lists the line n times as invalid. */
  lemma {:induction false} RepeatedLine(line: string, n: nat)
    ensures ClassifyLine(line).Accepted? ==>
      ValidCosts(seq(n, _ => line)) == seq(n, _ => ClassifyLine(line).cost) && InvalidLines(seq(n, _ => line)) == []
    ensures ClassifyLine(line).Rejected? ==>
      ValidCosts(seq(n, _ => line)) == [] && InvalidLines(seq(n, _ => line)) == seq(n, _ => line)
  {
    KeptRepeated(ClassifyLine, line, n);
  }

  // ---------------------------------------------------------------------
  // Two sample lines
  // ---------------------------------------------------------------------

  /** "Strike:1" is a valid entry of cost 1. */
  lemma StrikeAccepted()
    ensures ClassifyLine("Strike:1") == Accepted(1)
  {
    WellFormedLineAccepted("Strike", 1, "", "", "", "", 0);
    assert "" + "Strike" + "" + ":" + "" + IntToString(1) + "" + Colons(0) == "Strike:1";
  }

  /** "Foo:2" names no known card and is invalid. */
  lemma FooRejected()
    ensures ClassifyLine("Foo:2") == Rejected
  {
    UnknownCardRejected("Foo", "2", 0);
    assert Entry("Foo", "2", 0) == "Foo:2";
  }
}
