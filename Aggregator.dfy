/**
 * What the analyzer computes from the list of kept costs: the total energy
 * cost (an int sum over the list) and the seven-bucket count behind the
 * energy histogram.
 */
module Aggregator {
  import opened JavaText
  import opened DeckReader

  // ---------------------------------------------------------------------
  // totalEnergyCost
  // ---------------------------------------------------------------------

  /** The mathematical sum of a list of costs. */
  function Sum(s: seq<int>): int
  {
    if s == [] then 0 else Sum(s[..|s| - 1]) + s[|s| - 1]
  }

  const TWO_TO_32: int := 0x1_0000_0000

  /** A Java int addition result: the value reduced to 32-bit two's complement. */
  function ToInt32(x: int): (r: int)
    ensures INT_MIN <= r <= INT_MAX
    ensures (x - r) % TWO_TO_32 == 0
    ensures INT_MIN <= x <= INT_MAX ==> r == x
  {
    var m := x % TWO_TO_32;
    if m > INT_MAX then m - TWO_TO_32 else m
  }

  /**
   * totalEnergyCost: IntStream.sum adds in int arithmetic, so the result is
   * the sum reduced to a Java int.
   */
  function TotalEnergyCost(energyCosts: seq<int>): (total: int)
    ensures INT_MIN <= total <= INT_MAX
    ensures (Sum(energyCosts) - total) % TWO_TO_32 == 0
  {
    ToInt32(Sum(energyCosts))
  }

  /** The sum of a concatenation is the sum of the parts. */
  lemma {:induction false} SumAppend(a: seq<int>, b: seq<int>)
    ensures Sum(a + b) == Sum(a) + Sum(b)
    decreases |b|
  {
    if b == [] {
      assert a + b == a;
    } else {
      var n := |b| - 1;
      assert (a + b)[..|a + b| - 1] == a + b[..n];
      SumAppend(a, b[..n]);
    }
  }

  /** Costs from 0 to 6 add up to at most six per card. */
  lemma {:induction false} SumBounds(s: seq<int>)
    requires forall i :: 0 <= i < |s| ==> MIN_COST <= s[i] <= MAX_COST
    ensures 0 <= Sum(s) <= MAX_COST * |s|
  {
    if s != [] {
      SumBounds(s[..|s| - 1]);
    }
  }

  /**
   * For any deck the reader can produce with fewer than 357913942 cards the
   * int sum does not wrap: the total is the exact sum of the kept costs.
   */
  lemma TotalIsExactSum(lines: seq<string>)
    requires |ValidCosts(lines)| * MAX_COST <= INT_MAX
    ensures TotalEnergyCost(ValidCosts(lines)) == Sum(ValidCosts(lines))
    ensures 0 <= TotalEnergyCost(ValidCosts(lines)) <= MAX_COST * |ValidCosts(lines)|
  {
    ValidCostsInRange(lines);
    SumBounds(ValidCosts(lines));
  }

  /** Past the int range the total wraps: 357913942 cards of cost 6 add up to a negative total. */
  lemma TotalWraps(n: nat)
    requires n == 357913942
    ensures TotalEnergyCost(seq(n, _ => MAX_COST)) < 0
  {
    SumConstant(n, MAX_COST);
    assert Sum(seq(n, _ => MAX_COST)) == 2147483652;
  }

  lemma {:induction false} SumConstant(n: nat, c: int)
    ensures Sum(seq(n, _ => c)) == n * c
  {
    if n > 0 {
      assert seq(n, _ => c)[..n - 1] == seq(n - 1, _ => c);
      SumConstant(n - 1, c);
    }
  }

  // ---------------------------------------------------------------------
  // createHistogram
  // ---------------------------------------------------------------------

  /** The number of entries of `s` equal to `v`. */
  function Occurrences(s: seq<int>, v: int): nat
  {
    if s == [] then 0
    else Occurrences(s[..|s| - 1], v) + if s[|s| - 1] == v then 1 else 0
  }

  /** The number of entries of `s` between 0 and 6. */
  function CountInRange(s: seq<int>): nat
  {
    if s == [] then 0
    else CountInRange(s[..|s| - 1]) + if MIN_COST <= s[|s| - 1] <= MAX_COST then 1 else 0
  }

  /** One value of the chart's dataset: a count, its series and its category. */
  datatype DataPoint = DataPoint(value: int, rowKey: string, columnKey: string)

  const SERIES: string := "Energy Cost"
  const HISTOGRAM_FILE: string := "energy_histogram.png"

  /**
   * createHistogram up to the chart: the cost counts in an int[7], then one
   * dataset value per cost 0..6, labelled with the cost.  Drawing and saving
   * the chart image are not modelled.
   */
  method CreateHistogram(energyCosts: seq<int>) returns (dataset: seq<DataPoint>)
    ensures |dataset| == MAX_COST + 1
    ensures forall i :: 0 <= i < |dataset| ==>
      dataset[i] == DataPoint(Occurrences(energyCosts, i), SERIES, IntToString(i))
  {
    var costCount := new int[MAX_COST + 1](_ => 0);
    for k := 0 to |energyCosts|
      invariant forall v :: 0 <= v < costCount.Length ==> costCount[v] == Occurrences(energyCosts[..k], v)
    {
      var cost := energyCosts[k];
      assert energyCosts[..k + 1][..k] == energyCosts[..k];
      if cost >= 0 && cost <= 6 {
        costCount[cost] := costCount[cost] + 1;
      }
    }
    assert energyCosts[..|energyCosts|] == energyCosts;
    dataset := [];
    for i := 0 to MAX_COST + 1
      invariant |dataset| == i
      invariant forall j :: 0 <= j < i ==>
        dataset[j] == DataPoint(Occurrences(energyCosts, j), SERIES, IntToString(j))
    {
      dataset := dataset + [DataPoint(costCount[i], SERIES, IntToString(i))];
    }
  }

  /** The seven bucket counts. */
  function Buckets(s: seq<int>): seq<int>
  {
    seq(MAX_COST + 1, v => Occurrences(s, v))
  }

  /** The buckets together count every in-range cost exactly once. */
  lemma {:induction false} BucketsTotal(s: seq<int>)
    ensures Sum(Buckets(s)) == CountInRange(s)
  {
    var b := Buckets(s);
    assert Sum(b[..1]) == b[0] by { assert b[..1][..0] == []; }
    assert Sum(b[..2]) == Sum(b[..1]) + b[1] by { assert b[..2][..1] == b[..1]; }
    assert Sum(b[..3]) == Sum(b[..2]) + b[2] by { assert b[..3][..2] == b[..2]; }
    assert Sum(b[..4]) == Sum(b[..3]) + b[3] by { assert b[..4][..3] == b[..3]; }
    assert Sum(b[..5]) == Sum(b[..4]) + b[4] by { assert b[..5][..4] == b[..4]; }
    assert Sum(b[..6]) == Sum(b[..5]) + b[5] by { assert b[..6][..5] == b[..5]; }
    assert Sum(b) == Sum(b[..6]) + b[6];
    BucketsAdd(s);
  }

  lemma {:induction false} BucketsAdd(s: seq<int>)
    ensures Occurrences(s, 0) + Occurrences(s, 1) + Occurrences(s, 2) + Occurrences(s, 3)
      + Occurrences(s, 4) + Occurrences(s, 5) + Occurrences(s, 6) == CountInRange(s)
  {
    if s != [] {
      BucketsAdd(s[..|s| - 1]);
    }
  }

  /** Every in-range cost is counted. */
  lemma {:induction false} InRangeCountsAll(s: seq<int>)
    requires forall i :: 0 <= i < |s| ==> MIN_COST <= s[i] <= MAX_COST
    ensures CountInRange(s) == |s|
  {
    if s != [] {
      InRangeCountsAll(s[..|s| - 1]);
    }
  }

  /** For the reader's costs the histogram accounts for every kept card. */
  lemma HistogramCountsEveryCard(lines: seq<string>)
    ensures Sum(Buckets(ValidCosts(lines))) == |ValidCosts(lines)|
  {
    ValidCostsInRange(lines);
    InRangeCountsAll(ValidCosts(lines));
    BucketsTotal(ValidCosts(lines));
  }

}
