/**
 * The pieces of java.lang.String and java.lang.Integer that the deck reader
 * and the report rely on: String.split(":"), String.trim(),
 * Integer.parseInt, Integer.toString and the "%0Nd" conversion of
 * String.format.  Java strings are modelled as `string` (seq<char>).
 */
module JavaText {

  datatype Option<T> = None | Some(value: T)

  /** Bounds of a Java `int`. */
  const INT_MIN: int := -0x8000_0000
  const INT_MAX: int := 0x7fff_ffff

  // ---------------------------------------------------------------------
  // Decimal digits
  // ---------------------------------------------------------------------

  predicate IsDigit(c: char) { '0' <= c <= '9' }

  predicate AllDigits(s: string) { forall i :: 0 <= i < |s| ==> IsDigit(s[i]) }

  function DigitValue(c: char): nat
    requires IsDigit(c)
  {
    (c as int) - ('0' as int)
  }

  function DigitChar(d: nat): (c: char)
    requires d < 10
    ensures IsDigit(c) && DigitValue(c) == d
  {
    (('0' as int) + d) as char
  }

  /** The value of a string of decimal digits, most significant digit first. */
  function DigitsValue(s: string): nat
    requires AllDigits(s)
  {
    if |s| == 0 then 0 else DigitsValue(s[..|s| - 1]) * 10 + DigitValue(s[|s| - 1])
  }

  function Pow10(n: nat): (p: nat)
    ensures p >= 1
  {
    if n == 0 then 1 else 10 * Pow10(n - 1)
  }

  /** Two digit strings of one length with one value are the same string. */
  lemma {:induction false} DigitsValueInjective(s: string, t: string)
    requires AllDigits(s) && AllDigits(t) && |s| == |t|
    requires DigitsValue(s) == DigitsValue(t)
    ensures s == t
  {
    if |s| > 0 {
      var n := |s| - 1;
      assert DigitsValue(s) % 10 == DigitValue(s[n]);
      assert DigitsValue(t) % 10 == DigitValue(t[n]);
      assert DigitsValue(s) / 10 == DigitsValue(s[..n]);
      assert DigitsValue(t) / 10 == DigitsValue(t[..n]);
      DigitsValueInjective(s[..n], t[..n]);
      assert s == s[..n] + [s[n]];
      assert t == t[..n] + [t[n]];
    }
  }

  // ---------------------------------------------------------------------
  // Integer.toString and String.format("%0Nd", n)
  // ---------------------------------------------------------------------

  /** The decimal text of a natural number, without leading zeros. */
  function NatToString(n: nat): (r: string)
    ensures |r| >= 1 && AllDigits(r) && DigitsValue(r) == n
    ensures |r| > 1 ==> r[0] != '0'
  {
    if n < 10 then
      [DigitChar(n)]
    else
      var init := NatToString(n / 10);
      var r := init + [DigitChar(n % 10)];
      assert r[..|r| - 1] == init;
      r
  }

  /** Integer.toString(n): a minus sign before the magnitude of a negative number. */
  function IntToString(n: int): string
  {
    if n < 0 then "-" + NatToString(-n) else NatToString(n)
  }

  /** String.format("%0" + width + "d", n) for 0 <= n < 10^width: exactly `width` digits. */
  function ZeroPadded(n: nat, width: nat): (r: string)
    requires n < Pow10(width)
    ensures |r| == width && AllDigits(r) && DigitsValue(r) == n
  {
    if width == 0 then
      []
    else
      var init := ZeroPadded(n / 10, width - 1);
      var r := init + [DigitChar(n % 10)];
      assert r[..|r| - 1] == init;
      r
  }

  // ---------------------------------------------------------------------
  // Integer.parseInt(s) in radix 10
  // ---------------------------------------------------------------------

  /**
   * Integer.parseInt: an optional '+' or '-' followed by at least one
   * digit, leading zeros allowed; the value must fit a Java int.  Anything
   * else is a NumberFormatException, here None.
   */
  function ParseInt(s: string): (r: Option<int>)
    ensures r.Some? ==> INT_MIN <= r.value <= INT_MAX
  {
    if |s| == 0 then None
    else
      var digits := if s[0] == '-' || s[0] == '+' then s[1..] else s;
      if |digits| == 0 || !AllDigits(digits) then None
      else
        var magnitude: int := DigitsValue(digits);
        var v := if s[0] == '-' then -magnitude else magnitude;
        if INT_MIN <= v <= INT_MAX then Some(v) else None
  }

  /** Every Java int printed by Integer.toString parses back to itself. */
  lemma ParseIntOfIntToString(n: int)
    requires INT_MIN <= n <= INT_MAX
    ensures ParseInt(IntToString(n)) == Some(n)
  {
    var s := IntToString(n);
    if n < 0 {
      assert s[1..] == NatToString(-n);
    } else {
      assert s == NatToString(n);
      assert s[0] != '-' && s[0] != '+';
    }
  }

  /** Decimal text parses back to its value when that fits a Java int, and fails otherwise. */
  lemma ParseIntOfNatToString(n: nat)
    ensures ParseInt(NatToString(n)) == if n <= INT_MAX then Some(n) else None
  {
    var s := NatToString(n);
    assert s[0] != '-' && s[0] != '+';
  }

  /** A minus sign before decimal text negates its value, which must not fall below INT_MIN. */
  lemma ParseIntOfNegatedNatToString(n: nat)
    ensures ParseInt("-" + NatToString(n)) == if n <= -INT_MIN then Some(-(n as int)) else None
  {
    var s := "-" + NatToString(n);
    assert s[1..] == NatToString(n);
  }

  /** A parsed value is exactly what the digits after the optional sign say. */
  lemma ParseIntMeaning(s: string, v: int)
    requires ParseInt(s) == Some(v)
    ensures |s| >= 1
    ensures s[0] == '-' ==> |s| >= 2 && AllDigits(s[1..]) && v == -(DigitsValue(s[1..]) as int)
    ensures s[0] == '+' ==> |s| >= 2 && AllDigits(s[1..]) && v == DigitsValue(s[1..])
    ensures s[0] != '-' && s[0] != '+' ==> AllDigits(s) && v == DigitsValue(s)
  {
  }

  /** Digits that fit a Java int parse to their value, unsigned or after either sign. */
  lemma ParseIntOfDigits(d: string)
    requires |d| >= 1 && AllDigits(d) && DigitsValue(d) <= INT_MAX
    ensures ParseInt(d) == Some(DigitsValue(d))
    ensures ParseInt("-" + d) == Some(-(DigitsValue(d) as int))
    ensures ParseInt("+" + d) == Some(DigitsValue(d))
  {
    assert IsDigit(d[0]);
    assert ("-" + d)[1..] == d;
    assert ("+" + d)[1..] == d;
  }

  /** Leading zeros (and a sign on zero) do not change the parsed value: "003" is 3, "-0" is 0. */
  lemma ParseIntLeadingZeros(zeros: nat, n: nat)
    requires n <= INT_MAX
    ensures var d := Zeros(zeros) + NatToString(n);
      && ParseInt(d) == Some(n)
      && ParseInt("-" + d) == Some(-(n as int))
      && ParseInt("+" + d) == Some(n)
  {
    LeadingZerosValue(zeros, NatToString(n));
    ParseIntOfDigits(Zeros(zeros) + NatToString(n));
  }

  lemma {:induction false} LeadingZerosValue(zeros: nat, s: string)
    requires AllDigits(s)
    ensures AllDigits(Zeros(zeros) + s)
    ensures DigitsValue(Zeros(zeros) + s) == DigitsValue(s)
    decreases |s|
  {
    var z := Zeros(zeros);
    var d := z + s;
    assert AllDigits(d) by {
      forall i | 0 <= i < |d| ensures IsDigit(d[i]) {
        if i < zeros { assert d[i] == z[i]; } else { assert d[i] == s[i - zeros]; }
      }
    }
    if |s| == 0 {
      assert d == z;
      ZerosValue(zeros);
    } else {
      var n := |s| - 1;
      assert d[..|d| - 1] == z + s[..n];
      LeadingZerosValue(zeros, s[..n]);
    }
  }

  lemma {:induction false} ZerosValue(zeros: nat)
    ensures AllDigits(Zeros(zeros))
    ensures DigitsValue(Zeros(zeros)) == 0
  {
    if zeros > 0 {
      var z := Zeros(zeros);
      assert z[..zeros - 1] == Zeros(zeros - 1);
      ZerosValue(zeros - 1);
    }
  }

  // ---------------------------------------------------------------------
  // String.trim()
  // ---------------------------------------------------------------------

  /** What String.trim() strips: every char at or below U+0020. */
  predicate IsTrimmable(c: char) { c <= ' ' }

  /** The index of the first char trim keeps: blanks from `st` on are skipped. */
  function TrimStart(s: string, st: nat): (r: nat)
    requires st <= |s|
    ensures st <= r <= |s|
    decreases |s| - st
  {
    if st < |s| && IsTrimmable(s[st]) then TrimStart(s, st + 1) else st
  }

  /** The index after the last char trim keeps: blanks before `len` are dropped, never going below `st`. */
  function TrimEnd(s: string, st: nat, len: nat): (r: nat)
    requires st <= len <= |s|
    ensures st <= r <= len
  {
    if st < len && IsTrimmable(s[len - 1]) then TrimEnd(s, st, len - 1) else len
  }

  /** String.trim(): s without its leading and trailing chars at or below U+0020. */
  function Trim(s: string): string
  {
    var st := TrimStart(s, 0);
    s[st..TrimEnd(s, st, |s|)]
  }

  lemma {:induction false} TrimStartMeaning(s: string, st: nat)
    requires st <= |s| && forall i :: 0 <= i < st ==> IsTrimmable(s[i])
    ensures forall i :: 0 <= i < TrimStart(s, st) ==> IsTrimmable(s[i])
    ensures TrimStart(s, st) == |s| || !IsTrimmable(s[TrimStart(s, st)])
    decreases |s| - st
  {
    if st < |s| && IsTrimmable(s[st]) {
      TrimStartMeaning(s, st + 1);
    }
  }

  lemma {:induction false} TrimEndMeaning(s: string, st: nat, len: nat)
    requires st <= len <= |s| && forall i :: len <= i < |s| ==> IsTrimmable(s[i])
    ensures forall i :: TrimEnd(s, st, len) <= i < |s| ==> IsTrimmable(s[i])
    ensures TrimEnd(s, st, len) == st || !IsTrimmable(s[TrimEnd(s, st, len) - 1])
  {
    if st < len && IsTrimmable(s[len - 1]) {
      TrimEndMeaning(s, st, len - 1);
    }
  }

  /**
   * What trim leaves is the piece s[st..end] of s, everything cut off on
   * either side is blank, and the piece neither starts nor ends with a blank.
   */
  lemma TrimMeaning(s: string)
    ensures var st := TrimStart(s, 0);
      var end := TrimEnd(s, st, |s|);
      && Trim(s) == s[st..end]
      && (forall i :: 0 <= i < st ==> IsTrimmable(s[i]))
      && (forall i :: end <= i < |s| ==> IsTrimmable(s[i]))
      && (Trim(s) == [] || (!IsTrimmable(Trim(s)[0]) && !IsTrimmable(Trim(s)[|Trim(s)| - 1])))
  {
    var st := TrimStart(s, 0);
    TrimStartMeaning(s, 0);
    TrimEndMeaning(s, st, |s|);
  }

  predicate AllBlank(s: string) { forall i :: 0 <= i < |s| ==> IsTrimmable(s[i]) }

  lemma {:induction false} TrimStartSkips(s: string, st: nat, m: nat)
    requires st <= m <= |s|
    requires forall i :: st <= i < m ==> IsTrimmable(s[i])
    requires m == |s| || !IsTrimmable(s[m])
    ensures TrimStart(s, st) == m
    decreases m - st
  {
    if st < m {
      TrimStartSkips(s, st + 1, m);
    }
  }

  lemma {:induction false} TrimEndSkips(s: string, st: nat, len: nat, e: nat)
    requires st <= e <= len <= |s|
    requires forall i :: e <= i < len ==> IsTrimmable(s[i])
    requires e == st || !IsTrimmable(s[e - 1])
    ensures TrimEnd(s, st, len) == e
    decreases len - e
  {
    if e < len {
      TrimEndSkips(s, st, len - 1, e);
    }
  }

  /** Blanks around a piece that neither starts nor ends with a blank are exactly what trim removes. */
  lemma TrimPadded(pre: string, x: string, post: string)
    requires AllBlank(pre) && AllBlank(post)
    requires x == [] || (!IsTrimmable(x[0]) && !IsTrimmable(x[|x| - 1]))
    ensures Trim(pre + x + post) == x
  {
    var s := pre + x + post;
    if x == [] {
      TrimStartSkips(s, 0, |s|);
      assert s[|s|..|s|] == x;
    } else {
      assert s[|pre|] == x[0];
      TrimStartSkips(s, 0, |pre|);
      assert s[|pre| + |x| - 1] == x[|x| - 1];
      TrimEndSkips(s, |pre|, |s|, |pre| + |x|);
      assert s[|pre|..|pre| + |x|] == x;
    }
  }

  lemma TrimIdempotent(s: string)
    ensures Trim(Trim(s)) == Trim(s)
  {
    TrimMeaning(s);
    TrimPadded([], Trim(s), []);
    assert [] + Trim(s) + [] == Trim(s);
  }

  // ---------------------------------------------------------------------
  // String.split(":")
  // ---------------------------------------------------------------------

  function Colons(k: nat): string { seq(k, _ => ':') }

  function Zeros(k: nat): string { seq(k, _ => '0') }

  function Empties(k: nat): seq<string> { seq(k, _ => "") }

  /** The pieces joined back together with ':' between them. */
  function JoinColons(parts: seq<string>): string
    requires |parts| >= 1
  {
    if |parts| == 1 then parts[0] else parts[0] + [':'] + JoinColons(parts[1..])
  }

  /** s cut at every ':', keeping every piece, empty ones included. */
  function SplitAll(s: string): (parts: seq<string>)
    ensures |parts| >= 1
  {
    if |s| == 0 then
      [""]
    else
      var rest := SplitAll(s[1..]);
      if s[0] == ':' then [""] + rest else [[s[0]] + rest[0]] + rest[1..]
  }

  /** No piece holds a ':', and joining the pieces with ':' gives back s. */
  lemma {:induction false} SplitAllMeaning(s: string)
    ensures forall i :: 0 <= i < |SplitAll(s)| ==> ':' !in SplitAll(s)[i]
    ensures JoinColons(SplitAll(s)) == s
  {
    if |s| > 0 {
      var rest := SplitAll(s[1..]);
      var parts := SplitAll(s);
      SplitAllMeaning(s[1..]);
      assert s == [s[0]] + s[1..];
      if s[0] == ':' {
        assert parts[1..] == rest;
      } else {
        assert |rest| > 1 ==> parts[1..] == rest[1..];
        assert forall i :: 1 <= i < |parts| ==> parts[i] == rest[i];
      }
    }
  }

  /** The trailing empty pieces removed, as split does with its default limit. */
  function DropTrailingEmpty(parts: seq<string>): seq<string>
  {
    if |parts| == 0 || parts[|parts| - 1] != [] then parts else DropTrailingEmpty(parts[..|parts| - 1])
  }

  /** What is left is a prefix ending in a non-empty piece, and everything dropped is empty. */
  lemma {:induction false} DropTrailingEmptyMeaning(parts: seq<string>)
    ensures var r := DropTrailingEmpty(parts);
      && |r| <= |parts| && r == parts[..|r|]
      && (r == [] || r[|r| - 1] != [])
      && (forall i :: |r| <= i < |parts| ==> parts[i] == [])
  {
    if |parts| > 0 && parts[|parts| - 1] == [] {
      DropTrailingEmptyMeaning(parts[..|parts| - 1]);
    }
  }

  /**
   * String.split(":"): with no ':' at all the whole string is the only
   * piece (even when it is empty); otherwise the string is cut at every ':'
   * and trailing empty pieces are dropped.
   */
  function Split(s: string): seq<string>
  {
    if ':' !in s then [s] else DropTrailingEmpty(SplitAll(s))
  }

  lemma {:induction false} SplitAllNoColonPrefix(a: string, rest: string)
    requires ':' !in a
    ensures SplitAll(a + rest) == [a + SplitAll(rest)[0]] + SplitAll(rest)[1..]
  {
    if |a| > 0 {
      assert (a + rest)[1..] == a[1..] + rest;
      assert (a + rest)[0] == a[0];
      SplitAllNoColonPrefix(a[1..], rest);
      var p := SplitAll(rest);
      var tail := SplitAll(a[1..] + rest);
      assert tail[0] == a[1..] + p[0];
      assert tail[1..] == p[1..];
      assert [a[0]] + tail[0] == a + p[0];
    } else {
      var parts := SplitAll(rest);
      assert a + rest == rest;
      assert a + parts[0] == parts[0];
      assert [parts[0]] + parts[1..] == parts;
    }
  }

  lemma {:induction false} SplitAllColons(k: nat)
    ensures SplitAll(Colons(k)) == Empties(k + 1)
  {
    if k > 0 {
      assert Colons(k)[1..] == Colons(k - 1);
      SplitAllColons(k - 1);
    }
  }

  lemma {:induction false} JoinEmpties(x: string, k: nat)
    ensures JoinColons([x] + Empties(k)) == x + Colons(k)
    decreases k
  {
    if k > 0 {
      assert ([x] + Empties(k))[1..] == [""] + Empties(k - 1);
      JoinEmpties("", k - 1);
      assert Colons(k) == [':'] + Colons(k - 1);
    } else {
      assert [x] + Empties(k) == [x];
      assert x + Colons(k) == x;
    }
  }

  /** When split yields exactly two fields, the string is those fields around one ':', then only ':'s. */
  lemma TwoFieldsOfSplit(s: string)
    requires |Split(s)| == 2
    ensures |SplitAll(s)| >= 2
    ensures s == Split(s)[0] + [':'] + Split(s)[1] + Colons(|SplitAll(s)| - 2)
  {
    var parts := SplitAll(s);
    var r := Split(s);
    assert ':' in s;
    DropTrailingEmptyMeaning(parts);
    SplitAllMeaning(s);
    var k := |parts| - 2;
    assert parts == r + Empties(k);
    JoinEmpties(r[1], k);
    assert (r + Empties(k))[1..] == [r[1]] + Empties(k);
  }

  /** Colon-free fields joined with ':' and followed by k more ':'s are cut back into the fields and k empty pieces. */
  lemma {:induction false} SplitAllJoin(fields: seq<string>, k: nat)
    requires |fields| >= 1 && forall i :: 0 <= i < |fields| ==> ':' !in fields[i]
    ensures SplitAll(JoinColons(fields) + Colons(k)) == fields + Empties(k)
  {
    var f := fields[0];
    SplitAllColons(k);
    assert Empties(k + 1)[1..] == Empties(k) && Empties(k + 1)[0] == "";
    if |fields| == 1 {
      SplitAllNoColonPrefix(f, Colons(k));
      assert f + "" == f;
    } else {
      var r := JoinColons(fields[1..]) + Colons(k);
      var t := [':'] + r;
      assert t[0] == ':' && t[1..] == r;
      SplitAllJoin(fields[1..], k);
      assert SplitAll(t) == [""] + SplitAll(r);
      assert JoinColons(fields) + Colons(k) == f + t;
      SplitAllNoColonPrefix(f, t);
      assert f + "" == f;
      assert fields == [f] + fields[1..];
    }
  }

  /**
   * String.split(":") of colon-free fields joined with ':', the last field
   * non-empty, followed by any number of ':'s, gives back the fields.
   */
  lemma SplitOfFields(fields: seq<string>, k: nat)
    requires |fields| >= 2 && forall i :: 0 <= i < |fields| ==> ':' !in fields[i]
    requires fields[|fields| - 1] != []
    ensures Split(JoinColons(fields) + Colons(k)) == fields
  {
    var s := JoinColons(fields) + Colons(k);
    assert s[|fields[0]|] == ':';
    SplitAllJoin(fields, k);
    DropTrailingEmptyMeaning(fields + Empties(k));
    var r := DropTrailingEmpty(fields + Empties(k));
    assert (fields + Empties(k))[|fields| - 1] != [];
    assert forall i :: |fields| <= i < |fields| + k ==> (fields + Empties(k))[i] == [];
  }

  /** A name, one ':', a non-empty cost text and any number of trailing ':' split into exactly the two fields. */
  lemma SplitTwoFields(a: string, b: string, k: nat)
    requires ':' !in a && ':' !in b && b != []
    ensures Split(a + [':'] + b + Colons(k)) == [a, b]
  {
    assert [a, b][1..] == [b];
    SplitOfFields([a, b], k);
  }

  /** Three fields, the last one non-empty, make three pieces whatever ':'s follow. */
  lemma SplitThreeFields(a: string, b: string, c: string, k: nat)
    requires ':' !in a && ':' !in b && ':' !in c && c != []
    ensures Split(a + [':'] + b + [':'] + c + Colons(k)) == [a, b, c]
  {
    assert [a, b, c][1..] == [b, c] && [b, c][1..] == [c];
    assert JoinColons([c]) == c;
    assert JoinColons([b, c]) == b + [':'] + c;
    assert JoinColons([a, b, c]) == a + [':'] + (b + [':'] + c);
    assert a + [':'] + b + [':'] + c + Colons(k) == JoinColons([a, b, c]) + Colons(k);
    SplitOfFields([a, b, c], k);
  }

  /** A field followed only by ':'s splits into that field alone, or into nothing when it is empty. */
  lemma SplitFieldThenColons(a: string, k: nat)
    requires ':' !in a && k >= 1
    ensures Split(a + Colons(k)) == if a == [] then [] else [a]
  {
    var s := a + Colons(k);
    assert s[|a|] == ':';
    SplitAllJoin([a], k);
    DropTrailingEmptyMeaning([a] + Empties(k));
    var parts := [a] + Empties(k);
    var r := DropTrailingEmpty(parts);
    assert forall i :: 1 <= i < |parts| ==> parts[i] == [];
    if a == [] {
      assert forall i :: 0 <= i < |parts| ==> parts[i] == [];
      assert r == [];
    } else {
      assert parts[0] == a;
      assert |r| >= 1;
      assert r == parts[..1] == [a];
    }
  }
}
