/**
  Values that are written in different ways: which spellings of numbers, IPv4 addresses and nets, hardware
  addresses and IPv6 nets `val_cmp` takes for equal.
*/
module Spellings {
  import opened Options
  import opened LexOrder
  import opened Ipv6Text
  import opened Ipv6Scan
  import opened Ipv6Nets
  import opened ValueCompare

  // ----- numerals

  /** A number of digits. */
  predicate HasDigits(base: int, s: string) {
    s != "" && forall i :: 0 <= i < |s| ==> IsDigit(base, s[i])
  }

  /** A numeral whose value an unsigned 32-bit integer can hold. */
  predicate IsNumeral(base: int, s: string) {
    HasDigits(base, s) && Numeral(base, s) < 0x1_0000_0000
  }

  predicate AreNumerals(base: int, ds: seq<string>) {
    forall i :: 0 <= i < |ds| ==> IsNumeral(base, ds[i])
  }

  /** The numerals with the first separators between them. */
  function Written(ds: seq<string>, seps: string): string
    requires 1 <= |ds| <= |seps| + 1
  {
    if |ds| == 1 then ds[0] else ds[0] + ([seps[0]] + Written(ds[1..], seps[1..]))
  }

  function NumeralValues(base: int, ds: seq<string>): (r: seq<int>)
    ensures |r| == |ds|
  {
    seq(|ds|, i requires 0 <= i < |ds| => Numeral(base, ds[i]))
  }

  lemma {:induction false} RunOfNumeral(base: int, d: string, rest: string)
    requires forall i :: 0 <= i < |d| ==> IsDigit(base, d[i])
    requires rest == "" || !IsDigit(base, rest[0])
    ensures DigitRun(base, d + rest) == |d|
    decreases |d|
  {
    var s := d + rest;
    if d == "" {
      assert s == rest;
    } else {
      assert s[0] == d[0] && s[1..] == d[1..] + rest;
      RunOfNumeral(base, d[1..], rest);
    }
  }

  predicate AreSeparators(base: int, seps: string) {
    forall i :: 0 <= i < |seps| ==> !IsDigit(base, seps[i])
  }

  /** What follows is no digit, and not the separator that the format expects. */
  predicate EndsFields(base: int, seps: string, n: nat, rest: string)
    requires 1 <= n <= |seps| + 1
  {
    rest == "" || (!IsDigit(base, rest[0]) && (n <= |seps| ==> rest[0] != seps[n - 1]))
  }

  /** Numerals with the separators of the format are read as exactly their values; reading ends where they end. */
  lemma {:induction false} FieldsOfNumerals(base: int, seps: string, ds: seq<string>, rest: string)
    requires 1 <= |ds| <= |seps| + 1 && AreNumerals(base, ds) && AreSeparators(base, seps)
    requires EndsFields(base, seps, |ds|, rest)
    ensures Fields(base, seps, Written(ds, seps) + rest) == NumeralValues(base, ds)
    decreases |ds|
  {
    var d := ds[0];
    assert IsNumeral(base, d);
    if |ds| == 1 {
      RunOfNumeral(base, d, rest);
      LastField(base, seps, d, rest);
    } else {
      var more := Written(ds[1..], seps[1..]) + rest;
      RunOfNumeral(base, d, [seps[0]] + more);
      FieldsOfNumerals(base, seps[1..], ds[1..], rest);
      WrittenFirst(ds, seps, rest);
      FirstField(base, seps, d, more);
      FirstValue(base, ds);
    }
  }

  lemma WrittenFirst(ds: seq<string>, seps: string, rest: string)
    requires 2 <= |ds| <= |seps| + 1
    ensures Written(ds, seps) + rest == ds[0] + ([seps[0]] + (Written(ds[1..], seps[1..]) + rest))
  {
  }

  lemma LastField(base: int, seps: string, d: string, rest: string)
    requires d != "" && DigitRun(base, d + rest) == |d| && EndsFields(base, seps, 1, rest)
    ensures Fields(base, seps, d + rest) == [Numeral(base, d)]
  {
    var s := d + rest;
    assert s[..|d|] == d && (rest != "" ==> s[|d|] == rest[0]);
  }

  lemma FirstValue(base: int, ds: seq<string>)
    requires ds != []
    ensures NumeralValues(base, ds) == [Numeral(base, ds[0])] + NumeralValues(base, ds[1..])
  {
  }

  lemma FirstField(base: int, seps: string, d: string, rest: string)
    requires seps != "" && d != "" && DigitRun(base, d + ([seps[0]] + rest)) == |d|
    ensures Fields(base, seps, d + ([seps[0]] + rest)) == [Numeral(base, d)] + Fields(base, seps[1..], rest)
  {
    var s := d + ([seps[0]] + rest);
    assert s[..|d|] == d && s[|d|] == seps[0] && s[|d| + 1..] == rest;
  }

  lemma SeparatorsOfType(t: ValueType)
    requires IsNumeric(t)
    ensures AreSeparators(Base(t), Separators(t)) && |Separators(t)| + 1 == NumParts(t)
  {
  }

  /** A value of a numeric type is compared by its numbers; missing ones count as zero. */
  lemma KeyOfNumerals(t: ValueType, ds: seq<string>)
    requires IsNumeric(t) && 1 <= |ds| <= NumParts(t) && AreNumerals(Base(t), ds)
    ensures |Separators(t)| + 1 == NumParts(t) && WellFormed(t, Written(ds, Separators(t)))
    ensures Key(t, Written(ds, Separators(t))) == NumeralValues(Base(t), ds) + Zeros(NumParts(t) - |ds|)
  {
    SeparatorsOfType(t);
    FieldsOfWritten(t, ds);
    KeyOfFields(t, Written(ds, Separators(t)), NumeralValues(Base(t), ds));
  }

  lemma FieldsOfWritten(t: ValueType, ds: seq<string>)
    requires IsNumeric(t) && 1 <= |ds| <= NumParts(t) && AreNumerals(Base(t), ds)
    ensures |Separators(t)| + 1 == NumParts(t)
    ensures FieldsOf(t, Written(ds, Separators(t))) == NumeralValues(Base(t), ds)
  {
    SeparatorsOfType(t);
    FieldsOfNumerals(Base(t), Separators(t), ds, "");
    assert Written(ds, Separators(t)) + "" == Written(ds, Separators(t));
  }

  lemma KeyOfFields(t: ValueType, s: string, vals: seq<int>)
    requires IsNumeric(t) && FieldsOf(t, s) == vals && 1 <= |vals| <= NumParts(t)
    ensures WellFormed(t, s) && Key(t, s) == vals + Zeros(NumParts(t) - |vals|)
  {
  }

  // ----- when two numerals have the same value

  function Digits(s: string): (r: seq<int>)
    ensures |r| == |s|
  {
    seq(|s|, i requires 0 <= i < |s| => DigitOf(s[i]))
  }

  function WithoutZeros(ds: seq<int>): seq<int> {
    if ds != [] && ds[0] == 0 then WithoutZeros(ds[1..]) else ds
  }

  /** The value of a sequence of digits. */
  function Value(base: int, ds: seq<int>): int {
    if ds == [] then 0 else Value(base, ds[..|ds| - 1]) * base + ds[|ds| - 1]
  }

  predicate AreDigits(base: int, ds: seq<int>) {
    forall i :: 0 <= i < |ds| ==> 0 <= ds[i] < base
  }

  lemma {:induction false} NumeralIsValue(base: int, s: string)
    ensures Numeral(base, s) == Value(base, Digits(s))
  {
    if s != "" {
      NumeralIsValue(base, s[..|s| - 1]);
      assert Digits(s)[..|s| - 1] == Digits(s[..|s| - 1]);
    }
  }

  lemma {:induction false} ZeroInFront(base: int, ds: seq<int>)
    ensures Value(base, [0] + ds) == Value(base, ds)
  {
    var z := [0] + ds;
    if ds == [] {
      assert z[..0] == [];
    } else {
      ZeroInFront(base, ds[..|ds| - 1]);
      assert z[..|z| - 1] == [0] + ds[..|ds| - 1];
    }
  }

  lemma {:induction false} WithoutZerosIs(base: int, ds: seq<int>)
    ensures Value(base, WithoutZeros(ds)) == Value(base, ds)
    ensures WithoutZeros(ds) != [] ==> WithoutZeros(ds)[0] != 0
    ensures AreDigits(base, ds) ==> AreDigits(base, WithoutZeros(ds))
  {
    if ds != [] && ds[0] == 0 {
      WithoutZerosIs(base, ds[1..]);
      assert [0] + ds[1..] == ds;
      ZeroInFront(base, ds[1..]);
    }
  }

  lemma {:induction false} ValueIsPositive(base: int, ds: seq<int>)
    requires base >= 2 && AreDigits(base, ds)
    ensures Value(base, ds) >= 0
    ensures ds != [] && ds[0] != 0 ==> Value(base, ds) > 0
  {
    if ds != [] {
      var front := ds[..|ds| - 1];
      ValueIsPositive(base, front);
      assert front == [] || front[0] == ds[0];
      Positive(Value(base, front), base, ds[|ds| - 1]);
    }
  }

  lemma Positive(v: int, base: int, d: int)
    requires v >= 0 && base >= 2 && d >= 0
    ensures v * base + d >= 0
    ensures v > 0 || d > 0 ==> v * base + d > 0
  {
  }

  lemma SameDivision(v: int, w: int, base: int, d: int, e: int)
    requires base in {10, 16} && 0 <= d < base && 0 <= e < base && v * base + d == w * base + e
    ensures v == w && d == e
  {
    if base == 10 {
      assert v * 10 + d == w * 10 + e;
    } else {
      assert v * 16 + d == w * 16 + e;
    }
  }

  /** Without zeros in front, a value has only one sequence of digits. */
  lemma {:induction false} DigitsAreUnique(base: int, ds: seq<int>, es: seq<int>)
    requires base in {10, 16} && AreDigits(base, ds) && AreDigits(base, es)
    requires (ds == [] || ds[0] != 0) && (es == [] || es[0] != 0)
    ensures Value(base, ds) == Value(base, es) <==> ds == es
    decreases |ds|
  {
    ValueIsPositive(base, ds);
    ValueIsPositive(base, es);
    if ds != [] && es != [] && Value(base, ds) == Value(base, es) {
      var d, e := ds[..|ds| - 1], es[..|es| - 1];
      SameDivision(Value(base, d), Value(base, e), base, ds[|ds| - 1], es[|es| - 1]);
      DigitsAreUnique(base, d, e);
      assert ds == d + [ds[|ds| - 1]] && es == e + [es[|es| - 1]];
    }
  }

  function StripZeros(s: string): (r: string)
    ensures r == s || |r| < |s|
  {
    if s != "" && s[0] == '0' then StripZeros(s[1..]) else s
  }

  /** The same characters, apart from zeros in front and from the case of letters. */
  predicate SameNumeral(s: string, t: string) {
    Recased(StripZeros(s), StripZeros(t))
  }

  lemma {:induction false} StrippedDigits(s: string)
    requires forall i :: 0 <= i < |s| ==> IsHex(s[i])
    ensures forall i :: 0 <= i < |StripZeros(s)| ==> IsHex(StripZeros(s)[i])
    ensures Digits(StripZeros(s)) == WithoutZeros(Digits(s))
  {
    if s != "" {
      PlaceOfDigit(s[0]);
      assert Digits(s)[1..] == Digits(s[1..]);
      if s[0] == '0' {
        StrippedDigits(s[1..]);
      }
    }
  }

  lemma SameDigitsIff(s: string, t: string)
    requires forall i :: 0 <= i < |s| ==> IsHex(s[i])
    requires forall i :: 0 <= i < |t| ==> IsHex(t[i])
    ensures Digits(s) == Digits(t) <==> Recased(s, t)
  {
    if |s| == |t| {
      forall i | 0 <= i < |s|
        ensures Digits(s)[i] == Digits(t)[i] <==> SameLetter(s[i], t[i])
      {
        SameLetterIff(s[i], t[i]);
      }
      if Digits(s) == Digits(t) {
        forall i | 0 <= i < |s|
          ensures SameLetter(s[i], t[i])
        {
          assert Digits(s)[i] == Digits(t)[i];
        }
      }
    } else {
      assert |Digits(s)| == |s| && |Digits(t)| == |t|;
    }
  }

  lemma NumeralsAreEqualIff(base: int, s: string, t: string)
    requires base in {10, 16} && HasDigits(base, s) && HasDigits(base, t)
    ensures Numeral(base, s) == Numeral(base, t) <==> SameNumeral(s, t)
  {
    NumeralIsValue(base, s);
    NumeralIsValue(base, t);
    DigitsInBase(base, s);
    DigitsInBase(base, t);
    WithoutZerosIs(base, Digits(s));
    WithoutZerosIs(base, Digits(t));
    DigitsAreUnique(base, WithoutZeros(Digits(s)), WithoutZeros(Digits(t)));
    AllHex(base, s);
    AllHex(base, t);
    StrippedDigits(s);
    StrippedDigits(t);
    SameDigitsIff(StripZeros(s), StripZeros(t));
  }

  lemma AllHex(base: int, s: string)
    requires base in {10, 16} && HasDigits(base, s)
    ensures forall i :: 0 <= i < |s| ==> IsHex(s[i])
  {
    forall i | 0 <= i < |s|
      ensures IsHex(s[i])
    {
      assert IsDigit(base, s[i]);
    }
  }

  lemma DigitsInBase(base: int, s: string)
    requires base in {10, 16} && HasDigits(base, s)
    ensures AreDigits(base, Digits(s))
  {
    forall i | 0 <= i < |s|
      ensures 0 <= Digits(s)[i] < base
    {
      assert IsDigit(base, s[i]);
    }
  }

  /**
    Two values of a numeric type are equal if and only if all their numbers have the same digits, apart from zeros in
    front and from the case of letters; in general, a condition is that relation of the numbers.
  */
  lemma NumericSpellingsAreEqualIff(t: ValueType, ds: seq<string>, es: seq<string>)
    requires IsNumeric(t) && |ds| == |es| == NumParts(t) && AreNumerals(Base(t), ds) && AreNumerals(Base(t), es)
    ensures |Separators(t)| + 1 == NumParts(t)
    ensures var x, y := Written(ds, Separators(t)), Written(es, Separators(t));
            && WellFormed(t, x) && WellFormed(t, y)
            && (Related(t, EQ, x, y) <==> forall i :: 0 <= i < |ds| ==> SameNumeral(ds[i], es[i]))
            && forall cond :: Related(t, cond, x, y) <==>
                              Means(cond, Lex(NumeralValues(Base(t), ds), NumeralValues(Base(t), es)))
  {
    var b := Base(t);
    KeyOfNumerals(t, ds);
    KeyOfNumerals(t, es);
    var x, y := Written(ds, Separators(t)), Written(es, Separators(t));
    assert Key(t, x) == NumeralValues(b, ds) && Key(t, y) == NumeralValues(b, es);
    forall cond {
      RelatedByKey(t, cond, x, y);
    }
    LexIsZeroIffEqual(NumeralValues(b, ds), NumeralValues(b, es));
    SameValuesIff(b, ds, es);
  }

  lemma SameValuesIff(base: int, ds: seq<string>, es: seq<string>)
    requires base in {10, 16} && |ds| == |es| && AreNumerals(base, ds) && AreNumerals(base, es)
    ensures NumeralValues(base, ds) == NumeralValues(base, es) <==>
            forall i :: 0 <= i < |ds| ==> SameNumeral(ds[i], es[i])
  {
    forall i | 0 <= i < |ds|
      ensures NumeralValues(base, ds)[i] == NumeralValues(base, es)[i] <==> SameNumeral(ds[i], es[i])
    {
      NumeralsAreEqualIff(base, ds[i], es[i]);
    }
  }

  // ----- IPv6 nets

  /** Two IPv6 nets are equal if and only if the scanner reads the same nine numbers. */
  lemma NetsCompareByReading(a: Address, b: Address)
    requires ValidAddress(a) && ValidAddress(b) && a.prefix.Some? && b.prefix.Some?
    ensures WellFormed(Ipv6NetType, Text(a)) && WellFormed(Ipv6NetType, Text(b))
    ensures NumbersOf(a).Valid() && NumbersOf(b).Valid()
    ensures Related(Ipv6NetType, EQ, Text(a), Text(b)) <==> NetRead(NumbersOf(a)) == NetRead(NumbersOf(b))
  {
    KeyOfNet(a);
    KeyOfNet(b);
    EqualIffSameKey(Ipv6NetType, Text(a), Text(b));
  }

  lemma WholeKey(r: seq<int>)
    requires |r| == PARTS
    ensures r[..NumParts(Ipv6NetType)] == r
  {
  }

  lemma KeyOfNet(a: Address)
    requires ValidAddress(a) && a.prefix.Some?
    ensures WellFormed(Ipv6NetType, Text(a)) && NumbersOf(a).Valid()
    ensures Key(Ipv6NetType, Text(a)) == NetRead(NumbersOf(a))
  {
    KeyOfSpelling(Ipv6NetType, a);
    ScannedNet(Zeros(PARTS), a);
    WholeKey(Scanned(Zeros(PARTS), a));
  }

  /**
    Two spellings of one net compare as equal if and only if both are read rightly, or both wrongly in the same way.
    In particular, a spelling with a dotted quad equals one without if and only if it hides the extra merge.
  */
  lemma SameNetIsEqualIff(a: Address, b: Address)
    requires ValidAddress(a) && ValidAddress(b) && a.prefix.Some? && b.prefix.Some?
    ensures WellFormed(Ipv6NetType, Text(a)) && WellFormed(Ipv6NetType, Text(b))
    ensures NumbersOf(a).Valid() && NumbersOf(b).Valid()
    ensures NumbersOf(a).All() == NumbersOf(b).All() ==>
              (Related(Ipv6NetType, EQ, Text(a), Text(b)) <==> ReadAlike(NumbersOf(a), NumbersOf(b)))
  {
    NetsCompareByReading(a, b);
    if NumbersOf(a).All() == NumbersOf(b).All() {
      SameNetIsReadAlikeIff(NumbersOf(a), NumbersOf(b));
    }
  }

  /** Where both spellings are read rightly, they are equal if and only if they are the same net. */
  lemma SoundNetsAreEqualIff(a: Address, b: Address)
    requires ValidAddress(a) && ValidAddress(b) && a.prefix.Some? && b.prefix.Some?
    requires NumbersOf(a).Valid() && NumbersOf(b).Valid() && Sound(NumbersOf(a)) && Sound(NumbersOf(b))
    ensures WellFormed(Ipv6NetType, Text(a)) && WellFormed(Ipv6NetType, Text(b))
    ensures Related(Ipv6NetType, EQ, Text(a), Text(b)) <==> NumbersOf(a).All() == NumbersOf(b).All()
  {
    NetsCompareByReading(a, b);
    ReadsAllIffSound(NumbersOf(a));
    ReadsAllIffSound(NumbersOf(b));
  }

  // ----- the case of letters

  /** Letters of the other case leave the same numbers, and the two spellings are equal. */
  lemma RecasedIsEqual(a: Address, b: Address)
    requires ValidAddress(a) && RecasedAddress(a, b)
    ensures ValidAddress(b)
    ensures var t := if a.prefix.Some? then Ipv6NetType else Ipv6Type;
            WellFormed(t, Text(a)) && WellFormed(t, Text(b)) && Related(t, EQ, Text(a), Text(b))
  {
    RecasedNumbers(a, b);
    if a.prefix.Some? {
      NetsCompareByReading(a, b);
    } else {
      SpellingsAreEqualIff(a, b);
    }
  }

  /** And the scanner leaves the same numbers in the array. */
  lemma RecasedScansAlike(parts: seq<int>, parts': seq<int>, a: Address, b: Address)
    requires |parts| == PARTS && |parts'| == PARTS && ValidAddress(a) && RecasedAddress(a, b)
    ensures ValidAddress(b)
    ensures var n := if a.prefix.Some? then 9 else 8; Scanned(parts, a)[..n] == Scanned(parts', b)[..n]
  {
    RecasedNumbers(a, b);
    if a.prefix.Some? {
      ScannedNet(parts, a);
      ScannedNet(parts', b);
    } else {
      SpellingsAgree(parts, parts', a, b);
    }
  }

  const LINK_LOCAL := Address(["FE80"], true, ["1"], None, None)

  /** The groups of `FE80::1`. */
  lemma UpperCaseIsRead(parts: seq<int>)
    requires |parts| == PARTS
    ensures Text(LINK_LOCAL) == "FE80::1" && ValidAddress(LINK_LOCAL)
    ensures Scanned(parts, LINK_LOCAL)[..8] == [0xFE80, 0, 0, 0, 0, 0, 0, 1]
  {
    assert Head(LINK_LOCAL) == "FE80::" && Body(LINK_LOCAL) == "1" && End(LINK_LOCAL) == "";
    ThreeDigits(16, "FE8");
    assert "FE80"[..3] == "FE8";
    OneDigit(16, "1");
    var n := NumbersOf(LINK_LOCAL);
    assert Numeral(16, "FE80") == 0xFE80;
    assert n.pre == [0xFE80] && n.post == [1];
    ScanIsCorrectIff(parts, LINK_LOCAL);
    assert n.All() == [0xFE80, 0, 0, 0, 0, 0, 0, 1];
  }

  // ----- nets for which the comparison goes wrong

  const GROUPED_NET := Address(["1"], true, ["203", "405"], None, Some("64"))
  const SHIFTED_NET := Address(["1"], true, [], Some(Quad("2", "3", "0", "0")), Some("16"))
  const OTHER_NET := Address(["1"], true, ["203"], None, Some("16"))

  lemma GroupedText()
    ensures Text(GROUPED_NET) == "1::203:405/64"
  {
    assert Colons(["203"]) == "203:" by {
      assert ["203"][1..] == [];
    }
    assert GROUPED_NET.post[..1] == ["203"];
    assert Head(GROUPED_NET) == "1::" && Body(GROUPED_NET) == "203:405" && End(GROUPED_NET) == "/64";
  }

  lemma ShiftedText()
    ensures Text(SHIFTED_NET) == "1::2.3.0.0/16"
  {
    assert Head(SHIFTED_NET) == "1::" && Body(SHIFTED_NET) == "2.3.0.0" && End(SHIFTED_NET) == "/16";
  }

  lemma OtherText()
    ensures Text(OTHER_NET) == "1::203/16"
  {
    assert Head(OTHER_NET) == "1::" && Body(OTHER_NET) == "203" && End(OTHER_NET) == "/16";
  }

  lemma Octets(x: string, y: string)
    requires |x| == |y| == 1
    ensures Decimal(x) * 256 + Decimal(y) == DigitOf(x[0]) * 256 + DigitOf(y[0])
  {
    OneDigit(10, x);
    OneDigit(10, y);
  }

  lemma QuadNumbers(q: Quad, p: string, x: int, y: int)
    requires |q.a| == |q.b| == |q.c| == |q.d| == 1 && |p| == 2
    requires x == DigitOf(q.a[0]) * 256 + DigitOf(q.b[0]) && y == DigitOf(q.c[0]) * 256 + DigitOf(q.d[0])
    ensures NumbersOf(Address(["1"], true, [], Some(q), Some(p))) ==
              Numbers([1], true, [], [x, y], [DigitOf(p[0]) * 10 + DigitOf(p[1])])
  {
    Octets(q.a, q.b);
    Octets(q.c, q.d);
    TwoDigits(10, p);
    OneDigit(16, "1");
    assert Values(["1"]) == [1] && Values([]) == [];
  }

  lemma GroupNumbers(gs: seq<string>, p: string, vals: seq<int>)
    requires |p| == 2 && Values(gs) == vals
    ensures NumbersOf(Address(["1"], true, gs, None, Some(p))) ==
              Numbers([1], true, vals, [], [DigitOf(p[0]) * 10 + DigitOf(p[1])])
  {
    TwoDigits(10, p);
    OneDigit(16, "1");
    assert Values(["1"]) == [1];
  }

  lemma GroupValues()
    ensures Values(["203", "405"]) == [515, 1029] && Values(["203"]) == [515]
  {
    ThreeDigits(16, "203");
    ThreeDigits(16, "405");
  }

  lemma UnlikeReadings()
    ensures var m, n := Numbers([1], true, [], [515, 1029], [64]), Numbers([1], true, [515, 1029], [], [64]);
            m.Valid() && n.Valid() && m.All() == n.All() && !ReadAlike(m, n)
  {
  }

  lemma LikeReadings()
    ensures var m, n := Numbers([1], true, [], [515, 0], [16]), Numbers([1], true, [515], [], [16]);
            m.Valid() && n.Valid() && m.All() != n.All() && NetRead(m) == NetRead(n)
  {
    var m, n := Numbers([1], true, [], [515, 0], [16]), Numbers([1], true, [515], [], [16]);
    var g := [1, 0, 0, 0, 0, 0, 515, 0];
    assert m.Groups() == g;
    assert g[..1] == [1] && g[1..7] == [0, 0, 0, 0, 0, 515];
    assert MovedFrom(g, 1) == [1, 0, 0, 0, 0, 0, 0, 515];
    assert NetRead(m) == MovedFrom(g, 1) + [16];
    assert n.Groups() == [1, 0, 0, 0, 0, 0, 0, 515];
    assert NetRead(n) == n.Groups() + [16];
    assert m.All()[7] == 0 && n.All()[7] == 515;
  }

  /** `1::2.3.4.5/64` and `1::203:405/64` are the same net and compare as different. */
  lemma SameNetComparesUnequal()
    ensures Text(MAPPED_NET) == "1::2.3.4.5/64" && Text(GROUPED_NET) == "1::203:405/64"
    ensures WellFormed(Ipv6NetType, Text(MAPPED_NET)) && WellFormed(Ipv6NetType, Text(GROUPED_NET))
    ensures NumbersOf(MAPPED_NET).Valid() && NumbersOf(GROUPED_NET).Valid()
    ensures NumbersOf(MAPPED_NET).All() == NumbersOf(GROUPED_NET).All()
    ensures !Related(Ipv6NetType, EQ, Text(MAPPED_NET), Text(GROUPED_NET))
  {
    MappedNetText();
    GroupedText();
    QuadNumbers(MAPPED_NET.tail.value, "64", 515, 1029);
    GroupValues();
    GroupNumbers(["203", "405"], "64", [515, 1029]);
    UnlikeReadings();
    SameNetIsEqualIff(MAPPED_NET, GROUPED_NET);
  }

  /** `1::2.3.0.0/16` and `1::203/16` are different nets and compare as equal. */
  lemma DifferentNetsCompareEqual()
    ensures Text(SHIFTED_NET) == "1::2.3.0.0/16" && Text(OTHER_NET) == "1::203/16"
    ensures WellFormed(Ipv6NetType, Text(SHIFTED_NET)) && WellFormed(Ipv6NetType, Text(OTHER_NET))
    ensures NumbersOf(SHIFTED_NET).Valid() && NumbersOf(OTHER_NET).Valid()
    ensures NumbersOf(SHIFTED_NET).All() != NumbersOf(OTHER_NET).All()
    ensures Related(Ipv6NetType, EQ, Text(SHIFTED_NET), Text(OTHER_NET))
  {
    ShiftedText();
    OtherText();
    QuadNumbers(SHIFTED_NET.tail.value, "16", 515, 0);
    GroupValues();
    GroupNumbers(["203"], "16", [515]);
    LikeReadings();
    NetsCompareByReading(SHIFTED_NET, OTHER_NET);
  }
}
