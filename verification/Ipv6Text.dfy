/**
  IPv6 addresses and prefixes: how they are written (section 3.2.2 of RFC 3986) and which
  numbers they stand for (section 2.2 of RFC 4291).
*/
module Ipv6Text {
  import opened Options

  /** The last four octets in decimal. */
  datatype Quad = Quad(a: string, b: string, c: string, d: string)

  /**
    Without compression all groups are in `post`. With compression `::` stands between `pre`
    and `post`. The last two groups may be a dotted quad, and a prefix length may follow.
  */
  datatype Address = Address(pre: seq<string>, compressed: bool, post: seq<string>, tail: Option<Quad>,
                             prefix: Option<string>)

  predicate IsDecimal(c: char) {
    '0' <= c <= '9'
  }

  predicate IsHex(c: char) {
    IsDecimal(c) || 'a' <= c <= 'f' || 'A' <= c <= 'F'
  }

  predicate IsGroup(s: string) {
    1 <= |s| <= 4 && forall i :: 0 <= i < |s| ==> IsHex(s[i])
  }

  predicate IsShortDecimal(s: string) {
    1 <= |s| <= 3 && forall i :: 0 <= i < |s| ==> IsDecimal(s[i])
  }

  predicate AreGroups(gs: seq<string>) {
    forall i :: 0 <= i < |gs| ==> IsGroup(gs[i])
  }

  predicate IsQuad(q: Quad) {
    IsShortDecimal(q.a) && IsShortDecimal(q.b) && IsShortDecimal(q.c) && IsShortDecimal(q.d)
  }

  function TailGroups(a: Address): nat {
    if a.tail.Some? then 2 else 0
  }

  predicate ValidAddress(a: Address) {
    && AreGroups(a.pre) && AreGroups(a.post)
    && (a.tail.Some? ==> IsQuad(a.tail.value))
    && (a.prefix.Some? ==> IsShortDecimal(a.prefix.value))
    && if a.compressed then |a.pre| + |a.post| + TailGroups(a) <= 7
       else a.pre == [] && |a.post| + TailGroups(a) == 8
  }

  // ----- text

  /** Each group followed by a colon. */
  function Colons(gs: seq<string>): string {
    if gs == [] then "" else gs[0] + ":" + Colons(gs[1..])
  }

  function Head(a: Address): string {
    if !a.compressed then ""
    else if a.pre == [] then "::"
    else Colons(a.pre[..|a.pre| - 1]) + a.pre[|a.pre| - 1] + "::"
  }

  function QuadText(q: Quad): string {
    q.a + "." + q.b + "." + q.c + "." + q.d
  }

  function Body(a: Address): string {
    if a.tail.Some? then Colons(a.post) + QuadText(a.tail.value)
    else if a.post == [] then ""
    else Colons(a.post[..|a.post| - 1]) + a.post[|a.post| - 1]
  }

  function End(a: Address): string {
    if a.prefix.Some? then "/" + a.prefix.value else ""
  }

  function Text(a: Address): string {
    Head(a) + (Body(a) + End(a))
  }

  // ----- numbers

  function DigitOf(c: char): int {
    if IsDecimal(c) then c as int - '0' as int
    else if 'A' <= c <= 'Z' then c as int - 'A' as int + 10
    else c as int - 'a' as int + 10
  }

  const LOWER := "0123456789abcdef"
  const UPPER := "0123456789ABCDEF"

  /** The value of a digit is its place among the digits, in either case. */
  lemma DigitAtPlace(i: nat)
    requires i < 16
    ensures IsHex(LOWER[i]) && DigitOf(LOWER[i]) == i
    ensures IsHex(UPPER[i]) && DigitOf(UPPER[i]) == i
    ensures IsDecimal(LOWER[i]) <==> i < 10
  {
  }

  /** There are no other digits. */
  lemma PlaceOfDigit(c: char)
    requires IsHex(c)
    ensures 0 <= DigitOf(c) < 16 && c in {LOWER[DigitOf(c)], UPPER[DigitOf(c)]}
    ensures IsDecimal(c) <==> DigitOf(c) < 10
  {
  }

  /** The same character, or the same letter of a hexadecimal number in the other case. */
  predicate SameLetter(c: char, d: char) {
    c == d || exists i :: 0 <= i < 16 && c in {LOWER[i], UPPER[i]} && d in {LOWER[i], UPPER[i]}
  }

  lemma SameLetterIff(c: char, d: char)
    requires IsHex(c) && IsHex(d)
    ensures SameLetter(c, d) <==> DigitOf(c) == DigitOf(d)
  {
    PlaceOfDigit(c);
    PlaceOfDigit(d);
    if SameLetter(c, d) && c != d {
      var i :| 0 <= i < 16 && c in {LOWER[i], UPPER[i]} && d in {LOWER[i], UPPER[i]};
      DigitAtPlace(i);
    }
    if DigitOf(c) == DigitOf(d) {
      assert c in {LOWER[DigitOf(c)], UPPER[DigitOf(c)]} && d in {LOWER[DigitOf(c)], UPPER[DigitOf(c)]};
    }
  }

  /** The same text, apart from the case of hexadecimal letters. */
  predicate Recased(s: string, t: string) {
    |s| == |t| && forall i :: 0 <= i < |s| ==> SameLetter(s[i], t[i])
  }

  /** The value of a numeral, most significant digit first. */
  function Numeral(base: int, s: string): int {
    if s == "" then 0 else Numeral(base, s[..|s| - 1]) * base + DigitOf(s[|s| - 1])
  }

  /** One more digit multiplies the value by the base and adds the place of the digit. */
  lemma NumeralStep(base: int, s: string, i: nat)
    requires i < 16
    ensures Numeral(base, "") == 0
    ensures Numeral(base, s + [LOWER[i]]) == Numeral(base, s) * base + i
    ensures Numeral(base, s + [UPPER[i]]) == Numeral(base, s) * base + i
  {
    DigitAtPlace(i);
    assert (s + [LOWER[i]])[..|s|] == s && (s + [UPPER[i]])[..|s|] == s;
  }

  lemma SameLetterSameDigit(c: char, d: char)
    requires IsHex(c) && SameLetter(c, d)
    ensures IsHex(d) && DigitOf(c) == DigitOf(d)
  {
    if c != d {
      var i :| 0 <= i < 16 && c in {LOWER[i], UPPER[i]} && d in {LOWER[i], UPPER[i]};
      DigitAtPlace(i);
    }
  }

  lemma {:induction false} RecasedNumeral(base: int, s: string, t: string)
    requires Recased(s, t) && forall i :: 0 <= i < |s| ==> IsHex(s[i])
    ensures (forall i :: 0 <= i < |t| ==> IsHex(t[i])) && Numeral(base, s) == Numeral(base, t)
  {
    forall i | 0 <= i < |s|
      ensures IsHex(t[i]) && DigitOf(s[i]) == DigitOf(t[i])
    {
      SameLetterSameDigit(s[i], t[i]);
    }
    if s != "" {
      RecasedNumeral(base, s[..|s| - 1], t[..|t| - 1]);
    }
  }

  function Decimal(s: string): int {
    Numeral(10, s)
  }

  function Values(gs: seq<string>): (r: seq<int>)
    ensures |r| == |gs|
  {
    seq(|gs|, i requires 0 <= i < |gs| => Numeral(16, gs[i]))
  }

  function QuadGroups(q: Quad): (r: seq<int>)
    ensures |r| == 2
  {
    [Decimal(q.a) * 256 + Decimal(q.b), Decimal(q.c) * 256 + Decimal(q.d)]
  }

  lemma OneDigit(base: int, s: string)
    requires |s| == 1
    ensures Numeral(base, s) == DigitOf(s[0])
  {
    assert s[..0] == "";
  }

  lemma TwoDigits(base: int, s: string)
    requires |s| == 2
    ensures Numeral(base, s) == DigitOf(s[0]) * base + DigitOf(s[1])
  {
    OneDigit(base, s[..1]);
  }

  lemma ThreeDigits(base: int, s: string)
    requires |s| == 3
    ensures Numeral(base, s) == (DigitOf(s[0]) * base + DigitOf(s[1])) * base + DigitOf(s[2])
  {
    TwoDigits(base, s[..2]);
  }

  // ----- the numbers of an address

  /** An address as numbers; `quad` holds the two groups of the dotted quad. */
  datatype Numbers = Numbers(pre: seq<int>, compressed: bool, post: seq<int>, quad: seq<int>, prefix: seq<int>) {

    predicate Valid() {
      && |quad| in {0, 2} && |prefix| <= 1
      && (forall i :: 0 <= i < |quad| ==> quad[i] >= 0)
      && (forall i :: 0 <= i < |prefix| ==> prefix[i] >= 0)
      && if compressed then |pre| + |post| + |quad| <= 7 else pre == [] && |post| + |quad| == 8
    }

    /** The eight groups. */
    function Groups(): (r: seq<int>)
      requires Valid()
      ensures |r| == 8
    {
      pre + Zeros(8 - |pre| - |post| - |quad|) + post + quad
    }

    /** The groups, and the prefix length if there is one. */
    function All(): (r: seq<int>)
      requires Valid()
      ensures |r| == 8 + |prefix|
    {
      Groups() + prefix
    }

    /** Both a dotted quad and a prefix length. */
    predicate QuadAndPrefix() {
      quad != [] && prefix != []
    }
  }

  function Zeros(n: nat): (r: seq<int>)
    ensures |r| == n && forall i :: 0 <= i < n ==> r[i] == 0
  {
    seq(n, _ => 0)
  }

  function NumbersOf(a: Address): Numbers {
    Numbers(Values(a.pre), a.compressed, Values(a.post),
            if a.tail.Some? then QuadGroups(a.tail.value) else [],
            if a.prefix.Some? then [Decimal(a.prefix.value)] else [])
  }

  lemma ShortDecimalRange(s: string)
    requires IsShortDecimal(s)
    ensures 0 <= Decimal(s) <= 999
  {
    if |s| == 1 {
      OneDigit(10, s);
    } else if |s| == 2 {
      TwoDigits(10, s);
    } else {
      ThreeDigits(10, s);
    }
  }

  lemma NumbersAreValid(a: Address)
    requires ValidAddress(a)
    ensures NumbersOf(a).Valid()
  {
    if a.tail.Some? {
      var q := a.tail.value;
      ShortDecimalRange(q.a);
      ShortDecimalRange(q.b);
      ShortDecimalRange(q.c);
      ShortDecimalRange(q.d);
    }
    if a.prefix.Some? {
      ShortDecimalRange(a.prefix.value);
    }
  }

  // ----- the case of letters does not matter

  predicate RecasedGroups(gs: seq<string>, hs: seq<string>) {
    |gs| == |hs| && forall i :: 0 <= i < |gs| ==> Recased(gs[i], hs[i])
  }

  /** The same address, written with other cases of letters. */
  predicate RecasedAddress(a: Address, b: Address) {
    && RecasedGroups(a.pre, b.pre) && RecasedGroups(a.post, b.post)
    && a.compressed == b.compressed && a.tail == b.tail && a.prefix == b.prefix
  }

  lemma RecasedValues(gs: seq<string>, hs: seq<string>)
    requires AreGroups(gs) && RecasedGroups(gs, hs)
    ensures AreGroups(hs) && Values(gs) == Values(hs)
  {
    forall i | 0 <= i < |gs|
      ensures IsGroup(hs[i]) && Values(gs)[i] == Values(hs)[i]
    {
      assert IsGroup(gs[i]) && Recased(gs[i], hs[i]);
      RecasedNumeral(16, gs[i], hs[i]);
    }
  }

  lemma RecasedNumbers(a: Address, b: Address)
    requires ValidAddress(a) && RecasedAddress(a, b)
    ensures ValidAddress(b) && NumbersOf(a) == NumbersOf(b)
  {
    RecasedValues(a.pre, b.pre);
    RecasedValues(a.post, b.post);
  }
}
