/**
  The scanner for IPv6 addresses and prefixes: one pass over the text that fills an array with
  the eight groups of the address and, at index 8, the prefix length.
*/
module Ipv6Scan {
  import opened Options
  import opened Sequences
  import opened Ipv6Text
  import opened Ipv6Expansion

  const PARTS := 9

  // ----- the scanner as a function

  datatype Scanner = Scanner(parts: seq<int>, cnt: nat, num: int, dots: nat, dd: int, base: int, total: int, ok: bool)

  /** Writes the number that has just ended; `fin` tells that the end of the text or a `/` ended it. */
  function CloseNumber(s: Scanner, fin: bool): Scanner {
    if s.cnt >= |s.parts| then s.(ok := false, num := 0)
    else
      var parts, cnt := s.parts[s.cnt := s.num], s.cnt + 1;
      if s.dots == 2 || (s.dots == 3 && fin) then
        if cnt < 2 then s.(ok := false, num := 0)
        else s.(parts := parts[cnt - 2 := parts[cnt - 2] * 256 + parts[cnt - 1]], cnt := cnt - 1, num := 0)
      else s.(parts := parts, cnt := cnt, num := 0)
  }

  /** Re-reads a number of at most three hexadecimal digits as a decimal one. */
  function FromHexDigits(num: int): int {
    (num / 256) * 100 + (num % 256) / 16 * 10 + num % 16
  }

  predicate IsSeparator(c: char) {
    c == '.' || c == ':' || c == '/'
  }

  predicate IsDouble(text: string) {
    |text| >= 2 && text[0] == ':' && text[1] == ':'
  }

  /** What a separator or the end of the text does before the number is closed. */
  function Prepared(s: Scanner, text: string): Scanner {
    if text == "" then s
    else if text[0] == '.' then
      var t := if s.dots == 0 then s.(num := FromHexDigits(s.num), base := 10) else s;
      t.(dots := t.dots + 1)
    else if IsDouble(text) then s.(dd := s.cnt + 1)
    else if text[0] == '/' then s.(base := 10, total := 9)
    else s
  }

  predicate Final(text: string) {
    text == "" || text[0] == '/'
  }

  function Width(text: string): nat {
    if IsDouble(text) then 2 else 1
  }

  function Scan(s: Scanner, text: string): Scanner
    decreases |text|
  {
    if text != "" && !IsSeparator(text[0]) then Scan(s.(num := s.num * s.base + DigitOf(text[0])), text[1..])
    else
      var t := CloseNumber(Prepared(s, text), Final(text));
      if text == "" then t else Scan(t, text[Width(text)..])
  }

  /** The array in the end, where the gap that `::` leaves is filled with zeros. */
  function Filled(s: Scanner): seq<int>
    requires |s.parts| == PARTS && 0 <= s.cnt <= PARTS
    requires s.dd != -1 ==> 0 <= s.dd <= s.cnt <= s.total <= PARTS
  {
    if s.dd == -1 || s.total == s.cnt then s.parts
    else s.parts[..s.dd] + Zeros(s.total - s.cnt) + s.parts[s.dd..s.cnt] + s.parts[s.total..]
  }

  function Start(parts: seq<int>): Scanner {
    Scanner(parts, 0, 0, 0, -1, 16, 8, true)
  }

  // ----- numbers

  function Accumulate(num: int, base: int, s: string): int
    decreases |s|
  {
    if s == "" then num else Accumulate(num * base + DigitOf(s[0]), base, s[1..])
  }

  lemma {:induction false} AccumulateAppend(num: int, base: int, s: string, c: char)
    ensures Accumulate(num, base, s + [c]) == Accumulate(num, base, s) * base + DigitOf(c)
    decreases |s|
  {
    if s != "" {
      assert (s + [c])[1..] == s[1..] + [c];
      AccumulateAppend(num * base + DigitOf(s[0]), base, s[1..], c);
    } else {
      assert ([c])[1..] == "" && s + [c] == [c];
    }
  }

  lemma {:induction false} AccumulateIsNumeral(base: int, s: string)
    ensures Accumulate(0, base, s) == Numeral(base, s)
  {
    if s != "" {
      AccumulateIsNumeral(base, s[..|s| - 1]);
      AccumulateAppend(0, base, s[..|s| - 1], s[|s| - 1]);
      assert s == s[..|s| - 1] + [s[|s| - 1]];
    }
  }

  lemma {:induction false} ScanDigits(s: Scanner, ds: string, rest: string)
    requires forall i :: 0 <= i < |ds| ==> IsHex(ds[i])
    ensures Scan(s, ds + rest) == Scan(s.(num := Accumulate(s.num, s.base, ds)), rest)
    decreases |ds|
  {
    if ds == "" {
      assert ds + rest == rest;
      assert s.(num := s.num) == s;
    } else {
      var t := s.(num := s.num * s.base + DigitOf(ds[0]));
      assert (ds + rest)[1..] == ds[1..] + rest;
      assert (ds + rest)[0] == ds[0];
      assert Scan(s, ds + rest) == Scan(t, ds[1..] + rest);
      ScanDigits(t, ds[1..], rest);
    }
  }

  /** A whole number and whatever follows it. */
  lemma ScanNumber(s: Scanner, ds: string, rest: string)
    requires s.num == 0 && forall i :: 0 <= i < |ds| ==> IsHex(ds[i])
    ensures Scan(s, ds + rest) == Scan(s.(num := Numeral(s.base, ds)), rest)
  {
    ScanDigits(s, ds, rest);
    AccumulateIsNumeral(s.base, ds);
  }

  lemma ScanSeparator(s: Scanner, sep: string, rest: string)
    requires sep in {".", "/", "::"} || (sep == ":" && (rest == "" || rest[0] != ':'))
    ensures Scan(s, sep + rest) == Scan(CloseNumber(Prepared(s, sep), sep == "/"), rest)
  {
    var text := sep + rest;
    assert text[0] == sep[0] && |sep| == Width(text) && text[|sep|..] == rest;
    if |sep| == 2 {
      assert text[1] == ':';
    } else if rest != "" {
      assert text[1] == rest[0];
    }
  }

  /** The wrong hexadecimal reading of a short decimal number is repaired. */
  lemma RepairedReading(s: string)
    requires IsShortDecimal(s)
    ensures FromHexDigits(Numeral(16, s)) == Decimal(s)
  {
    if |s| == 1 {
      OneDigit(16, s);
      OneDigit(10, s);
      Repair(0, 0, DigitOf(s[0]));
    } else if |s| == 2 {
      TwoDigits(16, s);
      TwoDigits(10, s);
      Repair(0, DigitOf(s[0]), DigitOf(s[1]));
    } else {
      ThreeDigits(16, s);
      ThreeDigits(10, s);
      Repair(DigitOf(s[0]), DigitOf(s[1]), DigitOf(s[2]));
    }
  }

  lemma Repair(x: int, y: int, z: int)
    requires 0 <= x <= 9 && 0 <= y <= 9 && 0 <= z <= 9
    ensures FromHexDigits((x * 16 + y) * 16 + z) == (x * 10 + y) * 10 + z
  {
    var num := (x * 16 + y) * 16 + z;
    assert num / 256 == x;
    assert num % 256 == y * 16 + z;
    assert num % 16 == z;
  }

  // ----- the scanner between two numbers

  /** The numbers `vals` have been written, and the current one may still be open. */
  ghost predicate Wrote(s: Scanner, vals: seq<int>) {
    s.ok && |s.parts| == PARTS && s.cnt == |vals| <= PARTS && s.parts[..s.cnt] == vals
  }

  lemma CloseOne(s: Scanner, vals: seq<int>, fin: bool)
    requires Wrote(s, vals) && |vals| < PARTS
    requires s.dots != 2 && !(s.dots == 3 && fin)
    ensures var t := CloseNumber(s, fin);
            Wrote(t, vals + [s.num]) && t == s.(parts := t.parts, cnt := t.cnt, num := 0)
  {
  }

  lemma CloseAndMerge(s: Scanner, vals: seq<int>, high: int, fin: bool)
    requires Wrote(s, vals + [high]) && |vals| + 1 < PARTS
    requires s.dots == 2 || (s.dots == 3 && fin)
    ensures var t := CloseNumber(s, fin);
            && Wrote(t, vals + [high * 256 + s.num]) && t == s.(parts := t.parts, num := 0)
            && t.parts[t.cnt] == s.num
  {
    assert s.parts[s.cnt - 1] == s.parts[..s.cnt][|vals|] == high;
    assert forall i :: 0 <= i < |vals| ==> s.parts[i] == s.parts[..s.cnt][i] == vals[i];
    assert CloseNumber(s, fin).parts[..s.cnt] == vals + [high * 256 + s.num];
  }

  /** Ready for a hexadecimal group. */
  ghost predicate Fresh(s: Scanner, vals: seq<int>) {
    Wrote(s, vals) && s.num == 0 && s.dots == 0 && s.base == 16 && s.total == 8
  }

  /** A group, or nothing, and `:` or `::`. */
  lemma ScanGroup(s: Scanner, vals: seq<int>, g: string, sep: string, rest: string) returns (t: Scanner)
    requires Fresh(s, vals) && |vals| < PARTS
    requires g == "" || IsGroup(g)
    requires sep == "::" || (sep == ":" && (rest == "" || rest[0] != ':'))
    ensures Scan(s, g + (sep + rest)) == Scan(t, rest)
    ensures Fresh(t, vals + [Numeral(16, g)])
    ensures t.dd == if sep == "::" then |vals| + 1 else s.dd
  {
    var mid := s.(num := Numeral(16, g));
    ScanNumber(s, g, sep + rest);
    ScanSeparator(mid, sep, rest);
    t := CloseNumber(Prepared(mid, sep), false);
    CloseOne(Prepared(mid, sep), vals, false);
  }

  lemma ColonsStep(gs: seq<string>, rest: string)
    requires gs != [] && AreGroups(gs)
    ensures Colons(gs) + rest == gs[0] + (":" + (Colons(gs[1..]) + rest))
    ensures Colons(gs) != "" && (gs[0] != "" ==> Colons(gs)[0] == gs[0][0])
  {
    Associative(gs[0] + ":", Colons(gs[1..]), rest);
    Associative(gs[0], ":", Colons(gs[1..]) + rest);
  }

  lemma ValuesStep(vals: seq<int>, gs: seq<string>)
    requires gs != []
    ensures vals + Values(gs) == (vals + [Numeral(16, gs[0])]) + Values(gs[1..])
  {
    assert Values(gs) == [Numeral(16, gs[0])] + Values(gs[1..]);
  }

  /** Groups do not start with a colon. */
  lemma NoColonInFront(gs: seq<string>, rest: string)
    requires AreGroups(gs) && (rest == "" || rest[0] != ':')
    ensures var s := Colons(gs) + rest; s == "" || s[0] != ':'
  {
    if gs != [] {
      assert IsGroup(gs[0]);
      ColonsStep(gs, rest);
    }
  }

  lemma {:induction false} ScanGroups(s: Scanner, vals: seq<int>, gs: seq<string>, rest: string) returns (t: Scanner)
    requires Fresh(s, vals) && |vals| + |gs| <= PARTS
    requires AreGroups(gs) && (rest == "" || rest[0] != ':')
    ensures Scan(s, Colons(gs) + rest) == Scan(t, rest)
    ensures Fresh(t, vals + Values(gs)) && t.dd == s.dd
    decreases |gs|
  {
    if gs == [] {
      t := s;
      assert Colons(gs) + rest == rest;
      assert vals + Values(gs) == vals;
    } else {
      var rest' := Colons(gs[1..]) + rest;
      ColonsStep(gs, rest);
      NoColonInFront(gs[1..], rest);
      ValuesStep(vals, gs);
      var mid := ScanGroup(s, vals, gs[0], ":", rest');
      t := ScanGroups(mid, vals + [Numeral(16, gs[0])], gs[1..], rest);
    }
  }

  /** Groups of which the last has no colon behind it: the scanner stops in the last number. */
  lemma ScanOpenGroups(s: Scanner, vals: seq<int>, gs: seq<string>, rest: string) returns (t: Scanner)
    requires Fresh(s, vals) && |vals| + |gs| <= PARTS && gs != [] && AreGroups(gs)
    ensures Scan(s, Colons(gs[..|gs| - 1]) + (gs[|gs| - 1] + rest)) == Scan(t.(num := Numeral(16, gs[|gs| - 1])), rest)
    ensures Fresh(t, vals + Values(gs[..|gs| - 1])) && t.dd == s.dd
    ensures vals + Values(gs[..|gs| - 1]) + [Numeral(16, gs[|gs| - 1])] == vals + Values(gs)
  {
    var init, last := gs[..|gs| - 1], gs[|gs| - 1];
    assert (last + rest)[0] == last[0];
    t := ScanGroups(s, vals, init, last + rest);
    ScanNumber(t, last, rest);
  }

  // ----- the parts of the text

  lemma ScanHead(parts: seq<int>, a: Address, rest: string) returns (t: Scanner)
    requires ValidAddress(a) && |parts| == PARTS
    ensures Scan(Start(parts), Head(a) + rest) == Scan(t, rest)
    ensures Fresh(t, PreWritten(NumbersOf(a)))
    ensures t.dd == if a.compressed then |PreWritten(NumbersOf(a))| else -1
  {
    var s := Start(parts);
    if !a.compressed {
      t := s;
      assert Head(a) + rest == rest;
    } else if a.pre == [] {
      assert Head(a) + rest == "" + ("::" + rest);
      t := ScanGroup(s, [], "", "::", rest);
      assert [] + [Numeral(16, "")] == [0];
    } else {
      var init, last := a.pre[..|a.pre| - 1], a.pre[|a.pre| - 1];
      assert Head(a) + rest == Colons(init) + (last + ("::" + rest));
      assert (last + ("::" + rest))[0] == last[0];
      var mid := ScanGroups(s, [], init, last + ("::" + rest));
      assert [] + Values(init) == Values(init);
      t := ScanGroup(mid, Values(init), last, "::", rest);
      assert Values(init) + [Numeral(16, last)] == Values(a.pre);
    }
  }

  /** The first octet is read as a group, repaired, and written. */
  lemma ScanFirstOctet(s: Scanner, vals: seq<int>, o: string, rest: string) returns (t: Scanner)
    requires Fresh(s, vals) && |vals| <= 6 && IsShortDecimal(o)
    ensures Scan(s, o + ("." + rest)) == Scan(t, rest)
    ensures Wrote(t, vals + [Decimal(o)])
    ensures t == s.(parts := t.parts, cnt := t.cnt, dots := 1, base := 10)
  {
    var mid := s.(num := Numeral(16, o));
    ScanNumber(s, o, "." + rest);
    ScanSeparator(mid, ".", rest);
    RepairedReading(o);
    t := CloseNumber(Prepared(mid, "."), false);
    CloseOne(Prepared(mid, "."), vals, false);
  }

  lemma ScanOctet(s: Scanner, o: string, rest: string) returns (t: Scanner)
    requires s.dots > 0 && s.base == 10 && s.num == 0 && IsShortDecimal(o)
    ensures t == CloseNumber(s.(num := Decimal(o), dots := s.dots + 1), false)
    ensures Scan(s, o + ("." + rest)) == Scan(t, rest)
  {
    ScanNumber(s, o, "." + rest);
    ScanSeparator(s.(num := Decimal(o)), ".", rest);
    t := CloseNumber(s.(num := Decimal(o), dots := s.dots + 1), false);
  }

  lemma QuadTextSplit(q: Quad, rest: string)
    ensures QuadText(q) + rest == q.a + ("." + (q.b + ("." + (q.c + ("." + (q.d + rest))))))
  {
  }

  /** A dotted quad: the scanner stops in the last octet. */
  lemma ScanQuad(s: Scanner, vals: seq<int>, q: Quad, rest: string) returns (t: Scanner)
    requires Fresh(s, vals) && |vals| <= 6 && IsQuad(q)
    ensures Scan(s, QuadText(q) + rest) == Scan(t, rest)
    ensures Wrote(t, (vals + [Decimal(q.a) * 256 + Decimal(q.b)]) + [Decimal(q.c)])
    ensures t == s.(parts := t.parts, cnt := t.cnt, num := Decimal(q.d), dots := 3, base := 10)
  {
    var text3 := q.d + rest;
    var text2 := q.c + ("." + text3);
    var text1 := q.b + ("." + text2);
    QuadTextSplit(q, rest);
    var high := Decimal(q.a) * 256 + Decimal(q.b);
    var s1 := ScanFirstOctet(s, vals, q.a, text1);
    var s2 := ScanOctet(s1, q.b, text2);
    CloseAndMerge(s1.(num := Decimal(q.b), dots := 2), vals, Decimal(q.a), false);
    var s3 := ScanOctet(s2, q.c, text3);
    CloseOne(s2.(num := Decimal(q.c), dots := 3), vals + [high], false);
    ScanNumber(s3, q.d, rest);
    t := s3.(num := Decimal(q.d));
  }

  /** `/` and the prefix length: two numbers are closed. */
  lemma ScanPrefix(s: Scanner, p: string)
    requires IsShortDecimal(p)
    ensures Scan(s, "/" + p) ==
              CloseNumber(CloseNumber(s.(base := 10, total := 9), true).(num := Decimal(p)), true)
  {
    ScanSeparator(s, "/", p);
    assert p + "" == p;
    ScanNumber(CloseNumber(s.(base := 10, total := 9), true), p, "");
  }

  /** The end of a text without a dotted quad. */
  lemma ScanPlainEnd(s: Scanner, vals: seq<int>, a: Address)
    requires Wrote(s, vals) && |vals| <= 7 && s.dots == 0 && s.total == 8
    requires a.prefix.Some? ==> IsShortDecimal(a.prefix.value)
    ensures var t := Scan(s, End(a));
            && Wrote(t, vals + [s.num] + NumbersOf(a).prefix)
            && t.dd == s.dd && t.total == Total(NumbersOf(a))
  {
    if a.prefix.Some? {
      ScanPrefix(s, a.prefix.value);
      var mid := s.(base := 10, total := 9);
      CloseOne(mid, vals, true);
      CloseOne(CloseNumber(mid, true).(num := Decimal(a.prefix.value)), vals + [s.num], true);
    } else {
      CloseOne(s, vals, true);
      assert vals + [s.num] + [] == vals + [s.num];
    }
  }

  lemma ScanPlainBody(s: Scanner, vals: seq<int>, a: Address)
    requires ValidAddress(a) && a.tail.None? && Fresh(s, vals) && |vals| + |a.post| <= 8 && |vals| <= 7
    ensures NumbersOf(a).Valid()
    ensures var t := Scan(s, Body(a) + End(a));
            && Wrote(t, vals + PostWritten(NumbersOf(a)))
            && t.dd == s.dd && t.total == Total(NumbersOf(a))
  {
    PlainWritten(a);
    if a.post == [] {
      assert Body(a) + End(a) == End(a);
      ScanPlainEnd(s, vals, a);
      Associative(vals, [0], NumbersOf(a).prefix);
    } else {
      ScanPlainGroups(s, vals, a);
      Associative(vals, Values(a.post), NumbersOf(a).prefix);
    }
  }

  lemma PlainWritten(a: Address)
    requires ValidAddress(a) && a.tail.None?
    ensures NumbersOf(a).Valid()
    ensures PostWritten(NumbersOf(a)) == (if a.post == [] then [0] else Values(a.post)) + NumbersOf(a).prefix
  {
    NumbersAreValid(a);
    assert Values(a.post) + [] == Values(a.post);
  }

  lemma ScanPlainGroups(s: Scanner, vals: seq<int>, a: Address)
    requires ValidAddress(a) && a.tail.None? && a.post != [] && Fresh(s, vals) && |vals| + |a.post| <= 8
    ensures var t := Scan(s, Body(a) + End(a));
            && Wrote(t, (vals + Values(a.post)) + NumbersOf(a).prefix)
            && t.dd == s.dd && t.total == Total(NumbersOf(a))
  {
    var init, last := a.post[..|a.post| - 1], a.post[|a.post| - 1];
    assert Body(a) + End(a) == Colons(init) + (last + End(a));
    var mid := ScanOpenGroups(s, vals, a.post, End(a));
    ScanPlainEnd(mid.(num := Numeral(16, last)), vals + Values(init), a);
  }

  /** The end of a text with a dotted quad: a prefix length is merged into its second group. */
  lemma ScanQuadEnd(s: Scanner, vals: seq<int>, c: int, a: Address)
    requires Wrote(s, vals + [c]) && |vals| <= 7 && s.dots == 3 && s.total == 8
    requires a.prefix.Some? ==> IsShortDecimal(a.prefix.value)
    ensures var t, low := Scan(s, End(a)), c * 256 + s.num;
            && t.dd == s.dd && t.total == Total(NumbersOf(a))
            && (a.prefix.None? ==> Wrote(t, vals + [low]))
            && (a.prefix.Some? ==> Wrote(t, vals + [low * 256 + Decimal(a.prefix.value)]))
            && (a.prefix.Some? ==> t.parts[t.cnt] == Decimal(a.prefix.value))
  {
    if a.prefix.Some? {
      ScanPrefix(s, a.prefix.value);
      var mid := s.(base := 10, total := 9);
      CloseAndMerge(mid, vals, c, true);
      CloseAndMerge(CloseNumber(mid, true).(num := Decimal(a.prefix.value)), vals, c * 256 + s.num, true);
    } else {
      CloseAndMerge(s, vals, c, true);
    }
  }

  lemma QuadBodyText(a: Address)
    requires ValidAddress(a) && a.tail.Some?
    ensures Body(a) + End(a) == Colons(a.post) + (QuadText(a.tail.value) + End(a))
    ensures (QuadText(a.tail.value) + End(a))[0] != ':'
  {
    assert (QuadText(a.tail.value) + End(a))[0] == a.tail.value.a[0];
  }

  /** What stands for the last two numbers of the dotted quad. */
  function LastWritten(a: Address): int
    requires a.tail.Some?
  {
    var low := QuadGroups(a.tail.value)[1];
    if a.prefix.Some? then low * 256 + Decimal(a.prefix.value) else low
  }

  lemma ScanQuadTail(s: Scanner, vals: seq<int>, a: Address)
    requires a.tail.Some? && Wrote(s, vals + [Decimal(a.tail.value.c)]) && s.num == Decimal(a.tail.value.d)
    requires |vals| <= 7 && s.dots == 3 && s.total == 8
    requires a.prefix.Some? ==> IsShortDecimal(a.prefix.value)
    ensures var t := Scan(s, End(a));
            && t.dd == s.dd && t.total == Total(NumbersOf(a)) && Wrote(t, vals + [LastWritten(a)])
            && (a.prefix.Some? ==> t.cnt < PARTS && t.parts[t.cnt] == Decimal(a.prefix.value))
  {
    ScanQuadEnd(s, vals, Decimal(a.tail.value.c), a);
  }

  lemma QuadWritten(a: Address, vals: seq<int>, x: int, y: int)
    requires ValidAddress(a) && a.tail.Some? && NumbersOf(a).Valid()
    requires x == QuadGroups(a.tail.value)[0]
    requires y == LastWritten(a)
    ensures (vals + Values(a.post) + [x]) + [y] == vals + PostWritten(NumbersOf(a))
  {
    var n := NumbersOf(a);
    if a.prefix.Some? {
      assert PostWritten(n) == n.post + [x, y];
    } else {
      assert PostWritten(n) == n.post + [x, y] + [];
    }
  }

  lemma ScanGroupsAndQuad(s: Scanner, vals: seq<int>, post: seq<string>, q: Quad, rest: string) returns (t: Scanner)
    requires Fresh(s, vals) && AreGroups(post) && IsQuad(q) && |vals| + |post| <= 6
    requires (QuadText(q) + rest)[0] != ':'
    ensures Scan(s, Colons(post) + (QuadText(q) + rest)) == Scan(t, rest)
    ensures Wrote(t, (vals + Values(post) + [QuadGroups(q)[0]]) + [Decimal(q.c)])
    ensures t.num == Decimal(q.d) && t.dots == 3 && t.total == 8 && t.dd == s.dd
  {
    var mid := ScanGroups(s, vals, post, QuadText(q) + rest);
    t := ScanQuad(mid, vals + Values(post), q, rest);
  }

  lemma ScanQuadBody(s: Scanner, vals: seq<int>, a: Address)
    requires ValidAddress(a) && a.tail.Some? && Fresh(s, vals) && |vals| + |a.post| <= 6
    ensures NumbersOf(a).Valid()
    ensures var t := Scan(s, Body(a) + End(a));
            && Wrote(t, vals + PostWritten(NumbersOf(a)))
            && t.dd == s.dd && t.total == Total(NumbersOf(a))
            && (a.prefix.Some? ==> t.cnt < PARTS && t.parts[t.cnt] == Decimal(a.prefix.value))
  {
    NumbersAreValid(a);
    var q := a.tail.value;
    QuadBodyText(a);
    var s2 := ScanGroupsAndQuad(s, vals, a.post, q, End(a));
    var high := QuadGroups(q)[0];
    ScanQuadTail(s2, vals + Values(a.post) + [high], a);
    QuadWritten(a, vals, high, LastWritten(a));
  }

  /** No write leaves the array, and the counters are such that the gap can be filled. */
  lemma ScanText(parts: seq<int>, a: Address)
    requires ValidAddress(a) && |parts| == PARTS
    ensures NumbersOf(a).Valid()
    ensures var t, n := Scan(Start(parts), Text(a)), NumbersOf(a);
            && Wrote(t, PreWritten(n) + PostWritten(n))
            && t.dd == (if a.compressed then |PreWritten(n)| else -1)
            && t.total == Total(n)
            && t.dd <= t.cnt <= t.total
            && (n.QuadAndPrefix() ==> t.cnt < PARTS && t.parts[t.cnt] == n.prefix[0])
  {
    NumbersAreValid(a);
    var n := NumbersOf(a);
    WrittenLength(n);
    var s := ScanHead(parts, a, Body(a) + End(a));
    if a.tail.None? {
      ScanPlainBody(s, PreWritten(n), a);
    } else {
      ScanQuadBody(s, PreWritten(n), a);
    }
  }

  // ----- the main result

  /** What is in the array in the end. */
  ghost function Scanned(parts: seq<int>, a: Address): (r: seq<int>)
    requires ValidAddress(a) && |parts| == PARTS
    ensures |r| == PARTS
  {
    ScanText(parts, a);
    Filled(Scan(Start(parts), Text(a)))
  }

  lemma FilledParts(t: Scanner, head: seq<int>, tail: seq<int>)
    requires Wrote(t, head + tail) && t.dd == |head| && t.cnt <= t.total <= PARTS
    ensures Filled(t)[..t.total] == head + Zeros(t.total - t.cnt) + tail
  {
    var w := head + tail;
    assert t.parts[..t.dd] == w[..|head|] == head;
    assert t.parts[t.dd..t.cnt] == w[|head|..] == tail;
    if t.total == t.cnt {
      assert Zeros(0) == [];
      assert head + [] + tail == w;
    }
  }

  lemma ScannedCompressed(parts: seq<int>, a: Address)
    requires ValidAddress(a) && |parts| == PARTS && a.compressed
    ensures NumbersOf(a).Valid()
    ensures Scanned(parts, a)[..Total(NumbersOf(a))] == Expanded(NumbersOf(a))
  {
    ScanText(parts, a);
    FilledExpanded(Scan(Start(parts), Text(a)), NumbersOf(a));
  }

  lemma FilledExpanded(t: Scanner, n: Numbers)
    requires n.Valid() && n.compressed && Wrote(t, PreWritten(n) + PostWritten(n))
    requires t.dd == |PreWritten(n)| && t.dd <= t.cnt <= t.total == Total(n)
    ensures Filled(t)[..Total(n)] == Expanded(n)
  {
    WrittenLength(n);
    FilledParts(t, PreWritten(n), PostWritten(n));
  }

  lemma ScannedUncompressed(parts: seq<int>, a: Address)
    requires ValidAddress(a) && |parts| == PARTS && !a.compressed
    ensures NumbersOf(a).Valid()
    ensures var r, n := Scanned(parts, a), NumbersOf(a);
            && |PostWritten(n)| <= PARTS
            && r[..|PostWritten(n)|] == PostWritten(n)
            && (n.QuadAndPrefix() ==> r[8] == n.prefix[0])
  {
    ScanText(parts, a);
    assert [] + PostWritten(NumbersOf(a)) == PostWritten(NumbersOf(a));
  }

  /**
    Scanning the text of an address leaves its eight groups and its prefix length, if and only if the text
    does not have both a dotted quad and a prefix length, or the numbers hide the extra merge.
  */
  lemma ScanIsCorrectIff(parts: seq<int>, a: Address)
    requires ValidAddress(a) && |parts| == PARTS
    ensures NumbersOf(a).Valid()
    ensures var n := NumbersOf(a);
            Scanned(parts, a)[..Total(n)] == n.All() <==> !n.QuadAndPrefix() || HidesExtraMerge(n)
  {
    NumbersAreValid(a);
    var n := NumbersOf(a);
    if a.compressed {
      ScannedCompressed(parts, a);
      if n.QuadAndPrefix() {
        MergedExpansion(n);
      } else {
        ExpandsToAll(n);
      }
    } else {
      ScannedUncompressed(parts, a);
      if n.QuadAndPrefix() {
        assert Scanned(parts, a)[..9] == Scanned(parts, a);
        MergedLastGroup(Scanned(parts, a), n);
      } else {
        UncompressedIsAll(n);
      }
    }
  }

  lemma UncompressedIsAll(n: Numbers)
    requires n.Valid() && !n.compressed && !n.QuadAndPrefix()
    ensures PostWritten(n) == n.All()
  {
    AllSplit(n);
    assert n.pre + Zeros(0) + ((n.post + n.quad) + n.prefix) == (n.post + n.quad) + n.prefix;
  }

  const MAPPED_NET := Address(["1"], true, [], Some(Quad("2", "3", "4", "5")), Some("64"))

  /** `1::2.3.4.5/64` is scanned wrongly. */
  lemma QuadWithPrefixGoesWrong(parts: seq<int>)
    requires |parts| == PARTS
    ensures Text(MAPPED_NET) == "1::2.3.4.5/64"
    ensures ValidAddress(MAPPED_NET) && NumbersOf(MAPPED_NET).Valid()
    ensures Scanned(parts, MAPPED_NET)[..9] != NumbersOf(MAPPED_NET).All()
  {
    MappedNetText();
    ScanIsCorrectIff(parts, MAPPED_NET);
    OneDigit(10, "4");
    OneDigit(10, "5");
    assert NumbersOf(MAPPED_NET).quad[1] == 4 * 256 + 5;
  }

  lemma MappedNetText()
    ensures Text(MAPPED_NET) == "1::2.3.4.5/64"
  {
    assert Head(MAPPED_NET) == "1::";
    assert Body(MAPPED_NET) == "2.3.4.5";
    assert End(MAPPED_NET) == "/64";
  }

  /** Two spellings without prefix length give the same eight numbers exactly when they are the same address. */
  lemma SpellingsAgree(parts: seq<int>, parts': seq<int>, a: Address, b: Address)
    requires |parts| == PARTS && |parts'| == PARTS
    requires ValidAddress(a) && ValidAddress(b) && a.prefix.None? && b.prefix.None?
    ensures NumbersOf(a).Valid() && NumbersOf(b).Valid()
    ensures Scanned(parts, a)[..8] == Scanned(parts', b)[..8] <==> NumbersOf(a).Groups() == NumbersOf(b).Groups()
  {
    ScanIsCorrectIff(parts, a);
    ScanIsCorrectIff(parts', b);
    assert NumbersOf(a).All() == NumbersOf(a).Groups() && NumbersOf(b).All() == NumbersOf(b).Groups();
  }

  // ----- the scanner on the array

  const WHITEOUT := ".wh."

  /** `scan_ipv6`. */
  method ScanIpv6(val: string, parts: array<int>, ghost a: Address)
    requires ValidAddress(a) && (val == Text(a) || val == WHITEOUT + Text(a))
    requires parts.Length == PARTS
    modifies parts
    ensures parts[..] == Scanned(old(parts[..]), a)
    ensures NumbersOf(a).Valid()
    ensures !NumbersOf(a).QuadAndPrefix() ==> parts[..Total(NumbersOf(a))] == NumbersOf(a).All()
  {
    ghost var last := Scan(Start(parts[..]), Text(a));
    ScanText(parts[..], a);
    ScanIsCorrectIff(parts[..], a);
    var p := SkipWhiteout(val, a);
    var cnt, dd, total := ScanNumbers(val, p, parts, last);
    FillGap(parts, cnt, dd, total, last);
  }

  /** The loop over the text. */
  method ScanNumbers(val: string, start: nat, parts: array<int>, ghost last: Scanner)
      returns (cnt: nat, dd: int, total: int)
    requires start <= |val| && Scan(Start(parts[..]), val[start..]) == last && last.ok
    modifies parts
    ensures last.parts == parts[..] && last.cnt == cnt && last.dd == dd && last.total == total
  {
    var p, num, dots, base := start, 0, 0, 16;
    cnt, dd, total := 0, -1, 8;
    while true
      invariant 0 <= p <= |val| && 0 <= dots
      invariant Scan(Scanner(parts[..], cnt, num, dots, dd, base, total, true), val[p..]) == last
      decreases |val| - p
    {
      ghost var s := Scanner(parts[..], cnt, num, dots, dd, base, total, true);
      if p < |val| && !IsSeparator(val[p]) {
        num := num * base + DigitOf(val[p]);
        assert val[p..][1..] == val[p + 1..];
        p := p + 1;
        continue;
      }
      var fin, width;
      num, dots, dd, base, total, fin, width := AtSeparator(val, p, num, dots, dd, base, total, cnt, s);
      ghost var open := Prepared(s, val[p..]);
      ClosingFits(s, val[p..], last);
      cnt := CloseInArray(parts, open, cnt, num, dots, fin);
      num := 0;
      if p == |val| {
        return;
      }
      assert val[p..][width..] == val[p + width..];
      p := p + width;
    }
  }

  /** The cases of the switch that end a number. */
  method AtSeparator(val: string, p: nat, num: int, dots: nat, dd: int, base: int, total: int, cnt: nat,
                     ghost s: Scanner)
      returns (num': int, dots': nat, dd': int, base': int, total': int, fin: bool, width: nat)
    requires p <= |val| && (p < |val| ==> IsSeparator(val[p]))
    requires s == Scanner(s.parts, cnt, num, dots, dd, base, total, true)
    ensures Prepared(s, val[p..]) == Scanner(s.parts, cnt, num', dots', dd', base', total', true)
    ensures fin == Final(val[p..]) && width == Width(val[p..])
    ensures p < |val| ==> p + width <= |val|
  {
    num', dots', dd', base', total', fin, width := num, dots, dd, base, total, false, 1;
    if p == |val| {
      fin := true;
    } else if val[p] == '.' {
      if dots == 0 {
        num', base' := FromHexDigits(num), 10;
      }
      dots' := dots + 1;
    } else if val[p] == ':' {
      if p + 1 < |val| && val[p + 1] == ':' {
        width, dd' := 2, cnt + 1;
      }
    } else {
      base', total', fin := 10, 9, true;
    }
  }

  /** Writes the number, and merges it with the one before it if both are octets of one group. */
  method CloseInArray(parts: array<int>, ghost open: Scanner, cnt: nat, num: int, dots: nat, fin: bool)
      returns (newCnt: nat)
    requires open.parts == parts[..] && open.cnt == cnt && open.num == num && open.dots == dots
    requires open.ok && CloseNumber(open, fin).ok
    modifies parts
    ensures CloseNumber(open, fin) == open.(parts := parts[..], cnt := newCnt, num := 0)
  {
    parts[cnt] := num;
    newCnt := cnt + 1;
    if dots == 2 || (dots == 3 && fin) {
      newCnt := newCnt - 1;
      parts[newCnt - 1] := parts[newCnt - 1] * 256 + parts[newCnt];
    }
  }

  /** Replaces `::` by zeros. */
  method FillGap(parts: array<int>, cnt: nat, dd: int, total: int, ghost s: Scanner)
    requires parts.Length == PARTS && s.parts == parts[..] && s.cnt == cnt <= PARTS && s.dd == dd && s.total == total
    requires dd != -1 ==> 0 <= dd <= cnt <= total <= PARTS
    modifies parts
    ensures parts[..] == Filled(s)
  {
    if dd != -1 && total != cnt {
      MoveUp(parts, dd, cnt, total);
      ghost var moved := parts[..];
      for i := 0 to total - cnt
        invariant forall k :: 0 <= k < PARTS ==> parts[k] == if dd <= k < dd + i then 0 else moved[k]
      {
        parts[dd + i] := 0;
      }
      FilledIs(s, parts[..]);
    }
  }

  /** `memmove`: every number is read before any is written. */
  method MoveUp(parts: array<int>, from: nat, upto: nat, total: nat)
    requires from <= upto <= total <= parts.Length
    modifies parts
    ensures forall k :: from <= k < upto ==> parts[k + total - upto] == old(parts[k])
    ensures forall k :: 0 <= k < from || total <= k < parts.Length ==> parts[k] == old(parts[k])
  {
    forall k | from <= k < upto {
      parts[k + total - upto] := parts[k];
    }
  }

  lemma FilledIs(s: Scanner, r: seq<int>)
    requires |s.parts| == PARTS && |r| == PARTS && 0 <= s.dd <= s.cnt < s.total <= PARTS
    requires forall k :: 0 <= k < s.dd ==> r[k] == s.parts[k]
    requires forall k :: s.dd <= k < s.dd + s.total - s.cnt ==> r[k] == 0
    requires forall k :: s.dd <= k < s.cnt ==> r[k + s.total - s.cnt] == s.parts[k]
    requires forall k :: s.total <= k < PARTS ==> r[k] == s.parts[k]
    ensures r == Filled(s)
  {
    var gap := s.total - s.cnt;
    assert r[..s.dd] == s.parts[..s.dd];
    assert r[s.dd..s.dd + gap] == Zeros(gap);
    forall k | 0 <= k < s.cnt - s.dd
      ensures r[s.dd + gap..s.total][k] == s.parts[s.dd..s.cnt][k]
    {
      assert r[s.dd + k + s.total - s.cnt] == s.parts[s.dd + k];
    }
    assert r[s.dd + gap..s.total] == s.parts[s.dd..s.cnt];
    assert r[s.total..] == s.parts[s.total..];
    FourParts(r, s.dd, s.dd + gap, s.total);
  }

  lemma FourParts(r: seq<int>, i: nat, j: nat, k: nat)
    requires i <= j <= k <= |r|
    ensures r == r[..i] + r[i..j] + r[j..k] + r[k..]
  {
  }

  method SkipWhiteout(val: string, ghost a: Address) returns (p: nat)
    requires ValidAddress(a) && (val == Text(a) || val == WHITEOUT + Text(a))
    ensures p <= |val| && val[p..] == Text(a)
  {
    FirstIsNoDot(a);
    WhiteoutPrefix(Text(a));
    p := if |val| >= 4 && val[..4] == WHITEOUT then 4 else 0;
  }

  lemma WhiteoutPrefix(text: string)
    ensures (WHITEOUT + text)[..4] == WHITEOUT && (WHITEOUT + text)[4..] == text
    ensures text != "" && text[0] != '.' ==> |text| < 4 || text[..4] != WHITEOUT
  {
    assert |text| >= 4 ==> text[..4][0] == text[0];
    assert WHITEOUT[0] == '.';
  }

  lemma FirstIsNoDot(a: Address)
    requires ValidAddress(a)
    ensures Text(a) != "" ==> Text(a)[0] != '.'
  {
    if a.compressed {
      if a.pre != [] {
        FirstOfColons(a.pre[..|a.pre| - 1], a.pre[|a.pre| - 1] + "::");
      }
      assert Text(a)[0] == Head(a)[0];
    } else if a.tail.Some? {
      FirstOfColons(a.post, QuadText(a.tail.value));
    } else {
      FirstOfColons(a.post[..|a.post| - 1], a.post[|a.post| - 1]);
    }
  }

  lemma FirstOfColons(gs: seq<string>, rest: string)
    requires AreGroups(gs) && rest != "" && rest[0] != '.'
    ensures (Colons(gs) + rest)[0] != '.'
  {
    if gs != [] {
      assert (Colons(gs) + rest)[0] == gs[0][0];
    }
  }

  lemma {:induction false} NeverOkAgain(s: Scanner, text: string)
    ensures !s.ok ==> !Scan(s, text).ok
    decreases |text|
  {
    if text != "" && !IsSeparator(text[0]) {
      NeverOkAgain(s.(num := s.num * s.base + DigitOf(text[0])), text[1..]);
    } else if text != "" {
      NeverOkAgain(CloseNumber(Prepared(s, text), Final(text)), text[Width(text)..]);
    }
  }

  /** The number that is closed next has a place in the array. */
  lemma ClosingFits(s: Scanner, text: string, last: Scanner)
    requires Scan(s, text) == last && last.ok && (text != "" ==> IsSeparator(text[0]))
    ensures CloseNumber(Prepared(s, text), Final(text)).ok
    ensures text == "" ==> CloseNumber(Prepared(s, text), Final(text)) == last
    ensures text != "" ==> Scan(CloseNumber(Prepared(s, text), Final(text)), text[Width(text)..]) == last
  {
    if text != "" {
      NeverOkAgain(CloseNumber(Prepared(s, text), Final(text)), text[Width(text)..]);
    }
  }
}
