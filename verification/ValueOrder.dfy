/**
  What the comparison of values means for the texts themselves: the order of texts, of numbers and of counts, and
  what becomes of values that cannot be read or are of another type.
*/
module ValueOrder {
  import opened Options
  import opened LexOrder
  import opened Ipv6Text
  import opened ValueCompare
  import opened Spellings

  // ----- texts

  lemma CodesOf(p: string, c: char, u: string)
    ensures Codes(p + [c] + u) == Codes(p) + ([c as int] + Codes(u))
  {
  }

  /** Texts are ordered by the first character in which they differ. */
  lemma TextsDiffer(t: ValueType, p: string, c: char, u: string, d: char, v: string)
    requires t in {TextType, BoolType}
    ensures var x, y := p + [c] + u, p + [d] + v;
            && WellFormed(t, x) && WellFormed(t, y)
            && (c < d ==> Related(t, LT, x, y) && !Related(t, GT, x, y))
            && (c > d ==> Related(t, GT, x, y) && !Related(t, LT, x, y))
  {
    var x, y := p + [c] + u, p + [d] + v;
    CodesOf(p, c, u);
    CodesOf(p, d, v);
    if c != d {
      LexAt(Codes(x), Codes(y), |p|);
    }
    RelatedByKey(t, LT, x, y);
    RelatedByKey(t, GT, x, y);
  }

  /** A text is less than one that goes on behind it, and equal to itself only. */
  lemma PrefixIsLess(t: ValueType, p: string, u: string)
    requires t in {TextType, BoolType}
    ensures WellFormed(t, p) && WellFormed(t, p + u)
    ensures u != "" ==> Related(t, LT, p, p + u) && Related(t, GT, p + u, p)
    ensures Related(t, EQ, p, p)
  {
    assert Codes(p + u) == Codes(p) + Codes(u);
    if u != "" {
      LexOfPrefix(Codes(p), Codes(u));
      LexIsAntisymmetric(Codes(p), Codes(p + u));
    }
    LexIsZeroIffEqual(Codes(p), Codes(p));
    RelatedByKey(t, LT, p, p + u);
    RelatedByKey(t, GT, p + u, p);
    RelatedByKey(t, EQ, p, p);
  }

  // ----- numbers

  /** A value of a numeric type, as it is written. */
  function NumericText(t: ValueType, ds: seq<string>): string
    requires IsNumeric(t) && |ds| == NumParts(t)
  {
    match t
    case IntType => ds[0]
    case Ipv4Type => ds[0] + "." + ds[1] + "." + ds[2] + "." + ds[3]
    case Ipv4NetType => ds[0] + "." + ds[1] + "." + ds[2] + "." + ds[3] + "/" + ds[4]
    case MacType => ds[0] + ":" + ds[1] + ":" + ds[2] + ":" + ds[3] + ":" + ds[4] + ":" + ds[5]
  }

  lemma Unwritten(ds: seq<string>, seps: string)
    requires 2 <= |ds| <= |seps| + 1
    ensures Written(ds, seps) == ds[0] + ([seps[0]] + Written(ds[1..], seps[1..]))
  {
  }

  /** Numerals with a separator each, from the left. */
  function Chained(first: string, seps: string, ds: seq<string>): string
    requires |seps| == |ds|
    decreases |ds|
  {
    if ds == [] then first else Chained(first + [seps[0]] + ds[0], seps[1..], ds[1..])
  }

  lemma {:induction false} WrittenIsChained(ds: seq<string>, seps: string, done: string)
    requires ds != [] && |seps| == |ds| - 1
    ensures done + Written(ds, seps) == Chained(done + ds[0], seps, ds[1..])
    decreases |ds|
  {
    if |ds| > 1 {
      var d := done + ds[0] + [seps[0]];
      assert done + Written(ds, seps) == d + Written(ds[1..], seps[1..]);
      WrittenIsChained(ds[1..], seps[1..], d);
    }
  }

  lemma WrittenAsText(t: ValueType, ds: seq<string>)
    requires IsNumeric(t) && |ds| == NumParts(t)
    ensures |ds| == |Separators(t)| + 1 && NumericText(t, ds) == Written(ds, Separators(t))
  {
    var seps := Separators(t);
    WrittenIsChained(ds, seps, "");
    assert "" + Written(ds, seps) == Written(ds, seps) && "" + ds[0] == ds[0];
    var rest := ds[1..];
    match t
    case IntType =>
    case Ipv4Type => ChainThree(ds[0], seps, rest);
    case Ipv4NetType =>
      ChainOne(ds[0], seps, rest);
      ChainThree(ds[0] + "." + rest[0], seps[1..], rest[1..]);
    case MacType =>
      ChainOne(ds[0], seps, rest);
      ChainOne(ds[0] + ":" + rest[0], seps[1..], rest[1..]);
      ChainThree(ds[0] + ":" + rest[0] + ":" + rest[1..][0], seps[1..][1..], rest[1..][1..]);
  }

  lemma ChainOne(first: string, seps: string, ds: seq<string>)
    requires |seps| == |ds| >= 1
    ensures Chained(first, seps, ds) == Chained(first + [seps[0]] + ds[0], seps[1..], ds[1..])
  {
  }

  lemma ChainThree(first: string, seps: string, ds: seq<string>)
    requires |seps| == |ds| == 3
    ensures Chained(first, seps, ds) == first + [seps[0]] + ds[0] + [seps[1]] + ds[1] + [seps[2]] + ds[2]
  {
    ChainOne(first, seps, ds);
    ChainOne(first + [seps[0]] + ds[0], seps[1..], ds[1..]);
    ChainOne(first + [seps[0]] + ds[0] + [seps[1]] + ds[1], seps[2..], ds[2..]);
    assert seps[1..][1..] == seps[2..] && ds[1..][1..] == ds[2..];
  }

  /** Hardware addresses are written in hexadecimal, all other numbers in decimal. */
  function BaseOf(t: ValueType): int {
    if t.MacType? then 16 else 10
  }

  /** Numbers are compared one after the other; the first difference decides. */
  lemma NumbersDecide(t: ValueType, ds: seq<string>, es: seq<string>)
    requires IsNumeric(t) && |ds| == |es| == NumParts(t) && AreNumerals(BaseOf(t), ds) && AreNumerals(BaseOf(t), es)
    ensures var x, y := NumericText(t, ds), NumericText(t, es);
            var v, w := NumeralValues(BaseOf(t), ds), NumeralValues(BaseOf(t), es);
            && WellFormed(t, x) && WellFormed(t, y)
            && (Related(t, LT, x, y) <==> LessAtFirstDifference(v, w))
            && (Related(t, GT, x, y) <==> LessAtFirstDifference(w, v))
            && (Related(t, EQ, x, y) <==> v == w)
  {
    WrittenAsText(t, ds);
    WrittenAsText(t, es);
    WrittenDecide(t, ds, es, NumericText(t, ds), NumericText(t, es));
  }

  lemma WrittenDecide(t: ValueType, ds: seq<string>, es: seq<string>, x: string, y: string)
    requires IsNumeric(t) && |ds| == |es| == NumParts(t) && AreNumerals(BaseOf(t), ds) && AreNumerals(BaseOf(t), es)
    requires |ds| == |Separators(t)| + 1 && x == Written(ds, Separators(t)) && y == Written(es, Separators(t))
    ensures var v, w := NumeralValues(BaseOf(t), ds), NumeralValues(BaseOf(t), es);
            && WellFormed(t, x) && WellFormed(t, y)
            && (Related(t, LT, x, y) <==> LessAtFirstDifference(v, w))
            && (Related(t, GT, x, y) <==> LessAtFirstDifference(w, v))
            && (Related(t, EQ, x, y) <==> v == w)
  {
    NumericSpellingsAreEqualIff(t, ds, es);
    LexTells(NumeralValues(BaseOf(t), ds), NumeralValues(BaseOf(t), es));
  }

  // ----- values that cannot be read

  lemma ComparedSingle(t: ValueType, x: string, y: string, cond: Condition)
    requires IsNumeric(t)
    ensures Comparable(Single(t, x), Single(t, y))
    ensures Compared(Single(t, x), Single(t, y), cond) == Done(Holds(cond, PairResult(t, x, y, 0)))
  {
    var l, r := Single(t, x), Single(t, y);
    assert l.At(0) == x && r.At(0) == y && Compatible(r, 0, t);
    var p := PairResult(t, x, y, 0);
    assert RightWalk(l, r, cond, x, 1, p, Holds(cond, p)) == Next(p, Holds(cond, p));
    assert LeftWalk(l, r, cond, 1, p, Holds(cond, p)) == Done(Holds(cond, p));
  }

  /** No number at the front. */
  predicate Unreadable(t: ValueType, s: string) {
    s == "" || !IsDigit(BaseOf(t), s[0])
  }

  lemma UnreadableIff(t: ValueType, s: string)
    requires IsNumeric(t)
    ensures Readable(t, s) <==> !Unreadable(t, s)
  {
  }

  /** A value that cannot be read is less than one that can, and equal to another one that cannot. */
  lemma UnreadableIsLess(t: ValueType, x: string, y: string, cond: Condition)
    requires IsNumeric(t) && Unreadable(t, y)
    ensures Comparable(Single(t, x), Single(t, y)) && Comparable(Single(t, y), Single(t, x))
    ensures !Unreadable(t, x) ==>
              && Compared(Single(t, x), Single(t, y), cond) == Done(cond in {GT, GE, NE})
              && Compared(Single(t, y), Single(t, x), cond) == Done(cond in {LT, LE, NE})
    ensures Unreadable(t, x) ==> Compared(Single(t, x), Single(t, y), cond) == Done(cond in {EQ, LE, GE, IN})
  {
    UnreadableIff(t, x);
    UnreadableIff(t, y);
    ComparedSingle(t, x, y, cond);
    ComparedSingle(t, y, x, cond);
    TableMeansCondition(cond, PairResult(t, x, y, 0));
    TableMeansCondition(cond, PairResult(t, y, x, 0));
  }

  // ----- lists

  /** A list is compared with a single number by the number of its values. */
  lemma CountDecides(left: Value, right: Value, cond: Condition, d: string)
    requires Comparable(left, right) && left.isMulti && right == Single(IntType, d) && IsNumeral(10, d)
    ensures cond == EQ ==> Compared(left, right, cond) == Done(|left.vals| == Numeral(10, d))
    ensures cond == NE ==> Compared(left, right, cond) == Done(|left.vals| != Numeral(10, d))
    ensures cond == LT ==> Compared(left, right, cond) == Done(|left.vals| < Numeral(10, d))
    ensures cond == LE ==> Compared(left, right, cond) == Done(|left.vals| <= Numeral(10, d))
    ensures cond == GT ==> Compared(left, right, cond) == Done(|left.vals| > Numeral(10, d))
    ensures cond == GE ==> Compared(left, right, cond) == Done(|left.vals| >= Numeral(10, d))
  {
    FieldsOfNumerals(10, "", [d], "");
    assert Written([d], "") + "" == d;
    TableMeansCondition(cond, CountResult(left, right));
  }

  /** Values on the right are left out only if they carry another type than the left side. */
  lemma CompatibleIff(right: Value, i: nat, t: ValueType)
    requires right.Valid() && i < right.Stop()
    ensures !Compatible(right, i, t) <==>
            right.vals != [] && right.valTypes.Some? && right.valTypes.value[i] !in {ErrorType, t}
  {
  }

  /** A list has its values, and a single value is one. */
  lemma ValuesOfList(v: Value, i: nat)
    requires i < v.Stop()
    ensures v.vals != [] ==> v.Stop() == |v.vals| && v.At(i) == v.vals[i]
    ensures v.vals == [] ==> v.Stop() == 1 && v.At(i) == v.val
  {
  }
}
