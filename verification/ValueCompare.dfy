/**
  Comparison of template values: `val_cmp` with its table of conditions, over single values and
  over lists of values.
*/
module ValueCompare {
  import opened Options
  import opened LexOrder
  import opened Ipv6Text
  import opened Ipv6Scan

  datatype ValueType =
    | ErrorType | IntType | Ipv4Type | Ipv4NetType | Ipv6Type | Ipv6NetType
    | MacType | DomainType | TextType | BoolType | PriorityType

  /** A value, or with `vals != []` a list of values that may carry their own types. */
  datatype Value = Value(valType: ValueType, isMulti: bool, val: string, vals: seq<string>,
                         valTypes: Option<seq<ValueType>>) {

    predicate Valid() {
      valTypes.Some? ==> |vals| <= |valTypes.value|
    }

    /** The number of values to look at. */
    function Stop(): nat {
      if vals != [] then |vals| else 1
    }

    function At(i: nat): string
      requires i < Stop()
    {
      if vals == [] then val else vals[i]
    }
  }

  datatype Condition = EQ | NE | LT | LE | GT | GE | IN

  const COND1: seq<int> := [5, 0, -1, -1, 0, 1, 0, 0]
  const COND2: seq<int> := [5, 0, 1, -1, -1, 1, 1, 0]

  function Index(cond: Condition): nat {
    match cond
    case EQ => 1
    case NE => 2
    case LT => 3
    case LE => 4
    case GT => 5
    case GE => 6
    case IN => 7
  }

  /** The condition holds of a comparison with this outcome. */
  predicate Holds(cond: Condition, res: int) {
    res == COND1[Index(cond)] || res == COND2[Index(cond)]
  }

  /** What the conditions mean. */
  predicate Means(cond: Condition, res: int) {
    match cond
    case EQ => res == 0
    case NE => res != 0
    case LT => res < 0
    case LE => res <= 0
    case GT => res > 0
    case GE => res >= 0
    case IN => res == 0
  }

  lemma TableMeansCondition(cond: Condition, res: int)
    requires res in {-1, 0, 1}
    ensures Holds(cond, res) <==> Means(cond, res)
  {
  }

  // ----- reading numbers

  predicate IsNumeric(t: ValueType) {
    t in {IntType, Ipv4Type, Ipv4NetType, MacType}
  }

  predicate IsIpv6(t: ValueType) {
    t in {Ipv6Type, Ipv6NetType}
  }

  predicate IsText(t: ValueType) {
    t in {TextType, BoolType}
  }

  /** The number of parts that are compared. */
  function NumParts(t: ValueType): nat {
    match t
    case IntType => 1
    case Ipv4Type => 4
    case Ipv4NetType => 5
    case MacType => 6
    case Ipv6Type => 8
    case Ipv6NetType => 9
    case _ => 0
  }

  /** The separators of the `sscanf` format, and its number base. */
  function Separators(t: ValueType): string {
    match t
    case Ipv4Type => "..."
    case Ipv4NetType => ".../"
    case MacType => ":::::"
    case _ => ""
  }

  function Base(t: ValueType): int {
    if t == MacType then 16 else 10
  }

  predicate IsDigit(base: int, c: char) {
    if base == 16 then IsHex(c) else IsDecimal(c)
  }

  function DigitRun(base: int, s: string): (n: nat)
    ensures n <= |s|
  {
    if s == "" || !IsDigit(base, s[0]) then 0 else 1 + DigitRun(base, s[1..])
  }

  /** `sscanf`: the numbers that could be read before the first mismatch. */
  function Fields(base: int, seps: string, s: string): (r: seq<int>)
    ensures |r| <= |seps| + 1
    decreases |seps|
  {
    var n := DigitRun(base, s);
    if n == 0 then []
    else if seps == "" || n == |s| || s[n] != seps[0] then [Numeral(base, s[..n])]
    else [Numeral(base, s[..n])] + Fields(base, seps[1..], s[n + 1..])
  }

  function FieldsOf(t: ValueType, s: string): seq<int> {
    Fields(Base(t), Separators(t), s)
  }

  // ----- what values are compared by

  ghost predicate SpellsIpv6(s: string, a: Address) {
    ValidAddress(a) && (s == Text(a) || s == WHITEOUT + Text(a))
  }

  /** Text that the value scanner has accepted as an IPv6 address or prefix. */
  ghost predicate IsIpv6Text(s: string) {
    exists a :: SpellsIpv6(s, a)
  }

  ghost function AddressIn(s: string): (a: Address)
    requires IsIpv6Text(s)
    ensures SpellsIpv6(s, a)
  {
    var a :| SpellsIpv6(s, a);
    a
  }

  function Codes(s: string): (r: seq<int>)
    ensures |r| == |s|
  {
    seq(|s|, i requires 0 <= i < |s| => s[i] as int)
  }

  /** Readable as a value of the type. */
  ghost predicate WellFormed(t: ValueType, s: string) {
    if IsNumeric(t) then FieldsOf(t, s) != []
    else if IsIpv6(t) then IsIpv6Text(s)
    else IsText(t)
  }

  ghost function Key(t: ValueType, s: string): seq<int>
    requires WellFormed(t, s)
  {
    if IsNumeric(t) then FieldsOf(t, s) + Zeros(NumParts(t) - |FieldsOf(t, s)|)
    else if IsIpv6(t) then Scanned(Zeros(PARTS), AddressIn(s))[..NumParts(t)]
    else Codes(s)
  }

  // ----- the comparison as a function

  /** The scanned numbers, or nothing for text of a numeric type that has none. */
  ghost function Readable(t: ValueType, s: string): bool {
    !IsNumeric(t) || FieldsOf(t, s) != []
  }

  /** What the scanner of the value requires of its text. */
  ghost predicate Scannable(t: ValueType, s: string) {
    IsIpv6(t) ==> IsIpv6Text(s)
  }

  /** One pair of values; if neither is readable the previous outcome stays. */
  ghost function PairResult(t: ValueType, l: string, r: string, res: int): int
    requires Scannable(t, l) && Scannable(t, r)
    requires IsNumeric(t) || IsIpv6(t) || IsText(t)
  {
    if !Readable(t, r) then (if Readable(t, l) then 1 else res)
    else if !Readable(t, l) then -1
    else Lex(Key(t, l), Key(t, r))
  }

  datatype Outcome = Unknown | Done(holds: bool) | Next(res: int, holds: bool)

  predicate Compatible(right: Value, i: nat, t: ValueType)
    requires right.Valid() && i < right.Stop()
  {
    if right.vals != [] && right.valTypes.Some? && right.valTypes.value[i] != ErrorType
    then right.valTypes.value[i] == t else true
  }

  /** A list on the left is compared with a number by its count. */
  predicate ByCount(left: Value, right: Value, cond: Condition) {
    left.isMulti && cond != IN && right.vals == [] && right.valType == IntType
  }

  function CountResult(left: Value, right: Value): int {
    var n := if FieldsOf(IntType, right.val) == [] then 0 else FieldsOf(IntType, right.val)[0];
    if |left.vals| > n then 1 else if |left.vals| < n then -1 else 0
  }

  ghost predicate Comparable(left: Value, right: Value) {
    && left.Valid() && right.Valid()
    && (forall i :: 0 <= i < left.Stop() ==> Scannable(left.valType, left.At(i)))
    && (forall i :: 0 <= i < right.Stop() && Compatible(right, i, left.valType) ==>
          Scannable(left.valType, right.At(i)))
  }

  ghost function RightWalk(left: Value, right: Value, cond: Condition, l: string, i: nat, res: int, holds: bool)
    : Outcome
    requires Comparable(left, right) && !ByCount(left, right, cond) && i <= right.Stop() && Scannable(left.valType, l)
    decreases right.Stop() - i
  {
    var t := left.valType;
    if i == right.Stop() then Next(res, holds)
    else if !Compatible(right, i, t) then RightWalk(left, right, cond, l, i + 1, res, holds)
    else if !(IsNumeric(t) || IsIpv6(t) || IsText(t)) then Unknown
    else
      var r := PairResult(t, l, right.At(i), res);
      if Holds(cond, r) && cond == IN then Next(r, true)
      else if !Holds(cond, r) && cond != IN then Done(false)
      else RightWalk(left, right, cond, l, i + 1, r, Holds(cond, r))
  }

  ghost function LeftWalk(left: Value, right: Value, cond: Condition, i: nat, res: int, holds: bool): Outcome
    requires Comparable(left, right) && !ByCount(left, right, cond) && i <= left.Stop()
    decreases left.Stop() - i
  {
    if i == left.Stop() then Done(holds)
    else
      match RightWalk(left, right, cond, left.At(i), 0, res, holds)
      case Unknown => Unknown
      case Done(b) => Done(b)
      case Next(r, b) => LeftWalk(left, right, cond, i + 1, r, b)
  }

  ghost function Compared(left: Value, right: Value, cond: Condition): Outcome
    requires Comparable(left, right)
  {
    if ByCount(left, right, cond) then Done(Holds(cond, CountResult(left, right)))
    else LeftWalk(left, right, cond, 0, 0, false)
  }

  // ----- lists of well-formed values

  ghost predicate AllWellFormed(left: Value, right: Value) {
    && left.Valid() && right.Valid()
    && (forall i :: 0 <= i < left.Stop() ==> WellFormed(left.valType, left.At(i)))
    && (forall i :: 0 <= i < right.Stop() && Compatible(right, i, left.valType) ==>
          WellFormed(left.valType, right.At(i)))
  }

  lemma WellFormedIsComparable(left: Value, right: Value)
    requires AllWellFormed(left, right)
    ensures Comparable(left, right)
  {
    forall i | 0 <= i < left.Stop()
      ensures Scannable(left.valType, left.At(i))
    {
      assert WellFormed(left.valType, left.At(i));
    }
  }

  /** The comparison of one pair. */
  ghost function Order(left: Value, right: Value, i: nat, j: nat): int
    requires AllWellFormed(left, right) && i < left.Stop() && j < right.Stop() && Compatible(right, j, left.valType)
  {
    Lex(Key(left.valType, left.At(i)), Key(left.valType, right.At(j)))
  }

  /** All compatible right values from `j` on stand in the relation to left value `i`. */
  ghost predicate AllFrom(left: Value, right: Value, cond: Condition, i: nat, j: nat)
    requires AllWellFormed(left, right) && i < left.Stop()
  {
    forall k :: j <= k < right.Stop() && Compatible(right, k, left.valType) ==> Means(cond, Order(left, right, i, k))
  }

  ghost predicate SomeFrom(left: Value, right: Value, cond: Condition, i: nat, j: nat)
    requires AllWellFormed(left, right) && i < left.Stop()
  {
    exists k :: j <= k < right.Stop() && Compatible(right, k, left.valType) && Means(cond, Order(left, right, i, k))
  }

  ghost predicate SomeCompatible(left: Value, right: Value, j: nat)
    requires right.Valid()
  {
    exists k :: j <= k < right.Stop() && Compatible(right, k, left.valType)
  }

  lemma AllFromStep(left: Value, right: Value, cond: Condition, i: nat, j: nat)
    requires AllWellFormed(left, right) && i < left.Stop() && j < right.Stop()
    ensures AllFrom(left, right, cond, i, j) <==>
              && (Compatible(right, j, left.valType) ==> Means(cond, Order(left, right, i, j)))
              && AllFrom(left, right, cond, i, j + 1)
    ensures SomeCompatible(left, right, j) <==>
              Compatible(right, j, left.valType) || SomeCompatible(left, right, j + 1)
  {
  }

  lemma RightWalkStep(left: Value, right: Value, cond: Condition, i: nat, j: nat, res: int, holds: bool)
    requires AllWellFormed(left, right) && Comparable(left, right) && !ByCount(left, right, cond) && cond != IN
    requires i < left.Stop() && j < right.Stop() && Scannable(left.valType, left.At(i))
    ensures RightWalk(left, right, cond, left.At(i), j, res, holds) ==
              if !Compatible(right, j, left.valType) then RightWalk(left, right, cond, left.At(i), j + 1, res, holds)
              else
                var r := Order(left, right, i, j);
                if Means(cond, r) then RightWalk(left, right, cond, left.At(i), j + 1, r, true) else Done(false)
  {
    assert WellFormed(left.valType, left.At(i));
    if Compatible(right, j, left.valType) {
      TableMeansCondition(cond, Order(left, right, i, j));
    }
  }

  lemma {:induction false} RightWalkForAll(left: Value, right: Value, cond: Condition, i: nat, j: nat, res: int,
                                           holds: bool)
    requires AllWellFormed(left, right) && Comparable(left, right) && !ByCount(left, right, cond) && cond != IN
    requires i < left.Stop() && j <= right.Stop()
    ensures var o := RightWalk(left, right, cond, left.At(i), j, res, holds);
            if !AllFrom(left, right, cond, i, j) then o == Done(false)
            else o.Next? && (o.holds <==> holds || SomeCompatible(left, right, j))
    decreases right.Stop() - j
  {
    assert WellFormed(left.valType, left.At(i));
    if j < right.Stop() {
      AllFromStep(left, right, cond, i, j);
      RightWalkStep(left, right, cond, i, j, res, holds);
      if Compatible(right, j, left.valType) {
        if Means(cond, Order(left, right, i, j)) {
          RightWalkForAll(left, right, cond, i, j + 1, Order(left, right, i, j), true);
        }
      } else {
        RightWalkForAll(left, right, cond, i, j + 1, res, holds);
      }
    }
  }

  /** All compatible pairs from left value `i` on stand in the relation. */
  ghost predicate AllRows(left: Value, right: Value, cond: Condition, i: nat)
    requires AllWellFormed(left, right)
  {
    forall k :: i <= k < left.Stop() ==> AllFrom(left, right, cond, k, 0)
  }

  lemma FirstRow(left: Value, right: Value, cond: Condition, i: nat)
    requires AllWellFormed(left, right) && i < left.Stop()
    ensures AllRows(left, right, cond, i) <==> AllFrom(left, right, cond, i, 0) && AllRows(left, right, cond, i + 1)
  {
    if AllFrom(left, right, cond, i, 0) && AllRows(left, right, cond, i + 1) {
      forall k | i <= k < left.Stop()
        ensures AllFrom(left, right, cond, k, 0)
      {
        assert k == i || i + 1 <= k;
      }
    }
  }

  lemma LeftWalkStep(left: Value, right: Value, cond: Condition, i: nat, res: int, holds: bool, o: Outcome)
    requires Comparable(left, right) && !ByCount(left, right, cond) && i < left.Stop()
    requires o == RightWalk(left, right, cond, left.At(i), 0, res, holds)
    ensures LeftWalk(left, right, cond, i, res, holds) ==
              if o.Next? then LeftWalk(left, right, cond, i + 1, o.res, o.holds) else o
  {
  }

  lemma {:induction false} LeftWalkForAll(left: Value, right: Value, cond: Condition, i: nat, res: int, holds: bool)
    requires AllWellFormed(left, right) && Comparable(left, right) && !ByCount(left, right, cond) && cond != IN
    requires i <= left.Stop()
    ensures LeftWalk(left, right, cond, i, res, holds) ==
              Done(AllRows(left, right, cond, i) && (holds || (i < left.Stop() && SomeCompatible(left, right, 0))))
    decreases left.Stop() - i
  {
    if i == left.Stop() {
      assert AllRows(left, right, cond, i);
      return;
    }
    var row, some := AllFrom(left, right, cond, i, 0), SomeCompatible(left, right, 0);
    var o := RightWalk(left, right, cond, left.At(i), 0, res, holds);
    assert if !row then o == Done(false) else o.Next? && (o.holds <==> holds || some) by {
      RightWalkForAll(left, right, cond, i, 0, res, holds);
    }
    FirstRow(left, right, cond, i);
    LeftWalkStep(left, right, cond, i, res, holds, o);
    if row {
      LeftWalkForAll(left, right, cond, i + 1, o.res, o.holds);
    }
  }

  ghost predicate AllPairs(left: Value, right: Value, cond: Condition)
    requires AllWellFormed(left, right)
  {
    forall i, j :: 0 <= i < left.Stop() && 0 <= j < right.Stop() && Compatible(right, j, left.valType) ==>
      Means(cond, Order(left, right, i, j))
  }

  lemma PairsAreRows(left: Value, right: Value, cond: Condition)
    requires AllWellFormed(left, right)
    ensures AllPairs(left, right, cond) <==> AllRows(left, right, cond, 0)
  {
    if !AllPairs(left, right, cond) {
      var i, j :| 0 <= i < left.Stop() && 0 <= j < right.Stop() && Compatible(right, j, left.valType)
                  && !Means(cond, Order(left, right, i, j));
      assert !AllFrom(left, right, cond, i, 0);
    }
  }

  /**
    Except for IN, a condition holds of two lists when there is a compatible pair and all compatible pairs
    satisfy it.
  */
  lemma ConditionOnLists(left: Value, right: Value, cond: Condition)
    requires AllWellFormed(left, right) && cond != IN && !ByCount(left, right, cond)
    ensures Comparable(left, right)
    ensures Compared(left, right, cond) == Done(SomeCompatible(left, right, 0) && AllPairs(left, right, cond))
  {
    WellFormedIsComparable(left, right);
    LeftWalkForAll(left, right, cond, 0, 0, false);
    PairsAreRows(left, right, cond);
  }

  lemma SomeFromStep(left: Value, right: Value, i: nat, j: nat)
    requires AllWellFormed(left, right) && i < left.Stop() && j < right.Stop()
    ensures SomeFrom(left, right, IN, i, j) <==>
              || (Compatible(right, j, left.valType) && Means(IN, Order(left, right, i, j)))
              || SomeFrom(left, right, IN, i, j + 1)
    ensures SomeCompatible(left, right, j) <==>
              Compatible(right, j, left.valType) || SomeCompatible(left, right, j + 1)
  {
  }

  lemma {:induction false} RightWalkIn(left: Value, right: Value, i: nat, j: nat, res: int, holds: bool)
    requires AllWellFormed(left, right) && Comparable(left, right)
    requires i < left.Stop() && j <= right.Stop()
    ensures var o := RightWalk(left, right, IN, left.At(i), j, res, holds);
            o.Next? && o.holds == if SomeCompatible(left, right, j) then SomeFrom(left, right, IN, i, j) else holds
    decreases right.Stop() - j
  {
    if j < right.Stop() {
      assert WellFormed(left.valType, left.At(i));
      SomeFromStep(left, right, i, j);
      if Compatible(right, j, left.valType) {
        var r := Order(left, right, i, j);
        TableMeansCondition(IN, r);
        if !Means(IN, r) {
          RightWalkIn(left, right, i, j + 1, r, false);
        }
      } else {
        RightWalkIn(left, right, i, j + 1, res, holds);
      }
    }
  }

  lemma {:induction false} LeftWalkIn(left: Value, right: Value, i: nat, res: int, holds: bool)
    requires AllWellFormed(left, right) && Comparable(left, right) && i < left.Stop()
    ensures LeftWalk(left, right, IN, i, res, holds) ==
              Done(if SomeCompatible(left, right, 0) then SomeFrom(left, right, IN, left.Stop() - 1, 0) else holds)
    decreases left.Stop() - i
  {
    RightWalkIn(left, right, i, 0, res, holds);
    var o := RightWalk(left, right, IN, left.At(i), 0, res, holds);
    if i + 1 < left.Stop() {
      LeftWalkIn(left, right, i + 1, o.res, o.holds);
    } else {
      assert LeftWalk(left, right, IN, i + 1, o.res, o.holds) == Done(o.holds);
    }
  }

  /** IN holds when some compatible right value equals the left value; of several left values the last one decides. */
  lemma MembershipInList(left: Value, right: Value)
    requires AllWellFormed(left, right)
    ensures Comparable(left, right)
    ensures Compared(left, right, IN) ==
              Done(exists j :: 0 <= j < right.Stop() && Compatible(right, j, left.valType)
                               && Key(left.valType, left.At(left.Stop() - 1)) == Key(left.valType, right.At(j)))
  {
    WellFormedIsComparable(left, right);
    LeftWalkIn(left, right, 0, 0, false);
    forall j | 0 <= j < right.Stop() && Compatible(right, j, left.valType)
      ensures Means(IN, Order(left, right, left.Stop() - 1, j)) <==>
              Key(left.valType, left.At(left.Stop() - 1)) == Key(left.valType, right.At(j))
    {
      LexIsZeroIffEqual(Key(left.valType, left.At(left.Stop() - 1)), Key(left.valType, right.At(j)));
    }
    var last := left.Stop() - 1;
    assert SomeFrom(left, right, IN, last, 0) <==>
           exists j :: 0 <= j < right.Stop() && Compatible(right, j, left.valType)
                       && Key(left.valType, left.At(last)) == Key(left.valType, right.At(j)) by {
      if SomeFrom(left, right, IN, last, 0) {
        var j :| 0 <= j < right.Stop() && Compatible(right, j, left.valType) && Means(IN, Order(left, right, last, j));
        assert Key(left.valType, left.At(last)) == Key(left.valType, right.At(j));
      }
      if exists j :: 0 <= j < right.Stop() && Compatible(right, j, left.valType)
                     && Key(left.valType, left.At(last)) == Key(left.valType, right.At(j)) {
        var j :| 0 <= j < right.Stop() && Compatible(right, j, left.valType)
                 && Key(left.valType, left.At(last)) == Key(left.valType, right.At(j));
        assert Means(IN, Order(left, right, last, j));
      }
    }
  }

  // ----- single values

  function Single(t: ValueType, s: string): Value {
    Value(t, false, s, [], None)
  }

  /** The comparison of two single values of one type. */
  ghost predicate Related(t: ValueType, cond: Condition, x: string, y: string)
    requires WellFormed(t, x) && WellFormed(t, y)
  {
    WellFormedIsComparable(Single(t, x), Single(t, y));
    Compared(Single(t, x), Single(t, y), cond) == Done(true)
  }

  lemma RelatedByKey(t: ValueType, cond: Condition, x: string, y: string)
    requires WellFormed(t, x) && WellFormed(t, y)
    ensures Related(t, cond, x, y) <==> Means(cond, Lex(Key(t, x), Key(t, y)))
  {
    var l, r := Single(t, x), Single(t, y);
    WellFormedIsComparable(l, r);
    assert l.At(0) == x && r.At(0) == y && Compatible(r, 0, t);
    if cond == IN {
      MembershipInList(l, r);
      LexIsZeroIffEqual(Key(t, x), Key(t, y));
    } else {
      ConditionOnLists(l, r, cond);
      assert Order(l, r, 0, 0) == Lex(Key(t, x), Key(t, y));
    }
  }

  lemma RelatedIs(t: ValueType, x: string, y: string, r: int)
    requires WellFormed(t, x) && WellFormed(t, y) && r == Lex(Key(t, x), Key(t, y))
    ensures forall cond :: Related(t, cond, x, y) <==> Means(cond, r)
  {
    forall cond
      ensures Related(t, cond, x, y) <==> Means(cond, r)
    {
      RelatedByKey(t, cond, x, y);
    }
  }

  /** The conditions that hold of two single values. */
  ghost function Holding(t: ValueType, x: string, y: string): set<Condition>
    requires WellFormed(t, x) && WellFormed(t, y)
  {
    set cond: Condition | Related(t, cond, x, y)
  }

  function Meant(r: int): set<Condition> {
    set cond: Condition | Means(cond, r)
  }

  lemma MeantIs(r: int)
    ensures Meant(r) == if r < 0 then {LT, LE, NE} else if r == 0 then {EQ, LE, GE, IN} else {GT, GE, NE}
  {
    forall cond: Condition
      ensures cond in Meant(r) <==>
              cond in if r < 0 then {LT, LE, NE} else if r == 0 then {EQ, LE, GE, IN} else {GT, GE, NE}
    {
      match cond
      case EQ => case NE => case LT => case LE => case GT => case GE => case IN =>
    }
  }

  lemma HoldingIs(t: ValueType, x: string, y: string, r: int)
    requires WellFormed(t, x) && WellFormed(t, y) && r == Lex(Key(t, x), Key(t, y))
    ensures Holding(t, x, y) == Meant(r)
  {
    RelatedIs(t, x, y, r);
  }

  /**
    The conditions are those of one total order: exactly one of LT, EQ and GT holds, and the others follow from it.
    EQ is equality of what is compared, and turning the values around turns LT and GT around.
  */
  lemma ConditionsAreOfOneOrder(t: ValueType, x: string, y: string)
    requires WellFormed(t, x) && WellFormed(t, y)
    ensures Holding(t, x, y) in {{LT, LE, NE}, {EQ, LE, GE, IN}, {GT, GE, NE}}
    ensures Holding(t, x, y) == {EQ, LE, GE, IN} <==> Key(t, x) == Key(t, y)
    ensures Holding(t, x, y) == {GT, GE, NE} <==> Holding(t, y, x) == {LT, LE, NE}
  {
    var r := Lex(Key(t, x), Key(t, y));
    HoldingIs(t, x, y, r);
    HoldingIs(t, y, x, -r) by {
      LexIsAntisymmetric(Key(t, x), Key(t, y));
    }
    LexIsZeroIffEqual(Key(t, x), Key(t, y));
    OneOrder(Holding(t, x, y), Holding(t, y, x), r);
  }

  lemma OneOrder(here: set<Condition>, there: set<Condition>, r: int)
    requires here == Meant(r) && there == Meant(-r)
    ensures here in {{LT, LE, NE}, {EQ, LE, GE, IN}, {GT, GE, NE}}
    ensures here == {EQ, LE, GE, IN} <==> r == 0
    ensures here == {GT, GE, NE} <==> there == {LT, LE, NE}
  {
    MeantTellsApart(r);
    MeantTellsApart(-r);
  }

  lemma MeantTellsApart(r: int)
    ensures Meant(r) in {{LT, LE, NE}, {EQ, LE, GE, IN}, {GT, GE, NE}}
    ensures Meant(r) == {EQ, LE, GE, IN} <==> r == 0
    ensures Meant(r) == {GT, GE, NE} <==> r > 0
    ensures Meant(r) == {LT, LE, NE} <==> r < 0
  {
    MeantIs(r);
    assert EQ in Meant(r) <==> r == 0;
    assert LT in Meant(r) <==> r < 0;
    assert GT in Meant(r) <==> r > 0;
  }

  lemma EqualIffSameKey(t: ValueType, x: string, y: string)
    requires WellFormed(t, x) && WellFormed(t, y)
    ensures Related(t, EQ, x, y) <==> Key(t, x) == Key(t, y)
  {
    RelatedByKey(t, EQ, x, y);
    LexIsZeroIffEqual(Key(t, x), Key(t, y));
  }

  lemma OrderIsTransitive(t: ValueType, x: string, y: string, z: string)
    requires WellFormed(t, x) && WellFormed(t, y) && WellFormed(t, z)
    ensures Related(t, LE, x, y) && Related(t, LE, y, z) ==> Related(t, LE, x, z)
    ensures Related(t, LE, x, y) && Related(t, LE, y, z) && Related(t, EQ, x, z) ==>
              Related(t, EQ, x, y) && Related(t, EQ, y, z)
  {
    var r, q := Lex(Key(t, x), Key(t, y)), Lex(Key(t, y), Key(t, z));
    RelatedIs(t, x, y, r);
    RelatedIs(t, y, z, q);
    RelatedIs(t, x, z, Lex(Key(t, x), Key(t, z)));
    if r <= 0 && q <= 0 {
      LexIsTransitive(Key(t, x), Key(t, y), Key(t, z));
    }
  }

  /** Two spellings are equal exactly when they spell the same IPv6 address. */
  lemma SpellingsAreEqualIff(a: Address, b: Address)
    requires ValidAddress(a) && ValidAddress(b) && a.prefix.None? && b.prefix.None?
    ensures WellFormed(Ipv6Type, Text(a)) && WellFormed(Ipv6Type, Text(b))
    ensures NumbersOf(a).Valid() && NumbersOf(b).Valid()
    ensures Related(Ipv6Type, EQ, Text(a), Text(b)) <==> NumbersOf(a).Groups() == NumbersOf(b).Groups()
  {
    KeyOfSpelling(Ipv6Type, a);
    KeyOfSpelling(Ipv6Type, b);
    EqualIffSameKey(Ipv6Type, Text(a), Text(b));
    SpellingsAgree(Zeros(PARTS), Zeros(PARTS), a, b);
  }

  /** The key of a text does not depend on how the text is taken apart. */
  lemma KeyOfSpelling(t: ValueType, a: Address)
    requires ValidAddress(a) && IsIpv6(t)
    ensures WellFormed(t, Text(a))
    ensures Key(t, Text(a)) == Scanned(Zeros(PARTS), a)[..NumParts(t)]
  {
    assert SpellsIpv6(Text(a), a);
    var b := AddressIn(Text(a));
    SameText(a, b);
    SameTextScansAlike(Zeros(PARTS), a, b);
  }

  lemma SameText(a: Address, b: Address)
    requires ValidAddress(a) && SpellsIpv6(Text(a), b)
    ensures Text(a) == Text(b)
  {
    FirstIsNoDot(a);
    WhiteoutPrefix(Text(b));
    assert (WHITEOUT + Text(b))[0] == '.';
  }

  lemma SameTextScansAlike(parts: seq<int>, a: Address, b: Address)
    requires |parts| == PARTS && ValidAddress(a) && ValidAddress(b) && Text(a) == Text(b)
    ensures Scanned(parts, a) == Scanned(parts, b)
  {
  }

  // ----- the comparison itself

  /** Scans one value into an array of zeros. */
  method FillParts(t: ValueType, s: string, parts: array<int>) returns (empty: bool)
    requires IsNumeric(t) || IsIpv6(t)
    requires Scannable(t, s)
    requires parts.Length == PARTS && parts[..] == Zeros(PARTS)
    modifies parts
    ensures empty == !Readable(t, s)
    ensures !empty ==> WellFormed(t, s) && parts[..NumParts(t)] == Key(t, s)
  {
    if IsIpv6(t) {
      empty := false;
      ghost var a := AddressIn(s);
      ScanIpv6(s, parts, a);
    } else {
      var fields := FieldsOf(t, s);
      empty := fields == [];
      StoreFields(fields, parts, NumParts(t));
    }
  }

  method StoreFields(fields: seq<int>, parts: array<int>, n: nat)
    requires |fields| <= n <= PARTS == parts.Length && parts[..] == Zeros(PARTS)
    modifies parts
    ensures parts[..n] == fields + Zeros(n - |fields|)
  {
    for i := 0 to |fields|
      invariant forall k :: 0 <= k < PARTS ==> parts[k] == if k < i then fields[k] else 0
    {
      parts[i] := fields[i];
    }
  }

  /** The first difference decides; without parts the outcome stays. */
  method CompareParts(l: array<int>, r: array<int>, n: nat, start: int) returns (res: int)
    requires n <= l.Length && n <= r.Length
    ensures res == if n == 0 then start else Lex(l[..n], r[..n])
  {
    res := start;
    for step := 0 to n
      invariant forall i :: 0 <= i < step ==> l[i] == r[i]
      invariant res == if step == 0 then start else 0
    {
      LexSkips(l[..n], r[..n], step);
      assert l[..n][step..][0] == l[step] && r[..n][step..][0] == r[step];
      if l[step] > r[step] {
        return 1;
      }
      if l[step] < r[step] {
        return -1;
      }
      res := 0;
    }
    if n > 0 {
      LexSkips(l[..n], r[..n], n);
    }
  }

  lemma TextResult(t: ValueType, l: string, r: string, prev: int)
    requires IsText(t)
    ensures Scannable(t, l) && Scannable(t, r) && PairResult(t, l, r, prev) == Lex(Codes(l), Codes(r))
  {
  }

  method ComparePair(t: ValueType, l: string, r: string, prev: int) returns (res: int)
    requires Scannable(t, l) && Scannable(t, r)
    requires IsNumeric(t) || IsIpv6(t) || IsText(t)
    ensures res == PairResult(t, l, r, prev)
  {
    if IsText(t) {
      TextResult(t, l, r, prev);
      res := Lex(Codes(l), Codes(r));
    } else {
      res := CompareNumbers(t, l, r, prev);
    }
  }

  /** The outcome, by the two flags and the two keys. */
  lemma PairResultIs(t: ValueType, l: string, r: string, prev: int, lkey: seq<int>, rkey: seq<int>)
    requires Scannable(t, l) && Scannable(t, r) && (IsNumeric(t) || IsIpv6(t))
    requires Readable(t, l) ==> WellFormed(t, l) && lkey == Key(t, l)
    requires Readable(t, r) ==> WellFormed(t, r) && rkey == Key(t, r)
    ensures PairResult(t, l, r, prev) ==
              if !Readable(t, r) then (if Readable(t, l) then 1 else prev)
              else if !Readable(t, l) then -1 else Lex(lkey, rkey)
  {
  }

  /** Clears the parts and scans one value into them. */
  method ScanParts(t: ValueType, s: string) returns (parts: array<int>, empty: bool)
    requires (IsNumeric(t) || IsIpv6(t)) && Scannable(t, s)
    ensures fresh(parts) && parts.Length == PARTS && NumParts(t) <= PARTS
    ensures empty == !Readable(t, s)
    ensures !empty ==> WellFormed(t, s) && parts[..NumParts(t)] == Key(t, s)
  {
    parts := new int[PARTS](_ => 0);
    assert parts[..] == Zeros(PARTS);
    empty := FillParts(t, s, parts);
  }

  method CompareNumbers(t: ValueType, l: string, r: string, prev: int) returns (res: int)
    requires Scannable(t, l) && Scannable(t, r)
    requires IsNumeric(t) || IsIpv6(t)
    ensures res == PairResult(t, l, r, prev)
  {
    var leftParts, lhsEmpty := ScanParts(t, l);
    var rightParts, rhsEmpty := ScanParts(t, r);
    var parts := NumParts(t);
    PairResultIs(t, l, r, prev, leftParts[..parts], rightParts[..parts]);
    res := DecideParts(leftParts, rightParts, parts, lhsEmpty, rhsEmpty, prev);
  }

  /** An unreadable value is less than a readable one; two unreadable ones leave the outcome as it was. */
  method DecideParts(l: array<int>, r: array<int>, n: nat, lhsEmpty: bool, rhsEmpty: bool, prev: int) returns (res: int)
    requires 0 < n <= l.Length && n <= r.Length
    ensures res == if rhsEmpty then (if lhsEmpty then prev else 1) else if lhsEmpty then -1 else Lex(l[..n], r[..n])
  {
    res := prev;
    var parts := n;
    if rhsEmpty {
      if !lhsEmpty {
        res := 1;
      }
      parts := 0;
    } else if lhsEmpty {
      res := -1;
      parts := 0;
    }
    res := CompareParts(l, r, parts, res);
  }

  /** The loop over the right values. */
  method CompareWithRight(left: Value, right: Value, cond: Condition, lval: string, start: int, holds: bool)
      returns (o: Outcome)
    requires Comparable(left, right) && Scannable(left.valType, lval)
    ensures ByCount(left, right, cond) ==> o == Done(Holds(cond, CountResult(left, right)))
    ensures !ByCount(left, right, cond) ==> o == RightWalk(left, right, cond, lval, 0, start, holds)
  {
    var t := left.valType;
    var res, ret := start, holds;
    for rcur := 0 to right.Stop()
      invariant ByCount(left, right, cond) ==> rcur == 0
      invariant !ByCount(left, right, cond) ==>
                  RightWalk(left, right, cond, lval, rcur, res, ret)
                    == RightWalk(left, right, cond, lval, 0, start, holds)
    {
      if left.isMulti && cond != IN && right.vals == [] && right.valType == IntType {
        return Done(Holds(cond, CountResult(left, right)));
      }
      if !Compatible(right, rcur, t) {
        continue;
      }
      if !(IsNumeric(t) || IsIpv6(t) || IsText(t)) {
        return Unknown;
      }
      res := ComparePair(t, lval, right.At(rcur), res);
      ret := Holds(cond, res);
      if ret && cond == IN {
        break;
      }
      if !ret && cond != IN {
        return Done(false);
      }
    }
    o := Next(res, ret);
  }

  /** `val_cmp`; `Unknown` stands for the exit on a type that has no comparison. */
  method ValCmp(left: Value, right: Value, cond: Condition) returns (o: Outcome)
    requires Comparable(left, right)
    ensures o == Compared(left, right, cond)
  {
    var res, ret := 0, false;
    for lcur := 0 to left.Stop()
      invariant ByCount(left, right, cond) ==> lcur == 0
      invariant !ByCount(left, right, cond) ==>
                  LeftWalk(left, right, cond, lcur, res, ret) == LeftWalk(left, right, cond, 0, 0, false)
    {
      assert Scannable(left.valType, left.At(lcur));
      o := CompareWithRight(left, right, cond, left.At(lcur), res, ret);
      if !o.Next? {
        return;
      }
      res, ret := o.res, o.holds;
    }
    o := Done(ret);
  }
}
