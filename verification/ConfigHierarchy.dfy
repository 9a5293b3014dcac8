/**
  The hierarchy of hashes into which a parsed configuration file is loaded, the order of
  its statements, and the configuration tree the two together stand for.
*/
module ConfigHierarchy {
  import opened ConfigTree
  import opened ConfigDiff
  import opened BlankText
  import opened PathText
  import opened RankSort

  datatype Hierarchy = Hierarchy(kids: map<string, Hierarchy>)

  const EMPTY := Hierarchy(map[])

  /** The order in which the statements came, by their joined text. */
  type Order = map<string, nat>

  // ----- loading statements

  /** Walks down the hashes, creating those that are missing. */
  function Insert(h: Hierarchy, p: Path): Hierarchy
    decreases |p|
  {
    if p == [] then h
    else
      var kid := if p[0] in h.kids then h.kids[p[0]] else EMPTY;
      Hierarchy(h.kids[p[0] := Insert(kid, p[1..])])
  }

  function InsertAll(stmts: seq<Path>): Hierarchy {
    if stmts == [] then EMPTY
    else Insert(InsertAll(stmts[..|stmts| - 1]), stmts[|stmts| - 1])
  }

  function OrderOf(stmts: seq<Path>): Order {
    if stmts == [] then map[]
    else OrderOf(stmts[..|stmts| - 1])[Join(stmts[|stmts| - 1]) := |stmts| - 1]
  }

  method GenerateHierarchy(stmts: seq<Path>) returns (h: Hierarchy, order: Order)
    ensures h == InsertAll(stmts) && order == OrderOf(stmts)
  {
    h, order := EMPTY, map[];
    for i := 0 to |stmts|
      invariant h == InsertAll(stmts[..i]) && order == OrderOf(stmts[..i])
    {
      assert stmts[..i + 1][..i] == stmts[..i];
      order := order[Join(stmts[i]) := i];
      h := Insert(h, stmts[i]);
    }
    assert stmts[..|stmts|] == stmts;
  }

  // ----- sorting multi values by statement order

  function Rank(order: Order, path: Path, v: string): nat {
    var key := Join(path + [v]);
    if key in order then order[key] else 0
  }

  function RankIn(order: Order, path: Path): string -> nat {
    (v: string) => Rank(order, path, v)
  }

  /** `getSortedMultiValues`: the values of a multi node in the order of the file. */
  method GetSortedMultiValues(ns: Listing, h: Hierarchy, path: Path, order: Order) returns (vals: seq<string>)
    requires ListsKeys(ns) && DistinctRanks(RankIn(order, path), h.kids.Keys)
    ensures vals == SortByRank(RankIn(order, path), ns(h.kids.Keys))
    ensures (forall v :: v in vals <==> v in h.kids) && Ranked(RankIn(order, path), vals)
  {
    vals := SortByRank(RankIn(order, path), ns(h.kids.Keys));
    SortedIsRanked(RankIn(order, path), ns(h.kids.Keys), h.kids.Keys);
  }

  // ----- the tree a hierarchy stands for

  function First(vs: seq<string>): seq<string> {
    if vs == [] then [] else [vs[0]]
  }

  ghost function Target(ns: Listing, s: Schema, h: Hierarchy, order: Order, path: Path): Config
    decreases h
  {
    if s.Leaf? then
      Values(if s.multi then SortByRank(RankIn(order, path), ns(h.kids.Keys)) else First(ns(h.kids.Keys)))
    else
      Node(map k | k in h.kids && ChildSchema(s, k).Some? ::
             Target(ns, ChildSchema(s, k).value, h.kids[k], order, path + [k]))
  }

  /** Plain names that the schema knows, and below a leaf one value, or at least one if it is a multi leaf. */
  ghost predicate WellFormed(s: Schema, h: Hierarchy)
    decreases h
  {
    && (forall k :: k in h.kids ==> PlainName(k))
    && if s.Leaf? then
         && h.kids != map[]
         && (!s.multi ==> |h.kids| == 1)
         && forall k :: k in h.kids ==> h.kids[k] == EMPTY
       else
         forall k :: k in h.kids ==> ChildSchema(s, k).Some? && WellFormed(ChildSchema(s, k).value, h.kids[k])
  }

  /** The order tells all values of every multi leaf apart. */
  ghost predicate OrdersValues(s: Schema, h: Hierarchy, order: Order, path: Path)
    decreases h
  {
    if s.Leaf? then DistinctRanks(RankIn(order, path), h.kids.Keys)
    else forall k :: k in h.kids && ChildSchema(s, k).Some? ==>
           OrdersValues(ChildSchema(s, k).value, h.kids[k], order, path + [k])
  }

  lemma {:induction false} TargetConforms(ns: Listing, s: Schema, h: Hierarchy, order: Order, path: Path)
    requires ListsKeys(ns) && WellFormed(s, h) && OrdersValues(s, h, order, path)
    ensures Conforms(s, Target(ns, s, h, order, path))
    decreases h
  {
    if s.Leaf? {
      var keys := ns(h.kids.Keys);
      var k :| k in h.kids;
      assert k in keys;
      SortedIsRanked(RankIn(order, path), keys, h.kids.Keys);
      RankedIsDistinct(RankIn(order, path), SortByRank(RankIn(order, path), keys));
      assert s.multi ==> k in SortByRank(RankIn(order, path), keys);
    } else {
      forall k | k in h.kids
        ensures Conforms(ChildSchema(s, k).value, Target(ns, ChildSchema(s, k).value, h.kids[k], order, path + [k]))
      {
        TargetConforms(ns, ChildSchema(s, k).value, h.kids[k], order, path + [k]);
      }
    }
  }
}
