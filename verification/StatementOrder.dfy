/**
  A loaded hierarchy stands for the tree that results from putting the statements of the file into an
  empty configuration one after the other, where a value that is repeated moves to the end.
*/
module StatementOrder {
  import opened Options
  import opened ValueLists
  import opened ConfigTree
  import opened ConfigDiff
  import opened BlankText
  import opened PathText
  import opened RankSort
  import opened ConfigHierarchy

  // ----- files whose statements fit the schema and do not contradict each other

  /** The statement names a node, or a leaf together with a value. */
  predicate ValidStatement(s: Schema, p: Path)
    decreases |p|
  {
    if s.Leaf? then |p| == 1 && PlainName(p[0])
    else p == [] || (PlainName(p[0]) && ChildSchema(s, p[0]).Some?
                     && ValidStatement(ChildSchema(s, p[0]).value, p[1..]))
  }

  /** Two statements that give different values to one single-value leaf. */
  predicate Conflict(s: Schema, p: Path, q: Path)
    decreases |p|
  {
    && p != [] && q != []
    && if s.Leaf? then !s.multi && p[0] != q[0]
       else p[0] == q[0] && ChildSchema(s, p[0]).Some? && Conflict(ChildSchema(s, p[0]).value, p[1..], q[1..])
  }

  ghost predicate ValidFile(s: Schema, stmts: seq<Path>) {
    && !s.Leaf?
    && (forall i :: 0 <= i < |stmts| ==> ValidStatement(s, stmts[i]))
    && (forall i, j :: 0 <= i < j < |stmts| ==> !Conflict(s, stmts[i], stmts[j]))
  }

  /** How a value is put into a leaf: what is there already stays in its place, or moves to the end. */
  function PutValue(moves: bool, multi: bool, values: seq<string>, v: string): seq<string> {
    if moves && multi then Remove(values, v) + [v] else SetValue(multi, values, v)
  }

  /** `set`, with a choice of what happens to a value that is there already. */
  function PutAt(moves: bool, s: Schema, c: Option<Config>, p: Path): Config
    decreases |p|
  {
    var base := OrEmpty(s, c);
    if p == [] then base
    else
      match base
      case Values(values) =>
        if s.Leaf? then Values(PutValue(moves, s.multi, values, p[0])) else base
      case Node(kids) =>
        match ChildSchema(s, p[0])
        case None => base
        case Some(t) => Node(kids[p[0] := PutAt(moves, t, KidOf(base, p[0]), p[1..])])
  }

  lemma {:induction false} PutIsSet(s: Schema, c: Option<Config>, p: Path)
    ensures PutAt(false, s, c, p) == SetAt(s, c, p)
    decreases |p|
  {
    var base := OrEmpty(s, c);
    if p != [] && base.Node? && ChildSchema(s, p[0]).Some? {
      PutIsSet(ChildSchema(s, p[0]).value, KidOf(base, p[0]), p[1..]);
    }
  }

  /** The statements put into an empty configuration one after the other. */
  function Puts(moves: bool, s: Schema, stmts: seq<Path>): Config {
    if stmts == [] then Empty(s)
    else PutAt(moves, s, Some(Puts(moves, s, stmts[..|stmts| - 1])), stmts[|stmts| - 1])
  }

  /** What the file means when it is loaded. */
  function Load(s: Schema, stmts: seq<Path>): Config {
    Puts(true, s, stmts)
  }

  // ----- what every insertion keeps

  function KidOrEmpty(h: Hierarchy, k: string): Hierarchy {
    if k in h.kids then h.kids[k] else EMPTY
  }

  /** The value that the statement gives to a single-value leaf is not in contradiction to one that is there. */
  ghost predicate Fresh(s: Schema, h: Hierarchy, p: Path)
    decreases |p|
  {
    if p == [] then true
    else if s.Leaf? then !s.multi ==> h.kids.Keys <= {p[0]}
    else ChildSchema(s, p[0]).Some? ==> Fresh(ChildSchema(s, p[0]).value, KidOrEmpty(h, p[0]), p[1..])
  }

  /** Every value of a multi leaf has an entry in the order. */
  ghost predicate Ordered(s: Schema, h: Hierarchy, order: Order, path: Path)
    decreases h
  {
    if s.Leaf? then forall v :: v in h.kids ==> Join(path + [v]) in order
    else forall k :: k in h.kids && ChildSchema(s, k).Some? ==>
           Ordered(ChildSchema(s, k).value, h.kids[k], order, path + [k])
  }

  ghost predicate InjectiveBelow(order: Order, n: nat) {
    && (forall k :: k in order ==> order[k] < n)
    && (forall k, l :: k in order && l in order && k != l ==> order[k] != order[l])
  }

  /** A hierarchy below which a leaf may still lack its value. */
  ghost predicate Partial(s: Schema, h: Hierarchy) {
    WellFormed(s, h) || h == EMPTY
  }

  lemma {:induction false} InsertIsWellFormed(s: Schema, h: Hierarchy, p: Path)
    requires Partial(s, h) && ValidStatement(s, p) && Fresh(s, h, p)
    ensures WellFormed(s, Insert(h, p))
    decreases |p|
  {
    if s.Leaf? {
      assert p[1..] == [];
      assert Insert(h, p).kids == h.kids[p[0] := EMPTY];
      if !s.multi {
        assert Insert(h, p).kids.Keys == {p[0]};
      }
    } else if p != [] {
      InsertIsWellFormed(ChildSchema(s, p[0]).value, KidOrEmpty(h, p[0]), p[1..]);
    }
  }

  lemma {:induction false} FreshAfterInsert(s: Schema, h: Hierarchy, q: Path, p: Path)
    requires ValidStatement(s, q) && ValidStatement(s, p)
    requires Fresh(s, h, p) && !Conflict(s, q, p)
    ensures Fresh(s, Insert(h, q), p)
    decreases |p|
  {
    if s.Leaf? || p == [] || q == [] {
    } else if q[0] == p[0] {
      FreshAfterInsert(ChildSchema(s, p[0]).value, KidOrEmpty(h, p[0]), q[1..], p[1..]);
      assert KidOrEmpty(Insert(h, q), p[0]) == Insert(KidOrEmpty(h, p[0]), q[1..]);
    } else {
      assert KidOrEmpty(Insert(h, q), p[0]) == KidOrEmpty(h, p[0]);
    }
  }

  lemma {:induction false} FreshInEmpty(s: Schema, p: Path)
    ensures Fresh(s, EMPTY, p)
    decreases |p|
  {
    if p != [] && !s.Leaf? && ChildSchema(s, p[0]).Some? {
      FreshInEmpty(ChildSchema(s, p[0]).value, p[1..]);
    }
  }

  lemma {:induction false} FreshAfterAll(s: Schema, stmts: seq<Path>, p: Path)
    requires ValidStatement(s, p)
    requires forall i :: 0 <= i < |stmts| ==> ValidStatement(s, stmts[i]) && !Conflict(s, stmts[i], p)
    ensures Fresh(s, InsertAll(stmts), p)
  {
    if stmts == [] {
      FreshInEmpty(s, p);
    } else {
      FreshAfterAll(s, stmts[..|stmts| - 1], p);
      FreshAfterInsert(s, InsertAll(stmts[..|stmts| - 1]), stmts[|stmts| - 1], p);
    }
  }

  lemma {:induction false} OrderIsInjective(stmts: seq<Path>)
    ensures InjectiveBelow(OrderOf(stmts), |stmts|)
  {
    if stmts != [] {
      OrderIsInjective(stmts[..|stmts| - 1]);
    }
  }

  lemma {:induction false} OrderedAfterInsert(s: Schema, h: Hierarchy, order: Order, path: Path, p: Path, n: nat)
    requires ValidStatement(s, p) && Ordered(s, h, order, path)
    ensures Ordered(s, Insert(h, p), order[Join(path + p) := n], path)
    decreases |p|
  {
    var order' := order[Join(path + p) := n];
    if s.Leaf? {
      assert path + p == path + [p[0]];
    } else {
      var h' := Insert(h, p);
      forall k | k in h'.kids && ChildSchema(s, k).Some?
        ensures Ordered(ChildSchema(s, k).value, h'.kids[k], order', path + [k])
      {
        if p != [] && k == p[0] {
          assert path + p == path + [k] + p[1..];
          if k !in h.kids {
            assert Ordered(ChildSchema(s, k).value, EMPTY, order, path + [k]);
          }
          OrderedAfterInsert(ChildSchema(s, k).value, KidOrEmpty(h, k), order, path + [k], p[1..], n);
        } else {
          OrderedIsMonotone(ChildSchema(s, k).value, h.kids[k], order, order', path + [k]);
        }
      }
    }
  }

  lemma {:induction false} OrderedIsMonotone(s: Schema, h: Hierarchy, order: Order, order': Order, path: Path)
    requires Ordered(s, h, order, path) && forall k :: k in order ==> k in order'
    ensures Ordered(s, h, order', path)
    decreases h
  {
    if !s.Leaf? {
      forall k | k in h.kids && ChildSchema(s, k).Some?
        ensures Ordered(ChildSchema(s, k).value, h.kids[k], order', path + [k])
      {
        OrderedIsMonotone(ChildSchema(s, k).value, h.kids[k], order, order', path + [k]);
      }
    }
  }

  lemma PlainAppend(path: Path, k: string)
    requires PlainPath(path) && PlainName(k)
    ensures PlainPath(path + [k])
  {
  }

  /** Ordered values have distinct ranks. */
  lemma {:induction false} OrderTellsApart(s: Schema, h: Hierarchy, order: Order, path: Path, n: nat)
    requires Partial(s, h) && PlainPath(path) && Ordered(s, h, order, path) && InjectiveBelow(order, n)
    ensures OrdersValues(s, h, order, path)
    decreases h
  {
    if s.Leaf? {
      forall u, v | u in h.kids.Keys && v in h.kids.Keys && u != v
        ensures RankIn(order, path)(u) != RankIn(order, path)(v)
      {
        JoinIsInjective(path + [u], path + [v]);
        assert (path + [u])[|path|] == u && (path + [v])[|path|] == v;
      }
    } else {
      forall k | k in h.kids && ChildSchema(s, k).Some?
        ensures OrdersValues(ChildSchema(s, k).value, h.kids[k], order, path + [k])
      {
        OrderTellsApart(ChildSchema(s, k).value, h.kids[k], order, path + [k], n);
      }
    }
  }

  // ----- one more statement is one more value put

  /** A statement elsewhere does not change what a part of the hierarchy stands for. */
  lemma {:induction false} TargetFrame(ns: Listing, s: Schema, h: Hierarchy, order: Order, path: Path, q: Path, n: nat)
    requires ListsKeys(ns) && Partial(s, h) && PlainPath(path) && PlainPath(q) && !(path <= q)
    requires Ordered(s, h, order, path) && InjectiveBelow(order, n)
    ensures Target(ns, s, h, order[Join(q) := n], path) == Target(ns, s, h, order, path)
    decreases h
  {
    var order' := order[Join(q) := n];
    if s.Leaf? {
      LeafFrame(ns, s, h, order, path, q, n);
    } else {
      forall k | k in h.kids && ChildSchema(s, k).Some?
        ensures Target(ns, ChildSchema(s, k).value, h.kids[k], order', path + [k])
             == Target(ns, ChildSchema(s, k).value, h.kids[k], order, path + [k])
      {
        NotPrefix(path, k, q);
        TargetFrame(ns, ChildSchema(s, k).value, h.kids[k], order, path + [k], q, n);
      }
      SameTargets(ns, s, h, order, order', path);
    }
  }

  lemma SameTargets(ns: Listing, s: Schema, h: Hierarchy, order: Order, order': Order, path: Path)
    requires !s.Leaf?
    requires forall k :: k in h.kids && ChildSchema(s, k).Some? ==>
               Target(ns, ChildSchema(s, k).value, h.kids[k], order', path + [k])
               == Target(ns, ChildSchema(s, k).value, h.kids[k], order, path + [k])
    ensures Target(ns, s, h, order', path) == Target(ns, s, h, order, path)
  {
    assert Target(ns, s, h, order', path).kids == Target(ns, s, h, order, path).kids;
  }

  lemma LeafFrame(ns: Listing, s: Schema, h: Hierarchy, order: Order, path: Path, q: Path, n: nat)
    requires ListsKeys(ns) && Partial(s, h) && PlainPath(path) && PlainPath(q) && !(path <= q) && s.Leaf?
    requires Ordered(s, h, order, path) && InjectiveBelow(order, n)
    ensures Target(ns, s, h, order[Join(q) := n], path) == Target(ns, s, h, order, path)
  {
    var order' := order[Join(q) := n];
    forall v | v in h.kids
      ensures Rank(order', path, v) == Rank(order, path, v)
    {
      RankFrame(order, path, q, n, v);
    }
    OrderTellsApart(s, h, order, path, n);
    SameRanksSameOrder(ns, h.kids.Keys, order, order', path);
  }

  lemma RankFrame(order: Order, path: Path, q: Path, n: nat, v: string)
    requires PlainPath(path) && PlainPath(q) && PlainName(v) && !(path <= q)
    ensures Rank(order[Join(q) := n], path, v) == Rank(order, path, v)
  {
    PlainAppend(path, v);
    NotPrefix(path, v, q);
    JoinIsInjective(path + [v], q);
  }

  lemma SameRanksSameOrder(ns: Listing, keys: set<string>, order: Order, order': Order, path: Path)
    requires ListsKeys(ns) && DistinctRanks(RankIn(order, path), keys)
    requires forall v :: v in keys ==> Rank(order', path, v) == Rank(order, path, v)
    ensures SortByRank(RankIn(order', path), ns(keys)) == SortByRank(RankIn(order, path), ns(keys))
  {
    var a, b := SortByRank(RankIn(order, path), ns(keys)), SortByRank(RankIn(order', path), ns(keys));
    SortedIsRanked(RankIn(order, path), ns(keys), keys);
    SortedIsRanked(RankIn(order', path), ns(keys), keys);
    assert forall i :: 0 <= i < |a| ==> a[i] in a;
    assert Ranked(RankIn(order', path), a);
    RankedIsUnique(RankIn(order', path), a, b);
  }

  /** The value of the latest statement goes to the end of the multi leaf. */
  lemma LatestValueIsLast(ns: Listing, h: Hierarchy, order: Order, path: Path, v: string, n: nat)
    requires ListsKeys(ns) && PlainPath(path) && PlainName(v)
    requires forall k :: k in h.kids ==> PlainName(k) && Join(path + [k]) in order
    requires DistinctRanks(RankIn(order, path), h.kids.Keys) && InjectiveBelow(order, n)
    ensures var order' := order[Join(path + [v]) := n];
            SortByRank(RankIn(order', path), ns(h.kids.Keys + {v}))
              == Remove(SortByRank(RankIn(order, path), ns(h.kids.Keys)), v) + [v]
  {
    var order' := order[Join(path + [v]) := n];
    var new' := ns(h.kids.Keys + {v});
    forall u | u in h.kids && u != v
      ensures Rank(order', path, u) == Rank(order, path, u) < n
    {
      JoinIsInjective(path + [u], path + [v]);
      assert (path + [u])[|path|] == u && (path + [v])[|path|] == v;
    }
    assert Rank(order', path, v) == n;
    SortWithLatest(RankIn(order, path), RankIn(order', path), ns(h.kids.Keys), new', h.kids.Keys, v);
  }

  lemma {:induction false} InsertIsPut(ns: Listing, s: Schema, h: Hierarchy, order: Order, path: Path, p: Path, n: nat)
    requires ListsKeys(ns) && Partial(s, h) && PlainPath(path) && PlainPath(p)
    requires ValidStatement(s, p) && Fresh(s, h, p)
    requires Ordered(s, h, order, path) && InjectiveBelow(order, n)
    ensures Target(ns, s, Insert(h, p), order[Join(path + p) := n], path)
              == PutAt(true, s, Some(Target(ns, s, h, order, path)), p)
    decreases |p|, 1
  {
    var order' := order[Join(path + p) := n];
    if s.Leaf? {
      InsertValueIsPut(ns, s, h, order, path, p, n);
    } else {
      var old', new' := Target(ns, s, h, order, path), Target(ns, s, Insert(h, p), order', path);
      var set' := PutAt(true, s, Some(old'), p);
      if p == [] {
        assert set' == old';
      } else {
        InsertIsPutBelow(ns, s, h, order, path, p, n);
      }
      forall x
        ensures KidOf(new', x) == KidOf(set', x)
      {
        if p == [] || x != p[0] {
          SiblingUnchanged(ns, s, h, order, path, p, n, x);
        }
      }
      SameKids(new', set');
    }
  }

  lemma {:induction false} InsertIsPutBelow(ns: Listing, s: Schema, h: Hierarchy, order: Order, path: Path, p: Path,
                                            n: nat)
    requires ListsKeys(ns) && Partial(s, h) && PlainPath(path) && PlainPath(p) && !s.Leaf? && p != []
    requires ValidStatement(s, p) && Fresh(s, h, p)
    requires Ordered(s, h, order, path) && InjectiveBelow(order, n)
    ensures KidOf(Target(ns, s, Insert(h, p), order[Join(path + p) := n], path), p[0])
              == KidOf(PutAt(true, s, Some(Target(ns, s, h, order, path)), p), p[0])
    decreases |p|, 0
  {
    var k := p[0];
    var c := ChildSchema(s, k).value;
    assert path + p == path + [k] + p[1..];
    PlainAppend(path, k);
    EmptyTarget(ns, c, order, path + [k]);
    assert Ordered(c, KidOrEmpty(h, k), order, path + [k]);
    InsertIsPut(ns, c, KidOrEmpty(h, k), order, path + [k], p[1..], n);
    PutOnEmpty(c, p[1..]);
    PutOfKid(s, Target(ns, s, h, order, path), p);
    TargetOfKid(ns, s, Insert(h, p), order[Join(path + p) := n], path, k);
    if k in h.kids {
      TargetOfKid(ns, s, h, order, path, k);
    }
  }

  lemma TargetOfKid(ns: Listing, s: Schema, h: Hierarchy, order: Order, path: Path, k: string)
    requires !s.Leaf? && k in h.kids && ChildSchema(s, k).Some?
    ensures KidOf(Target(ns, s, h, order, path), k)
              == Some(Target(ns, ChildSchema(s, k).value, h.kids[k], order, path + [k]))
  {
  }

  lemma PutOfKid(s: Schema, c: Config, p: Path)
    requires c.Node? && p != [] && ChildSchema(s, p[0]).Some?
    ensures KidOf(PutAt(true, s, Some(c), p), p[0])
              == Some(PutAt(true, ChildSchema(s, p[0]).value, KidOf(c, p[0]), p[1..]))
  {
  }

  lemma SiblingUnchanged(ns: Listing, s: Schema, h: Hierarchy, order: Order, path: Path, p: Path, n: nat, k: string)
    requires ListsKeys(ns) && Partial(s, h) && PlainPath(path) && PlainPath(p) && !s.Leaf?
    requires Ordered(s, h, order, path) && InjectiveBelow(order, n)
    requires p == [] || k != p[0]
    ensures KidOf(Target(ns, s, Insert(h, p), order[Join(path + p) := n], path), k)
              == KidOf(Target(ns, s, h, order, path), k)
  {
    if k in h.kids {
      PlainAppend(path, k);
      PlainConcat(path, p);
      assert !(path + [k] <= path + p) by {
        assert (path + [k])[|path|] == k;
        assert p != [] ==> (path + p)[|path|] == p[0];
      }
      TargetFrame(ns, ChildSchema(s, k).value, h.kids[k], order, path + [k], path + p, n);
    }
  }

  lemma NotPrefix(path: Path, k: string, q: Path)
    requires !(path <= q)
    ensures !(path + [k] <= q)
  {
    assert forall i :: 0 <= i < |path| ==> (path + [k])[i] == path[i];
  }

  lemma PlainConcat(p: Path, q: Path)
    requires PlainPath(p) && PlainPath(q)
    ensures PlainPath(p + q)
  {
  }

  lemma EmptyTarget(ns: Listing, s: Schema, order: Order, path: Path)
    requires ListsKeys(ns)
    ensures Target(ns, s, EMPTY, order, path) == Empty(s)
    ensures Ordered(s, EMPTY, order, path)
  {
    assert EMPTY.kids.Keys == {};
    var keys := ns({});
    assert forall i :: 0 <= i < |keys| ==> keys[i] in keys;
    if !s.Leaf? {
      assert Target(ns, s, EMPTY, order, path).kids == map[];
    }
  }

  lemma PutOnEmpty(s: Schema, p: Path)
    ensures PutAt(true, s, None, p) == PutAt(true, s, Some(Empty(s)), p)
  {
  }

  lemma InsertValueIsPut(ns: Listing, s: Schema, h: Hierarchy, order: Order, path: Path, p: Path, n: nat)
    requires ListsKeys(ns) && Partial(s, h) && PlainPath(path) && PlainPath(p) && s.Leaf?
    requires ValidStatement(s, p) && Fresh(s, h, p)
    requires Ordered(s, h, order, path) && InjectiveBelow(order, n)
    ensures Target(ns, s, Insert(h, p), order[Join(path + p) := n], path)
              == PutAt(true, s, Some(Target(ns, s, h, order, path)), p)
  {
    var v := p[0];
    assert p == [v] && p[1..] == [];
    assert Insert(h, p).kids.Keys == h.kids.Keys + {v};
    if s.multi {
      OrderTellsApart(s, h, order, path, n);
      LatestValueIsLast(ns, h, order, path, v, n);
      SortedIsRanked(RankIn(order, path), ns(h.kids.Keys), h.kids.Keys);
    } else {
      var keys := ns({v});
      assert v in keys;
      assert keys[0] in keys;
      assert Insert(h, p).kids.Keys == {v};
    }
  }

  /** What holds of a loaded file. */
  lemma {:induction false} LoadedFile(ns: Listing, s: Schema, stmts: seq<Path>)
    requires ListsKeys(ns) && ValidFile(s, stmts)
    ensures WellFormed(s, InsertAll(stmts))
    ensures Ordered(s, InsertAll(stmts), OrderOf(stmts), [])
    ensures Target(ns, s, InsertAll(stmts), OrderOf(stmts), []) == Load(s, stmts)
    decreases |stmts|
  {
    if stmts == [] {
      EmptyTarget(ns, s, map[], []);
    } else {
      var init, p, n := stmts[..|stmts| - 1], stmts[|stmts| - 1], |stmts| - 1;
      var h, order := InsertAll(init), OrderOf(init);
      LoadedFile(ns, s, init);
      FreshAfterAll(s, init, p);
      OrderIsInjective(init);
      LoadOneMore(ns, s, h, order, p, n);
    }
  }

  lemma LoadOneMore(ns: Listing, s: Schema, h: Hierarchy, order: Order, p: Path, n: nat)
    requires ListsKeys(ns) && WellFormed(s, h) && Ordered(s, h, order, []) && InjectiveBelow(order, n)
    requires ValidStatement(s, p) && Fresh(s, h, p)
    ensures WellFormed(s, Insert(h, p))
    ensures Ordered(s, Insert(h, p), order[Join(p) := n], [])
    ensures Target(ns, s, Insert(h, p), order[Join(p) := n], []) == PutAt(true, s, Some(Target(ns, s, h, order, [])), p)
  {
    InsertIsWellFormed(s, h, p);
    assert [] + p == p;
    OrderedAfterInsert(s, h, order, [], p, n);
    ValidIsPlain(s, p);
    InsertIsPut(ns, s, h, order, [], p, n);
  }

  lemma {:induction false} ValidIsPlain(s: Schema, p: Path)
    requires ValidStatement(s, p)
    ensures PlainPath(p)
    decreases |p|
  {
    if !s.Leaf? && p != [] {
      ValidIsPlain(ChildSchema(s, p[0]).value, p[1..]);
      assert p == [p[0]] + p[1..];
    }
  }

  /** The loaded hierarchy can be compared with the active configuration. */
  lemma LoadedFileConforms(ns: Listing, s: Schema, stmts: seq<Path>)
    requires ListsKeys(ns) && ValidFile(s, stmts)
    ensures OrdersValues(s, InsertAll(stmts), OrderOf(stmts), [])
    ensures Conforms(s, Load(s, stmts))
  {
    LoadedFile(ns, s, stmts);
    OrderIsInjective(stmts);
    OrderTellsApart(s, InsertAll(stmts), OrderOf(stmts), [], |stmts|);
    TargetConforms(ns, s, InsertAll(stmts), OrderOf(stmts), []);
  }

  /**
    Loading a file over the active configuration and applying the difference gives what the file means, exactly when
    no defaulted leaf is dropped.
  */
  lemma LoadingReachesFileIff(ls: Listing, ns: Listing, s: Schema, a: Config, stmts: seq<Path>)
    requires ListsKeys(ls) && ListsKeys(ns) && Conforms(s, a) && ValidFile(s, stmts)
    ensures Conforms(s, Load(s, stmts))
    ensures var n := Target(ns, s, InsertAll(stmts), OrderOf(stmts), []);
            && n == Load(s, stmts)
            && (Sets(s, Some(Deletes(a, DropDefaulted(s, DeleteList(ls, s, a, n)))), SetList(ns, s, Some(a), n))
                  == Some(Load(s, stmts))
                <==> KeepsDefaulted(s, a, Load(s, stmts)))
  {
    LoadedFile(ns, s, stmts);
    LoadedFileConforms(ns, s, stmts);
    DiffReachesNewIff(ls, ns, s, a, Load(s, stmts));
  }
}
