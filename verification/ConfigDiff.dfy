/**
  The difference between the active configuration and a new one, as a list of
  deletions and a list of settings, and what happens when the two lists are applied.
*/
module ConfigDiff {
  import opened Options
  import opened ValueLists
  import opened ConfigTree

  // ----- listing the children of a node

  /** Some order in which the keys of a node are visited. */
  type Listing = set<string> -> seq<string>

  ghost predicate IsListing(keys: seq<string>, s: set<string>) {
    Distinct(keys) && forall k :: k in keys <==> k in s
  }

  ghost predicate ListsKeys(ls: Listing) {
    forall s :: IsListing(ls(s), s)
  }

  // ----- the two lists

  function SinglePaths(vs: seq<string>): (r: seq<Path>)
    ensures |r| == |vs| && forall i :: 0 <= i < |vs| ==> r[i] == [vs[i]]
  {
    seq(|vs|, i requires 0 <= i < |vs| => [vs[i]])
  }

  /** What is in the active tree `a` and has to go, as paths relative to the two trees. */
  ghost function DeleteList(ls: Listing, s: Schema, a: Config, n: Config): (r: seq<Path>)
    requires ListsKeys(ls) && Conforms(s, a) && Conforms(s, n)
    ensures NonEmptyPaths(r)
    decreases a, 0
  {
    match a
    case Values(ovals) => if s.multi then SinglePaths(Deleted(ovals, n.values)) else []
    case Node(kids) => DeleteKids(ls, s, a, n, ls(kids.Keys))
  }

  ghost function DeleteKids(ls: Listing, s: Schema, a: Config, n: Config, keys: seq<string>): (r: seq<Path>)
    requires ListsKeys(ls) && Conforms(s, a) && Conforms(s, n)
    requires a.Node? && forall i :: 0 <= i < |keys| ==> keys[i] in a.kids
    ensures NonEmptyPaths(r)
    decreases a, 0, |keys|
  {
    if keys == [] then []
    else DeleteKid(ls, s, a, n, keys[0]) + DeleteKids(ls, s, a, n, keys[1..])
  }

  ghost function DeleteKid(ls: Listing, s: Schema, a: Config, n: Config, k: string): (r: seq<Path>)
    requires ListsKeys(ls) && Conforms(s, a) && Conforms(s, n)
    requires a.Node? && k in a.kids
    ensures NonEmptyPaths(r)
    decreases a, 0, 0
  {
    if k !in n.kids then [[k]]
    else Under(k, DeleteList(ls, ChildSchema(s, k).value, a.kids[k], n.kids[k]))
  }

  /** What is in the new tree `n` and has to be set. */
  ghost function SetList(ns: Listing, s: Schema, a: Option<Config>, n: Config): seq<Path>
    requires ListsKeys(ns) && Conforms(s, n) && (a.Some? ==> Conforms(s, a.value))
    decreases n, 0
  {
    match n
    case Values(nvals) =>
      if s.multi then SinglePaths(Added(if a.Some? then a.value.values else [], nvals))
      else if a.None? || nvals[0] != a.value.values[0] then [[nvals[0]]]
      else []
    case Node(kids) => SetKids(ns, s, a, n, ns(kids.Keys))
  }

  ghost function SetKids(ns: Listing, s: Schema, a: Option<Config>, n: Config, keys: seq<string>): seq<Path>
    requires ListsKeys(ns) && Conforms(s, n) && (a.Some? ==> Conforms(s, a.value))
    requires n.Node? && forall i :: 0 <= i < |keys| ==> keys[i] in n.kids
    decreases n, 0, |keys|
  {
    if keys == [] then []
    else SetKid(ns, s, a, n, keys[0]) + SetKids(ns, s, a, n, keys[1..])
  }

  ghost function SetKid(ns: Listing, s: Schema, a: Option<Config>, n: Config, k: string): seq<Path>
    requires ListsKeys(ns) && Conforms(s, n) && (a.Some? ==> Conforms(s, a.value))
    requires n.Node? && k in n.kids
    decreases n, 0, 0
  {
    var kid := Kid(a, k);
    if n.kids[k] == Node(map[]) then (if kid.None? then [[k]] else [])
    else Under(k, SetList(ns, ChildSchema(s, k).value, kid, n.kids[k]))
  }

  function Kid(a: Option<Config>, k: string): Option<Config> {
    match a
    case None => None
    case Some(c) => KidOf(c, k)
  }

  // ----- deletions of nodes that have a default value are dropped

  predicate DefaultedSchema(s: Option<Schema>) {
    s.Some? && s.value.Leaf? && s.value.hasDefault
  }

  function DropDefaulted(s: Schema, ps: seq<Path>): (r: seq<Path>)
    ensures NonEmptyPaths(ps) ==> NonEmptyPaths(r)
  {
    if ps == [] then []
    else if DefaultedAt(s, ps[0]) then DropDefaulted(s, ps[1..])
    else [ps[0]] + DropDefaulted(s, ps[1..])
  }

  lemma {:induction false} DropDefaultedAppend(s: Schema, ps: seq<Path>, qs: seq<Path>)
    ensures DropDefaulted(s, ps + qs) == DropDefaulted(s, ps) + DropDefaulted(s, qs)
    decreases |ps|
  {
    if ps == [] {
      assert ps + qs == qs;
    } else {
      DropDefaultedAppend(s, ps[1..], qs);
      assert (ps + qs)[1..] == ps[1..] + qs;
    }
  }

  lemma {:induction false} DropDefaultedUnder(s: Schema, k: string, ps: seq<Path>)
    requires ChildSchema(s, k).Some?
    ensures DropDefaulted(s, Under(k, ps)) == Under(k, DropDefaulted(ChildSchema(s, k).value, ps))
    decreases |ps|
  {
    if ps != [] {
      var qs := Under(k, ps);
      assert qs[0][1..] == ps[0];
      assert qs[1..] == Under(k, ps[1..]);
      DropDefaultedUnder(s, k, ps[1..]);
    }
  }

  // ----- what the lists do

  /** The active tree after the deletions. */
  ghost function Pruned(s: Schema, a: Config, n: Config): Config
    requires Conforms(s, a) && Conforms(s, n)
    decreases a
  {
    match a
    case Values(ovals) => if s.multi && !s.valueDefault then Values(ovals[..Cut(ovals, n.values)]) else a
    case Node(kids) =>
      Node(map k | k in kids && (k in n.kids || DefaultedSchema(ChildSchema(s, k))) ::
             if k in n.kids then Pruned(ChildSchema(s, k).value, kids[k], n.kids[k]) else kids[k])
  }

  /**
    The values of a multi leaf whose deletions were dropped: the old ones, and the new ones that are not among
    them.
  */
  function Merged(ovals: seq<string>, nvals: seq<string>): seq<string> {
    ovals + Absent(nvals, ovals)
  }

  /** The tree in the end: the new one, and every active leaf and value whose deletion was dropped. */
  ghost function Result(s: Schema, a: Config, n: Config): Config
    requires Conforms(s, a) && Conforms(s, n)
    decreases a
  {
    match a
    case Values(ovals) => if s.multi && s.valueDefault then Values(Merged(ovals, n.values)) else n
    case Node(kids) =>
      Node(map k | k in kids.Keys + n.kids.Keys && (k in n.kids || DefaultedSchema(ChildSchema(s, k))) ::
             if k !in n.kids then kids[k]
             else if k !in kids then n.kids[k]
             else Result(ChildSchema(s, k).value, kids[k], n.kids[k]))
  }

  /**
    No leaf that has a default value disappears from a node that stays, and a multi leaf whose values report a default
    keeps all its values in front of the new ones.
  */
  ghost predicate KeepsDefaulted(s: Schema, a: Config, n: Config)
    requires Conforms(s, a) && Conforms(s, n)
    decreases a
  {
    match a
    case Values(ovals) => s.multi && s.valueDefault ==> ovals <= n.values
    case Node(kids) =>
      forall k :: k in kids ==>
        if k in n.kids then KeepsDefaulted(ChildSchema(s, k).value, kids[k], n.kids[k])
        else !DefaultedSchema(ChildSchema(s, k))
  }

  // ----- deletions

  lemma {:induction false} DeletesOfValues(vals: seq<string>, vs: seq<string>)
    ensures Deletes(Values(vals), SinglePaths(vs)) == Values(RemoveAll(vals, vs))
    decreases |vs|
  {
    if vs != [] {
      assert SinglePaths(vs)[1..] == SinglePaths(vs[1..]);
      DeletesOfValues(Remove(vals, vs[0]), vs[1..]);
    }
  }

  /** Deletions of values are all kept, or all dropped. */
  lemma {:induction false} ValuePathsFiltered(s: Schema, vs: seq<string>)
    requires s.Leaf?
    ensures DropDefaulted(s, SinglePaths(vs)) == if s.valueDefault then [] else SinglePaths(vs)
    decreases |vs|
  {
    if vs != [] {
      assert SinglePaths(vs)[1..] == SinglePaths(vs[1..]);
      ValuePathsFiltered(s, vs[1..]);
    }
  }

  /** Applying the deletions that are kept prunes the active tree. */
  lemma {:induction false} DeletesPrune(ls: Listing, s: Schema, a: Config, n: Config)
    requires ListsKeys(ls) && Conforms(s, a) && Conforms(s, n)
    ensures Deletes(a, DropDefaulted(s, DeleteList(ls, s, a, n))) == Pruned(s, a, n)
    decreases a, 1
  {
    match a
    case Values(ovals) =>
      if s.multi {
        ValuePathsFiltered(s, Deleted(ovals, n.values));
        DeletesOfValues(ovals, Deleted(ovals, n.values));
        CompareIsCorrect(ovals, n.values);
      }
    case Node(kids) =>
      var keys := ls(kids.Keys);
      DeletesPruneKids(ls, s, a, n, keys, kids);
      var r, pruned := Deletes(a, DropDefaulted(s, DeleteKids(ls, s, a, n, keys))), Pruned(s, a, n);
      forall x
        ensures KidOf(r, x) == KidOf(pruned, x)
      {
        assert x in keys <==> x in kids;
      }
      SameKids(r, pruned);
  }

  /** The child after the deletions that concern it. */
  ghost function PrunedKid(s: Schema, a: Config, n: Config, k: string): Option<Config>
    requires Conforms(s, a) && Conforms(s, n) && a.Node?
  {
    KidOf(Pruned(s, a, n), k)
  }

  lemma {:induction false} DeletesPruneKids(ls: Listing, s: Schema, a: Config, n: Config, keys: seq<string>,
                                           m: map<string, Config>)
    requires ListsKeys(ls) && Conforms(s, a) && Conforms(s, n)
    requires a.Node? && Distinct(keys)
    requires forall i :: 0 <= i < |keys| ==> keys[i] in a.kids
    requires forall i :: 0 <= i < |keys| ==> keys[i] in m && m[keys[i]] == a.kids[keys[i]]
    ensures var r := Deletes(Node(m), DropDefaulted(s, DeleteKids(ls, s, a, n, keys)));
            && r.Node?
            && forall x :: KidOf(r, x) == if x in keys then PrunedKid(s, a, n, x) else KidOf(Node(m), x)
    decreases a, 0, |keys|
  {
    if keys != [] {
      var k := keys[0];
      var first, rest := DeleteKid(ls, s, a, n, k), DeleteKids(ls, s, a, n, keys[1..]);
      DropDefaultedAppend(s, first, rest);
      DeletesAppend(Node(m), DropDefaulted(s, first), DropDefaulted(s, rest));
      DeletesPruneKid(ls, s, a, n, k, m);
      var m' := Deletes(Node(m), DropDefaulted(s, first)).kids;
      forall i | 0 <= i < |keys[1..]|
        ensures keys[1..][i] in m' && m'[keys[1..][i]] == a.kids[keys[1..][i]]
      {
        assert keys[1..][i] == keys[i + 1] != k;
        assert KidOf(Node(m'), keys[i + 1]) == KidOf(Node(m), keys[i + 1]);
      }
      DeletesPruneKids(ls, s, a, n, keys[1..], m');
      forall x
        ensures x in keys <==> x == k || x in keys[1..]
      {
      }
      assert k !in keys[1..];
    }
  }

  lemma {:induction false} DeletesPruneKid(ls: Listing, s: Schema, a: Config, n: Config, k: string,
                                          m: map<string, Config>)
    requires ListsKeys(ls) && Conforms(s, a) && Conforms(s, n)
    requires a.Node? && k in a.kids && k in m && m[k] == a.kids[k]
    ensures var r := Deletes(Node(m), DropDefaulted(s, DeleteKid(ls, s, a, n, k)));
            && r.Node?
            && forall x :: KidOf(r, x) == if x == k then PrunedKid(s, a, n, k) else KidOf(Node(m), x)
    decreases a, 0, 0
  {
    var t := ChildSchema(s, k).value;
    if k in n.kids {
      var ps := DeleteList(ls, t, a.kids[k], n.kids[k]);
      DropDefaultedUnder(s, k, ps);
      DeletesUnder(m, k, DropDefaulted(t, ps));
      DeletesPrune(ls, t, a.kids[k], n.kids[k]);
      KidOfUpdate(m, k, Pruned(t, a.kids[k], n.kids[k]));
    } else {
      DeletesWholeKid(s, k, m);
    }
    PrunedKidIs(s, a, n, k);
  }

  lemma KidOfUpdate(m: map<string, Config>, k: string, c: Config)
    ensures forall x :: KidOf(Node(m[k := c]), x) == if x == k then Some(c) else KidOf(Node(m), x)
  {
    forall x
      ensures KidOf(Node(m[k := c]), x) == if x == k then Some(c) else KidOf(Node(m), x)
    {
      assert x in m[k := c] <==> x == k || x in m;
    }
  }

  lemma PrunedKidIs(s: Schema, a: Config, n: Config, k: string)
    requires Conforms(s, a) && Conforms(s, n) && a.Node? && k in a.kids
    ensures PrunedKid(s, a, n, k) ==
              if k in n.kids then Some(Pruned(ChildSchema(s, k).value, a.kids[k], n.kids[k]))
              else if DefaultedSchema(ChildSchema(s, k)) then Some(a.kids[k])
              else None
  {
    var p := Pruned(s, a, n);
    assert k in p.kids <==> k in n.kids || DefaultedSchema(ChildSchema(s, k));
    if k in n.kids {
      assert p.kids[k] == Pruned(ChildSchema(s, k).value, a.kids[k], n.kids[k]);
    }
  }

  lemma DeletesWholeKid(s: Schema, k: string, m: map<string, Config>)
    requires ChildSchema(s, k).Some? && k in m
    ensures NonEmptyPaths([[k]])
    ensures var r := Deletes(Node(m), DropDefaulted(s, [[k]]));
            && r.Node?
            && forall x :: KidOf(r, x) ==
                           if x == k && !DefaultedSchema(ChildSchema(s, k)) then None else KidOf(Node(m), x)
  {
    assert DefaultedAt(s, [k]) == DefaultedSchema(ChildSchema(s, k)) by {
      assert [k][1..] == [];
    }
    assert [[k]][1..] == [];
    assert DeleteAt(Node(m), [k]) == Node(m - {k});
  }

  // ----- settings

  lemma {:induction false} SetsOfValues(s: Schema, vals: seq<string>, vs: seq<string>)
    requires s.Leaf? && s.multi && Distinct(vals + vs)
    ensures Sets(s, Some(Values(vals)), SinglePaths(vs)) == Some(Values(vals + vs))
    decreases |vs|
  {
    if vs == [] {
      assert vals + vs == vals;
    } else {
      assert SinglePaths(vs)[1..] == SinglePaths(vs[1..]);
      assert vals + vs == (vals + [vs[0]]) + vs[1..];
      assert vs[0] !in vals by {
        if vs[0] in vals {
          DistinctApart(vals, vs, vs[0]);
        }
      }
      SetsOfValues(s, vals + [vs[0]], vs[1..]);
    }
  }

  /** Values that are there already are not added again. */
  lemma {:induction false} SetsAmongValues(s: Schema, vals: seq<string>, vs: seq<string>)
    requires s.Leaf? && s.multi && Distinct(vs)
    ensures Sets(s, Some(Values(vals)), SinglePaths(vs)) == Some(Values(vals + Absent(vs, vals)))
    decreases |vs|
  {
    if vs == [] {
      assert vals + [] == vals;
    } else {
      var init, last := vs[..|vs| - 1], vs[|vs| - 1];
      SetsAmongValues(s, vals, init);
      assert SinglePaths(vs) == SinglePaths(init) + [[last]];
      SetsAppend(s, Some(Values(vals)), SinglePaths(init), [[last]]);
      SelectionMembers(init, vals);
      assert last !in init;
      SetsOneValue(s, vals + Absent(init, vals), last);
      assert vals + (Absent(init, vals) + [last]) == (vals + Absent(init, vals)) + [last];
    }
  }

  lemma SetsOneValue(s: Schema, vals: seq<string>, v: string)
    requires s.Leaf? && s.multi
    ensures Sets(s, Some(Values(vals)), [[v]]) == Some(Values(if v in vals then vals else vals + [v]))
  {
    assert [[v]][1..] == [];
  }

  /** What is behind the cut and not among the old values is what is new at all. */
  lemma MergedFromCut(ovals: seq<string>, nvals: seq<string>)
    ensures Absent(nvals[Cut(ovals, nvals)..], ovals) == Absent(nvals, ovals)
  {
    var cut := Cut(ovals, nvals);
    SplitAtCut(ovals, nvals);
    AbsentOfParts(nvals[..cut], nvals[cut..], ovals);
    assert forall v :: v in nvals[..cut] ==> v in ovals;
    AbsentFromItself(nvals[..cut], ovals);
    assert [] + Absent(nvals[cut..], ovals) == Absent(nvals[cut..], ovals);
  }

  ghost function PrunedOrNone(s: Schema, a: Option<Config>, n: Config): Option<Config>
    requires Conforms(s, n) && (a.Some? ==> Conforms(s, a.value))
  {
    match a
    case None => None
    case Some(c) => Some(Pruned(s, c, n))
  }

  ghost function ResultOrNew(s: Schema, a: Option<Config>, n: Config): Config
    requires Conforms(s, n) && (a.Some? ==> Conforms(s, a.value))
  {
    match a
    case None => n
    case Some(c) => Result(s, c, n)
  }

  /** Applying the settings to the pruned tree gives the result. */
  lemma {:induction false} SetsReach(ns: Listing, s: Schema, a: Option<Config>, n: Config)
    requires ListsKeys(ns) && Conforms(s, n) && (a.Some? ==> Conforms(s, a.value))
    requires a.None? ==> n != Node(map[])
    ensures Sets(s, PrunedOrNone(s, a, n), SetList(ns, s, a, n)) == Some(ResultOrNew(s, a, n))
    decreases n, 1
  {
    match n
    case Values(nvals) =>
      SetsReachValues(ns, s, a, n);
    case Node(kids) =>
      var c, keys := PrunedOrNone(s, a, n), ns(kids.Keys);
      if keys == [] {
        assert kids.Keys == {};
        assert kids == map[];
        NothingToSet(s, a.value);
      } else {
        SetsReachKids(ns, s, a, n, keys, c);
        var r := Sets(s, c, SetList(ns, s, a, n)).value;
        forall x
          ensures KidOf(r, x) == KidOf(ResultOrNew(s, a, n), x)
        {
        }
        SameKids(r, ResultOrNew(s, a, n));
      }
  }

  lemma SameKids(c: Config, d: Config)
    requires c.Node? && d.Node?
    requires forall x :: KidOf(c, x) == KidOf(d, x)
    ensures c == d
  {
    forall x
      ensures x in c.kids <==> x in d.kids
      ensures x in c.kids ==> c.kids[x] == d.kids[x]
    {
      assert KidOf(c, x) == KidOf(d, x);
    }
    assert c.kids == d.kids;
  }

  lemma SetsReachValues(ns: Listing, s: Schema, a: Option<Config>, n: Config)
    requires ListsKeys(ns) && Conforms(s, n) && (a.Some? ==> Conforms(s, a.value))
    requires n.Values?
    ensures Sets(s, PrunedOrNone(s, a, n), SetList(ns, s, a, n)) == Some(ResultOrNew(s, a, n))
  {
    var nvals := n.values;
    var ovals := if a.Some? then a.value.values else [];
    if s.multi && s.valueDefault && a.Some? {
      SetsAmongValues(s, ovals, nvals[Cut(ovals, nvals)..]);
      MergedFromCut(ovals, nvals);
    } else if s.multi {
      var cut := Cut(ovals, nvals);
      SplitAtCut(ovals, nvals);
      SetsOfValues(s, nvals[..cut], nvals[cut..]);
      if a.Some? {
        assert ovals[..cut] == nvals[..cut];
      } else {
        var ps := SinglePaths(nvals);
        assert cut == 0 && nvals[0..] == nvals && nvals[..0] == [];
        assert SetAt(s, None, ps[0]) == SetAt(s, Some(Values([])), ps[0]);
      }
    } else {
      var ps := SetList(ns, s, a, n);
      assert nvals == [nvals[0]];
      if a.Some? {
        assert ovals == [ovals[0]];
      }
      assert ps != [] ==> ps[1..] == [];
    }
  }

  lemma {:induction false} SetsReachKids(ns: Listing, s: Schema, a: Option<Config>, n: Config, keys: seq<string>,
                                        c: Option<Config>)
    requires ListsKeys(ns) && Conforms(s, n) && (a.Some? ==> Conforms(s, a.value))
    requires n.Node? && Distinct(keys) && keys != []
    requires forall i :: 0 <= i < |keys| ==> keys[i] in n.kids
    requires (a.Some? ==> c.Some?) && (c.Some? ==> c.value.Node?)
    requires forall i :: 0 <= i < |keys| ==>
               KidOf(OrEmpty(s, c), keys[i]) == Kid(PrunedOrNone(s, a, n), keys[i])
    ensures var r := Sets(s, c, SetKids(ns, s, a, n, keys));
            && r.Some? && r.value.Node?
            && forall x :: KidOf(r.value, x) ==
                           if x in keys then KidOf(ResultOrNew(s, a, n), x) else KidOf(OrEmpty(s, c), x)
    decreases n, 0, |keys|
  {
    var k := keys[0];
    var first, rest := SetKid(ns, s, a, n, k), SetKids(ns, s, a, n, keys[1..]);
    SetsAppend(s, c, first, rest);
    SetsReachKid(ns, s, a, n, k, c);
    var c' := Sets(s, c, first);
    forall x
      ensures x in keys <==> x == k || x in keys[1..]
    {
    }
    assert k !in keys[1..];
    if |keys| > 1 {
      forall i | 0 <= i < |keys[1..]|
        ensures KidOf(c'.value, keys[1..][i]) == Kid(PrunedOrNone(s, a, n), keys[1..][i])
      {
        assert keys[1..][i] == keys[i + 1] != k;
      }
      SetsReachKids(ns, s, a, n, keys[1..], c');
    }
  }

  lemma {:induction false} SetsReachKid(ns: Listing, s: Schema, a: Option<Config>, n: Config, k: string,
                                       c: Option<Config>)
    requires ListsKeys(ns) && Conforms(s, n) && (a.Some? ==> Conforms(s, a.value))
    requires n.Node? && k in n.kids
    requires (a.Some? ==> c.Some?) && (c.Some? ==> c.value.Node?)
    requires KidOf(OrEmpty(s, c), k) == Kid(PrunedOrNone(s, a, n), k)
    ensures var r := Sets(s, c, SetKid(ns, s, a, n, k));
            && r.Some? && r.value.Node?
            && forall x :: KidOf(r.value, x) ==
                           if x == k then KidOf(ResultOrNew(s, a, n), k) else KidOf(OrEmpty(s, c), x)
    decreases n, 0, 0
  {
    var t, kid, base := ChildSchema(s, k).value, Kid(a, k), OrEmpty(s, c);
    KidsOfPrunedAndResult(s, a, n, k);
    if n.kids[k] != Node(map[]) {
      SetsReach(ns, t, kid, n.kids[k]);
      SetsBelowKid(s, c, k, SetList(ns, t, kid, n.kids[k]), ResultOrNew(t, kid, n.kids[k]));
    } else if kid.None? {
      SetsNewKid(s, c, k);
    } else {
      NothingToSet(t, kid.value);
    }
  }

  /** Commands that give the child `d` give the parent with the child `d`. */
  lemma SetsBelowKid(s: Schema, c: Option<Config>, k: string, ps: seq<Path>, d: Config)
    requires !s.Leaf? && ChildSchema(s, k).Some?
    requires c.Some? ==> c.value.Node?
    requires Sets(ChildSchema(s, k).value, KidOf(OrEmpty(s, c), k), ps) == Some(d)
    ensures var r := Sets(s, c, Under(k, ps));
            && r.Some? && r.value.Node?
            && forall x :: KidOf(r.value, x) == if x == k then Some(d) else KidOf(OrEmpty(s, c), x)
  {
    if ps == [] {
      assert Under(k, ps) == [];
    } else {
      SetsUnder(s, c, k, ps);
    }
  }

  lemma KidsOfPrunedAndResult(s: Schema, a: Option<Config>, n: Config, k: string)
    requires Conforms(s, n) && (a.Some? ==> Conforms(s, a.value))
    requires n.Node? && k in n.kids
    ensures Kid(PrunedOrNone(s, a, n), k) == PrunedOrNone(ChildSchema(s, k).value, Kid(a, k), n.kids[k])
    ensures KidOf(ResultOrNew(s, a, n), k) == Some(ResultOrNew(ChildSchema(s, k).value, Kid(a, k), n.kids[k]))
  {
  }

  lemma NothingToSet(s: Schema, a: Config)
    requires Conforms(s, a) && !s.Leaf?
    ensures Conforms(s, Node(map[]))
    ensures Result(s, a, Node(map[])) == Pruned(s, a, Node(map[]))
  {
    assert Result(s, a, Node(map[])).kids == Pruned(s, a, Node(map[])).kids;
  }

  lemma SetsNewKid(s: Schema, c: Option<Config>, k: string)
    requires !s.Leaf? && ChildSchema(s, k).Some? && !ChildSchema(s, k).value.Leaf?
    requires c.Some? ==> c.value.Node?
    requires KidOf(OrEmpty(s, c), k).None?
    ensures Sets(s, c, [[k]]) == Some(Node(OrEmpty(s, c).kids[k := Node(map[])]))
  {
    assert [[k]][1..] == [] && [k][1..] == [];
    assert SetAt(ChildSchema(s, k).value, None, []) == Node(map[]);
    assert SetAt(s, c, [k]) == Node(OrEmpty(s, c).kids[k := Node(map[])]);
    assert Sets(s, c, [[k]]) == Sets(s, Some(SetAt(s, c, [k])), []);
  }

  // ----- the main results

  /** Deletions, then settings, turn the active tree into the new one plus the leaves whose deletion was dropped. */
  lemma DiffReachesResult(ls: Listing, ns: Listing, s: Schema, a: Config, n: Config)
    requires ListsKeys(ls) && ListsKeys(ns) && Conforms(s, a) && Conforms(s, n)
    ensures Sets(s, Some(Deletes(a, DropDefaulted(s, DeleteList(ls, s, a, n)))), SetList(ns, s, Some(a), n))
              == Some(Result(s, a, n))
  {
    DeletesPrune(ls, s, a, n);
    SetsReach(ns, s, Some(a), n);
  }

  lemma MergedIsNewIff(ovals: seq<string>, nvals: seq<string>)
    requires Distinct(ovals) && Distinct(nvals)
    ensures Merged(ovals, nvals) == nvals <==> ovals <= nvals
  {
    assert Merged(ovals, nvals)[..|ovals|] == ovals;
    if ovals <= nvals {
      var rest := nvals[|ovals|..];
      assert nvals == ovals + rest;
      AbsentOfParts(ovals, rest, ovals);
      AbsentFromItself(ovals, ovals);
      forall v | v in rest
        ensures v !in ovals
      {
        if v in ovals {
          DistinctApart(ovals, rest, v);
        }
      }
      NoneAbsent(rest, ovals);
      assert [] + rest == rest;
    }
  }

  /** The result is the new tree exactly when no defaulted leaf is dropped from a node that stays. */
  lemma {:induction false} ResultIsNewIff(s: Schema, a: Config, n: Config)
    requires Conforms(s, a) && Conforms(s, n)
    ensures Result(s, a, n) == n <==> KeepsDefaulted(s, a, n)
    decreases a
  {
    if a.Values? {
      MergedIsNewIff(a.values, n.values);
    } else {
      var r := Result(s, a, n);
      forall k | k in a.kids && k in n.kids
        ensures Result(ChildSchema(s, k).value, a.kids[k], n.kids[k]) == n.kids[k] <==>
                KeepsDefaulted(ChildSchema(s, k).value, a.kids[k], n.kids[k])
      {
        ResultIsNewIff(ChildSchema(s, k).value, a.kids[k], n.kids[k]);
      }
      if KeepsDefaulted(s, a, n) {
        assert r.kids == n.kids;
      } else {
        var k :| k in a.kids &&
          !(if k in n.kids then KeepsDefaulted(ChildSchema(s, k).value, a.kids[k], n.kids[k])
            else !DefaultedSchema(ChildSchema(s, k)));
        assert k in r.kids;
        assert KidOf(r, k) != KidOf(n, k);
      }
    }
  }

  /** Applying the difference gives exactly the new tree, if and only if no defaulted leaf is dropped. */
  lemma DiffReachesNewIff(ls: Listing, ns: Listing, s: Schema, a: Config, n: Config)
    requires ListsKeys(ls) && ListsKeys(ns) && Conforms(s, a) && Conforms(s, n)
    ensures Sets(s, Some(Deletes(a, DropDefaulted(s, DeleteList(ls, s, a, n)))), SetList(ns, s, Some(a), n))
              == Some(n)
            <==> KeepsDefaulted(s, a, n)
  {
    DiffReachesResult(ls, ns, s, a, n);
    ResultIsNewIff(s, a, n);
  }

  ghost predicate DefaultFree(s: Schema)
    decreases s
  {
    match s
    case Container(nodes) => forall k :: k in nodes ==> DefaultFree(nodes[k])
    case Tag(entry) => DefaultFree(entry)
    case Leaf(_, _, hasDefault, valueDefault) => !hasDefault && !valueDefault
  }

  lemma {:induction false} DefaultFreeKeeps(s: Schema, a: Config, n: Config)
    requires Conforms(s, a) && Conforms(s, n) && DefaultFree(s)
    ensures KeepsDefaulted(s, a, n)
    decreases a
  {
    if a.Node? {
      forall k | k in a.kids && k in n.kids {
        DefaultFreeKeeps(ChildSchema(s, k).value, a.kids[k], n.kids[k]);
      }
    }
  }

  /** Without defaults in the schema, the difference always leads to the new tree. */
  lemma DefaultFreeDiffReachesNew(ls: Listing, ns: Listing, s: Schema, a: Config, n: Config)
    requires ListsKeys(ls) && ListsKeys(ns) && Conforms(s, a) && Conforms(s, n) && DefaultFree(s)
    ensures Sets(s, Some(Deletes(a, DropDefaulted(s, DeleteList(ls, s, a, n)))), SetList(ns, s, Some(a), n))
              == Some(n)
  {
    DefaultFreeKeeps(s, a, n);
    DiffReachesNewIff(ls, ns, s, a, n);
  }

  /** A leaf with a default value that is missing from the new tree stays. */
  lemma DroppedDefaultStays(ls: Listing, ns: Listing)
    requires ListsKeys(ls) && ListsKeys(ns)
    ensures var s := Container(map["mtu" := Leaf(false, false, true, false)]);
            var a, n := Node(map["mtu" := Values(["9000"])]), Node(map[]);
            && Conforms(s, a) && Conforms(s, n)
            && Sets(s, Some(Deletes(a, DropDefaulted(s, DeleteList(ls, s, a, n)))), SetList(ns, s, Some(a), n))
                 != Some(n)
  {
    var s := Container(map["mtu" := Leaf(false, false, true, false)]);
    var a, n := Node(map["mtu" := Values(["9000"])]), Node(map[]);
    assert "mtu" in a.kids && DefaultedSchema(ChildSchema(s, "mtu"));
    DiffReachesNewIff(ls, ns, s, a, n);
  }

  /** A value of a multi leaf whose values report a default stays when it is missing from the new tree. */
  lemma DroppedValueStays(ls: Listing, ns: Listing, u: string, v: string)
    requires ListsKeys(ls) && ListsKeys(ns) && u != v
    ensures var s := Leaf(true, false, true, true);
            var a, n := Values([u, v]), Values([v]);
            && Conforms(s, a) && Conforms(s, n)
            && Sets(s, Some(Deletes(a, DropDefaulted(s, DeleteList(ls, s, a, n)))), SetList(ns, s, Some(a), n))
                 == Some(a)
  {
    var s := Leaf(true, false, true, true);
    var a, n := Values([u, v]), Values([v]);
    DiffReachesResult(ls, ns, s, a, n);
    AbsentFromItself(n.values, a.values);
    assert a.values + [] == a.values;
  }

  // ----- no difference, no commands

  ghost predicate ShortLists(c: Config)
    decreases c
  {
    match c
    case Values(values) => |values| <= NO_CHANGE
    case Node(kids) => forall k :: k in kids ==> ShortLists(kids[k])
  }

  lemma {:induction false} NoDeletionsForEqual(ls: Listing, s: Schema, a: Config)
    requires ListsKeys(ls) && Conforms(s, a) && ShortLists(a)
    ensures DeleteList(ls, s, a, a) == []
    decreases a, 1
  {
    match a
    case Values(vals) => CompareWithItself(vals);
    case Node(kids) => NoDeletionsForEqualKids(ls, s, a, ls(kids.Keys));
  }

  lemma {:induction false} NoDeletionsForEqualKids(ls: Listing, s: Schema, a: Config, keys: seq<string>)
    requires ListsKeys(ls) && Conforms(s, a) && ShortLists(a)
    requires a.Node? && forall i :: 0 <= i < |keys| ==> keys[i] in a.kids
    ensures DeleteKids(ls, s, a, a, keys) == []
    decreases a, 0, |keys|
  {
    if keys != [] {
      NoDeletionsForEqual(ls, ChildSchema(s, keys[0]).value, a.kids[keys[0]]);
      NoDeletionsForEqualKids(ls, s, a, keys[1..]);
    }
  }

  lemma {:induction false} NoSettingsForEqual(ns: Listing, s: Schema, a: Config)
    requires ListsKeys(ns) && Conforms(s, a) && ShortLists(a)
    ensures SetList(ns, s, Some(a), a) == []
    decreases a, 1
  {
    match a
    case Values(vals) => CompareWithItself(vals);
    case Node(kids) => NoSettingsForEqualKids(ns, s, a, ns(kids.Keys));
  }

  lemma {:induction false} NoSettingsForEqualKids(ns: Listing, s: Schema, a: Config, keys: seq<string>)
    requires ListsKeys(ns) && Conforms(s, a) && ShortLists(a)
    requires a.Node? && forall i :: 0 <= i < |keys| ==> keys[i] in a.kids
    ensures SetKids(ns, s, Some(a), a, keys) == []
    decreases a, 0, |keys|
  {
    if keys != [] {
      NoSettingsForEqual(ns, ChildSchema(s, keys[0]).value, a.kids[keys[0]]);
      NoSettingsForEqualKids(ns, s, a, keys[1..]);
    }
  }

  lemma {:induction false} NoDeletionsKeepDefaulted(ls: Listing, s: Schema, a: Config, n: Config)
    requires ListsKeys(ls) && Conforms(s, a) && Conforms(s, n)
    requires DeleteList(ls, s, a, n) == []
    ensures KeepsDefaulted(s, a, n)
    decreases a
  {
    if a.Values? {
      if s.multi {
        NothingDeleted(a.values, n.values);
      }
    } else {
      var keys := ls(a.kids.Keys);
      forall k | k in a.kids
        ensures if k in n.kids then KeepsDefaulted(ChildSchema(s, k).value, a.kids[k], n.kids[k])
                else !DefaultedSchema(ChildSchema(s, k))
      {
        assert k in keys;
        NoDeletionsOfKid(ls, s, a, n, keys, k);
        if k in n.kids {
          assert |Under(k, DeleteList(ls, ChildSchema(s, k).value, a.kids[k], n.kids[k]))| == 0;
          NoDeletionsKeepDefaulted(ls, ChildSchema(s, k).value, a.kids[k], n.kids[k]);
        }
      }
    }
  }

  lemma SomeMember(vs: seq<string>)
    ensures vs != [] ==> exists v :: v in vs
  {
    if vs != [] {
      assert vs[0] in vs;
    }
  }

  lemma NothingDeleted(ovals: seq<string>, nvals: seq<string>)
    requires Distinct(ovals) && Distinct(nvals) && SinglePaths(Deleted(ovals, nvals)) == []
    ensures ovals <= nvals
  {
    var cut := Cut(ovals, nvals);
    DeletedIsOldTail(ovals, nvals);
    SplitAtCut(ovals, nvals);
    assert |Deleted(ovals, nvals)| == |SinglePaths(Deleted(ovals, nvals))| == 0;
    var tail := ovals[cut..];
    SomeMember(tail);
    assert ovals == nvals[..cut] + tail && tail == [];
  }

  lemma {:induction false} NoDeletionsOfKid(ls: Listing, s: Schema, a: Config, n: Config, keys: seq<string>, k: string)
    requires ListsKeys(ls) && Conforms(s, a) && Conforms(s, n)
    requires a.Node? && forall i :: 0 <= i < |keys| ==> keys[i] in a.kids
    requires DeleteKids(ls, s, a, n, keys) == [] && k in keys
    ensures DeleteKid(ls, s, a, n, k) == []
    decreases |keys|
  {
    if k != keys[0] {
      NoDeletionsOfKid(ls, s, a, n, keys[1..], k);
    }
  }

  lemma {:induction false} NoDeletionsMeansShort(ls: Listing, s: Schema, a: Config)
    requires ListsKeys(ls) && Conforms(s, a) && DeleteList(ls, s, a, a) == []
    ensures ShortLists(a)
    decreases a
  {
    match a
    case Values(vals) =>
      CompareWithItself(vals);
      assert s.multi ==> |SinglePaths(Deleted(vals, vals))| == |Deleted(vals, vals)|;
    case Node(kids) =>
      var keys := ls(kids.Keys);
      forall k | k in kids
        ensures ShortLists(kids[k])
      {
        assert k in keys;
        NoDeletionsOfKid(ls, s, a, a, keys, k);
        assert |Under(k, DeleteList(ls, ChildSchema(s, k).value, kids[k], kids[k]))| == 0;
        NoDeletionsMeansShort(ls, ChildSchema(s, k).value, kids[k]);
      }
  }

  /** Both lists are empty if and only if the two trees are the same and have no list of more than NO_CHANGE values. */
  lemma DiffIsEmptyIffEqual(ls: Listing, ns: Listing, s: Schema, a: Config, n: Config)
    requires ListsKeys(ls) && ListsKeys(ns) && Conforms(s, a) && Conforms(s, n)
    ensures DeleteList(ls, s, a, n) == [] && SetList(ns, s, Some(a), n) == [] <==> a == n && ShortLists(a)
  {
    if a == n && ShortLists(a) {
      NoDeletionsForEqual(ls, s, a);
      NoSettingsForEqual(ns, s, a);
    } else if DeleteList(ls, s, a, n) == [] && SetList(ns, s, Some(a), n) == [] {
      NoDeletionsKeepDefaulted(ls, s, a, n);
      DiffReachesNewIff(ls, ns, s, a, n);
      assert a == n;
      NoDeletionsMeansShort(ls, s, a);
    }
  }
}
