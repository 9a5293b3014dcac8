/**
  Which commands are in the two lists of a difference: exactly those for the paths that have to go and to come, and
  none of them twice.
*/
module DiffContents {
  import opened Options
  import opened ValueLists
  import opened ConfigTree
  import opened ConfigDiff

  // ----- what has to be done, path by path

  /** The value has its place in both lists, behind the same values; places from NO_CHANGE on are not looked at. */
  ghost predicate Stays(ovals: seq<string>, nvals: seq<string>, v: string) {
    exists i :: 0 <= i < |ovals| && ovals[i] == v && i < |nvals| && i < NO_CHANGE && ovals[..i + 1] == nvals[..i + 1]
  }

  /**
    The last component is a child that only the active tree has, of a node that both have, or a value of a multi leaf
    that does not stay.
  */
  ghost predicate HasToGo(s: Schema, a: Config, n: Config, p: Path) {
    && p != []
    && var at, k := p[..|p| - 1], p[|p| - 1];
       match (SchemaAt(s, at), Lookup(a, at), Lookup(n, at))
       case (Some(_), Some(Node(akids)), Some(Node(nkids))) => k in akids && k !in nkids
       case (Some(Leaf(multi, _, _, _)), Some(Values(ovals)), Some(Values(nvals))) =>
         multi && k in ovals && !Stays(ovals, nvals, k)
       case _ => false
  }

  /**
    The last component is a child without anything below that only the new tree has, or a value of a new leaf, or one
    that does not stay. Nodes with something below come with it.
  */
  ghost predicate HasToCome(a: Option<Config>, n: Config, p: Path) {
    && p != []
    && var at, k := p[..|p| - 1], p[|p| - 1];
       var was := if a.Some? then Lookup(a.value, at) else None;
       match Lookup(n, at)
       case Some(Node(kids)) => k in kids && kids[k] == Node(map[]) && Kid(was, k) == None
       case Some(Values(nvals)) => k in nvals && !(was.Some? && was.value.Values? && Stays(was.value.values, nvals, k))
       case None => false
  }

  // ----- values

  lemma StaysBeforeCut(ovals: seq<string>, nvals: seq<string>, v: string)
    ensures Distinct(ovals) && v in ovals ==> (Stays(ovals, nvals, v) <==> v !in ovals[Cut(ovals, nvals)..])
    ensures Distinct(nvals) && v in nvals ==> (Stays(ovals, nvals, v) <==> v !in nvals[Cut(ovals, nvals)..])
  {
    var cut := Cut(ovals, nvals);
    SplitAtCut(ovals, nvals);
    if Stays(ovals, nvals, v) {
      var i :| 0 <= i < |ovals| && ovals[i] == v && i < |nvals| && i < NO_CHANGE && ovals[..i + 1] == nvals[..i + 1];
      SamePrefixIsCut(ovals, nvals, i);
      assert nvals[i] == nvals[..i + 1][i] == v;
    } else {
      forall i | 0 <= i < cut
        ensures ovals[i] == nvals[i] != v
      {
        assert ovals[..i + 1] == nvals[..cut][..i + 1] == nvals[..i + 1];
        assert ovals[i] == ovals[..i + 1][i] == nvals[i];
      }
    }
  }

  lemma SamePrefixIsCut(ovals: seq<string>, nvals: seq<string>, i: nat)
    requires i < |ovals| && i < |nvals| && i < NO_CHANGE && ovals[..i + 1] == nvals[..i + 1]
    ensures i < Cut(ovals, nvals)
  {
    forall k | 0 <= k <= i
      ensures ovals[k] == nvals[k]
    {
      assert ovals[k] == ovals[..i + 1][k] == nvals[..i + 1][k];
    }
  }

  lemma InSinglePaths(vs: seq<string>, p: Path)
    ensures p in SinglePaths(vs) <==> |p| == 1 && p[0] in vs
  {
    if |p| == 1 && p[0] in vs {
      var i :| 0 <= i < |vs| && vs[i] == p[0];
      assert SinglePaths(vs)[i] == p;
    }
  }

  lemma InUnder(k: string, ps: seq<Path>, p: Path)
    ensures p in Under(k, ps) <==> p != [] && p[0] == k && p[1..] in ps
  {
    if p != [] && p[0] == k && p[1..] in ps {
      var i :| 0 <= i < |ps| && ps[i] == p[1..];
      assert Under(k, ps)[i] == p;
    }
  }

  // ----- deletions

  lemma GoesHere(s: Schema, a: Config, n: Config, p: Path)
    requires Conforms(s, a) && Conforms(s, n) && a.Node? && |p| == 1
    ensures p == [p[0]] && (HasToGo(s, a, n, p) <==> p[0] in a.kids && p[0] !in n.kids)
  {
    assert p[..0] == [];
  }

  lemma GoesBelow(s: Schema, a: Config, n: Config, p: Path)
    requires Conforms(s, a) && Conforms(s, n) && a.Node? && |p| > 1
    ensures HasToGo(s, a, n, p) <==>
              && p[0] in a.kids && p[0] in n.kids
              && HasToGo(ChildSchema(s, p[0]).value, a.kids[p[0]], n.kids[p[0]], p[1..])
  {
    var at, k := p[..|p| - 1], p[0];
    assert at[0] == k && at[1..] == p[1..][..|p| - 2];
    assert Lookup(a, at) == if k in a.kids then Lookup(a.kids[k], at[1..]) else None;
    assert Lookup(n, at) == if k in n.kids then Lookup(n.kids[k], at[1..]) else None;
  }

  /** The deletions of the walk are exactly those of the paths that have to go. */
  lemma {:induction false} DeletedIff(ls: Listing, s: Schema, a: Config, n: Config, p: Path)
    requires ListsKeys(ls) && Conforms(s, a) && Conforms(s, n)
    ensures p in DeleteList(ls, s, a, n) <==> HasToGo(s, a, n, p)
    decreases |p|
  {
    match a
    case Values(ovals) =>
      if s.multi {
        DeletedIsOldTail(ovals, n.values);
        InSinglePaths(Deleted(ovals, n.values), p);
        if p != [] {
          StaysBeforeCut(ovals, n.values, p[|p| - 1]);
        }
      }
    case Node(kids) =>
      InDeleteKids(ls, s, a, n, ls(kids.Keys), p);
      if |p| == 1 {
        GoesHere(s, a, n, p);
      } else if p != [] {
        GoesBelow(s, a, n, p);
      }
      if p != [] && p[0] in kids && p[0] in n.kids {
        var k := p[0];
        InUnder(k, DeleteList(ls, ChildSchema(s, k).value, kids[k], n.kids[k]), p);
        DeletedIff(ls, ChildSchema(s, k).value, kids[k], n.kids[k], p[1..]);
      }
  }

  lemma {:induction false} InDeleteKids(ls: Listing, s: Schema, a: Config, n: Config, keys: seq<string>, p: Path)
    requires ListsKeys(ls) && Conforms(s, a) && Conforms(s, n)
    requires a.Node? && forall i :: 0 <= i < |keys| ==> keys[i] in a.kids
    ensures p in DeleteKids(ls, s, a, n, keys) <==> p != [] && p[0] in keys && p in DeleteKid(ls, s, a, n, p[0])
    decreases |keys|
  {
    if keys != [] {
      var k := keys[0];
      InDeleteKids(ls, s, a, n, keys[1..], p);
      if k in n.kids {
        InUnder(k, DeleteList(ls, ChildSchema(s, k).value, a.kids[k], n.kids[k]), p);
      }
    }
  }

  lemma {:induction false} DeletedOnce(ls: Listing, s: Schema, a: Config, n: Config)
    requires ListsKeys(ls) && Conforms(s, a) && Conforms(s, n)
    ensures Distinct(DeleteList(ls, s, a, n))
    decreases a, 1
  {
    match a
    case Values(ovals) =>
      if s.multi {
        DeletedIsOldTail(ovals, n.values);
        SingleOnce(Deleted(ovals, n.values));
      }
    case Node(kids) => DeletedKidsOnce(ls, s, a, n, ls(kids.Keys));
  }

  lemma {:induction false} DeletedKidsOnce(ls: Listing, s: Schema, a: Config, n: Config, keys: seq<string>)
    requires ListsKeys(ls) && Conforms(s, a) && Conforms(s, n)
    requires a.Node? && Distinct(keys) && forall i :: 0 <= i < |keys| ==> keys[i] in a.kids
    ensures Distinct(DeleteKids(ls, s, a, n, keys))
    decreases a, 0, |keys|
  {
    if keys != [] {
      var k := keys[0];
      var first, rest := DeleteKid(ls, s, a, n, k), DeleteKids(ls, s, a, n, keys[1..]);
      DeletedKidsOnce(ls, s, a, n, keys[1..]);
      if k in n.kids {
        DeletedOnce(ls, ChildSchema(s, k).value, a.kids[k], n.kids[k]);
        UnderOnce(k, DeleteList(ls, ChildSchema(s, k).value, a.kids[k], n.kids[k]));
      }
      forall p | p in first
        ensures p !in rest
      {
        assert p[0] == k;
        InDeleteKids(ls, s, a, n, keys[1..], p);
        assert k !in keys[1..];
      }
      DistinctParts(first, rest);
    }
  }

  lemma SingleOnce(vs: seq<string>)
    requires Distinct(vs)
    ensures Distinct(SinglePaths(vs))
  {
    var ps := SinglePaths(vs);
    forall i, j | 0 <= i < j < |ps|
      ensures ps[i] != ps[j]
    {
      assert ps[i][0] == vs[i] != vs[j] == ps[j][0];
    }
  }

  lemma UnderOnce(k: string, ps: seq<Path>)
    requires Distinct(ps)
    ensures Distinct(Under(k, ps))
  {
    var qs := Under(k, ps);
    forall i, j | 0 <= i < j < |qs|
      ensures qs[i] != qs[j]
    {
      assert qs[i][1..] == ps[i] && qs[j][1..] == ps[j];
    }
  }

  // ----- settings

  lemma ComesHere(a: Option<Config>, n: Config, p: Path)
    requires n.Node? && |p| == 1
    ensures p == [p[0]]
    ensures HasToCome(a, n, p) <==> p[0] in n.kids && n.kids[p[0]] == Node(map[]) && Kid(a, p[0]) == None
  {
    assert p[..0] == [];
  }

  lemma ComesBelow(a: Option<Config>, n: Config, p: Path)
    requires n.Node? && |p| > 1
    ensures HasToCome(a, n, p) <==> p[0] in n.kids && HasToCome(Kid(a, p[0]), n.kids[p[0]], p[1..])
  {
    var at, k := p[..|p| - 1], p[0];
    assert at[0] == k && at[1..] == p[1..][..|p| - 2];
    assert Lookup(n, at) == if k in n.kids then Lookup(n.kids[k], at[1..]) else None;
  }

  lemma SetValueIff(ns: Listing, s: Schema, a: Option<Config>, n: Config, p: Path)
    requires ListsKeys(ns) && Conforms(s, n) && (a.Some? ==> Conforms(s, a.value)) && n.Values?
    ensures p in SetList(ns, s, a, n) <==> HasToCome(a, n, p)
  {
    if s.multi {
      var ovals := if a.Some? then a.value.values else [];
      InSinglePaths(Added(ovals, n.values), p);
      if p != [] {
        StaysBeforeCut(ovals, n.values, p[|p| - 1]);
      }
    } else {
      OneValueStays(a, n.values);
      assert |p| == 1 ==> p == [p[0]];
    }
  }

  /** The settings of the walk are exactly those of the paths that have to come. */
  lemma {:induction false} SetIff(ns: Listing, s: Schema, a: Option<Config>, n: Config, p: Path)
    requires ListsKeys(ns) && Conforms(s, n) && (a.Some? ==> Conforms(s, a.value))
    ensures p in SetList(ns, s, a, n) <==> HasToCome(a, n, p)
    decreases |p|
  {
    match n
    case Values(nvals) => SetValueIff(ns, s, a, n, p);
    case Node(kids) =>
      InSetKids(ns, s, a, n, ns(kids.Keys), p);
      if |p| == 1 {
        ComesHere(a, n, p);
      } else if p != [] {
        ComesBelow(a, n, p);
      }
      if p != [] && p[0] in kids && kids[p[0]] != Node(map[]) {
        var k, t := p[0], ChildSchema(s, p[0]).value;
        InUnder(k, SetList(ns, t, Kid(a, k), kids[k]), p);
        SetIff(ns, t, Kid(a, k), kids[k], p[1..]);
      }
  }

  lemma OneValueStays(a: Option<Config>, nvals: seq<string>)
    requires |nvals| == 1 && (a.Some? ==> a.value.Values? && |a.value.values| == 1)
    ensures a.Some? ==> (Stays(a.value.values, nvals, nvals[0]) <==> a.value.values[0] == nvals[0])
  {
    if a.Some? && a.value.values[0] == nvals[0] {
      assert a.value.values[..1] == nvals[..1];
    }
  }

  lemma {:induction false} InSetKids(ns: Listing, s: Schema, a: Option<Config>, n: Config, keys: seq<string>, p: Path)
    requires ListsKeys(ns) && Conforms(s, n) && (a.Some? ==> Conforms(s, a.value))
    requires n.Node? && forall i :: 0 <= i < |keys| ==> keys[i] in n.kids
    ensures p in SetKids(ns, s, a, n, keys) <==> p != [] && p[0] in keys && p in SetKid(ns, s, a, n, p[0])
    decreases |keys|
  {
    if keys != [] {
      var k := keys[0];
      InSetKids(ns, s, a, n, keys[1..], p);
      if n.kids[k] != Node(map[]) {
        InUnder(k, SetList(ns, ChildSchema(s, k).value, Kid(a, k), n.kids[k]), p);
      }
    }
  }

  lemma {:induction false} SetOnce(ns: Listing, s: Schema, a: Option<Config>, n: Config)
    requires ListsKeys(ns) && Conforms(s, n) && (a.Some? ==> Conforms(s, a.value))
    ensures Distinct(SetList(ns, s, a, n))
    decreases n, 1
  {
    match n
    case Values(nvals) =>
      if s.multi {
        SingleOnce(Added(if a.Some? then a.value.values else [], nvals));
      }
    case Node(kids) => SetKidsOnce(ns, s, a, n, ns(kids.Keys));
  }

  lemma {:induction false} SetKidsOnce(ns: Listing, s: Schema, a: Option<Config>, n: Config, keys: seq<string>)
    requires ListsKeys(ns) && Conforms(s, n) && (a.Some? ==> Conforms(s, a.value))
    requires n.Node? && Distinct(keys) && forall i :: 0 <= i < |keys| ==> keys[i] in n.kids
    ensures Distinct(SetKids(ns, s, a, n, keys))
    decreases n, 0, |keys|
  {
    if keys != [] {
      var k := keys[0];
      var first, rest := SetKid(ns, s, a, n, k), SetKids(ns, s, a, n, keys[1..]);
      SetKidsOnce(ns, s, a, n, keys[1..]);
      if n.kids[k] != Node(map[]) {
        SetOnce(ns, ChildSchema(s, k).value, Kid(a, k), n.kids[k]);
        UnderOnce(k, SetList(ns, ChildSchema(s, k).value, Kid(a, k), n.kids[k]));
      }
      forall p | p in first
        ensures p !in rest
      {
        assert p[0] == k;
        InSetKids(ns, s, a, n, keys[1..], p);
        assert k !in keys[1..];
      }
      DistinctParts(first, rest);
    }
  }

  // ----- the filter

  lemma {:induction false} FilteredIff(s: Schema, ps: seq<Path>)
    ensures forall p :: p in DropDefaulted(s, ps) <==> p in ps && !DefaultedAt(s, p)
    ensures Distinct(ps) ==> Distinct(DropDefaulted(s, ps))
  {
    if ps != [] {
      FilteredIff(s, ps[1..]);
    }
  }

  /** Both lists, after the filter: exactly the paths that have to go and are not kept, and those that have to come. */
  lemma DiffIsExactly(ls: Listing, ns: Listing, s: Schema, a: Config, n: Config)
    requires ListsKeys(ls) && ListsKeys(ns) && Conforms(s, a) && Conforms(s, n)
    ensures var dels := DropDefaulted(s, DeleteList(ls, s, a, n));
            Distinct(dels) && forall p :: p in dels <==> HasToGo(s, a, n, p) && !DefaultedAt(s, p)
    ensures var sets := SetList(ns, s, Some(a), n);
            Distinct(sets) && forall p :: p in sets <==> HasToCome(Some(a), n, p)
  {
    FilteredIff(s, DeleteList(ls, s, a, n));
    DeletedOnce(ls, s, a, n);
    SetOnce(ns, s, Some(a), n);
    forall p
      ensures p in DeleteList(ls, s, a, n) <==> HasToGo(s, a, n, p)
      ensures p in SetList(ns, s, Some(a), n) <==> HasToCome(Some(a), n, p)
    {
      DeletedIff(ls, s, a, n, p);
      SetIff(ns, s, Some(a), n, p);
    }
  }
}
