/**
  Files that repeat statements: loading moves a repeated value to the end, while executing the statements as
  commands leaves it where it was first set.
*/
module RepeatedStatements {
  import opened Options
  import opened ValueLists
  import opened ConfigTree
  import opened ConfigDiff
  import opened PathText
  import opened StatementOrder

  /** Executing the statements as `set` commands on an empty configuration. */
  function Executed(s: Schema, stmts: seq<Path>): Config {
    Puts(false, s, stmts)
  }

  lemma {:induction false} ExecutedIsSets(s: Schema, stmts: seq<Path>)
    ensures Sets(s, Some(Empty(s)), stmts) == Some(Executed(s, stmts))
  {
    if stmts != [] {
      var init, last := stmts[..|stmts| - 1], stmts[|stmts| - 1];
      ExecutedIsSets(s, init);
      PutIsSet(s, Some(Executed(s, init)), last);
      assert stmts == init + [last];
      SetsAppend(s, Some(Empty(s)), init, [last]);
      assert [last][1..] == [];
    }
  }

  // ----- the part of a file that concerns one child

  /** What is left of the statements for one child. */
  function Below(stmts: seq<Path>, k: string): seq<Path> {
    if stmts == [] then []
    else
      var init, last := Below(stmts[..|stmts| - 1], k), stmts[|stmts| - 1];
      if last != [] && last[0] == k then init + [last[1..]] else init
  }

  predicate AreValid(s: Schema, stmts: seq<Path>) {
    forall i :: 0 <= i < |stmts| ==> ValidStatement(s, stmts[i])
  }

  lemma {:induction false} BelowIsValid(s: Schema, stmts: seq<Path>, k: string)
    requires !s.Leaf? && AreValid(s, stmts)
    ensures ChildSchema(s, k).None? ==> Below(stmts, k) == []
    ensures ChildSchema(s, k).Some? ==> AreValid(ChildSchema(s, k).value, Below(stmts, k))
  {
    if stmts != [] {
      BelowIsValid(s, stmts[..|stmts| - 1], k);
      assert ValidStatement(s, stmts[|stmts| - 1]);
    }
  }

  lemma {:induction false} PutsOfNode(moves: bool, s: Schema, stmts: seq<Path>)
    requires !s.Leaf?
    ensures Puts(moves, s, stmts).Node?
  {
    if stmts != [] {
      PutsOfNode(moves, s, stmts[..|stmts| - 1]);
    }
  }

  /** A child is what the statements for it give, and is there if and only if there is one. */
  lemma {:induction false} PutsOfKid(moves: bool, s: Schema, stmts: seq<Path>, k: string)
    requires !s.Leaf? && ChildSchema(s, k).Some?
    ensures KidOf(Puts(moves, s, stmts), k) ==
              if Below(stmts, k) == [] then None else Some(Puts(moves, ChildSchema(s, k).value, Below(stmts, k)))
  {
    if stmts != [] {
      var init, last := stmts[..|stmts| - 1], stmts[|stmts| - 1];
      PutsOfKid(moves, s, init, k);
      PutsOfNode(moves, s, init);
      if last != [] && last[0] == k {
        PutBelow(moves, s, Puts(moves, s, init), last, k);
        PutOneMore(moves, ChildSchema(s, k).value, Below(init, k), last[1..]);
      } else {
        PutElsewhere(moves, s, Puts(moves, s, init), last, k);
      }
    }
  }

  lemma PutBelow(moves: bool, s: Schema, c: Config, p: Path, k: string)
    requires c.Node? && p != [] && p[0] == k && ChildSchema(s, k).Some?
    ensures KidOf(PutAt(moves, s, Some(c), p), k) == Some(PutAt(moves, ChildSchema(s, k).value, KidOf(c, k), p[1..]))
  {
  }

  lemma PutElsewhere(moves: bool, s: Schema, c: Config, p: Path, k: string)
    requires c.Node? && (p == [] || p[0] != k)
    ensures KidOf(PutAt(moves, s, Some(c), p), k) == KidOf(c, k)
  {
  }

  lemma PutOneMore(moves: bool, s: Schema, stmts: seq<Path>, p: Path)
    ensures Puts(moves, s, stmts + [p]) == PutAt(moves, s, Some(Puts(moves, s, stmts)), p)
    ensures Puts(moves, s, [] + [p]) == PutAt(moves, s, None, p)
  {
    assert (stmts + [p])[..|stmts|] == stmts;
    assert ([] + [p])[..0] == [];
  }

  lemma {:induction false} NoOtherKids(moves: bool, s: Schema, stmts: seq<Path>, k: string)
    requires !s.Leaf? && ChildSchema(s, k).None?
    ensures KidOf(Puts(moves, s, stmts), k).None?
  {
    if stmts != [] {
      NoOtherKids(moves, s, stmts[..|stmts| - 1], k);
      PutsOfNode(moves, s, stmts[..|stmts| - 1]);
    }
  }

  // ----- the values of one leaf

  function Heads(stmts: seq<Path>): (r: seq<string>)
    requires forall i :: 0 <= i < |stmts| ==> stmts[i] != []
    ensures |r| == |stmts|
  {
    seq(|stmts|, i requires 0 <= i < |stmts| => stmts[i][0])
  }

  /** The values in the order in which they are first mentioned. */
  function FirstMentions(vs: seq<string>): seq<string> {
    if vs == [] then []
    else
      var r, last := FirstMentions(vs[..|vs| - 1]), vs[|vs| - 1];
      if last in r then r else r + [last]
  }

  /** The values in the order in which they are last mentioned. */
  function LastMentions(vs: seq<string>): seq<string> {
    if vs == [] then []
    else Remove(LastMentions(vs[..|vs| - 1]), vs[|vs| - 1]) + [vs[|vs| - 1]]
  }

  lemma {:induction false} PutsOfLeaf(moves: bool, s: Schema, stmts: seq<Path>)
    requires s.Leaf? && AreValid(s, stmts)
    ensures s.multi ==>
              Puts(moves, s, stmts) == Values(if moves then LastMentions(Heads(stmts)) else FirstMentions(Heads(stmts)))
    ensures !s.multi ==> Puts(moves, s, stmts) == Values(if stmts == [] then [] else [stmts[|stmts| - 1][0]])
  {
    if stmts != [] {
      var init, last := stmts[..|stmts| - 1], stmts[|stmts| - 1];
      PutsOfLeaf(moves, s, init);
      assert ValidStatement(s, last);
      assert Heads(stmts)[..|init|] == Heads(init);
    }
  }

  // ----- when the two agree

  /** In every multi-value leaf, the values are first mentioned in the order in which they are last mentioned. */
  ghost predicate KeepsOrder(s: Schema, stmts: seq<Path>)
    requires AreValid(s, stmts)
    decreases s
  {
    if s.Leaf? then s.multi ==> FirstMentions(Heads(stmts)) == LastMentions(Heads(stmts))
    else
      forall k :: ChildSchema(s, k).Some? && Below(stmts, k) != [] ==> KeepsOrderBelow(s, stmts, k)
  }

  ghost predicate KeepsOrderBelow(s: Schema, stmts: seq<Path>, k: string)
    requires !s.Leaf? && AreValid(s, stmts) && ChildSchema(s, k).Some?
    decreases s, 0
  {
    BelowIsValid(s, stmts, k);
    KeepsOrder(ChildSchema(s, k).value, Below(stmts, k))
  }

  /** Loading a file gives what executing it gives, if and only if that is so. */
  lemma {:induction false} LoadIsExecutionIff(s: Schema, stmts: seq<Path>)
    requires AreValid(s, stmts)
    ensures Load(s, stmts) == Executed(s, stmts) <==> KeepsOrder(s, stmts)
    decreases s
  {
    if s.Leaf? {
      PutsOfLeaf(true, s, stmts);
      PutsOfLeaf(false, s, stmts);
    } else {
      var c, d := Load(s, stmts), Executed(s, stmts);
      PutsOfNode(true, s, stmts);
      PutsOfNode(false, s, stmts);
      forall k
        ensures KidOf(c, k) == KidOf(d, k) <==>
                (ChildSchema(s, k).Some? && Below(stmts, k) != [] ==> KeepsOrderBelow(s, stmts, k))
      {
        SameKidIff(s, stmts, k);
      }
      if forall k :: KidOf(c, k) == KidOf(d, k) {
        SameKids(c, d);
      }
    }
  }

  lemma {:induction false} SameKidIff(s: Schema, stmts: seq<Path>, k: string)
    requires !s.Leaf? && AreValid(s, stmts)
    ensures KidOf(Load(s, stmts), k) == KidOf(Executed(s, stmts), k) <==>
            (ChildSchema(s, k).Some? && Below(stmts, k) != [] ==> KeepsOrderBelow(s, stmts, k))
    decreases s, 0
  {
    BelowIsValid(s, stmts, k);
    if ChildSchema(s, k).None? {
      NoOtherKids(true, s, stmts, k);
      NoOtherKids(false, s, stmts, k);
    } else {
      PutsOfKid(true, s, stmts, k);
      PutsOfKid(false, s, stmts, k);
      LoadIsExecutionIff(ChildSchema(s, k).value, Below(stmts, k));
    }
  }

  // ----- files without repetitions, and one with

  lemma {:induction false} MentionsOfDistinct(vs: seq<string>)
    requires Distinct(vs)
    ensures FirstMentions(vs) == vs && LastMentions(vs) == vs
  {
    if vs != [] {
      var init, last := vs[..|vs| - 1], vs[|vs| - 1];
      LastIsNew(vs, init, last);
      MentionsOfDistinct(init);
      assert Remove(init, last) == init by {
        NoneAbsent(init, [last]);
      }
    }
  }

  lemma LastIsNew(vs: seq<string>, init: seq<string>, last: string)
    requires Distinct(vs) && vs != [] && init == vs[..|vs| - 1] && last == vs[|vs| - 1]
    ensures Distinct(init) && last !in init && init + [last] == vs
  {
  }

  /** Every statement for the child comes from one of the file, in the same order. */
  lemma {:induction false} BelowComesFrom(stmts: seq<Path>, k: string, i: nat) returns (j: nat)
    requires i < |Below(stmts, k)|
    ensures j < |stmts| && stmts[j] == [k] + Below(stmts, k)[i]
    decreases |stmts|
  {
    var init, last := stmts[..|stmts| - 1], stmts[|stmts| - 1];
    if i < |Below(init, k)| {
      j := BelowComesFrom(init, k, i);
    } else {
      j := |stmts| - 1;
      assert last == [last[0]] + last[1..];
    }
  }

  lemma {:induction false} BelowIsDistinct(stmts: seq<Path>, k: string)
    requires Distinct(stmts)
    ensures Distinct(Below(stmts, k))
  {
    if stmts != [] {
      var init, last := stmts[..|stmts| - 1], stmts[|stmts| - 1];
      BelowIsDistinct(init, k);
      if last != [] && last[0] == k {
        forall i | 0 <= i < |Below(init, k)|
          ensures Below(init, k)[i] != last[1..]
        {
          var j := BelowComesFrom(init, k, i);
          assert stmts[j] != last && last == [k] + last[1..];
        }
      }
    }
  }

  /** A file that does not repeat a statement is loaded as it is executed. */
  lemma {:induction false} DistinctFileKeepsOrder(s: Schema, stmts: seq<Path>)
    requires AreValid(s, stmts) && Distinct(stmts)
    ensures KeepsOrder(s, stmts)
    decreases s
  {
    if s.Leaf? {
      forall i, j | 0 <= i < j < |stmts|
        ensures Heads(stmts)[i] != Heads(stmts)[j]
      {
        assert ValidStatement(s, stmts[i]) && ValidStatement(s, stmts[j]);
        assert stmts[i] == [stmts[i][0]] && stmts[j] == [stmts[j][0]];
      }
      MentionsOfDistinct(Heads(stmts));
    } else {
      forall k | ChildSchema(s, k).Some? && Below(stmts, k) != []
        ensures KeepsOrderBelow(s, stmts, k)
      {
        BelowIsValid(s, stmts, k);
        BelowIsDistinct(stmts, k);
        DistinctFileKeepsOrder(ChildSchema(s, k).value, Below(stmts, k));
      }
    }
  }

  lemma MentionsOfThree(u: string, v: string)
    requires u != v
    ensures FirstMentions([u, v, u]) == [u, v] && LastMentions([u, v, u]) == [v, u]
  {
    var vs, two := [u, v, u], [u, v];
    assert vs[..2] == two && vs[2] == u;
    assert two[0] == u && two[1] == v;
    MentionsOfDistinct(two);
    RemoveFirst(u, v);
  }

  lemma RemoveFirst(u: string, v: string)
    requires u != v
    ensures Remove([u, v], u) == [v]
  {
    var two := [u, v];
    assert two[..1] == [u] && [u][..0] == [];
    assert Absent([u], [u]) == [];
  }

  /** With the values u, v, u of one leaf, loading gives v, u where execution gives u, v. */
  lemma RepeatedValueMoves(u: string, v: string)
    requires u != v && PlainName(u) && PlainName(v)
    ensures var s, stmts := Leaf(true, false, false, false), [[u], [v], [u]];
            AreValid(s, stmts) && Load(s, stmts) == Values([v, u]) && Executed(s, stmts) == Values([u, v])
  {
    var s, stmts := Leaf(true, false, false, false), [[u], [v], [u]];
    assert Heads(stmts) == [u, v, u];
    LeafIsLoaded(s, stmts, [u, v, u]);
    MentionsOfThree(u, v);
  }

  lemma LeafIsLoaded(s: Schema, stmts: seq<Path>, vs: seq<string>)
    requires s.Leaf? && s.multi && AreValid(s, stmts) && Heads(stmts) == vs
    ensures Load(s, stmts) == Values(LastMentions(vs)) && Executed(s, stmts) == Values(FirstMentions(vs))
  {
    PutsOfLeaf(true, s, stmts);
    PutsOfLeaf(false, s, stmts);
  }

  // ----- what loading over an active configuration gives

  lemma ResultOfKid(s: Schema, a: Config, n: Config, k: string)
    requires Conforms(s, a) && Conforms(s, n) && !s.Leaf?
    ensures KidOf(Result(s, a, n), k) ==
              if k in n.kids && k in a.kids then Some(Result(ChildSchema(s, k).value, a.kids[k], n.kids[k]))
              else if k in n.kids then Some(n.kids[k])
              else if k in a.kids && DefaultedSchema(ChildSchema(s, k)) then Some(a.kids[k])
              else None
  {
    var r := Result(s, a, n);
    assert k in r.kids <==> k in n.kids || (k in a.kids && DefaultedSchema(ChildSchema(s, k)));
    if k in n.kids && k in a.kids {
      assert r.kids[k] == Result(ChildSchema(s, k).value, a.kids[k], n.kids[k]);
    }
  }

  /**
    No defaulted leaf is dropped and the order of values is kept; in a multi leaf whose value deletions are dropped,
    the old values are those mentioned first, and the others are last mentioned in the order of their first mentions.
  */
  ghost predicate LeadsToExecution(s: Schema, a: Config, stmts: seq<Path>)
    requires Conforms(s, a) && AreValid(s, stmts)
    decreases s
  {
    if s.Leaf? then
      s.multi ==>
        var first, last := FirstMentions(Heads(stmts)), LastMentions(Heads(stmts));
        if s.valueDefault then a.values <= first && Absent(last, a.values) == first[|a.values|..] else first == last
    else forall k :: ChildSchema(s, k).Some? ==> LeadsBelow(s, a, stmts, k)
  }

  ghost predicate LeadsBelow(s: Schema, a: Config, stmts: seq<Path>, k: string)
    requires !s.Leaf? && Conforms(s, a) && AreValid(s, stmts) && ChildSchema(s, k).Some?
    decreases s, 0
  {
    BelowIsValid(s, stmts, k);
    if Below(stmts, k) == [] then k in a.kids ==> !DefaultedSchema(ChildSchema(s, k))
    else if k in a.kids then LeadsToExecution(ChildSchema(s, k).value, a.kids[k], Below(stmts, k))
    else KeepsOrder(ChildSchema(s, k).value, Below(stmts, k))
  }

  lemma MergedIs(ovals: seq<string>, nvals: seq<string>, vals: seq<string>)
    ensures Merged(ovals, nvals) == vals <==> ovals <= vals && Absent(nvals, ovals) == vals[|ovals|..]
  {
    var m := Merged(ovals, nvals);
    assert m[..|ovals|] == ovals && m[|ovals|..] == Absent(nvals, ovals);
    assert ovals <= vals ==> vals == ovals + vals[|ovals|..];
  }

  /** Loading a file over an active configuration leads to what executing the file gives, if and only if that is so. */
  lemma {:induction false} ResultIsExecutionIff(s: Schema, a: Config, stmts: seq<Path>)
    requires Conforms(s, a) && AreValid(s, stmts) && Conforms(s, Load(s, stmts))
    ensures Result(s, a, Load(s, stmts)) == Executed(s, stmts) <==> LeadsToExecution(s, a, stmts)
    decreases s
  {
    if s.Leaf? {
      PutsOfLeaf(true, s, stmts);
      PutsOfLeaf(false, s, stmts);
      if s.multi {
        MergedIs(a.values, LastMentions(Heads(stmts)), FirstMentions(Heads(stmts)));
      }
    } else {
      var c, d := Result(s, a, Load(s, stmts)), Executed(s, stmts);
      PutsOfNode(false, s, stmts);
      forall k
        ensures KidOf(c, k) == KidOf(d, k) <==> (ChildSchema(s, k).Some? ==> LeadsBelow(s, a, stmts, k))
      {
        ResultKidIff(s, a, stmts, k);
      }
      if forall k :: KidOf(c, k) == KidOf(d, k) {
        SameKids(c, d);
      }
    }
  }

  lemma {:induction false} ResultKidIff(s: Schema, a: Config, stmts: seq<Path>, k: string)
    requires Conforms(s, a) && AreValid(s, stmts) && Conforms(s, Load(s, stmts)) && !s.Leaf?
    ensures KidOf(Result(s, a, Load(s, stmts)), k) == KidOf(Executed(s, stmts), k) <==>
            (ChildSchema(s, k).Some? ==> LeadsBelow(s, a, stmts, k))
    decreases s, 0
  {
    ResultOfKid(s, a, Load(s, stmts), k);
    BelowIsValid(s, stmts, k);
    if ChildSchema(s, k).None? {
      NoOtherKids(true, s, stmts, k);
      NoOtherKids(false, s, stmts, k);
    } else {
      PutsOfKid(true, s, stmts, k);
      PutsOfKid(false, s, stmts, k);
      if Below(stmts, k) != [] {
        LoadIsExecutionIff(ChildSchema(s, k).value, Below(stmts, k));
        if k in a.kids {
          ResultIsExecutionIff(ChildSchema(s, k).value, a.kids[k], Below(stmts, k));
        }
      }
    }
  }

  /** The server reports no default for paths that end in a value. */
  ghost predicate NoValueDefaults(s: Schema)
    decreases s
  {
    match s
    case Container(nodes) => forall k :: k in nodes ==> NoValueDefaults(nodes[k])
    case Tag(entry) => NoValueDefaults(entry)
    case Leaf(_, _, _, valueDefault) => !valueDefault
  }

  /** Then the condition is that no defaulted leaf is dropped and that no repeated value changes the order. */
  lemma {:induction false} LeadsToExecutionIff(s: Schema, a: Config, stmts: seq<Path>)
    requires Conforms(s, a) && AreValid(s, stmts) && Conforms(s, Load(s, stmts)) && NoValueDefaults(s)
    ensures LeadsToExecution(s, a, stmts) <==> KeepsDefaulted(s, a, Load(s, stmts)) && KeepsOrder(s, stmts)
    decreases s
  {
    if !s.Leaf? {
      forall k | ChildSchema(s, k).Some?
        ensures LeadsBelow(s, a, stmts, k) <==>
                KeepsKid(s, a, Load(s, stmts), k) && (Below(stmts, k) != [] ==> KeepsOrderBelow(s, stmts, k))
      {
        LeadsBelowIff(s, a, stmts, k);
      }
      assert KeepsDefaulted(s, a, Load(s, stmts)) <==>
             forall k :: ChildSchema(s, k).Some? ==> KeepsKid(s, a, Load(s, stmts), k);
    }
  }

  ghost predicate KeepsKid(s: Schema, a: Config, n: Config, k: string)
    requires Conforms(s, a) && Conforms(s, n) && !s.Leaf? && ChildSchema(s, k).Some?
  {
    k in a.kids ==>
      if k in n.kids then KeepsDefaulted(ChildSchema(s, k).value, a.kids[k], n.kids[k])
      else !DefaultedSchema(ChildSchema(s, k))
  }

  lemma {:induction false} LeadsBelowIff(s: Schema, a: Config, stmts: seq<Path>, k: string)
    requires Conforms(s, a) && AreValid(s, stmts) && Conforms(s, Load(s, stmts)) && NoValueDefaults(s)
    requires !s.Leaf? && ChildSchema(s, k).Some?
    ensures LeadsBelow(s, a, stmts, k) <==>
            KeepsKid(s, a, Load(s, stmts), k) && (Below(stmts, k) != [] ==> KeepsOrderBelow(s, stmts, k))
    decreases s, 0
  {
    BelowIsValid(s, stmts, k);
    PutsOfKid(true, s, stmts, k);
    if Below(stmts, k) != [] && k in a.kids {
      LeadsToExecutionIff(ChildSchema(s, k).value, a.kids[k], Below(stmts, k));
    }
  }
}
