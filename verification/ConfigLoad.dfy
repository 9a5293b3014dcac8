/**
  The walks of `Vyatta::ConfigLoad` over the active configuration and a loaded hierarchy. They
  move the level of a shared configuration object and push quoted commands onto two lists.
*/
module ConfigLoad {
  import opened Options
  import opened Sequences
  import opened ValueLists
  import opened ConfigTree
  import opened ConfigDiff
  import opened DiffContents
  import opened BlankText
  import opened PathText
  import opened ShellWords
  import opened RankSort
  import opened ConfigHierarchy
  import opened StatementOrder
  import opened RepeatedStatements

  ghost predicate PlainConfig(c: Config)
    decreases c
  {
    match c
    case Values(values) => PlainPath(values)
    case Node(kids) => forall k :: k in kids ==> PlainName(k) && PlainConfig(kids[k])
  }

  // ----- commands as they are pushed onto the lists

  /** The relative paths as absolute, quoted command paths. */
  function Quoted(path: Path, ps: seq<Path>): (r: seq<Path>)
    ensures |r| == |ps|
  {
    seq(|ps|, i requires 0 <= i < |ps| => QuotePath(path + ps[i]))
  }

  /** A shell reads each component of the commands as one word. */
  predicate AreCommands(ps: seq<Path>) {
    forall i, j :: 0 <= i < |ps| && 0 <= j < |ps[i]| ==> OnlyWord(ps[i][j]).Some?
  }

  function WordsOfPath(p: Path): (r: Path)
    requires forall j :: 0 <= j < |p| ==> OnlyWord(p[j]).Some?
    ensures |r| == |p|
  {
    seq(|p|, j requires 0 <= j < |p| => OnlyWord(p[j]).value)
  }

  /** The commands as the shell reads them. */
  function ReadCommands(ps: seq<Path>): (r: seq<Path>)
    requires AreCommands(ps)
    ensures |r| == |ps|
  {
    seq(|ps|, i requires 0 <= i < |ps| => WordsOfPath(ps[i]))
  }

  lemma QuotedAppend(path: Path, ps: seq<Path>, qs: seq<Path>)
    ensures Quoted(path, ps + qs) == Quoted(path, ps) + Quoted(path, qs)
  {
  }

  lemma QuotedUnder(path: Path, k: string, ps: seq<Path>)
    ensures Quoted(path, Under(k, ps)) == Quoted(path + [k], ps)
  {
    forall i | 0 <= i < |ps|
      ensures Quoted(path, Under(k, ps))[i] == Quoted(path + [k], ps)[i]
    {
      assert path + ([k] + ps[i]) == path + [k] + ps[i];
    }
  }

  lemma QuotedSingle(path: Path, v: string)
    ensures Quoted(path, [[v]]) == [QuotePath(path + [v])]
  {
  }

  ghost predicate PlainPaths(ps: seq<Path>) {
    forall i :: 0 <= i < |ps| ==> PlainPath(ps[i])
  }

  /** A shell reads the quoted commands as the plain paths. */
  lemma QuotedIsRead(ps: seq<Path>)
    requires PlainPaths(ps)
    ensures AreCommands(Quoted([], ps)) && ReadCommands(Quoted([], ps)) == ps
  {
    var qs := Quoted([], ps);
    forall i | 0 <= i < |ps|
      ensures |qs[i]| == |ps[i]| && forall j :: 0 <= j < |ps[i]| ==> OnlyWord(qs[i][j]) == Some(ps[i][j])
    {
      assert [] + ps[i] == ps[i];
      forall j | 0 <= j < |ps[i]|
        ensures OnlyWord(qs[i][j]) == Some(ps[i][j])
      {
        ReadQuotedName(ps[i][j]);
      }
    }
    forall i | 0 <= i < |ps|
      ensures ReadCommands(qs)[i] == ps[i]
    {
      assert WordsOfPath(qs[i]) == ps[i];
    }
  }

  lemma JoinIsNotDot(p: Path)
    requires PlainPath(p)
    ensures Join(p) != "."
  {
    LevelDenotesPath(p);
    assert Words(IsBlank, ". ") == ["."] by {
      WordsOfJoin(IsBlank, ["."], " ");
      assert Join(["."]) + " " == ". ";
    }
    assert PathComps(".") == DropDots(["."]) == [];
  }

  // ----- the active configuration object

  class ActiveConfig {
    const schema: Schema
    const active: Config
    var level: string

    constructor (schema: Schema, active: Config)
      ensures this.schema == schema && this.active == active && level == ""
    {
      this.schema, this.active, level := schema, active, "";
    }

    /** The level "." leaves the object where it is. */
    method SetLevel(l: string)
      modifies this
      ensures level == if l == "." then old(level) else l
    {
      if l != "." {
        level := l;
      }
    }

    /** The template of the node at the current level, if the level is a node path. */
    function Template(): Option<Schema>
      reads this
    {
      SchemaAt(schema, PathComps(level))
    }

    function Here(): Option<Config>
      reads this
    {
      Lookup(active, PathComps(level))
    }

    predicate IsLeafNode()
      reads this
    {
      Template().Some? && Template().value.Leaf?
    }

    /** (is multi, is text, has a default); for a path that ends in a value, the server may report a default too. */
    function ParseTemplate(): (bool, bool, bool)
      reads this
    {
      (IsLeafNode() && Template().value.multi, IsLeafNode() && Template().value.text,
       DefaultedAt(schema, PathComps(level)))
    }

    function OrigNodes(): set<string>
      reads this
    {
      if Here().Some? && Here().value.Node? then Here().value.kids.Keys else {}
    }

    function OrigValues(): seq<string>
      reads this
    {
      if Here().Some? && Here().value.Values? then Here().value.values else []
    }

    method MoveTo(path: Path)
      requires PlainPath(path)
      modifies this
      ensures level == Join(path) && PathComps(level) == path
    {
      JoinIsNotDot(path);
      LevelDenotesPath(path);
      SetLevel(Join(path));
    }
  }

  method StripQuotes(vals: seq<string>) returns (r: seq<string>)
    requires PlainPath(vals)
    ensures r == vals
  {
    r := [];
    for i := 0 to |vals|
      invariant r == vals[..i]
    {
      QuotedPlainName(vals[i]);
      r := r + [Unwrap(vals[i], '\"')];
    }
  }

  // ----- the walks

  method PushValues(list: seq<Path>, path: Path, vals: seq<string>) returns (r: seq<Path>)
    ensures r == list + Quoted(path, SinglePaths(vals))
  {
    r := list;
    for i := 0 to |vals|
      invariant r == list + Quoted(path, SinglePaths(vals[..i]))
    {
      r := r + [QuotePath(path + [vals[i]])];
      assert Quoted(path, SinglePaths(vals[..i + 1])) ==
             Quoted(path, SinglePaths(vals[..i])) + [QuotePath(path + [vals[i]])];
    }
    assert vals[..|vals|] == vals;
  }

  class ConfigLoader {
    const cfg: ActiveConfig
    const ls: Listing
    const ns: Listing
    const nodeOrder: Order
    var deleteList: seq<Path>
    var setList: seq<Path>

    constructor (cfg: ActiveConfig, ls: Listing, ns: Listing, order: Order)
      ensures this.cfg == cfg && this.ls == ls && this.ns == ns && nodeOrder == order
      ensures deleteList == [] && setList == []
    {
      this.cfg, this.ls, this.ns, nodeOrder := cfg, ls, ns, order;
      deleteList, setList := [], [];
    }

    /** The hierarchy below `path` belongs to the template there, and its values are ordered. */
    ghost predicate Comparable(s: Schema, h: Hierarchy, path: Path) {
      && ListsKeys(ls) && ListsKeys(ns)
      && PlainPath(path)
      && SchemaAt(cfg.schema, path) == Some(s)
      && WellFormed(s, h)
      && OrdersValues(s, h, nodeOrder, path)
    }

    ghost predicate ActiveIs(s: Schema, path: Path, a: Option<Config>) {
      Lookup(cfg.active, path) == a && (a.Some? ==> Conforms(s, a.value))
    }

    /** What the hierarchy stands for. */
    ghost function New(s: Schema, h: Hierarchy, path: Path): (n: Config)
      requires Comparable(s, h, path)
      ensures Conforms(s, n)
    {
      TargetConforms(ns, s, h, nodeOrder, path);
      Target(ns, s, h, nodeOrder, path)
    }

    /** The sorted, unquoted values of a multi leaf in the new configuration. */
    method NewValues(h: Hierarchy, path: Path, text: bool, ghost s: Schema) returns (nvals: seq<string>)
      requires Comparable(s, h, path) && s.Leaf? && s.multi
      ensures nvals == New(s, h, path).values
    {
      nvals := GetSortedMultiValues(ns, h, path, nodeOrder);
      if text {
        assert forall i :: 0 <= i < |nvals| ==> nvals[i] in nvals;
        nvals := StripQuotes(nvals);
      }
    }

    /** The only value of a single leaf in the new configuration. */
    method NewValue(h: Hierarchy, path: Path, text: bool, ghost s: Schema) returns (nval: string)
      requires Comparable(s, h, path) && s.Leaf? && !s.multi
      ensures nval == New(s, h, path).values[0]
    {
      var keys := ns(h.kids.Keys);
      assert New(s, h, path).values == First(keys);
      nval := keys[0];
      assert nval in keys;
      if text {
        QuotedPlainName(nval);
        nval := Unwrap(nval, '\"');
      }
    }

    method FindDeletedValues(h: Hierarchy, path: Path, ghost s: Schema, ghost a: Config)
      requires Comparable(s, h, path) && s.Leaf? && ActiveIs(s, path, Some(a))
      modifies this`deleteList, cfg
      ensures deleteList == old(deleteList) + Quoted(path, DeleteList(ls, s, a, New(s, h, path)))
    {
      cfg.MoveTo(path);
      var (isMulti, isText, _) := cfg.ParseTemplate();
      if isMulti {
        var nvals := NewValues(h, path, isText, s);
        var deleted, added := CompareValueLists(cfg.OrigValues(), nvals);
        deleteList := PushValues(deleteList, path, deleted);
      } else {
        assert Quoted(path, []) == [];
      }
    }

    method FindDeletedNodes(h: Hierarchy, path: Path, ghost s: Schema, ghost a: Config)
      requires Comparable(s, h, path) && ActiveIs(s, path, Some(a)) && PlainConfig(a)
      modifies this`deleteList, cfg
      ensures deleteList == old(deleteList) + Quoted(path, DeleteList(ls, s, a, New(s, h, path)))
      decreases h, 2
    {
      cfg.MoveTo(path);
      if cfg.IsLeafNode() {
        FindDeletedValues(h, path, s, a);
        return;
      }
      FindDeletedAmong(h, path, ls(cfg.OrigNodes()), s, a);
    }

    /** The loop over the active nodes. */
    method FindDeletedAmong(h: Hierarchy, path: Path, nodes: seq<string>, ghost s: Schema, ghost a: Config)
      requires Comparable(s, h, path) && ActiveIs(s, path, Some(a)) && PlainConfig(a)
      requires a.Node? && forall j :: 0 <= j < |nodes| ==> nodes[j] in a.kids
      modifies this`deleteList, cfg
      ensures deleteList == old(deleteList) + Quoted(path, DeleteKids(ls, s, a, New(s, h, path), nodes))
      decreases h, 1
    {
      ghost var n := New(s, h, path);
      ghost var todo := Quoted(path, DeleteKids(ls, s, a, n, nodes));
      var i := 0;
      assert nodes[0..] == nodes;
      while i < |nodes|
        invariant i <= |nodes|
        invariant todo == Quoted(path, DeleteKids(ls, s, a, n, nodes[i..]))
        invariant deleteList + todo == old(deleteList) + Quoted(path, DeleteKids(ls, s, a, n, nodes))
      {
        ghost var before := deleteList;
        FindDeletedNode(h, path, nodes[i], s, a);
        DeletionStep(ls, s, a, n, path, nodes, i);
        todo := Quoted(path, DeleteKids(ls, s, a, n, nodes[i + 1..]));
        Associative(before, Quoted(path, DeleteKid(ls, s, a, n, nodes[i])), todo);
        i := i + 1;
      }
    }

    /** One round of the loop over the active nodes. */
    method FindDeletedNode(h: Hierarchy, path: Path, k: string, ghost s: Schema, ghost a: Config)
      requires Comparable(s, h, path) && ActiveIs(s, path, Some(a)) && PlainConfig(a)
      requires a.Node? && k in a.kids
      modifies this`deleteList, cfg
      ensures deleteList == old(deleteList) + Quoted(path, DeleteKid(ls, s, a, New(s, h, path), k))
      decreases h, 0
    {
      if k !in h.kids {
        QuotedSingle(path, k);
        deleteList := deleteList + [QuotePath(path + [k])];
      } else {
        DescendNew(cfg.schema, cfg.active, s, Some(a), path, k);
        PlainAppend(path, k);
        QuotedUnder(path, k, DeleteList(ls, ChildSchema(s, k).value, a.kids[k], New(s, h, path).kids[k]));
        FindDeletedNodes(h.kids[k], path + [k], ChildSchema(s, k).value, a.kids[k]);
      }
    }

    method FindSetValues(h: Hierarchy, path: Path, ghost s: Schema, ghost a: Option<Config>)
      requires Comparable(s, h, path) && s.Leaf? && ActiveIs(s, path, a)
      modifies this`setList, cfg
      ensures setList == old(setList) + Quoted(path, SetList(ns, s, a, New(s, h, path)))
    {
      cfg.MoveTo(path);
      var (isMulti, isText, _) := cfg.ParseTemplate();
      var ovals := cfg.OrigValues();
      if isMulti {
        var nvals := NewValues(h, path, isText, s);
        var deleted, added := CompareValueLists(ovals, nvals);
        setList := PushValues(setList, path, added);
      } else {
        var nval := NewValue(h, path, isText, s);
        if ovals == [] || nval != ovals[0] {
          QuotedSingle(path, nval);
          setList := setList + [QuotePath(path + [nval])];
        } else {
          assert Quoted(path, []) == [];
        }
      }
    }

    method FindSetNodes(h: Hierarchy, path: Path, ghost s: Schema, ghost a: Option<Config>)
      requires Comparable(s, h, path) && ActiveIs(s, path, a)
      modifies this`setList, cfg
      ensures setList == old(setList) + Quoted(path, SetList(ns, s, a, New(s, h, path)))
      decreases h, 2
    {
      cfg.MoveTo(path);
      var activeNodes := cfg.OrigNodes();
      if cfg.IsLeafNode() {
        FindSetValues(h, path, s, a);
        return;
      }
      assert New(s, h, path).kids.Keys == h.kids.Keys;
      FindSetAmong(h, path, ns(h.kids.Keys), activeNodes, s, a);
    }

    /** The loop over the new nodes. */
    method FindSetAmong(h: Hierarchy, path: Path, keys: seq<string>, activeNodes: set<string>,
                        ghost s: Schema, ghost a: Option<Config>)
      requires Comparable(s, h, path) && ActiveIs(s, path, a) && !s.Leaf?
      requires forall j :: 0 <= j < |keys| ==> keys[j] in h.kids && keys[j] in New(s, h, path).kids
      requires forall k :: k in activeNodes <==> Kid(a, k).Some?
      modifies this`setList, cfg
      ensures setList == old(setList) + Quoted(path, SetKids(ns, s, a, New(s, h, path), keys))
      decreases h, 1
    {
      ghost var n := New(s, h, path);
      ghost var todo := Quoted(path, SetKids(ns, s, a, n, keys));
      var i := 0;
      assert keys[0..] == keys;
      while i < |keys|
        invariant i <= |keys|
        invariant todo == Quoted(path, SetKids(ns, s, a, n, keys[i..]))
        invariant setList + todo == old(setList) + Quoted(path, SetKids(ns, s, a, n, keys))
      {
        ghost var before := setList;
        FindSetNode(h, path, keys[i], activeNodes, s, a);
        SettingStep(ns, s, a, n, path, keys, i);
        todo := Quoted(path, SetKids(ns, s, a, n, keys[i + 1..]));
        Associative(before, Quoted(path, SetKid(ns, s, a, n, keys[i])), todo);
        i := i + 1;
      }
    }

    /** One round of the loop over the new nodes. */
    method FindSetNode(h: Hierarchy, path: Path, k: string, activeNodes: set<string>, ghost s: Schema,
                       ghost a: Option<Config>)
      requires Comparable(s, h, path) && ActiveIs(s, path, a) && !s.Leaf? && k in h.kids
      requires k in activeNodes <==> Kid(a, k).Some?
      modifies this`setList, cfg
      ensures setList == old(setList) + Quoted(path, SetKid(ns, s, a, New(s, h, path), k))
      decreases h, 0
    {
      DescendNew(cfg.schema, cfg.active, s, a, path, k);
      PlainAppend(path, k);
      EmptyHierarchy(ns, ChildSchema(s, k).value, h.kids[k], nodeOrder, path + [k]);
      if h.kids[k].kids == map[] {
        if k !in activeNodes {
          QuotedSingle(path, k);
          setList := setList + [QuotePath(path + [k])];
        } else {
          assert Quoted(path, []) == [];
        }
      } else {
        QuotedUnder(path, k, SetList(ns, ChildSchema(s, k).value, Kid(a, k), New(s, h, path).kids[k]));
        FindSetNodes(h.kids[k], path + [k], ChildSchema(s, k).value, Kid(a, k));
      }
    }

    /** Keeps a deletion, unless a default is reported for its path. */
    method FilterOne(kept: seq<Path>, del: Path, ghost p: Path) returns (r: seq<Path>)
      requires PlainPath(p) && UnquotePath(del) == p
      modifies cfg
      ensures r == if DefaultedAt(cfg.schema, p) then kept else kept + [del]
    {
      cfg.MoveTo(UnquotePath(del));
      var (_, _, hasDefault) := cfg.ParseTemplate();
      r := if hasDefault then kept else kept + [del];
    }

    /** Drops the deletions of nodes that have a default value. */
    method FilterDefaulted(ghost ps: seq<Path>) returns (kept: seq<Path>)
      requires PlainPaths(ps) && deleteList == Quoted([], ps)
      modifies cfg
      ensures kept == Quoted([], DropDefaulted(cfg.schema, ps))
    {
      kept := [];
      var i := 0;
      ghost var todo := Quoted([], DropDefaulted(cfg.schema, ps));
      assert ps[0..] == ps;
      while i < |deleteList|
        invariant i <= |ps|
        invariant todo == Quoted([], DropDefaulted(cfg.schema, ps[i..]))
        invariant kept + todo == Quoted([], DropDefaulted(cfg.schema, ps))
      {
        UnquotedDeletion(ps, i);
        FilterStep(cfg.schema, ps, i);
        ghost var next := Quoted([], DropDefaulted(cfg.schema, ps[i + 1..]));
        Associative(kept, [deleteList[i]], next);
        kept := FilterOne(kept, deleteList[i], ps[i]);
        todo := next;
        i := i + 1;
      }
    }

    /**
      `getConfigDiff`: executing the deletions and then the settings, as a shell reads them, turns the active
      configuration into the new one, except that leaves whose deletion was dropped stay. There is no command more than
      that takes, and none twice.
    */
    method GetConfigDiff(h: Hierarchy) returns (deletes: seq<Path>, sets: seq<Path>)
      requires Comparable(cfg.schema, h, [])
      requires Conforms(cfg.schema, cfg.active) && PlainConfig(cfg.active)
      modifies this`deleteList, this`setList, cfg
      ensures AreCommands(deletes) && AreCommands(sets) && NonEmptyPaths(ReadCommands(deletes))
      ensures Sets(cfg.schema, Some(Deletes(cfg.active, ReadCommands(deletes))), ReadCommands(sets))
                == Some(Result(cfg.schema, cfg.active, New(cfg.schema, h, [])))
      ensures Distinct(ReadCommands(deletes)) && Distinct(ReadCommands(sets))
      ensures forall p :: p in ReadCommands(deletes) <==>
                HasToGo(cfg.schema, cfg.active, New(cfg.schema, h, []), p) && !DefaultedAt(cfg.schema, p)
      ensures forall p :: p in ReadCommands(sets) <==> HasToCome(Some(cfg.active), New(cfg.schema, h, []), p)
    {
      setList, deleteList := [], [];
      ghost var s, a, n := cfg.schema, cfg.active, New(cfg.schema, h, []);
      PlainTarget(ns, s, h, nodeOrder, []);
      PlainDeletions(ls, s, a, n);
      FindDeletedNodes(h, [], s, a);
      FindSetNodes(h, [], s, Some(a));
      deletes := FilterDefaulted(DeleteList(ls, s, a, n));
      sets := setList;
      QuotedDiffReaches(ls, ns, s, a, n, deletes, sets);
    }
  }

  lemma DeletionStep(ls: Listing, s: Schema, a: Config, n: Config, path: Path, keys: seq<string>, i: nat)
    requires ListsKeys(ls) && Conforms(s, a) && Conforms(s, n)
    requires a.Node? && (forall j :: 0 <= j < |keys| ==> keys[j] in a.kids) && i < |keys|
    ensures Quoted(path, DeleteKids(ls, s, a, n, keys[i..])) ==
              Quoted(path, DeleteKid(ls, s, a, n, keys[i])) + Quoted(path, DeleteKids(ls, s, a, n, keys[i + 1..]))
  {
    assert keys[i..][1..] == keys[i + 1..];
    QuotedAppend(path, DeleteKid(ls, s, a, n, keys[i]), DeleteKids(ls, s, a, n, keys[i + 1..]));
  }

  lemma SettingStep(ns: Listing, s: Schema, a: Option<Config>, n: Config, path: Path, keys: seq<string>, i: nat)
    requires ListsKeys(ns) && Conforms(s, n) && (a.Some? ==> Conforms(s, a.value))
    requires n.Node? && (forall j :: 0 <= j < |keys| ==> keys[j] in n.kids) && i < |keys|
    ensures Quoted(path, SetKids(ns, s, a, n, keys[i..])) ==
              Quoted(path, SetKid(ns, s, a, n, keys[i])) + Quoted(path, SetKids(ns, s, a, n, keys[i + 1..]))
  {
    assert keys[i..][1..] == keys[i + 1..];
    QuotedAppend(path, SetKid(ns, s, a, n, keys[i]), SetKids(ns, s, a, n, keys[i + 1..]));
  }

  lemma UnquotedDeletion(ps: seq<Path>, i: nat)
    requires PlainPaths(ps) && i < |ps|
    ensures UnquotePath(Quoted([], ps)[i]) == ps[i]
  {
    assert [] + ps[i] == ps[i];
    UnquoteOfQuote(ps[i]);
  }

  lemma FilterStep(s: Schema, ps: seq<Path>, i: nat)
    requires i < |ps|
    ensures DefaultedAt(s, ps[i]) ==> DropDefaulted(s, ps[i..]) == DropDefaulted(s, ps[i + 1..])
    ensures !DefaultedAt(s, ps[i]) ==>
              Quoted([], DropDefaulted(s, ps[i..])) == [Quoted([], ps)[i]] + Quoted([], DropDefaulted(s, ps[i + 1..]))
  {
    assert ps[i..][1..] == ps[i + 1..];
  }

  lemma QuotedDiffReaches(ls: Listing, ns: Listing, s: Schema, a: Config, n: Config, deletes: seq<Path>,
                          sets: seq<Path>)
    requires ListsKeys(ls) && ListsKeys(ns) && Conforms(s, a) && Conforms(s, n) && PlainConfig(a) && PlainConfig(n)
    requires deletes == Quoted([], DropDefaulted(s, DeleteList(ls, s, a, n)))
    requires sets == Quoted([], SetList(ns, s, Some(a), n))
    ensures AreCommands(deletes) && AreCommands(sets) && NonEmptyPaths(ReadCommands(deletes))
    ensures Sets(s, Some(Deletes(a, ReadCommands(deletes))), ReadCommands(sets)) == Some(Result(s, a, n))
    ensures Distinct(ReadCommands(deletes)) && Distinct(ReadCommands(sets))
    ensures forall p :: p in ReadCommands(deletes) <==> HasToGo(s, a, n, p) && !DefaultedAt(s, p)
    ensures forall p :: p in ReadCommands(sets) <==> HasToCome(Some(a), n, p)
  {
    PlainDeletions(ls, s, a, n);
    PlainSettings(ns, s, Some(a), n);
    PlainFilter(s, DeleteList(ls, s, a, n));
    QuotedIsRead(DropDefaulted(s, DeleteList(ls, s, a, n)));
    QuotedIsRead(SetList(ns, s, Some(a), n));
    DiffReachesResult(ls, ns, s, a, n);
    DiffIsExactly(ls, ns, s, a, n);
  }

  // ----- supporting facts

  lemma {:induction false} SchemaAtAppend(s: Schema, p: Path, k: string)
    requires SchemaAt(s, p).Some?
    ensures SchemaAt(s, p + [k]) == ChildSchema(SchemaAt(s, p).value, k)
    decreases |p|
  {
    if p == [] {
      assert ([k])[1..] == [] && p + [k] == [k];
    } else {
      assert (p + [k])[1..] == p[1..] + [k];
      SchemaAtAppend(ChildSchema(s, p[0]).value, p[1..], k);
    }
  }

  lemma {:induction false} LookupAppend(c: Config, p: Path, k: string)
    ensures Lookup(c, p + [k]) == Kid(Lookup(c, p), k)
    decreases |p|
  {
    if p == [] {
      assert ([k])[1..] == [] && p + [k] == [k];
    } else {
      assert (p + [k])[1..] == p[1..] + [k];
      match KidOf(c, p[0])
      case None =>
      case Some(d) => LookupAppend(d, p[1..], k);
    }
  }

  lemma DescendNew(root: Schema, c: Config, s: Schema, a: Option<Config>, path: Path, k: string)
    requires SchemaAt(root, path) == Some(s) && Lookup(c, path) == a && ChildSchema(s, k).Some?
    ensures SchemaAt(root, path + [k]) == Some(ChildSchema(s, k).value)
    ensures Lookup(c, path + [k]) == Kid(a, k)
  {
    SchemaAtAppend(root, path, k);
    LookupAppend(c, path, k);
  }

  lemma EmptyHierarchy(ns: Listing, s: Schema, h: Hierarchy, order: Order, path: Path)
    requires WellFormed(s, h)
    ensures h.kids == map[] <==> Target(ns, s, h, order, path) == Node(map[])
  {
    if !s.Leaf? {
      var t := Target(ns, s, h, order, path);
      assert t.kids.Keys == h.kids.Keys;
      assert h.kids == map[] <==> h.kids.Keys == {};
      assert t.kids == map[] <==> t.kids.Keys == {};
    }
  }

  lemma {:induction false} PlainTarget(ns: Listing, s: Schema, h: Hierarchy, order: Order, path: Path)
    requires ListsKeys(ns) && WellFormed(s, h) && OrdersValues(s, h, order, path)
    ensures PlainConfig(Target(ns, s, h, order, path))
    decreases h
  {
    if s.Leaf? {
      var keys := ns(h.kids.Keys);
      var vals := SortByRank(RankIn(order, path), keys);
      SortedIsRanked(RankIn(order, path), keys, h.kids.Keys);
      assert forall i :: 0 <= i < |vals| ==> vals[i] in vals;
      assert forall i :: 0 <= i < |keys| ==> keys[i] in keys;
    } else {
      forall k | k in h.kids
        ensures PlainConfig(Target(ns, ChildSchema(s, k).value, h.kids[k], order, path + [k]))
      {
        PlainTarget(ns, ChildSchema(s, k).value, h.kids[k], order, path + [k]);
      }
    }
  }

  lemma PlainUnder(k: string, ps: seq<Path>)
    requires PlainName(k) && PlainPaths(ps)
    ensures PlainPaths(Under(k, ps))
  {
  }

  lemma {:induction false} PlainDeletions(ls: Listing, s: Schema, a: Config, n: Config)
    requires ListsKeys(ls) && Conforms(s, a) && Conforms(s, n) && PlainConfig(a) && PlainConfig(n)
    ensures PlainPaths(DeleteList(ls, s, a, n))
    decreases a, 1
  {
    match a
    case Values(ovals) =>
      if s.multi {
        var del := Deleted(ovals, n.values);
        DeletedIsOldTail(ovals, n.values);
        assert forall i :: 0 <= i < |del| ==> del[i] in del;
      }
    case Node(kids) => PlainDeletionsOfKids(ls, s, a, n, ls(kids.Keys));
  }

  lemma {:induction false} PlainDeletionsOfKids(ls: Listing, s: Schema, a: Config, n: Config, keys: seq<string>)
    requires ListsKeys(ls) && Conforms(s, a) && Conforms(s, n) && PlainConfig(a) && PlainConfig(n)
    requires a.Node? && forall i :: 0 <= i < |keys| ==> keys[i] in a.kids
    ensures PlainPaths(DeleteKids(ls, s, a, n, keys))
    decreases a, 0, |keys|
  {
    if keys != [] {
      var k := keys[0];
      if k in n.kids {
        PlainDeletions(ls, ChildSchema(s, k).value, a.kids[k], n.kids[k]);
        PlainUnder(k, DeleteList(ls, ChildSchema(s, k).value, a.kids[k], n.kids[k]));
      }
      PlainDeletionsOfKids(ls, s, a, n, keys[1..]);
    }
  }

  lemma {:induction false} PlainSettings(ns: Listing, s: Schema, a: Option<Config>, n: Config)
    requires ListsKeys(ns) && Conforms(s, n) && (a.Some? ==> Conforms(s, a.value)) && PlainConfig(n)
    ensures PlainPaths(SetList(ns, s, a, n))
    decreases n, 1
  {
    match n
    case Values(nvals) =>
    case Node(kids) => PlainSettingsOfKids(ns, s, a, n, ns(kids.Keys));
  }

  lemma {:induction false} PlainSettingsOfKids(ns: Listing, s: Schema, a: Option<Config>, n: Config, keys: seq<string>)
    requires ListsKeys(ns) && Conforms(s, n) && (a.Some? ==> Conforms(s, a.value)) && PlainConfig(n)
    requires n.Node? && forall i :: 0 <= i < |keys| ==> keys[i] in n.kids
    ensures PlainPaths(SetKids(ns, s, a, n, keys))
    decreases n, 0, |keys|
  {
    if keys != [] {
      var k := keys[0];
      if n.kids[k] != Node(map[]) {
        PlainSettings(ns, ChildSchema(s, k).value, Kid(a, k), n.kids[k]);
        PlainUnder(k, SetList(ns, ChildSchema(s, k).value, Kid(a, k), n.kids[k]));
      }
      PlainSettingsOfKids(ns, s, a, n, keys[1..]);
    }
  }

  lemma {:induction false} PlainFilter(s: Schema, ps: seq<Path>)
    requires PlainPaths(ps)
    ensures PlainPaths(DropDefaulted(s, ps))
  {
    if ps != [] {
      PlainFilter(s, ps[1..]);
    }
  }

  // ----- from the file to the difference

  /**
    Loads a file and compares it with the active configuration. Executing the two lists gives what the file means,
    exactly when the filter drops no deletion that matters; and it gives what the statements of the file give when
    they are executed in order on an empty configuration, exactly under the condition on first and last mentions.
  */
  method LoadAndDiff(cfg: ActiveConfig, ls: Listing, ns: Listing, stmts: seq<Path>)
      returns (deletes: seq<Path>, sets: seq<Path>)
    requires ListsKeys(ls) && ListsKeys(ns)
    requires Conforms(cfg.schema, cfg.active) && PlainConfig(cfg.active)
    requires ValidFile(cfg.schema, stmts)
    modifies cfg
    ensures AreCommands(deletes) && AreCommands(sets) && NonEmptyPaths(ReadCommands(deletes))
    ensures Conforms(cfg.schema, Load(cfg.schema, stmts))
    ensures var r := Sets(cfg.schema, Some(Deletes(cfg.active, ReadCommands(deletes))), ReadCommands(sets));
            var kept := KeepsDefaulted(cfg.schema, cfg.active, Load(cfg.schema, stmts));
            && (r == Some(Load(cfg.schema, stmts)) <==> kept)
            && (r == Some(Executed(cfg.schema, stmts)) <==> LeadsToExecution(cfg.schema, cfg.active, stmts))
  {
    var h, order := GenerateHierarchy(stmts);
    LoadedFile(ns, cfg.schema, stmts);
    LoadedFileConforms(ns, cfg.schema, stmts);
    var loader := new ConfigLoader(cfg, ls, ns, order);
    deletes, sets := loader.GetConfigDiff(h);
    ResultIsNewIff(cfg.schema, cfg.active, Load(cfg.schema, stmts));
    ResultIsExecutionIff(cfg.schema, cfg.active, stmts);
  }
}
