/**
  Configuration trees, the schema they follow, and the meaning of the two
  configuration commands: `delete` takes away a node or one value, `set` creates
  a path, replaces the value of a single-value leaf and appends to a multi-value
  leaf.
*/
module ConfigTree {
  import opened Options
  import opened ValueLists

  type Path = seq<string>

  /**
    Template nodes. A `Container` has named children, every child of a `Tag` node is a
    list entry that follows the same template, and a `Leaf` holds one value or, if
    `multi`, an ordered list of them. The server reports the default value of a leaf for
    its node, and perhaps, if `valueDefault`, also for a path that ends in one of its values.
  */
  datatype Schema =
    | Container(nodes: map<string, Schema>)
    | Tag(entry: Schema)
    | Leaf(multi: bool, text: bool, hasDefault: bool, valueDefault: bool)

  datatype Config =
    | Node(kids: map<string, Config>)
    | Values(values: seq<string>)

  /** The template of a child, if the schema allows a child of that name. */
  function ChildSchema(s: Schema, name: string): (r: Option<Schema>)
    ensures r.Some? ==> !s.Leaf? && (r.value < s)
  {
    match s
    case Container(nodes) => if name in nodes then Some(nodes[name]) else None
    case Tag(entry) => Some(entry)
    case Leaf(_, _, _, _) => None
  }

  /** The template of a node path; a path that ends in a leaf value has none. */
  function SchemaAt(s: Schema, p: Path): Option<Schema>
    decreases |p|
  {
    if p == [] then Some(s)
    else
      match ChildSchema(s, p[0])
      case None => None
      case Some(t) => SchemaAt(t, p[1..])
  }

  /** A default value is reported for the path, be it that of a node or that of a value. */
  predicate DefaultedAt(s: Schema, p: Path)
    decreases |p|
  {
    if p == [] then s.Leaf? && s.hasDefault
    else if s.Leaf? then |p| == 1 && s.valueDefault
    else ChildSchema(s, p[0]).Some? && DefaultedAt(ChildSchema(s, p[0]).value, p[1..])
  }

  /** A tree that follows the schema: leaves have values, single leaves just one, multi leaves no value twice. */
  predicate Conforms(s: Schema, c: Config)
    decreases c
  {
    match c
    case Node(kids) =>
      && !s.Leaf?
      && forall k :: k in kids ==> ChildSchema(s, k).Some? && Conforms(ChildSchema(s, k).value, kids[k])
    case Values(values) =>
      && s.Leaf?
      && values != []
      && Distinct(values)
      && (!s.multi ==> |values| == 1)
  }

  function Empty(s: Schema): Config {
    if s.Leaf? then Values([]) else Node(map[])
  }

  function OrEmpty(s: Schema, c: Option<Config>): Config {
    match c
    case None => Empty(s)
    case Some(d) => d
  }

  // ----- delete

  function DeleteAt(c: Config, p: Path): Config
    requires p != []
    decreases |p|
  {
    match c
    case Values(values) => Values(Remove(values, p[0]))
    case Node(kids) =>
      if |p| == 1 then Node(kids - {p[0]})
      else if p[0] in kids then Node(kids[p[0] := DeleteAt(kids[p[0]], p[1..])])
      else c
  }

  ghost predicate NonEmptyPaths(ps: seq<Path>) {
    forall i :: 0 <= i < |ps| ==> ps[i] != []
  }

  function Deletes(c: Config, ps: seq<Path>): Config
    requires NonEmptyPaths(ps)
    decreases |ps|
  {
    if ps == [] then c else Deletes(DeleteAt(c, ps[0]), ps[1..])
  }

  // ----- set

  function SetValue(multi: bool, values: seq<string>, v: string): seq<string> {
    if !multi then [v]
    else if v in values then values
    else values + [v]
  }

  /** `set`; a path the schema does not know changes nothing. */
  function SetAt(s: Schema, c: Option<Config>, p: Path): Config
    decreases |p|
  {
    var base := OrEmpty(s, c);
    if p == [] then base
    else
      match base
      case Values(values) =>
        if s.Leaf? then Values(SetValue(s.multi, values, p[0])) else base
      case Node(kids) =>
        match ChildSchema(s, p[0])
        case None => base
        case Some(t) => Node(kids[p[0] := SetAt(t, KidOf(base, p[0]), p[1..])])
  }

  function KidOf(c: Config, k: string): Option<Config> {
    match c
    case Node(kids) => if k in kids then Some(kids[k]) else None
    case Values(_) => None
  }

  /** What is below a path of nodes. */
  function Lookup(c: Config, p: Path): Option<Config>
    decreases |p|
  {
    if p == [] then Some(c)
    else
      match KidOf(c, p[0])
      case None => None
      case Some(d) => Lookup(d, p[1..])
  }

  function Sets(s: Schema, c: Option<Config>, ps: seq<Path>): Option<Config>
    decreases |ps|
  {
    if ps == [] then c else Sets(s, Some(SetAt(s, c, ps[0])), ps[1..])
  }

  // ----- command lists that lie under one child

  /** The same commands, seen from the parent of `k`. */
  function Under(k: string, ps: seq<Path>): (r: seq<Path>)
    ensures |r| == |ps| && forall i :: 0 <= i < |ps| ==> r[i] == [k] + ps[i]
  {
    seq(|ps|, i requires 0 <= i < |ps| => [k] + ps[i])
  }

  lemma {:induction false} DeletesAppend(c: Config, ps: seq<Path>, qs: seq<Path>)
    requires NonEmptyPaths(ps) && NonEmptyPaths(qs)
    ensures NonEmptyPaths(ps + qs)
    ensures Deletes(c, ps + qs) == Deletes(Deletes(c, ps), qs)
    decreases |ps|
  {
    if ps == [] {
      assert ps + qs == qs;
    } else {
      DeletesAppend(DeleteAt(c, ps[0]), ps[1..], qs);
      assert (ps + qs)[1..] == ps[1..] + qs;
      assert (ps + qs)[0] == ps[0];
    }
  }

  lemma {:induction false} DeletesUnder(kids: map<string, Config>, k: string, ps: seq<Path>)
    requires k in kids && NonEmptyPaths(ps)
    ensures Deletes(Node(kids), Under(k, ps)) == Node(kids[k := Deletes(kids[k], ps)])
    decreases |ps|
  {
    if ps == [] {
      assert kids[k := kids[k]] == kids;
    } else {
      var qs := Under(k, ps);
      var kids' := kids[k := DeleteAt(kids[k], ps[0])];
      assert qs[0][1..] == ps[0];
      assert DeleteAt(Node(kids), qs[0]) == Node(kids');
      assert qs[1..] == Under(k, ps[1..]);
      DeletesUnder(kids', k, ps[1..]);
      assert kids'[k := Deletes(kids'[k], ps[1..])] == kids[k := Deletes(kids[k], ps)];
    }
  }

  lemma {:induction false} SetsAppend(s: Schema, c: Option<Config>, ps: seq<Path>, qs: seq<Path>)
    ensures Sets(s, c, ps + qs) == Sets(s, Sets(s, c, ps), qs)
    decreases |ps|
  {
    if ps == [] {
      assert ps + qs == qs;
    } else {
      SetsAppend(s, Some(SetAt(s, c, ps[0])), ps[1..], qs);
      assert (ps + qs)[1..] == ps[1..] + qs;
    }
  }

  lemma {:induction false} SetsUnder(s: Schema, c: Option<Config>, k: string, ps: seq<Path>)
    requires !s.Leaf? && ChildSchema(s, k).Some?
    requires c.Some? ==> c.value.Node?
    requires ps != []
    ensures Sets(s, c, Under(k, ps)) ==
              var kids := OrEmpty(s, c).kids;
              var kid := Sets(ChildSchema(s, k).value, KidOf(OrEmpty(s, c), k), ps);
              if kid.Some? then Some(Node(kids[k := kid.value])) else None
    ensures Sets(ChildSchema(s, k).value, KidOf(OrEmpty(s, c), k), ps).Some?
    decreases |ps|
  {
    var t, base, qs := ChildSchema(s, k).value, OrEmpty(s, c), Under(k, ps);
    var kid := SetAt(t, KidOf(base, k), ps[0]);
    var c' := Some(Node(base.kids[k := kid]));
    assert qs[0][1..] == ps[0];
    assert SetAt(s, c, qs[0]) == c'.value;
    assert qs[1..] == Under(k, ps[1..]);
    if |ps| > 1 {
      SetsUnder(s, c', k, ps[1..]);
      assert KidOf(c'.value, k) == Some(kid);
      var kid' := Sets(t, Some(kid), ps[1..]).value;
      assert c'.value.kids[k := kid'] == base.kids[k := kid'];
    } else {
      assert qs[1..] == [] && ps[1..] == [];
    }
  }
}
