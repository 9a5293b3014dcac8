/**
  Resolution of variable references over the template tree and the configuration: `.`, `..`,
  `@`, `@@` and names, relative to the path of the node that holds the reference.
*/
module VarRef {
  import opened Options
  import opened Sequences
  import opened BlankText
  import ValueArrays

  type Path = seq<string>

  datatype ValueType = ErrorType | TextType | OtherType(code: nat)

  datatype Template = Template(isValue: bool, isMulti: bool, isTag: bool, valType: ValueType) {
    predicate IsTypeless() {
      valType.ErrorType?
    }

    predicate IsTagNode() {
      isTag && !isValue
    }

    predicate IsTagValue() {
      isTag && isValue
    }

    predicate IsLeafNode() {
      !isValue && (isMulti || (!isTag && !IsTypeless()))
    }
  }

  /**
    The template tree, the values and children that configd reports for a path (none if there
    is no such path), which paths exist, the path of the node, and the value under validation.
  */
  datatype Context = Context(schema: Path -> Option<Template>, children: Path -> seq<string>, exists_: Path -> bool,
                             orig: Path, at: string)

  datatype Found = Found(path: Path, valType: ValueType)

  /** The paths found so far, and whether several values were asked for. */
  datatype Resolution = Resolution(paths: seq<Found>, multi: bool) {
    function Then(r: Resolution): Resolution {
      Resolution(paths + r.paths, multi || r.multi)
    }
  }

  const NOTHING := Resolution([], false)
  const NOTHING_OF_MANY := Resolution([], true)

  // ----- the resolver as a function

  /** The value of a leaf, the values of a multi leaf joined with blanks. */
  function LeafValue(ctx: Context, t: Template, p: Path): Resolution {
    var vals := ctx.children(p);
    if t.isMulti then
      if vals == [] then NOTHING_OF_MANY else Resolution([Found(p + [Join(vals)], TextType)], true)
    else if vals == [] then Resolution([Found(p + [""], ErrorType)], false)
    else Resolution([Found(p + [Join(vals)], t.valType)], false)
  }

  /** One step up; a list entry is left together with its key. */
  function Up(ctx: Context, p: Path): Option<Path> {
    if ctx.schema(p).None? || p == [] then None
    else
      var q := p[..|p| - 1];
      if q == [] then Some(q)
      else
        match ctx.schema(q)
        case None => None
        case Some(t) => if t.IsTagValue() then Some(q[..|q| - 1]) else Some(q)
  }

  /** One step down; at a list, into the entry of the original path or of the value under validation. */
  function Down(ctx: Context, p: Path, name: string): Option<Path> {
    match ctx.schema(p)
    case Some(t) =>
      if !t.IsTagNode() then Some(p + [name])
      else if |p| > |ctx.orig| then None
      else if |p| == |ctx.orig| then Some(p + [ctx.at, name])
      else Some(p + [ctx.orig[|p|], name])
    case None => Some(p + [name])
  }

  function Resolve(ctx: Context, ref: seq<string>, p: Path, valType: ValueType): Resolution
    decreases |ref|, 1
  {
    if ref == [] then Resolution([Found(p, valType)], false)
    else
      var rest, tmpl := ref[1..], ctx.schema(p);
      if ref[0] == "@" then
        if tmpl.None? then NOTHING
        else if tmpl.value.IsTypeless() then Resolve(ctx, rest, p, ErrorType)
        else if p == ctx.orig then Resolve(ctx, rest, p + [ctx.at], tmpl.value.valType)
        else if tmpl.value.IsLeafNode() then LeafValue(ctx, tmpl.value, p)
        else if |p| < |ctx.orig| then Resolve(ctx, rest, p + [ctx.orig[|p|]], tmpl.value.valType)
        else NOTHING
      else if ref[0] == "." then Resolve(ctx, rest, p, ErrorType)
      else if ref[0] == ".." then
        match Up(ctx, p)
        case None => NOTHING
        case Some(q) => Resolve(ctx, rest, q, ErrorType)
      else if ref[0] == "@@" then
        if tmpl.None? then NOTHING
        else
          var t, kids := tmpl.value, ctx.children(p);
          var below :=
            if t.IsTypeless() then NOTHING_OF_MANY.Then(ResolveKids(ctx, rest, p, kids, t.valType)) else NOTHING;
          if t.IsTypeless() && kids == [] then NOTHING_OF_MANY
          else if t.isValue then below
          else if t.isTag then below.Then(NOTHING_OF_MANY.Then(ResolveKids(ctx, rest, p, kids, t.valType)))
          else below.Then(LeafValue(ctx, t, p))
      else
        match Down(ctx, p, ref[0])
        case None => NOTHING
        case Some(q) => Resolve(ctx, rest, q, ErrorType)
  }

  /** The rest of the reference, resolved below each child in turn. */
  function ResolveKids(ctx: Context, ref: seq<string>, p: Path, kids: seq<string>, valType: ValueType): Resolution
    decreases |ref|, 2, |kids|
  {
    if kids == [] then NOTHING
    else Resolve(ctx, ref, p + [kids[0]], valType).Then(ResolveKids(ctx, ref, p, kids[1..], valType))
  }

  // ----- references without @@

  /** A reference without `@@` yields at most one path. */
  lemma {:induction false} AtMostOnePath(ctx: Context, ref: seq<string>, p: Path, valType: ValueType)
    requires "@@" !in ref
    ensures |Resolve(ctx, ref, p, valType).paths| <= 1
    decreases |ref|
  {
    if ref != [] {
      var rest := ref[1..];
      assert ref[0] in ref;
      if ref[0] == "@" {
        if ctx.schema(p).Some? {
          AtMostOnePath(ctx, rest, p, ErrorType);
          AtMostOnePath(ctx, rest, p + [ctx.at], ctx.schema(p).value.valType);
          if |p| < |ctx.orig| {
            AtMostOnePath(ctx, rest, p + [ctx.orig[|p|]], ctx.schema(p).value.valType);
          }
        }
      } else if ref[0] == "." {
        AtMostOnePath(ctx, rest, p, ErrorType);
      } else if ref[0] == ".." {
        if Up(ctx, p).Some? {
          AtMostOnePath(ctx, rest, Up(ctx, p).value, ErrorType);
        }
      } else if Down(ctx, p, ref[0]).Some? {
        AtMostOnePath(ctx, rest, Down(ctx, p, ref[0]).value, ErrorType);
      }
    }
  }

  // ----- references that end below the root

  /** The last component is no step, and is not `@` while the root is a node without type. */
  predicate EndsBelowRoot(ctx: Context, ref: seq<string>) {
    && ref != [] && ref[|ref| - 1] !in {".", ".."}
    && (ref[|ref| - 1] == "@" ==> ctx.schema([]).None? || !ctx.schema([]).value.IsTypeless())
  }

  ghost predicate NoneIsRoot(paths: seq<Found>) {
    forall i :: 0 <= i < |paths| ==> paths[i].path != []
  }

  /** Such a reference never resolves to the root. */
  lemma {:induction false} NeverTheRoot(ctx: Context, ref: seq<string>, p: Path, valType: ValueType)
    requires EndsBelowRoot(ctx, ref) || (ref == [] && p != [])
    ensures NoneIsRoot(Resolve(ctx, ref, p, valType).paths)
    decreases |ref|, 1
  {
    if ref != [] {
      var rest, tmpl := ref[1..], ctx.schema(p);
      assert rest != [] ==> rest[|rest| - 1] == ref[|ref| - 1];
      if ref[0] == "@" {
        if tmpl.Some? {
          if tmpl.value.IsTypeless() {
            NeverTheRoot(ctx, rest, p, ErrorType);
          } else {
            NeverTheRoot(ctx, rest, p + [ctx.at], tmpl.value.valType);
            if |p| < |ctx.orig| {
              NeverTheRoot(ctx, rest, p + [ctx.orig[|p|]], tmpl.value.valType);
            }
          }
        }
      } else if ref[0] == "." {
        NeverTheRoot(ctx, rest, p, ErrorType);
      } else if ref[0] == ".." {
        if Up(ctx, p).Some? {
          NeverTheRoot(ctx, rest, Up(ctx, p).value, ErrorType);
        }
      } else if ref[0] == "@@" {
        if tmpl.Some? {
          KidsAreNotTheRoot(ctx, rest, p, ctx.children(p), tmpl.value.valType);
        }
      } else if Down(ctx, p, ref[0]).Some? {
        NeverTheRoot(ctx, rest, Down(ctx, p, ref[0]).value, ErrorType);
      }
    }
  }

  lemma {:induction false} KidsAreNotTheRoot(ctx: Context, ref: seq<string>, p: Path, kids: seq<string>,
                                             valType: ValueType)
    requires EndsBelowRoot(ctx, ref) || ref == []
    ensures NoneIsRoot(ResolveKids(ctx, ref, p, kids, valType).paths)
    decreases |ref|, 2, |kids|
  {
    if kids != [] {
      NeverTheRoot(ctx, ref, p + [kids[0]], valType);
      KidsAreNotTheRoot(ctx, ref, p, kids[1..], valType);
    }
  }

  /** For one path below the root, that path without its last component. */
  function SetPathOf(paths: seq<Found>): Option<Path> {
    if |paths| == 1 && paths[0].path != [] then Some(paths[0].path[..|paths[0].path| - 1]) else None
  }

  // ----- steps up

  /** An entry of a list stands below the node of the list. */
  ghost predicate TagsAreConsistent(schema: Path -> Option<Template>) {
    forall p :: schema(p).Some? && schema(p).value.IsTagValue() ==>
      p != [] && schema(p[..|p| - 1]).Some? && schema(p[..|p| - 1]).value.IsTagNode()
  }

  predicate AtTagValue(ctx: Context, p: Path) {
    ctx.schema(p).Some? && ctx.schema(p).value.IsTagValue()
  }

  function UpTimes(ctx: Context, p: Path, k: nat): Option<Path> {
    if k == 0 then Some(p)
    else
      match Up(ctx, p)
      case None => None
      case Some(q) => UpTimes(ctx, q, k - 1)
  }

  function Dots(k: nat): (r: seq<string>)
    ensures |r| == k && forall i :: 0 <= i < k ==> r[i] == ".."
  {
    seq(k, _ => "..")
  }

  lemma {:induction false} ResolveDots(ctx: Context, k: nat, rest: seq<string>, p: Path)
    ensures Resolve(ctx, Dots(k) + rest, p, ErrorType) ==
              match UpTimes(ctx, p, k)
              case None => NOTHING
              case Some(q) => Resolve(ctx, rest, q, ErrorType)
    decreases k
  {
    if k == 0 {
      assert Dots(0) + rest == rest;
    } else {
      assert (Dots(k) + rest)[0] == "..";
      assert (Dots(k) + rest)[1..] == Dots(k - 1) + rest;
      match Up(ctx, p)
      case None =>
      case Some(q) => ResolveDots(ctx, k - 1, rest, q);
    }
  }

  /** Nothing but steps: the reference stays, or goes up. */
  predicate OnlySteps(ref: seq<string>) {
    forall i :: 0 <= i < |ref| ==> ref[i] in {".", ".."}
  }

  function StepsUp(ref: seq<string>): nat {
    if ref == [] then 0 else (if ref[0] == ".." then 1 else 0) + StepsUp(ref[1..])
  }

  /** Such a reference resolves to the path that many steps up, the root included. */
  lemma {:induction false} ResolveSteps(ctx: Context, ref: seq<string>, p: Path)
    requires OnlySteps(ref)
    ensures Resolve(ctx, ref, p, ErrorType) ==
              match UpTimes(ctx, p, StepsUp(ref))
              case None => NOTHING
              case Some(q) => Resolution([Found(q, ErrorType)], false)
    decreases |ref|
  {
    if ref != [] {
      assert ref[0] in {".", ".."};
      if ref[0] == "." {
        ResolveSteps(ctx, ref[1..], p);
      } else if Up(ctx, p).Some? {
        ResolveSteps(ctx, ref[1..], Up(ctx, p).value);
      }
    }
  }

  lemma UpIsPrefix(ctx: Context, p: Path, q: Path)
    requires TagsAreConsistent(ctx.schema) && Up(ctx, p) == Some(q)
    ensures |q| < |p| && q == p[..|q|] && (q == [] || !AtTagValue(ctx, q))
  {
    var r := p[..|p| - 1];
    if r != [] && ctx.schema(r).value.IsTagValue() {
      assert q == r[..|r| - 1] == p[..|q|];
    }
  }

  lemma {:induction false} UpTimesIsPrefix(ctx: Context, p: Path, k: nat, q: Path)
    requires TagsAreConsistent(ctx.schema) && UpTimes(ctx, p, k) == Some(q)
    ensures |q| <= |p| && q == p[..|q|]
    ensures k > 0 ==> |q| < |p| && (q == [] || !AtTagValue(ctx, q))
    decreases k
  {
    if k > 0 {
      var r := Up(ctx, p).value;
      UpIsPrefix(ctx, p, r);
      UpTimesIsPrefix(ctx, r, k - 1, q);
      assert r[..|q|] == p[..|q|];
    }
  }

  /**
    After any number of steps up that succeed, the path is a prefix of the original one and not a list
    entry, and the next name leads into the entry that the original path is in.
  */
  lemma StepsUpThenName(ctx: Context, k: nat, name: string, rest: seq<string>, q: Path)
    requires TagsAreConsistent(ctx.schema) && UpTimes(ctx, ctx.orig, k) == Some(q) && k > 0
    requires name !in {"@", ".", "..", "@@"}
    ensures |q| < |ctx.orig| && q == ctx.orig[..|q|] && (q == [] || !AtTagValue(ctx, q))
    ensures Resolve(ctx, Dots(k) + ([name] + rest), ctx.orig, ErrorType) ==
              Resolve(ctx, rest,
                      if ctx.schema(q).Some? && ctx.schema(q).value.IsTagNode()
                      then ctx.orig[..|q| + 1] + [name] else q + [name],
                      ErrorType)
  {
    UpTimesIsPrefix(ctx, ctx.orig, k, q);
    ResolveDots(ctx, k, [name] + rest, ctx.orig);
    NextName(ctx, name, rest, q);
  }

  /** Within the original path, a name leads into its list entries. */
  lemma NextName(ctx: Context, name: string, rest: seq<string>, q: Path)
    requires |q| < |ctx.orig| && q == ctx.orig[..|q|] && name !in {"@", ".", "..", "@@"}
    ensures Resolve(ctx, [name] + rest, q, ErrorType) ==
              Resolve(ctx, rest,
                      if ctx.schema(q).Some? && ctx.schema(q).value.IsTagNode()
                      then ctx.orig[..|q| + 1] + [name] else q + [name],
                      ErrorType)
  {
    assert ([name] + rest)[0] == name && ([name] + rest)[1..] == rest;
    assert q + [ctx.orig[|q|], name] == ctx.orig[..|q| + 1] + [name];
  }

  // ----- the value of a reference

  /** The last components of the paths found; unless several values were asked for, each only once. */
  function Collect(ctx: Context, paths: seq<Found>, multi: bool, added: set<string>, valType: ValueType)
    : (seq<string>, ValueType)
    decreases |paths|
  {
    if paths == [] then ([], valType)
    else
      var p, t, rest := paths[0].path, paths[0].valType, paths[1..];
      if p == [] then Collect(ctx, rest, multi, added, valType)
      else if !multi && p[|p| - 1] in added then Collect(ctx, rest, multi, added, valType)
      else if t.ErrorType? && !ctx.exists_(p) then
        var r := Collect(ctx, rest, multi, added + {""}, valType);
        ([""] + r.0, r.1)
      else
        var r := Collect(ctx, rest, multi, added + {p[|p| - 1]}, if t.ErrorType? then valType else t);
        ([p[|p| - 1]] + r.0, r.1)
  }

  /** The values joined with blanks; several values, or values without type, are text. */
  function ValueOf(ctx: Context, paths: seq<Found>, multi: bool): Option<(string, ValueType)> {
    var (results, t) := Collect(ctx, paths, multi, {}, ErrorType);
    if results == [] then None
    else Some((Join(results), if |results| > 1 || t.ErrorType? then TextType else t))
  }

  /** No value other than the empty one twice, and none that was added before. */
  ghost predicate Once(rs: seq<string>, added: set<string>) {
    && (forall i :: 0 <= i < |rs| && rs[i] != "" ==> rs[i] !in added)
    && (forall i, j :: 0 <= i < j < |rs| && rs[i] != "" ==> rs[i] != rs[j])
  }

  lemma OnceMore(v: string, rs: seq<string>, added: set<string>)
    requires Once(rs, added + {v}) && (v == "" || v !in added)
    ensures Once([v] + rs, added)
  {
    var all := [v] + rs;
    forall i, j | 0 <= i < j < |all| && all[i] != ""
      ensures all[i] != all[j]
    {
      assert all[j] == rs[j - 1];
      assert i > 0 ==> all[i] == rs[i - 1];
    }
  }

  /** A value other than the empty one is collected at most once, unless several values were asked for. */
  lemma {:induction false} CollectedOnce(ctx: Context, paths: seq<Found>, added: set<string>, valType: ValueType)
    ensures Once(Collect(ctx, paths, false, added, valType).0, added)
    decreases |paths|
  {
    if paths != [] {
      var p, t, rest := paths[0].path, paths[0].valType, paths[1..];
      if p == [] || p[|p| - 1] in added {
        CollectedOnce(ctx, rest, added, valType);
      } else if t.ErrorType? && !ctx.exists_(p) {
        CollectedOnce(ctx, rest, added + {""}, valType);
        OnceMore("", Collect(ctx, rest, false, added + {""}, valType).0, added);
      } else {
        var v, t' := p[|p| - 1], if t.ErrorType? then valType else t;
        CollectedOnce(ctx, rest, added + {v}, t');
        OnceMore(v, Collect(ctx, rest, false, added + {v}, t').0, added);
      }
    }
  }

  /** The values of a multi leaf, joined, passed on and split again, are the same values in the same order. */
  lemma MultiValuesComeBack(ctx: Context, p: Path, t: Template, vals: seq<string>, ref: string)
    requires ctx.schema(p) == Some(t) && t.isMulti && !t.isValue && !t.isTag && !t.IsTypeless()
    requires ref == "@@" || (ref == "@" && p != ctx.orig)
    requires ctx.children(p) == vals && vals != [] && AreWords(ValueArrays.IsSpace, vals)
    ensures var r := Resolve(ctx, [ref], p, ErrorType);
            && r.multi
            && ValueOf(ctx, r.paths, r.multi) == Some((Join(vals), TextType))
            && Words(ValueArrays.IsSpace, Join(vals)) == vals
  {
    ValueArrays.JoinedValuesSplit(vals);
    var q := p + [Join(vals)];
    var found := [Found(q, TextType)];
    var r := Resolve(ctx, [ref], p, ErrorType);
    assert [] + found == found;
    assert r == Resolution(found, true);
    assert found[1..] == [] && q[|q| - 1] == Join(vals);
    assert Collect(ctx, found, true, {}, ErrorType).0 == [Join(vals)];
  }

  // ----- the resolver as it runs

  class Resolver {
    const ctx: Context
    var paths: seq<Found>
    var isMulti: bool

    constructor (ctx: Context)
      ensures this.ctx == ctx && paths == [] && !isMulti
    {
      this.ctx, paths, isMulti := ctx, [], false;
    }

    ghost predicate Added(before: seq<Found>, wasMulti: bool, r: Resolution)
      reads this
    {
      paths == before + r.paths && isMulti == (wasMulti || r.multi)
    }

    /** Pushes the value of a leaf. */
    method HandleLeaf(t: Template, p: Path)
      modifies this
      ensures Added(old(paths), old(isMulti), LeafValue(ctx, t, p))
    {
      var vals := ctx.children(p);
      if t.isMulti {
        isMulti := true;
        if vals == [] {
          return;
        }
        paths := paths + [Found(p + [Join(vals)], TextType)];
      } else {
        var val, valType := Join(vals), t.valType;
        if vals == [] {
          val, valType := "", ErrorType;
        }
        paths := paths + [Found(p + [val], valType)];
      }
    }

    /** The loop over the children. */
    method ProcessKids(ref: seq<string>, p: Path, kids: seq<string>, valType: ValueType)
      modifies this
      ensures Added(old(paths), old(isMulti), NOTHING_OF_MANY.Then(ResolveKids(ctx, ref, p, kids, valType)))
      decreases |ref|, 2
    {
      isMulti := true;
      var i := 0;
      ghost var todo := ResolveKids(ctx, ref, p, kids, valType);
      assert kids[0..] == kids;
      while i < |kids|
        invariant 0 <= i <= |kids| && isMulti
        invariant todo == ResolveKids(ctx, ref, p, kids[i..], valType)
        invariant paths + todo.paths == old(paths) + ResolveKids(ctx, ref, p, kids, valType).paths
      {
        ghost var before := paths;
        assert kids[i..][1..] == kids[i + 1..];
        ProcessRef(ref, p + [kids[i]], valType);
        todo := ResolveKids(ctx, ref, p, kids[i + 1..], valType);
        Associative(before, Resolve(ctx, ref, p + [kids[i]], valType).paths, todo.paths);
        i := i + 1;
      }
      assert paths + [] == paths;
      assert [] + ResolveKids(ctx, ref, p, kids, valType).paths == ResolveKids(ctx, ref, p, kids, valType).paths;
    }

    /** `process_ref`: pushes exactly the paths of the recursive resolver, in its order. */
    method ProcessRef(ref: seq<string>, p: Path, valType: ValueType)
      modifies this
      ensures Added(old(paths), old(isMulti), Resolve(ctx, ref, p, valType))
      decreases |ref|, 1
    {
      if ref == [] {
        paths := paths + [Found(p, valType)];
        return;
      }
      var rest, tmpl := ref[1..], ctx.schema(p);
      if ref[0] == "@" {
        ProcessAt(ref, p);
      } else if ref[0] == "." {
        ProcessRef(rest, p, ErrorType);
      } else if ref[0] == ".." {
        ProcessUp(ref, p);
      } else if ref[0] == "@@" {
        ProcessAll(ref, p);
      } else {
        var q := p;
        if tmpl.Some? && tmpl.value.IsTagNode() {
          if |p| > |ctx.orig| {
            return;
          } else if |p| == |ctx.orig| {
            q := p + [ctx.at];
          } else {
            q := p + [ctx.orig[|p|]];
          }
          assert q + [ref[0]] == p + [q[|p|], ref[0]];
        }
        ProcessRef(rest, q + [ref[0]], ErrorType);
      }
    }

    /** `@`. */
    method ProcessAt(ref: seq<string>, p: Path)
      requires ref != [] && ref[0] == "@"
      modifies this
      ensures Added(old(paths), old(isMulti), Resolve(ctx, ref, p, ErrorType))
      decreases |ref|, 0
    {
      var rest, tmpl := ref[1..], ctx.schema(p);
      if tmpl.None? {
        return;
      }
      var t := tmpl.value;
      if t.IsTypeless() {
        ProcessRef(rest, p, ErrorType);
        return;
      }
      if |p| == |ctx.orig| {
        if |p| == 0 || p == ctx.orig {
          ProcessRef(rest, p + [ctx.at], t.valType);
          return;
        }
      }
      if !t.IsLeafNode() {
        if |p| < |ctx.orig| {
          ProcessRef(rest, p + [ctx.orig[|p|]], t.valType);
        }
        return;
      }
      HandleLeaf(t, p);
    }

    /** `..`. */
    method ProcessUp(ref: seq<string>, p: Path)
      requires ref != [] && ref[0] == ".."
      modifies this
      ensures Added(old(paths), old(isMulti), Resolve(ctx, ref, p, ErrorType))
      decreases |ref|, 0
    {
      if ctx.schema(p).None? || p == [] {
        return;
      }
      var q := p[..|p| - 1];
      if |q| > 0 {
        var parent := ctx.schema(q);
        if parent.None? {
          return;
        }
        if parent.value.IsTagValue() {
          q := q[..|q| - 1];
        }
      }
      ProcessRef(ref[1..], q, ErrorType);
    }

    /** `@@`; on a node without type the children come first, and then the node is treated like any other. */
    method ProcessAll(ref: seq<string>, p: Path)
      requires ref != [] && ref[0] == "@@"
      modifies this
      ensures Added(old(paths), old(isMulti), Resolve(ctx, ref, p, ErrorType))
      decreases |ref|, 0
    {
      var rest, tmpl := ref[1..], ctx.schema(p);
      if tmpl.None? {
        return;
      }
      var t, kids := tmpl.value, ctx.children(p);
      ghost var before, wasMulti := paths, isMulti;
      if t.IsTypeless() {
        isMulti := true;
        if kids == [] {
          return;
        }
        ProcessKids(rest, p, kids, t.valType);
      }
      if t.isValue {
        return;
      }
      ghost var middle := paths;
      ghost var below := if t.IsTypeless() then ResolveKids(ctx, rest, p, kids, t.valType).paths else [];
      assert middle == before + below;
      if t.isTag {
        isMulti := true;
        Associative(before, below, ResolveKids(ctx, rest, p, kids, t.valType).paths);
        if kids == [] {
          return;
        }
        ProcessKids(rest, p, kids, t.valType);
      } else {
        Associative(before, below, LeafValue(ctx, t, p).paths);
        HandleLeaf(t, p);
      }
    }

    /** `getValue`. */
    method GetValue(multi: bool) returns (r: Option<(string, ValueType)>)
      ensures r == ValueOf(ctx, paths, multi)
    {
      var results, valType := CollectResults(multi);
      if results == [] {
        return None;
      }
      if |results| > 1 || valType.ErrorType? {
        valType := TextType;
      }
      var value := JoinResults(results);
      r := Some((value, valType));
    }

    /** The loop over the paths. */
    method CollectResults(multi: bool) returns (results: seq<string>, valType: ValueType)
      ensures results == Collect(ctx, paths, multi, {}, ErrorType).0
      ensures valType == Collect(ctx, paths, multi, {}, ErrorType).1
    {
      var added: set<string>;
      results, valType, added := [], ErrorType, {};
      ghost var goal := Collect(ctx, paths, multi, {}, ErrorType);
      ghost var todo := goal;
      var i := 0;
      assert paths[0..] == paths;
      while i < |paths|
        invariant 0 <= i <= |paths|
        invariant todo == Collect(ctx, paths[i..], multi, added, valType)
        invariant goal.0 == results + todo.0 && goal.1 == todo.1
      {
        assert paths[i..][1..] == paths[i + 1..];
        var p, t := paths[i].path, paths[i].valType;
        var found := [];
        if p == [] || (!multi && p[|p| - 1] in added) {
        } else if t.ErrorType? && !ctx.exists_(p) {
          added, found := added + {""}, [""];
        } else {
          if !t.ErrorType? {
            valType := t;
          }
          added, found := added + {p[|p| - 1]}, [p[|p| - 1]];
        }
        i := i + 1;
        ghost var rest := Collect(ctx, paths[i..], multi, added, valType);
        assert todo.0 == found + rest.0 && todo.1 == rest.1;
        Associative(results, found, rest.0);
        results, todo := results + found, rest;
      }
    }

    /** `getSetPath`: for one path only, the path without its last component. */
    method GetSetPath() returns (r: Option<Path>)
      requires |paths| == 1 ==> paths[0].path != []
      ensures r == SetPathOf(paths)
    {
      if |paths| != 1 {
        return None;
      }
      r := Some(paths[0].path[..|paths[0].path| - 1]);
    }
  }

  method JoinResults(results: seq<string>) returns (value: string)
    ensures value == Join(results)
  {
    value := "";
    for i := 0 to |results|
      invariant value == Join(results[..i])
    {
      assert results[..i + 1] == results[..i] + [results[i]];
      if i > 0 {
        JoinAppend(results[..i], results[i]);
        value := value + " ";
      }
      value := value + results[i];
    }
    assert results[..|results|] == results;
  }
}
