/** What the components of a reference mean, one by one, and which value a reference has. */
module RefValues {
  import opened Options
  import opened BlankText
  import opened VarRef

  // ----- the value of paths

  /** The last component of a path; empty for a path without type that does not exist. */
  function LastOf(ctx: Context, f: Found): string
    requires f.path != []
  {
    if f.valType == ErrorType && !ctx.exists_(f.path) then "" else f.path[|f.path| - 1]
  }

  /** One path has one value; the root has none. */
  lemma ValueOfOne(ctx: Context, f: Found, multi: bool)
    ensures f.path == [] ==> ValueOf(ctx, [f], multi) == None
    ensures f.path != [] ==>
              ValueOf(ctx, [f], multi) == Some((LastOf(ctx, f), if f.valType == ErrorType then TextType else f.valType))
    ensures ValueOf(ctx, [], multi) == None
  {
    assert [f][1..] == [];
    if f.path != [] {
      var v := LastOf(ctx, f);
      assert [v] + [] == [v] && Join([v]) == v;
      assert Collect(ctx, [f], multi, {}, ErrorType) == ([v], f.valType);
    } else {
      assert Collect(ctx, [f], multi, {}, ErrorType) == Collect(ctx, [], multi, {}, ErrorType);
    }
  }

  /** Of several paths, all values are collected in their order when several values are asked for. */
  lemma {:induction false} AllCollected(ctx: Context, fs: seq<Found>, added: set<string>, valType: ValueType)
    requires forall i :: 0 <= i < |fs| ==> fs[i].path != []
    ensures var rs := Collect(ctx, fs, true, added, valType).0;
            |rs| == |fs| && forall i :: 0 <= i < |fs| ==> rs[i] == LastOf(ctx, fs[i])
    decreases |fs|
  {
    if fs != [] {
      var v, t := LastOf(ctx, fs[0]), fs[0].valType;
      AllCollected(ctx, fs[1..], added + {v}, if t.ErrorType? then valType else t);
      AllCollected(ctx, fs[1..], added + {""}, valType);
    }
  }

  /** When they are not, a value that was collected is left out. */
  lemma RepeatedIsLeftOut(ctx: Context, f: Found, g: Found)
    requires f.path != [] && g.path != [] && f.path[|f.path| - 1] == g.path[|g.path| - 1]
    requires f.valType != ErrorType || ctx.exists_(f.path)
    ensures Collect(ctx, [f, g], false, {}, ErrorType).0 == [f.path[|f.path| - 1]]
  {
    var v := f.path[|f.path| - 1];
    assert [f, g][1..] == [g] && [g][1..] == [];
    assert [v] + [] == [v];
    assert Collect(ctx, [g], false, {} + {v}, f.valType).0 == [];
  }

  // ----- leaves

  /** A typed leaf of one value. */
  predicate IsSingleLeaf(t: Template) {
    !t.isValue && !t.isMulti && !t.isTag && t.valType != ErrorType
  }

  /** The value of a single leaf, from wherever the reference comes and whatever would follow. */
  lemma SingleLeafValue(ctx: Context, p: Path, t: Template, ref: string, rest: seq<string>)
    requires ctx.schema(p) == Some(t) && IsSingleLeaf(t)
    requires ref == "@@" || (ref == "@" && p != ctx.orig)
    ensures var r := Resolve(ctx, [ref] + rest, p, ErrorType);
            && !r.multi
            && (|ctx.children(p)| == 1 ==> ValueOf(ctx, r.paths, r.multi) == Some((ctx.children(p)[0], t.valType)))
            && (ctx.children(p) == [] ==> ValueOf(ctx, r.paths, r.multi) == Some(("", TextType)))
  {
    var r := Resolve(ctx, [ref] + rest, p, ErrorType);
    assert ([ref] + rest)[0] == ref;
    var vals := ctx.children(p);
    if |vals| == 1 {
      assert vals == [vals[0]] && Join(vals) == vals[0];
      assert r.paths == [Found(p + [vals[0]], t.valType)];
      ValueOfOne(ctx, Found(p + [vals[0]], t.valType), false);
    } else if vals == [] {
      assert r.paths == [Found(p + [""], ErrorType)];
      ValueOfOne(ctx, Found(p + [""], ErrorType), false);
    }
  }

  // ----- @

  /** At the node of the reference itself, `@` is the value under validation. */
  lemma AtItself(ctx: Context, t: Template, rest: seq<string>)
    requires ctx.schema(ctx.orig) == Some(t) && t.valType != ErrorType
    ensures Resolve(ctx, ["@"] + rest, ctx.orig, ErrorType) == Resolve(ctx, rest, ctx.orig + [ctx.at], t.valType)
    ensures var r := Resolve(ctx, ["@"], ctx.orig, ErrorType);
            ValueOf(ctx, r.paths, r.multi) == Some((ctx.at, t.valType))
  {
    assert (["@"] + rest)[0] == "@" && (["@"] + rest)[1..] == rest;
    assert ["@"][1..] == [];
    ValueOfOne(ctx, Found(ctx.orig + [ctx.at], t.valType), false);
  }

  /** On the way to it, where there is no leaf, `@` is the component of that path; elsewhere it is nothing. */
  lemma AtInside(ctx: Context, p: Path, t: Template, rest: seq<string>)
    requires ctx.schema(p) == Some(t) && t.valType != ErrorType && p != ctx.orig
    requires t.isValue || (t.isTag && !t.isMulti)
    ensures |p| < |ctx.orig| ==>
              Resolve(ctx, ["@"] + rest, p, ErrorType) == Resolve(ctx, rest, p + [ctx.orig[|p|]], t.valType)
    ensures |p| >= |ctx.orig| ==> Resolve(ctx, ["@"] + rest, p, ErrorType) == NOTHING
    ensures |p| < |ctx.orig| ==>
              var r := Resolve(ctx, ["@"], p, ErrorType);
              ValueOf(ctx, r.paths, r.multi) == Some((ctx.orig[|p|], t.valType))
  {
    assert (["@"] + rest)[0] == "@" && (["@"] + rest)[1..] == rest;
    assert ["@"][1..] == [];
    if |p| < |ctx.orig| {
      ValueOfOne(ctx, Found(p + [ctx.orig[|p|]], t.valType), false);
    }
  }

  /** On a node without type `@` changes nothing, and without a node there is nothing. */
  lemma AtUntyped(ctx: Context, p: Path, rest: seq<string>)
    ensures ctx.schema(p) == None ==> Resolve(ctx, ["@"] + rest, p, ErrorType) == NOTHING
    ensures ctx.schema(p).Some? && ctx.schema(p).value.valType == ErrorType ==>
              Resolve(ctx, ["@"] + rest, p, ErrorType) == Resolve(ctx, rest, p, ErrorType)
  {
    assert (["@"] + rest)[0] == "@" && (["@"] + rest)[1..] == rest;
  }

  // ----- steps

  /** `.` stays. */
  lemma Stay(ctx: Context, p: Path, rest: seq<string>)
    ensures Resolve(ctx, ["."] + rest, p, ErrorType) == Resolve(ctx, rest, p, ErrorType)
  {
    assert (["."] + rest)[0] == "." && (["."] + rest)[1..] == rest;
  }

  /** The list entry at this path is a value of a tag. */
  predicate IsEntry(ctx: Context, p: Path) {
    ctx.schema(p).Some? && ctx.schema(p).value.isTag && ctx.schema(p).value.isValue
  }

  /** `..` drops a component, and of a list entry the key and the name of the list. */
  lemma StepUp(ctx: Context, p: Path, c: string, k: string, rest: seq<string>)
    ensures ctx.schema(p) == None || p == [] ==> Resolve(ctx, [".."] + rest, p, ErrorType) == NOTHING
    ensures ctx.schema([c]).Some? ==> Resolve(ctx, [".."] + rest, [c], ErrorType) == Resolve(ctx, rest, [], ErrorType)
    ensures p != [] && ctx.schema(p + [c]).Some? ==>
              Resolve(ctx, [".."] + rest, p + [c], ErrorType) ==
                if ctx.schema(p) == None then NOTHING
                else if IsEntry(ctx, p) then Resolve(ctx, rest, p[..|p| - 1], ErrorType)
                else Resolve(ctx, rest, p, ErrorType)
  {
    assert ([".."] + rest)[0] == ".." && ([".."] + rest)[1..] == rest;
    assert [c][..0] == [] && (p + [c])[..|p|] == p;
  }

  /** A list, and not one of its entries. */
  predicate IsList(ctx: Context, p: Path) {
    ctx.schema(p).Some? && ctx.schema(p).value.isTag && !ctx.schema(p).value.isValue
  }

  /** A name goes down; in a list, into the entry of the original path or into that of the value under validation. */
  lemma StepDown(ctx: Context, p: Path, name: string, rest: seq<string>)
    requires name !in {"@", ".", "..", "@@"}
    ensures Resolve(ctx, [name] + rest, p, ErrorType) ==
              if !IsList(ctx, p) then Resolve(ctx, rest, p + [name], ErrorType)
              else if |p| < |ctx.orig| then Resolve(ctx, rest, p + [ctx.orig[|p|], name], ErrorType)
              else if |p| == |ctx.orig| then Resolve(ctx, rest, p + [ctx.at, name], ErrorType)
              else NOTHING
  {
    assert ([name] + rest)[0] == name && ([name] + rest)[1..] == rest;
  }

  // ----- @@

  function Below(p: Path, kids: seq<string>, valType: ValueType): (r: seq<Found>)
    ensures |r| == |kids|
  {
    seq(|kids|, i requires 0 <= i < |kids| => Found(p + [kids[i]], valType))
  }

  lemma {:induction false} KidsAreFound(ctx: Context, p: Path, kids: seq<string>, valType: ValueType)
    ensures ResolveKids(ctx, [], p, kids, valType) == Resolution(Below(p, kids, valType), false)
    decreases |kids|
  {
    if kids != [] {
      KidsAreFound(ctx, p, kids[1..], valType);
      assert Below(p, kids, valType) == [Found(p + [kids[0]], valType)] + Below(p, kids[1..], valType);
    }
  }

  /** On a list, `@@` is all its entries in order; on a value it is nothing. */
  lemma AllOnList(ctx: Context, p: Path, t: Template)
    requires ctx.schema(p) == Some(t) && t.valType != ErrorType
    ensures t.isValue ==> Resolve(ctx, ["@@"], p, ErrorType) == NOTHING
    ensures t.isTag && !t.isValue ==>
              var r := Resolve(ctx, ["@@"], p, ErrorType);
              && r.multi && r.paths == Below(p, ctx.children(p), t.valType)
              && ValueOf(ctx, r.paths, true) ==
                   if ctx.children(p) == [] then None
                   else Some((Join(ctx.children(p)), if |ctx.children(p)| > 1 then TextType else t.valType))
  {
    var kids := ctx.children(p);
    assert ["@@"][0] == "@@" && ["@@"][1..] == [];
    KidsAreFound(ctx, p, kids, t.valType);
    assert [] + ([] + Below(p, kids, t.valType)) == Below(p, kids, t.valType);
    if t.isTag && !t.isValue {
      TypedValues(ctx, p, kids, t.valType);
    }
  }

  lemma TypedValues(ctx: Context, p: Path, kids: seq<string>, valType: ValueType)
    requires valType != ErrorType
    ensures ValueOf(ctx, Below(p, kids, valType), true) ==
              if kids == [] then None else Some((Join(kids), if |kids| > 1 then TextType else valType))
  {
    var fs := Below(p, kids, valType);
    AllCollected(ctx, fs, {}, ErrorType);
    TypeIsKept(ctx, fs, {}, ErrorType, valType);
    assert Collect(ctx, fs, true, {}, ErrorType).0 == kids;
  }

  lemma {:induction false} TypeIsKept(ctx: Context, fs: seq<Found>, added: set<string>,
                                      was: ValueType, valType: ValueType)
    requires valType != ErrorType && forall i :: 0 <= i < |fs| ==> fs[i].path != [] && fs[i].valType == valType
    ensures Collect(ctx, fs, true, added, was).1 == if fs == [] then was else valType
    decreases |fs|
  {
    if fs != [] {
      var v := fs[0].path[|fs[0].path| - 1];
      TypeIsKept(ctx, fs[1..], added + {v}, valType, valType);
    }
  }

  /**
    On a node without type, `@@` is its children; behind them it falls through to what it is on a list, which is the
    children once more, or on a leaf.
  */
  lemma AllUntyped(ctx: Context, p: Path, t: Template)
    requires ctx.schema(p) == Some(t) && t.valType == ErrorType
    ensures var r, kids := Resolve(ctx, ["@@"], p, ErrorType), ctx.children(p);
            && r.multi
            && (kids == [] || t.isValue ==> r.paths == Below(p, kids, ErrorType))
            && (t.isTag && !t.isValue ==> r.paths == Below(p, kids, ErrorType) + Below(p, kids, ErrorType))
            && (!t.isTag && !t.isValue && kids != [] ==>
                  r.paths == Below(p, kids, ErrorType)
                             + [Found(p + [Join(kids)], if t.isMulti then TextType else ErrorType)])
  {
    var kids := ctx.children(p);
    assert ["@@"][0] == "@@" && ["@@"][1..] == [];
    KidsAreFound(ctx, p, kids, ErrorType);
    assert [] + Below(p, kids, ErrorType) == Below(p, kids, ErrorType);
  }
}
