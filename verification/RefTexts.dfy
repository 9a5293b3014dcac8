/** What references mean as they are written, from the global path to the value in a configuration. */
module RefTexts {
  import opened Options
  import opened BlankText
  import opened SlashPath
  import opened Cpath
  import opened VarRef
  import opened RefValues
  import opened CstoreVarRef

  // ----- the components of the text

  lemma SlashIndexOf(c: string, rest: string)
    requires SlashFree(c)
    ensures SlashIndex(c) == |c| && SlashIndex(c + "/" + rest) == |c|
  {
    SlashAfter(c, rest);
  }

  /** Components with slashes between, and perhaps one behind. */
  lemma {:induction false} CompsOfJoin(p: seq<string>, last: bool)
    requires p != [] && IsComponents(p)
    ensures RefComps(SlashJoin(p) + SlashIf(last)) == p
    decreases |p|
  {
    if |p| == 1 {
      OnlyComp(p[0], last);
      assert p == [p[0]];
    } else {
      JoinFirst(p, last);
      FirstComp(p[0], SlashJoin(p[1..]) + SlashIf(last));
      CompsOfJoin(p[1..], last);
      assert [p[0]] + p[1..] == p;
    }
  }

  lemma OnlyComp(c: string, last: bool)
    requires c != "" && SlashFree(c)
    ensures SlashJoin([c]) == c && RefComps(c + SlashIf(last)) == [c]
  {
    if last {
      FirstComp(c, "");
      assert c + "/" + "" == c + "/";
    } else {
      SlashIndexOf(c, "");
      assert c + "" == c && c[..|c|] == c;
    }
  }

  lemma JoinFirst(p: seq<string>, last: bool)
    requires |p| > 1
    ensures SlashJoin(p) + SlashIf(last) == p[0] + "/" + (SlashJoin(p[1..]) + SlashIf(last))
  {
  }

  lemma FirstComp(c: string, rest: string)
    requires c != "" && SlashFree(c)
    ensures RefComps(c + "/" + rest) == [c] + RefComps(rest)
  {
    var s := c + "/" + rest;
    SlashIndexOf(c, rest);
    assert s[..|c|] == c && s[|c| + 1..] == rest;
  }

  /** A slash in front makes the reference absolute and is no component. */
  lemma CompsOfText(p: seq<string>, first: bool, last: bool)
    requires p != [] && IsComponents(p)
    ensures var ref := SlashIf(first) + (SlashJoin(p) + SlashIf(last)); CompsOf(ref) == p && IsAbsolute(ref) == first
  {
    var s := SlashJoin(p) + SlashIf(last);
    CompsOfJoin(p, last);
    JoinEnds(p);
    assert s[0] == SlashJoin(p)[0];
    assert "" + s == s && ("/" + s)[1..] == s;
  }

  // ----- values

  /** Where a reference starts: at the global path, or at the root. */
  function StartOf(cfg: string, absolute: bool): Path {
    if absolute then [] else Parse(cfg)
  }

  ghost predicate HasValue(store: Store, active: bool, cfg: string, at: string, ref: string, v: string, t: ValueType) {
    var r := ResolveText(store, active, cfg, at, ref);
    ValueOf(RefContext(store, active, cfg, at, ref), r.paths, r.multi) == Some((v, t))
  }

  /** `name/@` and `/name/@` are the value of a single leaf in the configuration that is asked for. */
  lemma LeafIsRead(store: Store, active: bool, cfg: string, at: string, name: string, absolute: bool, t: Template)
    requires name !in {"", "@", ".", "..", "@@"} && SlashFree(name)
    requires var p := StartOf(cfg, absolute);
             store.schema(p + [name]) == Some(t) && IsSingleLeaf(t)
             && (store.schema(p).Some? ==> !store.schema(p).value.isTag || store.schema(p).value.isValue)
    ensures var vals := store.children(active, StartOf(cfg, absolute) + [name]);
            && (|vals| == 1 ==> HasValue(store, active, cfg, at, SlashIf(absolute) + (name + "/@"), vals[0], t.valType))
            && (vals == [] ==> HasValue(store, active, cfg, at, SlashIf(absolute) + (name + "/@"), "", TextType))
  {
    var ref := SlashIf(absolute) + (name + "/@");
    var ctx := RefContext(store, active, cfg, at, ref);
    TwoComps(name, "@", absolute);
    assert name + "/" + "@" == name + "/@";
    ContextIs(store, active, ctx.orig, at, ctx.orig + [name]);
    LeafBelow(ctx, name, t);
    assert ResolveText(store, active, cfg, at, ref) == Resolve(ctx, [name, "@"], ctx.orig, ErrorType);
  }

  /** The flag selects the configuration that is looked at. */
  lemma ContextIs(store: Store, active: bool, orig: Path, at: string, p: Path)
    ensures var ctx := store.ContextOf(active, orig, at);
            && ctx.schema == store.schema && ctx.orig == orig && ctx.at == at
            && ctx.children(p) == store.children(active, p)
            && ctx.exists_(p) == store.exists_(active, p)
  {
  }

  lemma LeafBelow(ctx: Context, name: string, t: Template)
    requires name !in {"@", ".", "..", "@@"}
    requires ctx.schema(ctx.orig + [name]) == Some(t) && IsSingleLeaf(t) && !IsList(ctx, ctx.orig)
    ensures var r, vals := Resolve(ctx, [name, "@"], ctx.orig, ErrorType), ctx.children(ctx.orig + [name]);
            && (|vals| == 1 ==> ValueOf(ctx, r.paths, r.multi) == Some((vals[0], t.valType)))
            && (vals == [] ==> ValueOf(ctx, r.paths, r.multi) == Some(("", TextType)))
  {
    StepDown(ctx, ctx.orig, name, ["@"]);
    assert [name] + ["@"] == [name, "@"] && ["@"] + [] == ["@"];
    SingleLeafValue(ctx, ctx.orig + [name], t, "@", []);
  }

  lemma TwoComps(name: string, last: string, absolute: bool)
    requires name != "" && SlashFree(name) && last != "" && SlashFree(last)
    ensures var ref := SlashIf(absolute) + (name + "/" + last);
            CompsOf(ref) == [name, last] && IsAbsolute(ref) == absolute
  {
    assert [name, last][1..] == [last];
    assert SlashJoin([name, last]) + SlashIf(false) == name + "/" + last;
    CompsOfText([name, last], absolute, false);
  }

  /** A name alone has the name as its value if the node exists in that configuration, and is empty otherwise. */
  lemma NameIsRead(store: Store, active: bool, cfg: string, at: string, name: string)
    requires name !in {"", "@", ".", "..", "@@"} && SlashFree(name)
    requires var p := Parse(cfg);
             store.schema(p).Some? ==> !store.schema(p).value.isTag || store.schema(p).value.isValue
    ensures HasValue(store, active, cfg, at, name,
                     if store.exists_(active, Parse(cfg) + [name]) then name else "", TextType)
  {
    var p := Parse(cfg);
    OneComp(name);
    var ctx := RefContext(store, active, cfg, at, name);
    StepDown(ctx, p, name, []);
    assert [name] + [] == [name];
    ValueOfOne(ctx, Found(p + [name], ErrorType), false);
  }

  lemma OneComp(name: string)
    requires name != "" && SlashFree(name)
    ensures CompsOf(name) == [name] && !IsAbsolute(name)
  {
    CompsOfText([name], false, false);
    assert SlashIf(false) + (SlashJoin([name]) + SlashIf(false)) == name;
  }

  /** `@` alone is the value under validation. */
  lemma AtIsRead(store: Store, active: bool, cfg: string, at: string, t: Template)
    requires store.schema(Parse(cfg)) == Some(t) && t.valType != ErrorType
    ensures HasValue(store, active, cfg, at, "@", at, t.valType)
  {
    OneComp("@");
    AtItself(RefContext(store, active, cfg, at, "@"), t, []);
  }

  // ----- the global path

  /** The buffer of the global path holds 4095 characters. */
  lemma FitIs(s: string)
    ensures |s| <= 4095 ==> Fit(s) == s
    ensures |s| > 4095 ==> |Fit(s)| == 4095 && Fit(s) <= s
  {
  }

  lemma ShorterPrints(p: seq<string>)
    requires AreBytes(p) && |p| >= 2
    ensures AreBytes(p[..|p| - 1]) && |ToPathString(p[..|p| - 1])| < |ToPathString(p)|
  {
    var ts, n := EscapeAll(p), |p| - 1;
    assert EscapeAll(p[..n]) == ts[..n];
    assert ts == ts[..n] + [ts[n]];
    SlashJoinAppend(ts[..n], ts[n]);
  }

  /** Without its last component a stable path is printed and read as that. */
  lemma ParentIsRead(cfg: string, p: Path, q: Path)
    requires Stable(cfg) && p == Parse(cfg) && |p| >= 2 && q == p[..|p| - 1]
    ensures AreBytes(q) && Parse(Fit(ToPathString(q))) == q
  {
    ParentOf(p);
  }

  lemma ParentOf(p: Path)
    requires AreBytes(p) && |p| >= 2 && p[0] != "" && (forall i :: 0 <= i < |p| ==> PairedBreaks(p[i]))
    requires |ToPathString(p)| < CFG_PATH_SIZE
    ensures AreBytes(p[..|p| - 1]) && Parse(Fit(ToPathString(p[..|p| - 1]))) == p[..|p| - 1]
  {
    ShorterPrints(p);
    PrintedIsRead(p[..|p| - 1]);
  }

  lemma PrintedIsRead(q: Path)
    requires AreBytes(q) && q != [] && q[0] != "" && (forall i :: 0 <= i < |q| ==> PairedBreaks(q[i]))
    requires |ToPathString(q)| < CFG_PATH_SIZE
    ensures Parse(Fit(ToPathString(q))) == q
  {
    PathRoundTripIff(q);
  }

  /** A reference is resolved from the node of the path: the path, without the value at its end if there is one. */
  lemma NodeIsRead(cli: Cli, cfg: string, p: Path)
    requires Stable(cfg) && p == Parse(cfg) && cli.store.schema(p).Some? && |p| >= 2
    ensures Parse(cli.NodePath(cfg)) == if cli.store.schema(p).value.isValue then p[..|p| - 1] else p
  {
    ParentIsRead(cfg, p, p[..|p| - 1]);
    StableStaysStable(cfg);
  }

  /** A reference to be set is resolved from the path without its last component. */
  lemma ParentPathIsRead(cli: Cli, p: Path)
    requires Stable(cli.cfgPath) && p == Parse(cli.cfgPath) && |p| >= 2
    ensures Parse(cli.ParentPath()) == p[..|p| - 1]
  {
    ParentIsRead(cli.cfgPath, p, p[..|p| - 1]);
  }
}
