/**
  The entry points for variable references: the global configuration path is saved, replaced for
  the time of the resolution, and restored.
*/
module CstoreVarRef {
  import opened Options
  import opened Sequences
  import opened SlashPath
  import opened Cpath
  import opened VarRef

  const CFG_PATH_SIZE := 4096

  /** What configd answers; the flag selects the running instead of the candidate configuration. */
  datatype Store = Store(schema: Path -> Option<Template>, children: (bool, Path) -> seq<string>,
                         exists_: (bool, Path) -> bool, isLeaf: Path -> bool, accepts: Path -> bool) {
    function ContextOf(active: bool, orig: Path, at: string): Context {
      Context(schema, (p: Path) => children(active, p), (p: Path) => exists_(active, p), orig, at)
    }
  }

  /** The copy into the global buffer. */
  function Fit(s: string): string {
    if |s| < CFG_PATH_SIZE then s else s[..CFG_PATH_SIZE - 1]
  }

  // ----- references

  /** The components of a reference; a slash at the end is ignored. */
  function RefComps(s: string): seq<string>
    decreases |s|
  {
    if s == "" then []
    else
      var n := SlashIndex(s);
      if n == |s| then [s] else [s[..n]] + RefComps(s[n + 1..])
  }

  predicate IsAbsolute(ref: string) {
    ref != "" && ref[0] == '/'
  }

  /** The context in which a reference is resolved while the global path is `cfg`. */
  function RefContext(store: Store, active: bool, cfg: string, at: string, ref: string): Context {
    store.ContextOf(active, if IsAbsolute(ref) then [] else Parse(cfg), at)
  }

  function ResolveText(store: Store, active: bool, cfg: string, at: string, ref: string): Resolution {
    var ctx := RefContext(store, active, cfg, at, ref);
    Resolve(ctx, CompsOf(ref), ctx.orig, ErrorType)
  }

  method SplitRef(ref: string) returns (comps: seq<string>)
    ensures comps == CompsOf(ref)
  {
    var rest := if IsAbsolute(ref) then ref[1..] else ref;
    ghost var all := RefComps(rest);
    comps := [];
    while rest != "" && SlashIndex(rest) < |rest|
      invariant comps + RefComps(rest) == all
      decreases |rest|
    {
      var n := SlashIndex(rest);
      var head, tail := rest[..n], rest[n + 1..];
      RefStep(rest, n);
      Associative(comps, [head], RefComps(tail));
      comps, rest := comps + [head], tail;
    }
    if rest != "" {
      comps := comps + [rest];
    }
  }

  lemma RefStep(s: string, n: nat)
    requires s != "" && n == SlashIndex(s) < |s|
    ensures RefComps(s) == [s[..n]] + RefComps(s[n + 1..])
  {
  }

  lemma NothingBefore<T>(s: seq<T>)
    ensures [] + s == s
  {
  }

  /** The constructor of the reference: splits the text and resolves it. */
  method ResolveRef(store: Store, active: bool, cfg: string, at: string, ref: string) returns (r: Resolver)
    ensures fresh(r) && r.ctx == RefContext(store, active, cfg, at, ref)
    ensures r.paths == ResolveText(store, active, cfg, at, ref).paths
    ensures r.isMulti == ResolveText(store, active, cfg, at, ref).multi
  {
    var comps := SplitRef(ref);
    r := new Resolver(RefContext(store, active, cfg, at, ref));
    r.ProcessRef(comps, r.ctx.orig, ErrorType);
    NothingBefore(ResolveText(store, active, cfg, at, ref).paths);
  }

  /** The components of the reference. */
  function CompsOf(ref: string): seq<string> {
    RefComps(if IsAbsolute(ref) then ref[1..] else ref)
  }

  /** A reference without `@@` resolves to one path or none, and can be set exactly when it resolves below the root. */
  lemma SettableIffResolved(store: Store, active: bool, cfg: string, at: string, ref: string)
    requires "@@" !in CompsOf(ref)
    ensures var ctx, paths := RefContext(store, active, cfg, at, ref), ResolveText(store, active, cfg, at, ref).paths;
            && (|paths| == 1 <==> paths != [])
            && (SetPathOf(paths).Some? <==> paths != [] && paths[0].path != [])
            && (EndsBelowRoot(ctx, CompsOf(ref)) ==> (SetPathOf(paths).Some? <==> paths != []))
  {
    var ctx := RefContext(store, active, cfg, at, ref);
    AtMostOnePath(ctx, CompsOf(ref), ctx.orig, ErrorType);
    if EndsBelowRoot(ctx, CompsOf(ref)) {
      NeverTheRoot(ctx, CompsOf(ref), ctx.orig, ErrorType);
    }
  }

  // ----- the global path

  /** What saving and restoring makes of the global path. */
  function Restored(cfg: string): (r: string)
    requires IsBytes(cfg)
    ensures IsBytes(r)
  {
    EscapedIsBytes(Parse(cfg));
    Fit(ToPathString(Parse(cfg)))
  }

  /** The path fits into the buffer in its printed form. */
  predicate Fits(cfg: string)
    requires IsBytes(cfg)
  {
    |ToPathString(Parse(cfg))| < CFG_PATH_SIZE
  }

  /** A path that has a component, whose line breaks are CR LF pairs, and that fits. */
  predicate Stable(cfg: string) {
    var p := Parse(cfg);
    IsBytes(cfg) && p[0] != "" && (forall i :: 0 <= i < |p| ==> PairedBreaks(p[i])) && Fits(cfg)
  }

  /** If the printed path fits, restoring keeps what the path denotes exactly when the path is stable. */
  lemma RestoredDenotesSameIff(cfg: string)
    requires IsBytes(cfg) && Fits(cfg)
    ensures Parse(Restored(cfg)) == Parse(cfg) <==> Stable(cfg)
  {
    PathRoundTripIff(Parse(cfg));
  }

  /** A restored path is a C string again. */
  lemma EscapedIsBytes(p: seq<string>)
    requires AreBytes(p)
    ensures IsBytes(ToPathString(p)) && IsBytes(Fit(ToPathString(p)))
  {
    EscapedComponents(p);
    JoinedBytes(EscapeAll(p));
  }

  lemma {:induction false} JoinedBytes(ts: seq<string>)
    requires AreBytes(ts)
    ensures IsBytes(SlashJoin(ts))
    decreases |ts|
  {
    if |ts| > 1 {
      JoinedBytes(ts[1..]);
    }
  }

  lemma StableStaysStable(cfg: string)
    requires Stable(cfg)
    ensures Stable(Restored(cfg)) && Parse(Restored(cfg)) == Parse(cfg) && Restored(Restored(cfg)) == Restored(cfg)
  {
    RestoredDenotesSameIff(cfg);
    EscapedIsBytes(Parse(cfg));
  }

  /**
    A stable path may have an empty component inside, such as a//b, which is escaped into a buffer of no
    characters.
  */
  lemma StablePathMayOverflow(p: seq<string>, i: nat)
    requires AreBytes(p) && i < |p| && p[0] != "" && p[i] == ""
    requires (forall k :: 0 <= k < |p| ==> PairedBreaks(p[k])) && |ToPathString(p)| < CFG_PATH_SIZE
    ensures Stable(ToPathString(p)) && Parse(ToPathString(p)) == p && !PrintFits(p)
  {
    EscapedIsBytes(p);
    PathRoundTripIff(p);
    PrintFitsIff(p);
    assert OnlyBreaks(p[i]);
  }

  function Slashes(n: nat): (r: string)
    ensures |r| == n && forall i :: 0 <= i < n ==> r[i] == '/'
  {
    seq(n, _ => '/')
  }

  lemma {:induction false} SplitOfSlashes(n: nat)
    ensures |Split(Slashes(n))| == n + 1 && forall i :: 0 <= i <= n ==> Split(Slashes(n))[i] == ""
  {
    var s := Slashes(n);
    if n > 0 {
      assert SlashIndex(s) == 0 && s[1..] == Slashes(n - 1) && s[..0] == "";
      SplitOfSlashes(n - 1);
    }
  }

  /** As many slashes as the buffer can hold. */
  function Capped(n: nat): nat {
    if n < CFG_PATH_SIZE then n else CFG_PATH_SIZE - 1
  }

  /** A path of nothing but slashes has only empty components, and gets one more with a restoration. */
  lemma SlashesGrow(n: nat)
    ensures |Parse(Slashes(n))| == n + 1 && forall i :: 0 <= i <= n ==> Parse(Slashes(n))[i] == ""
    ensures Restored(Slashes(n)) == Slashes(Capped(n + 1))
  {
    ParsedSlashes(n);
    EmptyOnesPrint(Parse(Slashes(n)));
    FitSlashes(n + 1);
  }

  lemma ParsedSlashes(n: nat)
    ensures |Parse(Slashes(n))| == n + 1 && forall i :: 0 <= i <= n ==> Parse(Slashes(n))[i] == ""
  {
    LeadOfLeads(Slashes(n));
    SplitOfSlashes(n);
    assert Component("") == "";
  }

  lemma EmptyOnesPrint(p: seq<string>)
    requires AreBytes(p) && p != [] && forall i :: 0 <= i < |p| ==> p[i] == ""
    ensures ToPathString(p) == Slashes(|p|)
  {
    assert Escape("") == "";
    AllSlashes(EscapeAll(p));
  }

  lemma FitSlashes(n: nat)
    ensures Fit(Slashes(n)) == Slashes(Capped(n))
  {
  }

  function Iterate<T>(f: T -> T, k: nat, x: T): T {
    if k == 0 then x else Iterate(f, k - 1, f(x))
  }

  lemma {:induction false} IteratedSlashes(f: string -> string, k: nat, n: nat)
    requires n < CFG_PATH_SIZE && forall m: nat :: f(Slashes(m)) == Slashes(Capped(m + 1))
    ensures Iterate(f, k, Slashes(n)) == Slashes(Capped(n + k))
    decreases k
  {
    if k > 0 {
      IteratedSlashes(f, k - 1, Capped(n + 1));
    }
  }

  /** Restoring a path that is a C string. */
  function Restore(cfg: string): string {
    if IsBytes(cfg) then Restored(cfg) else cfg
  }

  /** The empty path, or one of slashes only, gets another slash with every restoration until the buffer is full. */
  lemma EmptyPathGrows(k: nat, n: nat)
    requires n < CFG_PATH_SIZE
    ensures Iterate(Restore, k, Slashes(n)) == Slashes(Capped(n + k))
  {
    forall m: nat
      ensures Restore(Slashes(m)) == Slashes(Capped(m + 1))
    {
      SlashesGrow(m);
    }
    IteratedSlashes(Restore, k, n);
  }

  // ----- the entry points

  datatype Call = Get(ref: string, active: bool) | Set(ref: string, value: string, toActive: bool)

  class Cli {
    const store: Store
    const at: string
    var cfgPath: string
    /** The paths that were handed to the server to be set in the candidate configuration. */
    var issued: seq<Path>

    constructor (store: Store, at: string, cfgPath: string)
      ensures this.store == store && this.at == at && this.cfgPath == cfgPath && issued == []
    {
      this.store, this.at, this.cfgPath, issued := store, at, cfgPath, [];
    }

    method SetCfgPath(s: string)
      modifies this`cfgPath
      ensures cfgPath == Fit(s)
    {
      cfgPath := Fit(s);
    }

    /** The path under which a value's reference is resolved: that of its node. */
    ghost function NodePath(cfg: string): string
      requires IsBytes(cfg) && store.schema(Parse(cfg)).Some?
    {
      var p := Parse(cfg);
      Fit(ToPathString(if store.schema(p).value.isValue then p[..|p| - 1] else p))
    }

    /** `cstore_get_var_ref`. */
    method GetVarRef(ref: string, active: bool) returns (r: Option<(string, ValueType)>, multi: bool)
      requires IsBytes(cfgPath)
      modifies this`cfgPath
      ensures store.schema(Parse(old(cfgPath))).None? ==> r.None? && !multi && cfgPath == old(cfgPath)
      ensures store.schema(Parse(old(cfgPath))).Some? ==>
                && cfgPath == Restored(old(cfgPath))
                && var node := NodePath(old(cfgPath));
                   var res := ResolveText(store, active, node, at, ref);
                   r == ValueOf(RefContext(store, active, node, at, ref), res.paths, res.multi) && multi == res.multi
    {
      var origPath := new ConfigPath.FromText(cfgPath);
      var cpath := new ConfigPath.FromText(cfgPath);
      var tmpl := store.schema(origPath.data);
      if tmpl.None? {
        return None, false;
      }
      if tmpl.value.isValue {
        var _ := cpath.Pop();
      }
      assert cpath.data == if tmpl.value.isValue then origPath.data[..|origPath.data| - 1] else origPath.data;
      var text := cpath.PathString();
      SetCfgPath(text);
      var vref := ResolveRef(store, active, cfgPath, at, ref);
      multi := vref.isMulti;
      r := vref.GetValue(multi);
      text := origPath.PathString();
      SetCfgPath(text);
    }

    /** The path under which a reference to be set is resolved: that of the node whose value is at the end. */
    ghost function ParentPath(): string
      requires IsBytes(cfgPath)
      reads this
    {
      var p := Parse(cfgPath);
      Fit(ToPathString(p[..|p| - 1]))
    }

    ghost function PathsToSet(ref: string): seq<Found>
      requires IsBytes(cfgPath)
      reads this
    {
      ResolveText(store, false, ParentPath(), at, ref).paths
    }

    /** The reference does not resolve to the root, which has no last component. */
    ghost predicate Settable(ref: string)
      requires IsBytes(cfgPath)
      reads this
    {
      |PathsToSet(ref)| == 1 ==> PathsToSet(ref)[0].path != []
    }

    /**
      A reference that ends below the root can always be passed on; one of nothing but steps can if and only if the
      steps do not lead to the root.
    */
    lemma SettableIff(ref: string)
      requires IsBytes(cfgPath)
      ensures var ctx := RefContext(store, false, ParentPath(), at, ref);
              && (EndsBelowRoot(ctx, CompsOf(ref)) ==> Settable(ref))
              && (OnlySteps(CompsOf(ref)) ==>
                    (Settable(ref) <==> UpTimes(ctx, ctx.orig, StepsUp(CompsOf(ref))) != Some([])))
    {
      var ctx := RefContext(store, false, ParentPath(), at, ref);
      if EndsBelowRoot(ctx, CompsOf(ref)) {
        NeverTheRoot(ctx, CompsOf(ref), ctx.orig, ErrorType);
      }
      if OnlySteps(CompsOf(ref)) {
        ResolveSteps(ctx, CompsOf(ref), ctx.orig);
      }
    }

    /** The reference `/` always resolves to the root. */
    lemma SlashIsNotSettable()
      requires IsBytes(cfgPath)
      ensures !Settable("/")
    {
      assert "/"[1..] == "" && CompsOf("/") == [];
      SettableIff("/");
    }

    /** `cstore_set_var_ref`; only the candidate configuration can be set. */
    method SetVarRef(ref: string, value: string, toActive: bool) returns (ok: bool)
      requires IsBytes(cfgPath) && Settable(ref)
      modifies this
      ensures toActive ==> !ok && cfgPath == old(cfgPath) && issued == old(issued)
      ensures !toActive ==>
                && cfgPath == Restored(old(cfgPath))
                && var q := SetPathOf(old(PathsToSet(ref)));
                   && issued == old(issued) + (if q.Some? && store.isLeaf(q.value) then [q.value + [value]] else [])
                   && (ok <==> q.Some? && store.isLeaf(q.value) && store.accepts(q.value + [value]))
    {
      if toActive {
        return false;
      }
      ghost var before := cfgPath;
      var saved := EnterParent();
      var vref := ResolveRef(store, false, cfgPath, at, ref);
      var path := vref.GetSetPath();
      ok := Issue(path, value);
      SetCfgPath(saved);
      assert cfgPath == Restored(before);
    }

    /** Moves to the node whose value is at the end of the path, and returns the printed path. */
    method EnterParent() returns (saved: string)
      requires IsBytes(cfgPath)
      modifies this`cfgPath
      ensures cfgPath == old(ParentPath()) && saved == ToPathString(Parse(old(cfgPath)))
    {
      var origPath := new ConfigPath.FromText(cfgPath);
      var cpath := new ConfigPath.FromText(cfgPath);
      var _ := cpath.Pop();
      assert cpath.data == origPath.data[..|origPath.data| - 1];
      var text := cpath.PathString();
      SetCfgPath(text);
      saved := origPath.PathString();
    }

    /** Hands the value of a leaf to the server. */
    method Issue(path: Option<Path>, value: string) returns (ok: bool)
      modifies this`issued
      ensures issued == old(issued) + (if path.Some? && store.isLeaf(path.value) then [path.value + [value]] else [])
      ensures ok <==> path.Some? && store.isLeaf(path.value) && store.accepts(path.value + [value])
    {
      ok := false;
      if path.Some? && store.isLeaf(path.value) {
        issued := issued + [path.value + [value]];
        ok := store.accepts(path.value + [value]);
      }
    }

    /** One call keeps a stable path stable, and what it denotes. */
    method RunCall(call: Call)
      requires Stable(cfgPath) && (call.Set? ==> Settable(call.ref))
      modifies this
      ensures Stable(cfgPath) && Parse(cfgPath) == old(Parse(cfgPath))
    {
      StableStaysStable(cfgPath);
      match call {
        case Get(ref, active) =>
          var _, _ := GetVarRef(ref, active);
        case Set(ref, value, toActive) =>
          var _ := SetVarRef(ref, value, toActive);
      }
    }

    /** Any sequence of calls leaves a stable global path denoting the same components. */
    method RunCalls(calls: seq<Call>)
      requires Stable(cfgPath)
      requires forall i :: 0 <= i < |calls| && calls[i].Set? ==> Settable(calls[i].ref)
      modifies this
      ensures Stable(cfgPath) && Parse(cfgPath) == old(Parse(cfgPath))
    {
      ghost var p := Parse(cfgPath);
      var i := 0;
      while i < |calls|
        invariant 0 <= i <= |calls|
        invariant Stable(cfgPath) && Parse(cfgPath) == p
        invariant forall k :: i <= k < |calls| && calls[k].Set? ==> Settable(calls[k].ref)
      {
        ghost var before := ParentPath();
        RunCall(calls[i]);
        assert ParentPath() == before;
        i := i + 1;
      }
    }
  }
}
