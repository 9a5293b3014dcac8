/** Splitting the path of a rename or copy command into the path to copy from and the path to copy to. */
module RenamePaths {
  import opened Options
  import opened SlashPath
  import BlankText

  /**
    The fields of a path (`argz_create_sep`): empty fields are dropped, except that a slash at the very end leaves
    one empty field behind it.
  */
  function Fields(path: string): seq<string> {
    if path == "" then []
    else BlankText.Words(IsSlash, path) + if path[|path| - 1] == '/' then [""] else []
  }

  /** A vector of strings that is changed in place. */
  class Argz {
    var elems: seq<string>

    constructor (elems: seq<string>)
      ensures this.elems == elems
    {
      this.elems := elems;
    }

    /** `argz_pop`: walks to the last element and deletes it. */
    method Pop()
      modifies this
      ensures elems == if old(elems) == [] then [] else old(elems)[..|old(elems)| - 1]
    {
      var next, prev := 0, -1;
      while next < |elems|
        invariant 0 <= next <= |elems| && prev == next - 1
      {
        prev := next;
        next := next + 1;
      }
      if prev >= 0 {
        elems := elems[..prev] + elems[prev + 1..];
      }
    }

    /** `argz_add`. */
    method Add(s: string)
      modifies this
      ensures elems == old(elems) + [s]
    {
      elems := elems + [s];
    }

    /** `argz_insert` of an empty string in front, and `argz_stringify` with slashes. */
    method PathText() returns (path: string)
      requires elems != []
      modifies this
      ensures path == "/" + SlashJoin(old(elems))
    {
      var before := elems;
      elems := [""] + elems;
      path := SlashJoin(elems);
      assert elems[1..] == before;
    }
  }

  const SIZE_RANGE := 0x1_0000_0000_0000_0000

  /** `split_path`: fails if and only if there are fewer than three elements, since the count then wraps around. */
  method SplitPath(from: Argz, to: Argz) returns (ok: bool)
    requires from != to && to.elems == [] && |from.elems| < SIZE_RANGE
    modifies from, to
    ensures ok <==> |old(from.elems)| >= 3
    ensures ok ==> var n := |old(from.elems)|;
                   && from.elems == old(from.elems)[..n - 2]
                   && to.elems == old(from.elems)[..n - 3] + [old(from.elems)[n - 1]]
    ensures !ok ==> from.elems == old(from.elems)
  {
    var count := |from.elems|;
    var limit := (count - 3) % SIZE_RANGE;
    var i := 0;
    while i < limit
      invariant 0 <= i <= limit && i <= count
      invariant from.elems == old(from.elems) && to.elems == from.elems[..i]
    {
      if i == count {
        return false;
      }
      to.Add(from.elems[i]);
      i := i + 1;
    }
    while i < count
      invariant limit <= i <= count
    {
      i := i + 1;
    }
    to.Add(from.elems[i - 1]);
    from.Pop();
    from.Pop();
    ok := true;
  }

  /** The two paths that a list of fields stands for. */
  function PathsOf(fields: seq<string>): Option<(string, string)> {
    var n := |fields|;
    if n < 3 then None
    else Some(("/" + SlashJoin(fields[..n - 2]), "/" + SlashJoin(fields[..n - 3] + [fields[n - 1]])))
  }

  /** `make_paths`. */
  method MakePaths(path: string) returns (r: Option<(string, string)>)
    requires |path| < SIZE_RANGE - 1
    ensures r == PathsOf(Fields(path))
  {
    FieldsBound(path);
    var from := new Argz(Fields(path));
    var to := new Argz([]);
    var ok := SplitPath(from, to);
    if !ok {
      return None;
    }
    var fromPath := from.PathText();
    var toPath := to.PathText();
    r := Some((fromPath, toPath));
  }

  lemma {:induction false} WordsBound(path: string)
    ensures |BlankText.Words(IsSlash, path)| <= |path|
    decreases |path|
  {
    if path != "" {
      if IsSlash(path[0]) {
        WordsBound(path[1..]);
      } else {
        WordsBound(path[BlankText.RunLength(IsSlash, path)..]);
      }
    }
  }

  lemma FieldsBound(path: string)
    ensures |Fields(path)| <= |path| + 1
  {
    WordsBound(path);
  }

  /** The text of a path of components. */
  function PathText(first: bool, p: seq<string>, last: bool): string {
    SlashIf(first) + (SlashJoin(p) + SlashIf(last))
  }

  /** The fields of such a text are its components; a slash at the end adds an empty one. */
  lemma FieldsOfPath(first: bool, p: seq<string>, last: bool)
    requires p != [] && IsComponents(p)
    ensures Fields(PathText(first, p, last)) == p + if last then [""] else []
  {
    var s := SlashJoin(p) + SlashIf(last);
    JoinEnds(p);
    WordsOfSlashJoin(p, last);
    SlashIsSkipped(s);
    assert "" + s == s;
    LastSlash(SlashIf(first), SlashJoin(p), last);
  }

  lemma LastSlash(a: string, s: string, last: bool)
    requires s != "" && s[|s| - 1] != '/'
    ensures var t := a + (s + SlashIf(last)); t != "" && (t[|t| - 1] == '/' <==> last)
  {
  }

  /** p/x/q/y means copying p/x to p/y, and reading both paths gives their components. */
  lemma PathsAreRight(first: bool, p: seq<string>, x: string, q: string, y: string)
    requires IsComponents(p + [x, q, y])
    ensures PathsOf(Fields(PathText(first, p + [x, q, y], false))) ==
              Some((PathText(true, p + [x], false), PathText(true, p + [y], false)))
    ensures Fields(PathText(true, p + [x], false)) == p + [x]
    ensures Fields(PathText(true, p + [y], false)) == p + [y]
  {
    ComponentsOf(p, x, q, y);
    assert (p + [x, q, y]) + [] == p + [x, q, y];
    FieldsOfPath(first, p + [x, q, y], false);
    PathsOfFields(p, x, q, y);
    FieldsOfPath(true, p + [x], false);
    FieldsOfPath(true, p + [y], false);
    assert (p + [x]) + [] == p + [x] && (p + [y]) + [] == p + [y];
    NoLastSlash(SlashJoin(p + [x]));
    NoLastSlash(SlashJoin(p + [y]));
  }

  lemma ComponentsOf(p: seq<string>, x: string, q: string, y: string)
    requires IsComponents(p + [x, q, y])
    ensures IsComponents(p + [x]) && IsComponents(p + [y])
  {
    var c := p + [x, q, y];
    assert c[|p|] == x && c[|p| + 2] == y;
    assert forall i :: 0 <= i < |p| ==> c[i] == p[i];
  }

  lemma PathsOfFields(p: seq<string>, x: string, q: string, y: string)
    ensures PathsOf(p + [x, q, y]) == Some(("/" + SlashJoin(p + [x]), "/" + SlashJoin(p + [y])))
  {
    var c := p + [x, q, y];
    var n := |c|;
    assert c[..n - 2] == p + [x] && c[..n - 3] == p && c[n - 1] == y;
  }

  lemma NoLastSlash(s: string)
    ensures s + SlashIf(false) == s
  {
  }

  /** With fewer than three components there are no paths. */
  lemma TooFewComponents(first: bool, p: seq<string>)
    requires p != [] && IsComponents(p)
    ensures PathsOf(Fields(PathText(first, p, false))).None? <==> |p| < 3
  {
    FieldsOfPath(first, p, false);
  }

  /** A slash at the end counts as one more, empty component: p/x/q/ means copying p/x to p/. */
  lemma LastSlashIsEmptyTarget(first: bool, p: seq<string>, x: string, q: string)
    requires IsComponents(p + [x, q]) && p != []
    ensures PathsOf(Fields(PathText(first, p + [x, q], true))) ==
              Some((PathText(true, p + [x], false), PathText(true, p, true)))
  {
    var c := p + [x, q];
    FieldsOfPath(first, c, true);
    var f := c + [""];
    var n := |f|;
    assert f[..n - 2] == p + [x] && f[..n - 3] == p && f[n - 1] == "";
    NoLastSlash(SlashJoin(p + [x]));
    SlashJoinAppend(p, "");
    OneSlash(SlashJoin(p));
  }

  lemma OneSlash(s: string)
    ensures s + "/" + "" == s + SlashIf(true)
  {
  }
}
