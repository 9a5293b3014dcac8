/** Paths whose components are separated by slashes. */
module SlashPath {
  import opened BlankText

  function SlashJoin(p: seq<string>): string {
    if p == [] then ""
    else if |p| == 1 then p[0]
    else p[0] + "/" + SlashJoin(p[1..])
  }

  predicate SlashFree(s: string) {
    forall i :: 0 <= i < |s| ==> s[i] != '/'
  }

  predicate IsComponents(p: seq<string>) {
    forall i :: 0 <= i < |p| ==> p[i] != "" && SlashFree(p[i])
  }

  function SlashIf(b: bool): string {
    if b then "/" else ""
  }

  predicate IsSlash(c: char) {
    c == '/'
  }

  lemma {:induction false} JoinEnds(p: seq<string>)
    requires p != [] && IsComponents(p)
    ensures var s := SlashJoin(p); s != "" && s[0] != '/' && s[|s| - 1] != '/'
    decreases |p|
  {
    assert SlashFree(p[0]) && p[0] != "";
    if |p| > 1 {
      JoinEnds(p[1..]);
      assert SlashJoin(p) == (p[0] + "/") + SlashJoin(p[1..]);
    }
  }

  lemma SlashIsSkipped(s: string)
    ensures Words(IsSlash, "/" + s) == Words(IsSlash, s)
  {
    assert ("/" + s)[1..] == s;
  }

  /** The components come back, with or without a slash at the end. */
  lemma {:induction false} WordsOfSlashJoin(p: seq<string>, last: bool)
    requires IsComponents(p)
    ensures Words(IsSlash, SlashJoin(p) + SlashIf(last)) == p
    decreases |p|
  {
    var tail := SlashIf(last);
    assert Words(IsSlash, tail) == [] by {
      SlashIsSkipped("");
      assert "/" + "" == "/";
    }
    if p == [] {
      assert SlashJoin(p) + tail == tail;
    } else {
      assert IsWord(IsSlash, p[0]) by {
        assert SlashFree(p[0]);
      }
      if |p| == 1 {
        FirstWord(IsSlash, p[0], tail);
      } else {
        var rest := SlashJoin(p[1..]) + tail;
        assert SlashJoin(p) + tail == p[0] + ("/" + rest);
        FirstWord(IsSlash, p[0], "/" + rest);
        SlashIsSkipped(rest);
        WordsOfSlashJoin(p[1..], last);
      }
    }
  }

  lemma {:induction false} SlashJoinAppend(p: seq<string>, v: string)
    requires p != []
    ensures SlashJoin(p + [v]) == SlashJoin(p) + "/" + v
    decreases |p|
  {
    var q := p + [v];
    assert q[1..] == p[1..] + [v];
    if |p| == 1 {
      assert q[1..] == [v];
    } else {
      SlashJoinAppend(p[1..], v);
      Regroup(p[0], SlashJoin(p[1..]), v);
    }
  }

  lemma Regroup(a: string, b: string, c: string)
    ensures a + "/" + (b + "/" + c) == (a + "/" + b) + "/" + c
  {
  }

  /** Components are joined with one slash between, and a single component is itself. */
  lemma SlashJoinOfTwo(u: string, p: seq<string>)
    requires p != []
    ensures SlashJoin([u] + p) == u + "/" + SlashJoin(p) && SlashJoin([u]) == u && SlashJoin([]) == ""
    ensures SlashIf(true) == "/" && SlashIf(false) == ""
  {
    assert ([u] + p)[1..] == p;
  }
}
