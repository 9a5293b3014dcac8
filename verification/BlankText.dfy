/** Text as a list of words: splitting at separators, and joining with blanks. */
module BlankText {

  type Separator = char -> bool

  /** The words joined with single blanks. */
  function Join(p: seq<string>): string {
    if p == [] then ""
    else if |p| == 1 then p[0]
    else p[0] + " " + Join(p[1..])
  }

  /** The length of the leading run of characters that are no separators. */
  function RunLength(sep: Separator, s: string): (n: nat)
    ensures n <= |s|
    ensures forall i :: 0 <= i < n ==> !sep(s[i])
    ensures n < |s| ==> sep(s[n])
  {
    if s == "" || sep(s[0]) then 0 else 1 + RunLength(sep, s[1..])
  }

  /** The maximal runs of characters that are no separators. */
  function Words(sep: Separator, s: string): seq<string>
    decreases |s|
  {
    if s == "" then []
    else if sep(s[0]) then Words(sep, s[1..])
    else
      var n := RunLength(sep, s);
      [s[..n]] + Words(sep, s[n..])
  }

  predicate IsWord(sep: Separator, s: string) {
    s != "" && forall i :: 0 <= i < |s| ==> !sep(s[i])
  }

  predicate AreWords(sep: Separator, p: seq<string>) {
    forall i :: 0 <= i < |p| ==> IsWord(sep, p[i])
  }

  lemma RunOfWord(sep: Separator, word: string, rest: string)
    requires IsWord(sep, word) && (rest == "" || sep(rest[0]))
    ensures RunLength(sep, word + rest) == |word|
  {
    var s := word + rest;
    assert rest != "" ==> s[|word|] == rest[0];
    assert forall i :: 0 <= i < |word| ==> s[i] == word[i];
  }

  lemma FirstWord(sep: Separator, word: string, rest: string)
    requires IsWord(sep, word) && (rest == "" || sep(rest[0]))
    ensures Words(sep, word + rest) == [word] + Words(sep, rest)
  {
    var s := word + rest;
    RunOfWord(sep, word, rest);
    assert s[0] == word[0];
    assert s[..|word|] == word && s[|word|..] == rest;
  }

  /** Splitting joined words gives the words, with or without blanks at the end. */
  lemma {:induction false} WordsOfJoin(sep: Separator, p: seq<string>, tail: string)
    requires sep(' ') && AreWords(sep, p) && tail in {"", " "}
    ensures Words(sep, Join(p) + tail) == p
    decreases |p|
  {
    assert Words(sep, tail) == [] by {
      if tail == " " {
        assert Words(sep, " ") == Words(sep, " "[1..]);
      }
    }
    if p == [] {
      assert Join(p) + tail == tail;
    } else if |p| == 1 {
      FirstWord(sep, p[0], tail);
    } else {
      var rest := " " + (Join(p[1..]) + tail);
      assert Join(p) + tail == p[0] + rest;
      FirstWord(sep, p[0], rest);
      assert rest[1..] == Join(p[1..]) + tail;
      WordsOfJoin(sep, p[1..], tail);
    }
  }

  lemma {:induction false} JoinAppend(p: seq<string>, v: string)
    requires p != []
    ensures Join(p + [v]) == Join(p) + " " + v
    decreases |p|
  {
    var q := p + [v];
    assert q[1..] == p[1..] + [v];
    if |p| == 1 {
      assert q[1..] == [v];
      assert Join(q) == p[0] + " " + v;
    } else {
      JoinAppend(p[1..], v);
      assert Join(q) == p[0] + " " + Join(q[1..]);
      assert Join(q) == p[0] + " " + (Join(p[1..]) + " " + v);
    }
  }

  /** Words are joined with one blank between, and a single word is itself. */
  lemma JoinOfTwo(u: string, p: seq<string>)
    requires p != []
    ensures Join([u] + p) == u + " " + Join(p) && Join([u]) == u && Join([]) == ""
  {
    assert ([u] + p)[1..] == p;
  }
}
