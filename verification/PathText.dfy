/**
  Paths as text: the blank-separated level string of `Vyatta::Config`, and the
  shell quoting of command components.
*/
module PathText {
  import opened BlankText

  predicate IsBlank(c: char) {
    c == ' ' || c == '\t' || c == '\n' || c == '\r' || c as int == 11 || c as int == 12
  }

  /** A component that survives the level string and the quoting: not ".", no blanks, no quotes. */
  predicate PlainName(s: string) {
    && s != "" && s != "."
    && forall i :: 0 <= i < |s| ==> !IsBlank(s[i]) && s[i] != '\'' && s[i] != '\"'
  }

  predicate PlainPath(p: seq<string>) {
    forall i :: 0 <= i < |p| ==> PlainName(p[i])
  }

  function DropDots(p: seq<string>): seq<string> {
    if p == [] then []
    else if p[0] == "." then DropDots(p[1..])
    else [p[0]] + DropDots(p[1..])
  }

  /** The components of the level string followed by an empty relative path. */
  function PathComps(level: string): seq<string> {
    DropDots(Words(IsBlank, level + " "))
  }

  // ----- the level string denotes the path it was joined from

  lemma {:induction false} NoDots(p: seq<string>)
    requires PlainPath(p)
    ensures DropDots(p) == p
  {
    if p != [] {
      NoDots(p[1..]);
    }
  }

  /** Setting the level to a joined path and taking it apart again gives the path. */
  lemma LevelDenotesPath(p: seq<string>)
    requires PlainPath(p)
    ensures PathComps(Join(p)) == p
  {
    assert AreWords(IsBlank, p);
    WordsOfJoin(IsBlank, p, " ");
    NoDots(p);
  }

  lemma JoinIsInjective(p: seq<string>, q: seq<string>)
    requires PlainPath(p) && PlainPath(q)
    ensures Join(p) == Join(q) <==> p == q
  {
    LevelDenotesPath(p);
    LevelDenotesPath(q);
  }

  // ----- quoting

  predicate Wrapped(s: string, quote: char) {
    |s| >= 2 && s[0] == quote && s[|s| - 1] == quote
  }

  function Unwrap(s: string, quote: char): string {
    if Wrapped(s, quote) then s[1..|s| - 1] else s
  }

  /** Every single quote closes the quoting, is escaped, and opens it again. */
  function EscapeQuotes(s: string): string {
    if s == "" then ""
    else (if s[0] == '\'' then "'\\''" else [s[0]]) + EscapeQuotes(s[1..])
  }

  function QuoteName(s: string): string {
    var t := EscapeQuotes(Unwrap(s, '\''));
    if Wrapped(t, '\'') then t
    else "'" + Unwrap(t, '\"') + "'"
  }

  function QuotePath(p: seq<string>): (r: seq<string>)
    ensures |r| == |p|
  {
    seq(|p|, i requires 0 <= i < |p| => QuoteName(p[i]))
  }

  function UnquotePath(p: seq<string>): (r: seq<string>)
    ensures |r| == |p|
  {
    seq(|p|, i requires 0 <= i < |p| => Unwrap(p[i], '\''))
  }

  lemma {:induction false} NothingToEscape(s: string)
    requires forall i :: 0 <= i < |s| ==> s[i] != '\''
    ensures EscapeQuotes(s) == s
  {
    if s != "" {
      NothingToEscape(s[1..]);
      assert [s[0]] + s[1..] == s;
    }
  }

  /** Plain components are wrapped in single quotes, and unwrapping gives them back. */
  lemma QuotedPlainName(s: string)
    requires PlainName(s)
    ensures QuoteName(s) == "'" + s + "'"
    ensures Unwrap(QuoteName(s), '\'') == s
    ensures Unwrap(s, '\"') == s
  {
    assert s[0] != '\'' && s[0] != '\"';
    NothingToEscape(s);
    assert ("'" + s + "'")[1..|s| + 1] == s;
  }

  lemma UnquoteOfQuote(p: seq<string>)
    requires PlainPath(p)
    ensures UnquotePath(QuotePath(p)) == p
  {
    forall i | 0 <= i < |p|
      ensures UnquotePath(QuotePath(p))[i] == p[i]
    {
      QuotedPlainName(p[i]);
    }
  }

  // ----- blanks

  const BLANKS := " \t\n\r" + [11 as char, 12 as char]

  /** The blanks are those of `isspace`. */
  lemma BlankIff(c: char)
    ensures IsBlank(c) <==> c in BLANKS
  {
  }

  /** Every single quote is written as quote, backslash, quote, quote, and nothing else is changed. */
  lemma EscapedCharacters(c: char, s: string)
    ensures c != '\'' ==> EscapeQuotes([c] + s) == [c] + EscapeQuotes(s)
    ensures EscapeQuotes("'" + s) == "'\\''" + EscapeQuotes(s)
  {
    assert ([c] + s)[1..] == s && ("'" + s)[1..] == s;
  }
}
