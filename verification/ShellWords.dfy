/**
  How a shell reads words with quotes (sections 2.2.1 and 2.2.2 of the Shell Command Language of IEEE Std 1003.1).
*/
module ShellWords {
  import opened Options
  import opened PathText

  function Escaped(c: char): string {
    if c == '\'' then "'\\''" else [c]
  }

  /** Outside of a word, in an unquoted part of a word, or in single quotes. */
  datatype Mode = Between | Plain(word: string) | InQuotes(word: string)

  predicate IsStop(c: char) {
    c == ')' || c == ';'
  }

  /**
    The words up to an unquoted `stop`, and the text behind that. Unquoted characters that could mean anything else
    are refused.
  */
  function ReadWords(stop: char, text: string, mode: Mode): Option<(seq<string>, string)>
    decreases |text|
  {
    if text == "" then None
    else
      var c, rest := text[0], text[1..];
      match mode
      case InQuotes(w) =>
        if c == '\'' then ReadWords(stop, rest, Plain(w)) else ReadWords(stop, rest, InQuotes(w + [c]))
      case Between =>
        if c == ' ' then ReadWords(stop, rest, Between)
        else if c == stop then Some(([], rest))
        else if c == '\'' then ReadWords(stop, rest, InQuotes(""))
        else if c == '\\' && rest != "" && rest[0] != '\n' then ReadWords(stop, rest[1..], Plain([rest[0]]))
        else None
      case Plain(w) =>
        if c == ' ' then FirstWord(w, ReadWords(stop, rest, Between))
        else if c == stop then Some(([w], rest))
        else if c == '\'' then ReadWords(stop, rest, InQuotes(w))
        else if c == '\\' && rest != "" && rest[0] != '\n' then ReadWords(stop, rest[1..], Plain(w + [rest[0]]))
        else None
  }

  function FirstWord(w: string, r: Option<(seq<string>, string)>): Option<(seq<string>, string)> {
    if r.None? then None else Some(([w] + r.value.0, r.value.1))
  }

  lemma ReadQuotedChar(stop: char, c: char, text: string, w: string)
    requires IsStop(stop)
    ensures ReadWords(stop, Escaped(c) + text, InQuotes(w)) == ReadWords(stop, text, InQuotes(w + [c]))
  {
    var s := Escaped(c) + text;
    if c == '\'' {
      assert s[0] == '\'' && s[1] == '\\' && s[2] == '\'' && s[3] == '\'';
      var t, u, v := s[1..], s[3..], s[4..];
      assert t[0] == '\\' && t[1..] == s[2..] && t[1..][1..] == u && u[0] == '\'' && u[1..] == v && v == text;
      assert ReadWords(stop, s, InQuotes(w)) == ReadWords(stop, t, Plain(w));
      assert ReadWords(stop, t, Plain(w)) == ReadWords(stop, u, Plain(w + ['\'']));
      assert ReadWords(stop, u, Plain(w + ['\''])) == ReadWords(stop, v, InQuotes(w + ['\'']));
    } else {
      assert s[0] == c && s[1..] == text;
    }
  }

  lemma EscapeHead(x: string, text: string)
    requires x != ""
    ensures EscapeQuotes(x) + text == Escaped(x[0]) + (EscapeQuotes(x[1..]) + text)
  {
  }

  lemma Regrouped(w: string, x: string)
    requires x != ""
    ensures (w + [x[0]]) + x[1..] == w + x
  {
  }

  lemma {:induction false} ReadEscaped(stop: char, x: string, text: string, w: string)
    requires IsStop(stop)
    ensures ReadWords(stop, EscapeQuotes(x) + text, InQuotes(w)) == ReadWords(stop, text, InQuotes(w + x))
    decreases |x|
  {
    if x == "" {
      assert EscapeQuotes(x) + text == text && w + x == w;
    } else {
      var c, tail := x[0], x[1..];
      EscapeHead(x, text);
      ReadQuotedChar(stop, c, EscapeQuotes(tail) + text, w);
      ReadEscaped(stop, tail, text, w + [c]);
      Regrouped(w, x);
    }
  }

  function Item(x: string): string {
    "'" + EscapeQuotes(x) + "' "
  }

  lemma ReadItem(stop: char, x: string, text: string)
    requires IsStop(stop)
    ensures ReadWords(stop, Item(x) + text, Between) == FirstWord(x, ReadWords(stop, text, Between))
  {
    var behind := "' " + text;
    var s := Item(x) + text;
    assert s[0] == '\'' && s[1..] == EscapeQuotes(x) + behind;
    ReadEscaped(stop, x, behind, "");
    assert "" + x == x;
    assert behind[0] == '\'' && behind[1..][0] == ' ' && behind[1..][1..] == text;
    assert ReadWords(stop, behind, InQuotes(x)) == ReadWords(stop, behind[1..], Plain(x));
  }

  // ----- a text that is one word

  /** The only word of a text, as a shell reads it. */
  function OnlyWord(text: string): Option<string> {
    match ReadWords(';', text + ";", Between)
    case None => None
    case Some(r) => if |r.0| == 1 && r.1 == "" then Some(r.0[0]) else None
  }

  /** A quoted plain name is read as the name. */
  lemma ReadQuotedName(s: string)
    requires PlainName(s)
    ensures OnlyWord(QuoteName(s)) == Some(s)
  {
    QuotedPlainName(s);
    NothingToEscape(s);
    var behind := "';";
    var text := QuoteName(s) + ";";
    assert text[0] == '\'' && text[1..] == EscapeQuotes(s) + behind;
    ReadEscaped(';', s, behind, "");
    assert "" + s == s;
    assert behind[0] == '\'' && behind[1..] == ";" && ";"[1..] == "";
    assert ReadWords(';', behind, InQuotes(s)) == ReadWords(';', ";", Plain(s));
  }
}
