/** The shell assignments for completion: strings in single quotes inside array assignments, as a shell reads them. */
module CompletionEnv {
  import opened Options
  import opened Sequences
  import opened PathText
  import opened ShellWords

  // ----- escaping

  lemma {:induction false} EscapeSum(a: string, b: string)
    ensures EscapeQuotes(a + b) == EscapeQuotes(a) + EscapeQuotes(b)
  {
    if a == "" {
      assert a + b == b;
    } else {
      assert (a + b)[1..] == a[1..] + b;
      EscapeSum(a[1..], b);
    }
  }

  lemma EscapeStep(s: string, k: nat)
    requires k < |s|
    ensures EscapeQuotes(s[..k + 1]) == EscapeQuotes(s[..k]) + Escaped(s[k])
  {
    assert s[..k + 1] == s[..k] + [s[k]];
    EscapeSum(s[..k], [s[k]]);
    assert EscapeQuotes([s[k]]) == Escaped(s[k]) + EscapeQuotes([s[k]][1..]);
  }

  /** `std::string::find` of a single quote. */
  method FindQuote(s: string, start: nat) returns (pos: Option<nat>)
    requires start <= |s|
    ensures pos.None? ==> forall i :: start <= i < |s| ==> s[i] != '\''
    ensures pos.Some? ==> start <= pos.value < |s| && s[pos.value] == '\''
                          && forall i :: start <= i < pos.value ==> s[i] != '\''
  {
    var i := start;
    while i < |s|
      invariant start <= i <= |s| && forall k :: start <= k < i ==> s[k] != '\''
    {
      if s[i] == '\'' {
        return Some(i);
      }
      i := i + 1;
    }
    pos := None;
  }

  lemma EscapeFirstQuote(rest: string, n: nat)
    requires n < |rest| && rest[n] == '\'' && forall i :: 0 <= i < n ==> rest[i] != '\''
    ensures EscapeQuotes(rest) == (rest[..n] + "'\\''") + EscapeQuotes(rest[n + 1..])
  {
    assert rest == rest[..n] + ("'" + rest[n + 1..]);
    EscapeAtQuote(rest[..n], rest[n + 1..]);
  }

  lemma EscapeAtQuote(head: string, tail: string)
    requires forall i :: 0 <= i < |head| ==> head[i] != '\''
    ensures EscapeQuotes(head + ("'" + tail)) == (head + "'\\''") + EscapeQuotes(tail)
  {
    EscapeSum(head, "'" + tail);
    NothingToEscape(head);
    EscapedCharacters('a', tail);
    Associative(head, "'\\''", EscapeQuotes(tail));
  }
  /** Replaces the quote at `sq`; `e` is what is escaped already, and `rest` is what is behind it. */
  method ReplaceQuote(str: string, sq: nat, ghost e: string, ghost rest: string)
    returns (r: string, ghost e': string, ghost rest': string)
    requires str == e + rest && |e| <= sq < |str| && str[sq] == '\''
    requires forall i :: |e| <= i < sq ==> str[i] != '\''
    ensures r == e' + rest' && |e'| == sq + 4 && |rest'| < |rest|
    ensures e + EscapeQuotes(rest) == e' + EscapeQuotes(rest')
  {
    ghost var n := sq - |e|;
    assert forall i :: 0 <= i < |rest| ==> rest[i] == str[|e| + i];
    EscapeFirstQuote(rest, n);
    e', rest' := e + (rest[..n] + "'\\''"), rest[n + 1..];
    r := str[..sq] + "'\\''" + str[sq + 1..];
    assert str[..sq] == e + rest[..n];
    assert str[sq + 1..] == rest';
  }

  /** `shell_escape_squotes`: finds and replaces quotes from left to right, never looking at a replacement again. */
  method ShellEscape(s: string) returns (str: string)
    ensures str == EscapeQuotes(s)
  {
    str := s;
    var sq := 0;
    ghost var e, rest := "", s;
    var pos := FindQuote(str, sq);
    while pos.Some?
      invariant str == e + rest && sq == |e| && EscapeQuotes(s) == e + EscapeQuotes(rest)
      invariant pos.None? ==> forall i :: sq <= i < |str| ==> str[i] != '\''
      invariant pos.Some? ==> sq <= pos.value < |str| && str[pos.value] == '\''
                              && forall i :: sq <= i < pos.value ==> str[i] != '\''
      decreases |rest|
    {
      str, e, rest := ReplaceQuote(str, pos.value, e, rest);
      sq := pos.value + 4;
      pos := FindQuote(str, sq);
    }
    assert forall i :: 0 <= i < |rest| ==> rest[i] == str[sq + i];
    NothingToEscape(rest);
  }

  // ----- trimming

  function TrimLeft(s: string): string {
    if s != "" && IsBlank(s[0]) then TrimLeft(s[1..]) else s
  }

  function TrimRight(s: string): string {
    if s != "" && IsBlank(s[|s| - 1]) then TrimRight(s[..|s| - 1]) else s
  }

  function Trim(s: string): string {
    TrimRight(TrimLeft(s))
  }

  predicate AllBlank(s: string) {
    forall i :: 0 <= i < |s| ==> IsBlank(s[i])
  }

  lemma {:induction false} TrimLeftIs(s: string) returns (lead: string)
    ensures s == lead + TrimLeft(s) && AllBlank(lead)
    ensures TrimLeft(s) != "" ==> !IsBlank(TrimLeft(s)[0])
  {
    lead := "";
    if s != "" && IsBlank(s[0]) {
      var rest := TrimLeftIs(s[1..]);
      lead := [s[0]] + rest;
    }
  }

  lemma {:induction false} TrimRightIs(s: string) returns (trail: string)
    ensures s == TrimRight(s) + trail && AllBlank(trail)
    ensures TrimRight(s) != "" ==> !IsBlank(TrimRight(s)[|TrimRight(s)| - 1])
  {
    trail := "";
    if s != "" && IsBlank(s[|s| - 1]) {
      var rest := TrimRightIs(s[..|s| - 1]);
      trail := rest + [s[|s| - 1]];
    }
  }

  /** The trimmed string is what is between the blanks at both ends. */
  lemma TrimIsCore(s: string) returns (lead: string, trail: string)
    ensures s == lead + Trim(s) + trail && AllBlank(lead) && AllBlank(trail)
    ensures Trim(s) != "" ==> !IsBlank(Trim(s)[0]) && !IsBlank(Trim(s)[|Trim(s)| - 1])
  {
    lead := TrimLeftIs(s);
    trail := TrimRightIs(TrimLeft(s));
    if Trim(s) != "" {
      assert TrimLeft(s)[0] == Trim(s)[0];
    }
  }

  lemma {:induction false} EscapeTrimLeft(s: string)
    ensures TrimLeft(EscapeQuotes(s)) == EscapeQuotes(TrimLeft(s))
  {
    if s != "" {
      var e := EscapeQuotes(s);
      assert e == Escaped(s[0]) + EscapeQuotes(s[1..]);
      assert e[0] == s[0];
      if IsBlank(s[0]) {
        assert e[1..] == EscapeQuotes(s[1..]);
        EscapeTrimLeft(s[1..]);
      }
    }
  }

  lemma {:induction false} EscapeTrimRight(s: string)
    ensures TrimRight(EscapeQuotes(s)) == EscapeQuotes(TrimRight(s))
  {
    if s != "" {
      var n := |s| - 1;
      EscapeStep(s, n);
      assert s[..n + 1] == s;
      var e := EscapeQuotes(s);
      assert e[|e| - 1] == s[n];
      if IsBlank(s[n]) {
        assert e[..|e| - 1] == EscapeQuotes(s[..n]);
        EscapeTrimRight(s[..n]);
      }
    }
  }

  /** Escaping commutes with trimming. */
  lemma EscapeTrim(s: string)
    ensures Trim(EscapeQuotes(s)) == EscapeQuotes(Trim(s))
  {
    EscapeTrimLeft(s);
    EscapeTrimRight(TrimLeft(s));
  }

  /** Erases blanks at the front, then at the end. */
  method EraseBlanks(s: string) returns (str: string)
    ensures str == Trim(s)
  {
    str := s;
    while |str| > 0 && IsBlank(str[0])
      invariant TrimLeft(str) == TrimLeft(s)
      decreases |str|
    {
      str := str[1..];
    }
    while |str| > 0 && IsBlank(str[|str| - 1])
      invariant TrimRight(str) == Trim(s)
      decreases |str|
    {
      str := str[..|str| - 1];
    }
  }

  // ----- arrays

  /** The items of an array, each quoted and followed by a blank. */
  function Items(xs: seq<string>): string {
    if xs == [] then "" else Item(xs[0]) + Items(xs[1..])
  }

  lemma {:induction false} ReadItems(xs: seq<string>, text: string)
    ensures ReadWords(')', Items(xs) + (")" + text), Between) == Some((xs, text))
  {
    if xs == [] {
      assert Items(xs) + (")" + text) == ")" + text;
      assert (")" + text)[1..] == text;
    } else {
      var rest := Items(xs[1..]) + (")" + text);
      assert Items(xs) + (")" + text) == Item(xs[0]) + rest;
      ReadItem(')', xs[0], rest);
      ReadItems(xs[1..], text);
      assert [xs[0]] + xs[1..] == xs;
    }
  }

  lemma {:induction false} ItemsAppend(xs: seq<string>, x: string)
    ensures Items(xs + [x]) == Items(xs) + Item(x)
  {
    if xs == [] {
      assert xs + [x] == [x] && [x][1..] == [];
    } else {
      assert (xs + [x])[1..] == xs[1..] + [x];
      ItemsAppend(xs[1..], x);
    }
  }

  lemma ItemsStep(xs: seq<string>, i: nat)
    requires i < |xs|
    ensures Items(xs[..i + 1]) == Items(xs[..i]) + Item(xs[i])
  {
    assert xs[..i + 1] == xs[..i] + [xs[i]];
    ItemsAppend(xs[..i], xs[i]);
  }

  function Trimmed(xs: seq<string>): (r: seq<string>)
    ensures |r| == |xs|
  {
    seq(|xs|, i requires 0 <= i < |xs| => Trim(xs[i]))
  }

  // ----- the assignments

  const COMP_VALS := "_cli_shell_api_comp_values"
  const LAST_COMP_VAL := "_cli_shell_api_last_comp_val"
  const COMP_HELP := "_cli_shell_api_comp_help"
  const HELP_ITEMS := "_cli_shell_api_hitems"
  const HELP_STRS := "_cli_shell_api_hstrs"

  function Strip(prefix: string, text: string): Option<string> {
    if prefix <= text then Some(text[|prefix|..]) else None
  }

  lemma StripPrefix(prefix: string, text: string)
    ensures Strip(prefix, prefix + text) == Some(text)
  {
    assert (prefix + text)[..|prefix|] == prefix;
    assert (prefix + text)[|prefix|..] == text;
  }

  /** The text behind `name` and `op`. */
  function StripName(name: string, op: string, text: string): Option<string> {
    match Strip(name, text)
    case None => None
    case Some(t) => Strip(op, t)
  }

  lemma StripNameOf(name: string, op: string, text: string)
    ensures StripName(name, op, name + (op + text)) == Some(text)
  {
    StripPrefix(name, op + text);
    StripPrefix(op, text);
  }

  /** Reads `name=(words); `. */
  function ReadArray(name: string, text: string): Option<(seq<string>, string)> {
    match StripName(name, "=(", text)
    case None => None
    case Some(t) =>
      match ReadWords(')', t, Between)
      case None => None
      case Some(r) => WithRest(r.0, Strip("; ", r.1))
  }

  function WithRest<T>(x: T, rest: Option<string>): Option<(T, string)> {
    if rest.None? then None else Some((x, rest.value))
  }

  function Array(name: string, xs: seq<string>, rest: string): string {
    name + ("=(" + (Items(xs) + (")" + ("; " + rest))))
  }

  lemma ReadArrayOf(name: string, xs: seq<string>, rest: string)
    ensures ReadArray(name, Array(name, xs, rest)) == Some((xs, rest))
  {
    StripNameOf(name, "=(", Items(xs) + (")" + ("; " + rest)));
    ReadItems(xs, "; " + rest);
    StripPrefix("; ", rest);
  }

  /** Reads `name=word; `. */
  function ReadScalar(name: string, text: string): Option<(string, string)> {
    match StripName(name, "=", text)
    case None => None
    case Some(t) =>
      match ReadWords(';', t, Between)
      case None => None
      case Some(r) => if |r.0| == 1 then WithRest(r.0[0], Strip(" ", r.1)) else None
  }

  function QuotedWord(x: string, rest: string): string {
    "'" + (EscapeQuotes(x) + ("'" + (";" + rest)))
  }

  lemma ReadQuotedWord(x: string, rest: string)
    ensures ReadWords(';', QuotedWord(x, rest), Between) == Some(([x], rest))
  {
    var behind := "'" + (";" + rest);
    var s := QuotedWord(x, rest);
    assert s[0] == '\'' && s[1..] == EscapeQuotes(x) + behind;
    ReadEscaped(';', x, behind, "");
    assert "" + x == x;
    assert behind[0] == '\'' && behind[1..][0] == ';' && behind[1..][1..] == rest;
    assert ReadWords(';', behind, InQuotes(x)) == ReadWords(';', behind[1..], Plain(x));
  }

  function Scalar(name: string, x: string, rest: string): string {
    name + ("=" + QuotedWord(x, " " + rest))
  }

  lemma ReadScalarOf(name: string, x: string, rest: string)
    ensures ReadScalar(name, Scalar(name, x, rest)) == Some((x, rest))
  {
    StripNameOf(name, "=", QuotedWord(x, " " + rest));
    ReadQuotedWord(x, " " + rest);
    StripPrefix(" ", rest);
  }

  /** Reads `name=true; ` or `name=false; `. */
  function ReadFlag(name: string, text: string): Option<(bool, string)> {
    match StripName(name, "=", text)
    case None => None
    case Some(t) =>
      if Strip("true; ", t).Some? then WithRest(true, Strip("true; ", t))
      else WithRest(false, Strip("false; ", t))
  }

  function FlagText(b: bool): string {
    if b then "true; " else "false; "
  }

  function Flag(name: string, b: bool, rest: string): string {
    name + ("=" + (FlagText(b) + rest))
  }

  lemma ReadFlagOf(name: string, b: bool, rest: string)
    ensures ReadFlag(name, Flag(name, b, rest)) == Some((b, rest))
  {
    StripNameOf(name, "=", FlagText(b) + rest);
    StripPrefix(FlagText(b), rest);
    if !b {
      assert ("false; " + rest)[0] == 'f';
    }
  }

  // ----- the environment

  datatype Help = Help(lastIsValue: bool, compHelp: string, items: seq<string>, strs: seq<string>)

  /** Everything behind the array of values. */
  function HelpText(h: Help): string {
    Flag(LAST_COMP_VAL, h.lastIsValue,
         Scalar(COMP_HELP, h.compHelp, Array(HELP_ITEMS, h.items, Array(HELP_STRS, h.strs, ""))))
  }

  function ReadHelp(text: string): Option<Help> {
    match ReadFlag(LAST_COMP_VAL, text)
    case None => None
    case Some(flag) =>
      match ReadScalar(COMP_HELP, flag.1)
      case None => None
      case Some(help) =>
        match ReadArray(HELP_ITEMS, help.1)
        case None => None
        case Some(items) =>
          match ReadArray(HELP_STRS, items.1)
          case None => None
          case Some(strs) => if strs.1 == "" then Some(Help(flag.0, help.0, items.0, strs.0)) else None
  }

  lemma ReadHelpText(h: Help)
    ensures ReadHelp(HelpText(h)) == Some(h)
  {
    var strs := Array(HELP_STRS, h.strs, "");
    var items := Array(HELP_ITEMS, h.items, strs);
    var help := Scalar(COMP_HELP, h.compHelp, items);
    ReadFlagOf(LAST_COMP_VAL, h.lastIsValue, help);
    ReadScalarOf(COMP_HELP, h.compHelp, items);
    ReadArrayOf(HELP_ITEMS, h.items, strs);
    ReadArrayOf(HELP_STRS, h.strs, "");
  }

  /** `compString` is a command of the template, which the shell runs inside the first array. */
  function Environment(vals: seq<string>, compString: string, h: Help): string {
    COMP_VALS + ("=(" + (Items(vals) + (compString + (")" + ("; " + HelpText(h))))))
  }

  function ReadEnvironment(text: string): Option<(seq<string>, Help)> {
    match ReadArray(COMP_VALS, text)
    case None => None
    case Some(vals) =>
      match ReadHelp(vals.1)
      case None => None
      case Some(h) => Some((vals.0, h))
  }

  /** Without a command in the template, the shell reads back every string. */
  lemma EnvironmentCanBeRead(vals: seq<string>, h: Help)
    ensures ReadEnvironment(Environment(vals, "", h)) == Some((vals, h))
  {
    ReadArrayOf(COMP_VALS, vals, HelpText(h));
    ReadHelpText(h);
    NoCommand(")" + ("; " + HelpText(h)));
    assert Environment(vals, "", h) == Array(COMP_VALS, vals, HelpText(h));
  }

  lemma NoCommand(text: string)
    ensures "" + text == text
  {
  }

  // ----- the loops

  method EmitValues(vals: seq<string>) returns (text: string)
    ensures text == Items(vals)
  {
    text := "";
    var i := 0;
    while i < |vals|
      invariant 0 <= i <= |vals| && text == Items(vals[..i])
    {
      var escaped := ShellEscape(vals[i]);
      ItemsStep(vals, i);
      text := text + ("'" + escaped + "' ");
      i := i + 1;
    }
    assert vals[..|vals|] == vals;
  }

  /** One item of a help array: escaped first and trimmed afterwards. */
  method EmitTrimmed(x: string) returns (text: string)
    ensures text == Item(Trim(x))
  {
    var escaped := ShellEscape(x);
    var trimmed := EraseBlanks(escaped);
    EscapeTrim(x);
    text := "'" + trimmed + "' ";
  }

  function Firsts(pairs: seq<(string, string)>): (r: seq<string>)
    ensures |r| == |pairs|
  {
    seq(|pairs|, i requires 0 <= i < |pairs| => pairs[i].0)
  }

  function Seconds(pairs: seq<(string, string)>): (r: seq<string>)
    ensures |r| == |pairs|
  {
    seq(|pairs|, i requires 0 <= i < |pairs| => pairs[i].1)
  }

  /** The two help arrays grow side by side. */
  method EmitPairs(pairs: seq<(string, string)>) returns (items: string, strs: string)
    ensures items == Items(Trimmed(Firsts(pairs))) && strs == Items(Trimmed(Seconds(pairs)))
  {
    items, strs := "", "";
    ghost var xs, ys := Trimmed(Firsts(pairs)), Trimmed(Seconds(pairs));
    var i := 0;
    while i < |pairs|
      invariant 0 <= i <= |pairs| && items == Items(xs[..i]) && strs == Items(ys[..i])
    {
      var item := EmitTrimmed(pairs[i].0);
      var str := EmitTrimmed(pairs[i].1);
      ItemsStep(xs, i);
      ItemsStep(ys, i);
      items, strs := items + item, strs + str;
      i := i + 1;
    }
    assert xs[..|pairs|] == xs && ys[..|pairs|] == ys;
  }

  // Regrouping concatenations, with the parts as variables.

  lemma Regroup3(a: string, b: string, c: string, rest: string)
    ensures (a + b + c) + rest == a + (b + (c + rest))
  {
  }

  lemma Regroup4(a: string, b: string, c: string, d: string, rest: string)
    ensures (a + b + c + d) + rest == a + (b + (c + (d + rest)))
  {
  }

  lemma Regroup5(a: string, b: string, c: string, d: string, e: string)
    ensures a + b + c + d + e == a + (b + (c + (d + (e + ""))))
  {
  }

  /** An assignment of an array, as it is built and as it is read. */
  lemma ArrayText(name: string, items: string, rest: string)
    ensures (name + "=(" + items + "); ") + rest == name + ("=(" + (items + (")" + ("; " + rest))))
  {
    Regroup4(name, "=(", items, "); ", rest);
    assert "); " + rest == ")" + ("; " + rest);
  }

  lemma ScalarText(name: string, help: string, rest: string)
    ensures (name + "='" + help + "'; ") + rest == name + ("=" + ("'" + (help + ("'" + (";" + (" " + rest))))))
  {
    Regroup4(name, "='", help, "'; ", rest);
    assert "'; " + rest == "'" + (";" + (" " + rest));
    assert "='" + (help + ("'; " + rest)) == "=" + ("'" + (help + ("'; " + rest)));
  }

  /** The assignments behind the array of values. */
  method EmitHelp(lastIsValue: bool, compHelp: string, pairs: seq<(string, string)>)
      returns (flag: string, help: string, items: string, strs: string)
    ensures flag + (help + (items + (strs + ""))) ==
              HelpText(Help(lastIsValue, compHelp, Trimmed(Firsts(pairs)), Trimmed(Seconds(pairs))))
  {
    var escaped := ShellEscape(compHelp);
    items, strs := EmitPairs(pairs);
    ghost var s := Array(HELP_STRS, Trimmed(Seconds(pairs)), "");
    ghost var i := Array(HELP_ITEMS, Trimmed(Firsts(pairs)), s);
    ArrayText(HELP_STRS, strs, "");
    ArrayText(HELP_ITEMS, items, s);
    ScalarText(COMP_HELP, escaped, i);
    Regroup3(LAST_COMP_VAL, "=", FlagText(lastIsValue), Scalar(COMP_HELP, compHelp, i));
    flag := LAST_COMP_VAL + "=" + FlagText(lastIsValue);
    help := COMP_HELP + "='" + escaped + "'; ";
    items := HELP_ITEMS + "=(" + items + "); ";
    strs := HELP_STRS + "=(" + strs + "); ";
  }

  lemma ValuesText(name: string, values: string, command: string, rest: string)
    ensures (name + "=(" + values + (command + "); ")) + rest
              == name + ("=(" + (values + (command + (")" + ("; " + rest)))))
  {
    Regroup4(name, "=(", values, command + "); ", rest);
    assert (command + "); ") + rest == command + (")" + ("; " + rest));
  }

  /** The end of `getCompletionEnv`. */
  method EmitEnvironment(vals: seq<string>, compString: string, lastIsValue: bool, compHelp: string,
                         pairs: seq<(string, string)>) returns (env: string)
    ensures var h := Help(lastIsValue, compHelp, Trimmed(Firsts(pairs)), Trimmed(Seconds(pairs)));
            && env == Environment(vals, compString, h)
            && (compString == "" ==> ReadEnvironment(env) == Some((vals, h)))
            && |h.items| == |h.strs| == |pairs|
            && forall i :: 0 <= i < |pairs| ==> h.items[i] == Trim(pairs[i].0) && h.strs[i] == Trim(pairs[i].1)
  {
    ghost var h := Help(lastIsValue, compHelp, Trimmed(Firsts(pairs)), Trimmed(Seconds(pairs)));
    EnvironmentCanBeRead(vals, h);
    var values := EmitValues(vals);
    var flag, help, items, strs := EmitHelp(lastIsValue, compHelp, pairs);
    var first := COMP_VALS + "=(" + values + (compString + "); ");
    ValuesText(COMP_VALS, values, compString, flag + (help + (items + (strs + ""))));
    Regroup5(first, flag, help, items, strs);
    env := first + flag + help + items + strs;
  }

  /** The environment as it is written, with the names of the variables. */
  lemma EnvironmentText(vals: seq<string>, command: string, h: Help)
    ensures Environment(vals, command, h) ==
              "_cli_shell_api_comp_values" + ("=(" + (Items(vals) + (command + (")" + ("; " +
              ("_cli_shell_api_last_comp_val" + ("=" + ((if h.lastIsValue then "true; " else "false; ") +
              ("_cli_shell_api_comp_help" + ("=" + ("'" + (EscapeQuotes(h.compHelp) + ("'" + (";" + (" " +
              ("_cli_shell_api_hitems" + ("=(" + (Items(h.items) + (")" + ("; " +
              ("_cli_shell_api_hstrs" + ("=(" + (Items(h.strs) + (")" + ("; " + ""
              )))))))))))))))))))))))))
  {
  }

  /** An array is written item by item, each in quotes and with a blank behind it. */
  lemma ItemsText(x: string, xs: seq<string>)
    ensures Items([x] + xs) == "'" + EscapeQuotes(x) + "' " + Items(xs) && Items([]) == ""
  {
    assert ([x] + xs)[1..] == xs;
  }
}
