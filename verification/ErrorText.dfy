/** The text shown for management errors. */
module ErrorText {
  import opened Options
  import opened Rpc
  import opened CText
  import opened SlashPath
  import BlankText
  import ValueArrays

  // ----- paths

  function Spaced(s: string): (r: string)
    ensures |r| == |s|
  {
    seq(|s|, i requires 0 <= i < |s| => if s[i] == '/' then ' ' else s[i])
  }

  function WithoutFirstSlash(s: string): string {
    if s != "" && s[0] == '/' then s[1..] else s
  }

  function WithoutLastSlash(s: string): string {
    if s != "" && s[|s| - 1] == '/' then s[..|s| - 1] else s
  }

  /** The path as it is shown; nothing for a missing or empty one. */
  function ShownPath(path: Option<string>): Option<string> {
    if path.None? || path.value == "" then None
    else Some(Spaced(WithoutLastSlash(WithoutFirstSlash(path.value))))
  }

  lemma {:induction false} SpacedJoin(p: seq<string>)
    requires IsComponents(p)
    ensures Spaced(SlashJoin(p)) == BlankText.Join(p)
    decreases |p|
  {
    if |p| > 1 {
      SpacedJoin(p[1..]);
      SpacedSplit(p[0], SlashJoin(p[1..]));
    } else if |p| == 1 {
      assert SlashFree(p[0]);
      assert Spaced(p[0]) == p[0];
    }
  }

  lemma SpacedSplit(a: string, rest: string)
    requires SlashFree(a)
    ensures Spaced(a + "/" + rest) == a + " " + Spaced(rest)
  {
  }

  lemma StripFirst(t: string, first: bool)
    requires t != "" && t[0] != '/'
    ensures WithoutFirstSlash(SlashIf(first) + t) == t
  {
    assert ("/" + t)[1..] == t;
    assert "" + t == t;
  }

  lemma StripLast(s: string, last: bool)
    requires s != "" && s[|s| - 1] != '/'
    ensures WithoutLastSlash(s + SlashIf(last)) == s
  {
    assert (s + "/")[..|s|] == s;
    assert s + "" == s;
  }

  /** A path of components, with or without a slash at either end, is shown as the components with blanks between. */
  lemma PathIsShownAsComponents(p: seq<string>, first: bool, last: bool)
    requires p != [] && IsComponents(p)
    ensures ShownPath(Some(SlashIf(first) + (SlashJoin(p) + SlashIf(last)))) == Some(BlankText.Join(p))
  {
    JoinEnds(p);
    SpacedJoin(p);
    PathIsStripped(SlashJoin(p), first, last);
  }

  lemma PathIsStripped(s: string, first: bool, last: bool)
    requires s != "" && s[0] != '/' && s[|s| - 1] != '/'
    ensures ShownPath(Some(SlashIf(first) + (s + SlashIf(last)))) == Some(Spaced(s))
  {
    var t := s + SlashIf(last);
    assert t[0] == s[0];
    StripFirst(t, first);
    StripLast(s, last);
  }

  /** The words of a shown path are the components, when these have no blanks. */
  lemma ShownPathCanBeRead(p: seq<string>, first: bool, last: bool)
    requires p != [] && IsComponents(p) && BlankText.AreWords(c => c == ' ', p)
    ensures var shown := ShownPath(Some(SlashIf(first) + (SlashJoin(p) + SlashIf(last))));
            shown.Some? && BlankText.Words(c => c == ' ', shown.value) == p
  {
    PathIsShownAsComponents(p, first, last);
    BlankText.WordsOfJoin(c => c == ' ', p, "");
    assert BlankText.Join(p) + "" == BlankText.Join(p);
  }

  /** `configd_mgmt_error_path_space_separated`: the copy is edited in place. */
  method SpaceSeparated(path: Option<string>) returns (r: Option<string>)
    requires path.Some? ==> IsText(path.value)
    ensures r == ShownPath(path)
  {
    if path.None? || path.value == "" {
      return None;
    }
    var buf := new char[|path.value| + 1];
    var s := if path.value[0] != '/' then path.value else path.value[1..];
    Write(buf, 0, s);
    assert buf[0..|s|] == s;
    assert forall k :: 0 <= k < |s| ==> buf[k] == s[k];
    var shown := SpaceBuffer(buf, s);
    r := Some(shown);
  }

  method SpaceBuffer(buf: array<char>, s: string) returns (shown: string)
    requires IsText(s) && |s| < buf.Length && buf[|s|] == NUL
    requires forall k :: 0 <= k < |s| ==> buf[k] == s[k]
    modifies buf
    ensures shown == Spaced(WithoutLastSlash(s))
  {
    LengthIs(buf[..], |s|);
    var n := StrLen(buf[..]);
    var t := WithoutLastSlash(s);
    var i := 0;
    while i < n
      invariant 0 <= i <= n && n == |s| && buf[n] == NUL
      invariant forall k :: i <= k < n ==> buf[k] == s[k]
      invariant forall k :: 0 <= k < i && k < |t| ==> buf[k] == Spaced(t)[k]
      invariant |t| < i ==> buf[|t|] == NUL
    {
      if buf[i] == '/' {
        if i < n - 1 {
          buf[i] := ' ';
        } else {
          buf[i] := NUL;
        }
      }
      i := i + 1;
    }
    LengthIs(buf[..], |t|);
    assert buf[..][..|t|] == Spaced(t);
    shown := TextOf(buf[..]);
  }

  // ----- one error

  function OrEmpty(s: Option<string>): string {
    if s.None? then "" else s.value
  }

  function Block(path: string, message: string): string {
    "[" + path + "]\n\n" + message + "\n\n[[" + path + "]] failed.\n"
  }

  /** The text tells the path and the message, as long as the path has no closing bracket. */
  lemma BlockTellsApart(p: string, m: string, q: string, n: string)
    requires ']' !in p && ']' !in q
    ensures Block(p, m) == Block(q, n) <==> p == q && m == n
  {
    if Block(p, m) == Block(q, n) {
      var rest, rest' := "\n\n" + m + "\n\n[[" + p + "]] failed.\n", "\n\n" + n + "\n\n[[" + q + "]] failed.\n";
      BlockHead(p, m, rest);
      BlockHead(q, n, rest');
      UpToBracket(p, q, rest, rest');
      MiddleIs("\n\n", m, n, "\n\n[[" + p + "]] failed.\n");
    }
  }

  lemma BlockHead(p: string, m: string, rest: string)
    requires rest == "\n\n" + m + "\n\n[[" + p + "]] failed.\n"
    ensures Block(p, m) == "[" + (p + ("]" + rest))
    ensures rest == "\n\n" + (m + ("\n\n[[" + p + "]] failed.\n"))
  {
  }

  lemma FirstBracket(p: string, rest: string)
    requires ']' !in p
    ensures var s := p + ("]" + rest);
            |p| < |s| && s[|p|] == ']' && forall i :: 0 <= i < |s| && s[i] == ']' ==> |p| <= i
  {
  }

  lemma UpToBracket(p: string, q: string, rest: string, rest': string)
    requires ']' !in p && ']' !in q && "[" + (p + ("]" + rest)) == "[" + (q + ("]" + rest'))
    ensures p == q && rest == rest'
  {
    var s, t := p + ("]" + rest), q + ("]" + rest');
    assert s == ("[" + s)[1..] && t == ("[" + t)[1..];
    FirstBracket(p, rest);
    FirstBracket(q, rest');
    assert p == s[..|p|] && q == t[..|q|];
    assert rest == s[|p| + 1..] && rest' == t[|q| + 1..];
  }

  lemma MiddleIs(a: string, m: string, n: string, b: string)
    requires a + (m + b) == a + (n + b)
    ensures m == n
  {
    var s, t := a + (m + b), a + (n + b);
    assert |m| == |n|;
    assert m == s[|a|..|a| + |m|] && n == t[|a|..|a| + |n|];
  }

  /** The text of one error. */
  function Formatted(e: ErrorFields): string {
    Block(OrEmpty(ShownPath(e.path)), OrEmpty(e.message))
  }

  predicate HasText(e: ErrorFields) {
    (e.path.Some? ==> IsText(e.path.value)) && (e.message.Some? ==> IsText(e.message.value))
  }

  /** The text of an error whose path has been prepared; the buffer is long enough. */
  method FormatBlock(path: Option<string>, message: Option<string>) returns (output: string)
    ensures output == Block(OrEmpty(path), OrEmpty(message))
  {
    var format := "[%s]\n\n%s\n\n[[%s]] failed.\n";
    var n := |format| + (if message.Some? then |message.value| else 0)
               + (if path.Some? then 2 * |path.value| else 0) + 1;
    output := Stored(n, Block(OrEmpty(path), OrEmpty(message)));
  }

  // ----- all errors

  function Concat(parts: seq<string>): string {
    if parts == [] then "" else parts[0] + Concat(parts[1..])
  }

  /** The texts of the errors, the last error first. */
  function Blocks(es: seq<ErrorFields>): (r: seq<string>)
    ensures |r| == |es|
  {
    seq(|es|, i requires 0 <= i < |es| => Formatted(es[|es| - 1 - i]))
  }

  function Operation(operation: Option<string>): string {
    if operation.None? then "Operation" else operation.value
  }

  function FailureLine(operation: string): (r: string)
    ensures |r| == |operation| + 10
  {
    "\n" + operation + " failed!\n"
  }

  /** All that is shown for a failed commit or validation. */
  function CommitText(es: seq<ErrorFields>, operation: Option<string>): string {
    Concat(Blocks(es)) + FailureLine(Operation(operation))
  }

  method FormatFailure(operation: Option<string>) returns (line: string)
    ensures line == FailureLine(Operation(operation))
  {
    var format := "\n%s failed!\n";
    var op := Operation(operation);
    line := Stored(|format| + |op| + 1, FailureLine(op));
  }

  /** One text in front of another; `done` is what is in front of the failure line already. */
  method Prepend(text: string, output: string, ghost done: string, ghost line: string) returns (r: string)
    requires output == done + line
    ensures r == (text + done) + line
  {
    r := Stored(|output| + |text| + 1, text + output);
  }

  lemma BlocksStep(es: seq<ErrorFields>, i: nat)
    requires i < |es|
    ensures Concat(Blocks(es[..i + 1])) == Formatted(es[i]) + Concat(Blocks(es[..i]))
  {
    assert Blocks(es[..i + 1]) == [Formatted(es[i])] + Blocks(es[..i]);
  }

  lemma {:induction false} ConcatSum(a: seq<string>, b: seq<string>)
    ensures Concat(a + b) == Concat(a) + Concat(b)
  {
    if a == [] {
      assert a + b == b;
    } else {
      assert (a + b)[1..] == a[1..] + b;
      ConcatSum(a[1..], b);
    }
  }

  lemma BlocksOfSum(es: seq<ErrorFields>, fs: seq<ErrorFields>)
    ensures Blocks(es + fs) == Blocks(fs) + Blocks(es)
  {
    var all, n := es + fs, |es| + |fs|;
    forall i | 0 <= i < n
      ensures Blocks(all)[i] == (Blocks(fs) + Blocks(es))[i]
    {
      assert all[n - 1 - i] == if i < |fs| then fs[|fs| - 1 - i] else es[n - 1 - i];
    }
  }

  /** Errors that come later are shown earlier. */
  lemma LaterErrorsFirst(es: seq<ErrorFields>, fs: seq<ErrorFields>)
    ensures Concat(Blocks(es + fs)) == Concat(Blocks(fs)) + Concat(Blocks(es))
  {
    BlocksOfSum(es, fs);
    ConcatSum(Blocks(fs), Blocks(es));
  }

  // ----- all messages

  predicate HaveMessages(es: seq<ErrorFields>) {
    forall i :: 0 <= i < |es| ==> es[i].message.Some? && IsText(es[i].message.value)
  }

  function Messages(es: seq<ErrorFields>): (r: seq<string>)
    requires HaveMessages(es)
    ensures |r| == |es|
  {
    seq(|es|, i requires 0 <= i < |es| => es[i].message.value)
  }

  /** The messages, each on its own line. */
  function Merged(ms: seq<string>): string {
    if ms == [] then "" else ms[0] + "\n" + Merged(ms[1..])
  }

  lemma {:induction false} MergedSum(a: seq<string>, b: seq<string>)
    ensures Merged(a + b) == Merged(a) + Merged(b)
  {
    if a == [] {
      assert a + b == b;
    } else {
      assert (a + b)[1..] == a[1..] + b;
      MergedSum(a[1..], b);
    }
  }

  lemma MergedStep(ms: seq<string>, i: nat)
    requires i < |ms|
    ensures Merged(ms[..i + 1]) == Merged(ms[..i]) + ms[i] + "\n"
    ensures |Merged(ms[..i + 1])| <= |Merged(ms)|
  {
    assert ms[..i + 1] == ms[..i] + [ms[i]];
    MergedSum(ms[..i], [ms[i]]);
    assert Merged([ms[i]]) == ms[i] + "\n";
    assert ms == ms[..i + 1] + ms[i + 1..];
    MergedSum(ms[..i + 1], ms[i + 1..]);
  }

  /** The lines of the merged text are the messages, when these have no line breaks. */
  lemma {:induction false} MergedCanBeRead(ms: seq<string>)
    requires ms != [] && forall i :: 0 <= i < |ms| ==> forall k :: 0 <= k < |ms[i]| ==> ms[i][k] != '\n'
    ensures ValueArrays.Lines(Merged(ms)) == ms
  {
    var m, tail := ms[0], ms[1..];
    assert ms == [m] + tail;
    ValueArrays.FirstOfLines(m, Merged(tail));
    if tail != [] {
      MergedCanBeRead(tail);
      MergedIsNotEmpty(tail);
    }
  }

  lemma MergedIsNotEmpty(ms: seq<string>)
    requires ms != []
    ensures Merged(ms) != ""
  {
    assert |Merged(ms)| >= |ms[0]| + 1;
  }

  /** `merge_messages`: the buffer is as long as the text and its terminator. */
  method MergeMessages(ms: seq<string>) returns (text: string)
    requires forall i :: 0 <= i < |ms| ==> IsText(ms[i])
    ensures text == Merged(ms)
  {
    var bytes := 0;
    var i := 0;
    while i < |ms|
      invariant 0 <= i <= |ms| && bytes == |Merged(ms[..i])|
    {
      MergedStep(ms, i);
      bytes := bytes + |ms[i]| + 1;
      i := i + 1;
    }
    assert ms[..|ms|] == ms;
    var buf := new char[bytes + 1](_ => NUL);
    text := AppendLines(ms, buf);
  }

  method AppendLines(ms: seq<string>, buf: array<char>) returns (text: string)
    requires (forall i :: 0 <= i < |ms| ==> IsText(ms[i])) && buf.Length == |Merged(ms)| + 1 && buf[0] == NUL
    modifies buf
    ensures text == Merged(ms)
  {
    var i := 0;
    assert TextOf(buf[..]) == Merged(ms[..0]);
    while i < |ms|
      invariant 0 <= i <= |ms| && TextOf(buf[..]) == Merged(ms[..i])
    {
      MergedStep(ms, i);
      StrCat(buf, ms[i]);
      StrCat(buf, "\n");
      i := i + 1;
    }
    assert ms[..|ms|] == ms;
    text := TextOf(buf[..]);
  }

  // ----- literal texts

  /** What is shown for a single error at a path of components. */
  lemma TextOfOneError(e: ErrorFields, p: seq<string>, m: string, operation: string)
    requires p != [] && IsComponents(p)
    requires e.path == Some("/" + SlashJoin(p)) && e.message == Some(m)
    ensures var shown := BlankText.Join(p);
            CommitText([e], Some(operation)) ==
              "[" + shown + "]\n\n" + m + "\n\n[[" + shown + "]] failed.\n" + ("\n" + operation + " failed!\n")
  {
    assert SlashJoin(p) + SlashIf(false) == SlashJoin(p);
    PathIsShownAsComponents(p, true, false);
    ConcatOfOne(e);
  }

  /** Without a path, a message and an operation. */
  lemma TextOfEmptyError(e: ErrorFields)
    requires e.path == None && e.message == None
    ensures CommitText([e], None) == "[]\n\n\n\n[[]] failed.\n" + "\nOperation failed!\n"
  {
    assert Formatted(e) == "[]\n\n\n\n[[]] failed.\n";
    ConcatOfOne(e);
  }

  lemma ConcatOfOne(e: ErrorFields)
    ensures Concat(Blocks([e])) == Formatted(e)
  {
    assert Blocks([e]) == [Formatted(e)] && [Formatted(e)][1..] == [];
    assert Formatted(e) + "" == Formatted(e);
  }

  /** Without errors. */
  lemma TextOfNoError(operation: string)
    ensures CommitText([], Some(operation)) == "\n" + operation + " failed!\n"
  {
    assert Blocks([]) == [];
    assert "" + FailureLine(operation) == FailureLine(operation);
  }
}
