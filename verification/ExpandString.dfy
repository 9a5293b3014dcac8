/**
  Expansion of `$VAR(...)` references in template strings, into a buffer that is kept between
  calls and grows when needed.
*/
module ExpandString {

  const DELTA := 512
  const MARKER := "$VAR("

  // ----- what expansion means

  datatype Expansion = Expanded(text: string) | Unclosed | EmptyPath

  /** Values of references; a reference that cannot be resolved gives the empty string. */
  type Lookup = string -> string

  function Prepend(t: string, e: Expansion): Expansion {
    match e
    case Expanded(u) => Expanded(t + u)
    case _ => e
  }

  /** The index of the first closing parenthesis, or the length if there is none. */
  function CloseIndex(s: string): (n: nat)
    ensures n <= |s|
    ensures n < |s| ==> s[n] == ')'
    ensures forall i :: 0 <= i < n ==> s[i] != ')'
  {
    if s == "" || s[0] == ')' then 0 else 1 + CloseIndex(s[1..])
  }

  /** Long enough for `$VAR(@)` and starting with the marker. */
  predicate StartsReference(s: string) {
    |s| >= 7 && s[..5] == MARKER
  }

  function Expand(s: string, at: string, lookup: Lookup): Expansion
    decreases |s|
  {
    if s == "" then Expanded("")
    else if !StartsReference(s) then Prepend([s[0]], Expand(s[1..], at, lookup))
    else if s[5] == '@' && s[6] == ')' then Prepend(at, Expand(s[7..], at, lookup))
    else
      var path := s[5..];
      var n := CloseIndex(path);
      if n == |path| then Unclosed
      else if n == 0 then EmptyPath
      else Prepend(lookup(path[..n]), Expand(path[n + 1..], at, lookup))
  }

  lemma PrependPrepend(t: string, u: string, e: Expansion)
    ensures Prepend(t, Prepend(u, e)) == Prepend(t + u, e)
  {
    if e.Expanded? {
      assert t + (u + e.text) == t + u + e.text;
    }
  }

  // ----- templates as literals and references

  datatype Piece = Literal(c: char) | Self | Reference(path: string)

  function PieceText(p: Piece): string {
    match p
    case Literal(c) => [c]
    case Self => MARKER + "@)"
    case Reference(path) => MARKER + path + ")"
  }

  function Print(ps: seq<Piece>): string {
    if ps == [] then ""
    else PieceText(ps[0]) + Print(ps[1..])
  }

  /** Every piece replaced by its value, once. */
  function Substitute(ps: seq<Piece>, at: string, lookup: Lookup): string {
    if ps == [] then ""
    else
      (match ps[0]
       case Literal(c) => [c]
       case Self => at
       case Reference(path) => lookup(path)) + Substitute(ps[1..], at, lookup)
  }

  lemma CloseIndexOf(path: string, rest: string)
    requires forall i :: 0 <= i < |path| ==> path[i] != ')'
    ensures CloseIndex(path + ")" + rest) == |path|
  {
    var s := path + ")" + rest;
    assert s[|path|] == ')';
    assert forall i :: 0 <= i < |path| ==> s[i] == path[i];
  }

  lemma ExpandReference(path: string, rest: string, at: string, lookup: Lookup)
    requires path != "" && path != "@" && forall i :: 0 <= i < |path| ==> path[i] != ')'
    ensures Expand(MARKER + path + ")" + rest, at, lookup) == Prepend(lookup(path), Expand(rest, at, lookup))
  {
    var s := MARKER + path + ")" + rest;
    var p := path + ")" + rest;
    assert s == MARKER + p;
    assert s[..5] == MARKER && s[5..] == p;
    CloseIndexOf(path, rest);
    assert p[..|path|] == path && p[|path| + 1..] == rest;
    assert s[5] == path[0] && s[6] == p[1];
    assert |path| == 1 ==> path == [path[0]];
    assert |path| > 1 ==> p[1] == path[1];
  }

  lemma ExpandSelf(rest: string, at: string, lookup: Lookup)
    ensures Expand(MARKER + "@)" + rest, at, lookup) == Prepend(at, Expand(rest, at, lookup))
  {
    var s := MARKER + "@)" + rest;
    assert s[..5] == MARKER && s[5] == '@' && s[6] == ')' && s[7..] == rest;
  }

  predicate ValidPath(path: string) {
    path != "" && path != "@" && forall i :: 0 <= i < |path| ==> path[i] != ')'
  }

  /** References have paths that can be read back, and a literal, dollar sign or not, starts no reference. */
  predicate ValidPieces(ps: seq<Piece>) {
    ps != [] ==>
      && (ps[0].Reference? ==> ValidPath(ps[0].path))
      && (ps[0].Literal? ==> !StartsReference(Print(ps)))
      && ValidPieces(ps[1..])
  }

  /** Expanding a template substitutes every reference once; what is put in is not looked at again. */
  lemma {:induction false} ExpandIsSubstitution(ps: seq<Piece>, at: string, lookup: Lookup)
    requires ValidPieces(ps)
    ensures Expand(Print(ps), at, lookup) == Expanded(Substitute(ps, at, lookup))
  {
    if ps != [] {
      var rest := Print(ps[1..]);
      ExpandIsSubstitution(ps[1..], at, lookup);
      match ps[0]
      case Literal(c) =>
        assert ([c] + rest)[0] == c && ([c] + rest)[1..] == rest;
      case Self =>
        ExpandSelf(rest, at, lookup);
      case Reference(path) =>
        ExpandReference(path, rest, at, lookup);
    }
  }

  /** Every reference that a scan from the left comes to is closed and not empty. */
  predicate Closed(s: string)
    decreases |s|
  {
    if s == "" then true
    else if !StartsReference(s) then Closed(s[1..])
    else
      var n := CloseIndex(s[5..]);
      0 < n < |s| - 5 && Closed(s[n + 6..])
  }

  /** The pieces of such a text. */
  function Pieces(s: string): seq<Piece>
    requires Closed(s)
    decreases |s|
  {
    if s == "" then []
    else if !StartsReference(s) then [Literal(s[0])] + Pieces(s[1..])
    else
      var n := CloseIndex(s[5..]);
      var path := s[5..n + 5];
      [if path == "@" then Self else Reference(path)] + Pieces(s[n + 6..])
  }

  lemma ReferenceText(s: string, n: nat)
    requires StartsReference(s) && n == CloseIndex(s[5..]) && 0 < n < |s| - 5
    ensures s == MARKER + s[5..n + 5] + ")" + s[n + 6..]
    ensures s[5..n + 5] == "@" || ValidPath(s[5..n + 5])
    ensures s[5..n + 5] == "@" <==> s[5] == '@' && s[6] == ')'
  {
    var path := s[5..];
    assert path[n] == ')' && path[0] == s[5] && path[1] == s[6];
    assert s[5..n + 5] == path[..n];
    assert s == s[..5] + path && path == path[..n] + ")" + path[n + 1..] && path[n + 1..] == s[n + 6..];
  }

  /** A text is the print of its pieces. */
  lemma {:induction false} PrintOfPieces(s: string)
    requires Closed(s)
    ensures ValidPieces(Pieces(s)) && Print(Pieces(s)) == s
    decreases |s|
  {
    if s == "" {
    } else if !StartsReference(s) {
      PrintOfPieces(s[1..]);
      assert Pieces(s)[1..] == Pieces(s[1..]);
      assert Print(Pieces(s)) == [s[0]] + s[1..] == s;
    } else {
      var n := CloseIndex(s[5..]);
      PrintOfPieces(s[n + 6..]);
      assert Pieces(s)[1..] == Pieces(s[n + 6..]);
      ReferenceText(s, n);
    }
  }

  lemma PiecesOfReference(text: string, path: string, rest: string)
    requires path == "@" || ValidPath(path)
    requires text == MARKER + path + ")" + rest && Closed(rest)
    ensures Closed(text) && Pieces(text) == [if path == "@" then Self else Reference(path)] + Pieces(rest)
  {
    var p := path + ")" + rest;
    assert text == MARKER + p && text[..5] == MARKER && text[5..] == p;
    CloseIndexOf(path, rest);
    assert text[5..|path| + 5] == path && text[|path| + 6..] == rest;
  }

  lemma FirstPiece(p: Piece, text: string, rest: string)
    requires text == PieceText(p) + rest && Closed(rest)
    requires p.Reference? ==> ValidPath(p.path)
    requires p.Literal? ==> !StartsReference(text)
    ensures Closed(text) && Pieces(text) == [p] + Pieces(rest)
  {
    match p
    case Literal(c) =>
      assert text[0] == c && text[1..] == rest;
    case Self =>
      assert MARKER + "@)" == MARKER + "@" + ")";
      PiecesOfReference(text, "@", rest);
    case Reference(path) =>
      PiecesOfReference(text, path, rest);
  }

  /** And pieces are those of their print. */
  lemma {:induction false} PiecesOfPrint(ps: seq<Piece>)
    requires ValidPieces(ps)
    ensures Closed(Print(ps)) && Pieces(Print(ps)) == ps
  {
    if ps != [] {
      var text, rest := Print(ps), Print(ps[1..]);
      PiecesOfPrint(ps[1..]);
      assert Closed(text) && Pieces(text) == [ps[0]] + Pieces(rest) by {
        FirstPiece(ps[0], text, rest);
      }
      assert [ps[0]] + ps[1..] == ps;
    }
  }

  /** Expansion succeeds if and only if all references are closed and not empty, and is then substitution. */
  lemma {:induction false} ExpandsIffClosed(s: string, at: string, lookup: Lookup)
    ensures Expand(s, at, lookup).Expanded? <==> Closed(s)
    ensures Closed(s) ==> Expand(s, at, lookup) == Expanded(Substitute(Pieces(s), at, lookup))
  {
    if Closed(s) {
      PrintOfPieces(s);
      ExpandIsSubstitution(Pieces(s), at, lookup);
    } else {
      NotClosed(s, at, lookup);
    }
  }

  lemma {:induction false} NotClosed(s: string, at: string, lookup: Lookup)
    requires !Closed(s)
    ensures !Expand(s, at, lookup).Expanded?
    decreases |s|
  {
    if !StartsReference(s) {
      NotClosed(s[1..], at, lookup);
    } else {
      var path := s[5..];
      var n := CloseIndex(path);
      if 0 < n < |path| {
        assert path[n + 1..] == s[n + 6..];
        ReferenceText(s, n);
        assert n == 1 ==> s[7..] == s[n + 6..];
        NotClosed(s[n + 6..], at, lookup);
      }
    }
  }

  // ----- C strings

  /** The array holds the characters of `s` from `from` on, and then the terminator. */
  ghost predicate HoldsString(a: array<char>, from: nat, s: string)
    reads a
  {
    && from + |s| < a.Length
    && a[from..from + |s|] == s
    && a[from + |s|] == '\0'
    && forall i :: 0 <= i < |s| ==> s[i] != '\0'
  }

  lemma CharsOf(a: array<char>, from: nat, s: string)
    requires HoldsString(a, from, s)
    ensures forall i :: 0 <= i < |s| ==> a[from + i] == s[i]
  {
    forall i | 0 <= i < |s|
      ensures a[from + i] == s[i]
    {
      assert a[from..from + |s|][i] == a[from + i];
    }
  }

  method StrLen(a: array<char>, from: nat, ghost s: string) returns (n: nat)
    requires HoldsString(a, from, s)
    ensures n == |s|
  {
    CharsOf(a, from, s);
    n := 0;
    while a[from + n] != '\0'
      invariant n <= |s|
      decreases |s| - n
    {
      n := n + 1;
    }
  }

  /** `strchr` for the closing parenthesis. */
  method FindClose(a: array<char>, from: nat, ghost s: string) returns (found: bool, n: nat)
    requires HoldsString(a, from, s)
    ensures n == CloseIndex(s) && (found <==> n < |s|)
  {
    CharsOf(a, from, s);
    n := 0;
    while a[from + n] != '\0' && a[from + n] != ')'
      invariant n <= |s|
      invariant forall i :: 0 <= i < n ==> s[i] != ')'
      decreases |s| - n
    {
      n := n + 1;
    }
    found := a[from + n] == ')';
  }

  /** The string that starts at `from`. */
  method ReadString(a: array<char>, from: nat, ghost s: string) returns (r: string)
    requires HoldsString(a, from, s)
    ensures r == s
  {
    var n := StrLen(a, from, s);
    r := a[from..from + n];
  }

  /** Looks up the path between `from` and the closing parenthesis, which is a terminator for the time of the call. */
  method LookUp(a: array<char>, from: nat, n: nat, lookup: Lookup, ghost s: string) returns (value: string)
    requires HoldsString(a, from, s) && n < |s| && s[n] == ')'
    modifies a
    ensures a[..] == old(a[..])
    ensures value == lookup(s[..n])
  {
    var end := from + n;
    assert a[end] == a[from..from + |s|][n] == ')';
    a[end] := '\0';
    assert a[from..from + n] == s[..n] by {
      assert old(a[from..from + |s|])[..n] == s[..n];
    }
    var path := ReadString(a, from, s[..n]);
    value := lookup(path);
    a[end] := ')';
  }

  // ----- the buffer

  class Expander {
    var buf: array<char>
    const at: string
    const lookup: Lookup

    constructor (at: string, lookup: Lookup)
      ensures fresh(buf) && buf.Length == 0 && this.at == at && this.lookup == lookup
    {
      buf, this.at, this.lookup := new char[0], at, lookup;
    }

    method Grow()
      modifies this
      ensures fresh(buf) && buf.Length == old(buf.Length) + DELTA
      ensures buf[..old(buf.Length)] == old(buf[..])
    {
      var bigger := new char[buf.Length + DELTA](_ => '\0');
      forall i | 0 <= i < buf.Length {
        bigger[i] := buf[i];
      }
      buf := bigger;
    }

    /** Copies a value behind the first `resp` characters and leaves room for the terminator. */
    method Append(resp: nat, left: int, cp: string) returns (resp': nat, left': int)
      requires left >= 1 && resp + left == buf.Length
      modifies this, buf
      ensures (buf == old(buf) || fresh(buf)) && resp' + left' == buf.Length && left' >= 1
      ensures resp' == resp + |cp| && buf[..resp'] == old(buf[..resp]) + cp
    {
      left' := left;
      ghost var done := buf[..resp];
      while |cp| + 1 > left'
        invariant resp + left' == buf.Length && left' >= 1
        invariant buf == old(buf) || fresh(buf)
        invariant buf[..resp] == done
        decreases |cp| + 1 - left'
      {
        Grow();
        left' := left' + DELTA;
      }
      var b := buf;
      forall i | 0 <= i < |cp| {
        b[resp + i] := cp[i];
      }
      b[resp + |cp|] := '\0';
      resp' := resp + |cp|;
      left' := left' - |cp|;
      assert buf[..resp'] == done + cp;
    }

    /** One reference, of which the marker has been recognised. */
    method ExpandAt(text: array<char>, scan: nat, resp: nat, left: int, ghost s: string)
        returns (status: Expansion, scan': nat, resp': nat, left': int)
      requires HoldsString(text, scan, s) && StartsReference(s) && text != buf
      requires left >= 1 && resp + left == buf.Length
      modifies this, buf, text
      ensures text[..] == old(text[..])
      ensures (buf == old(buf) || fresh(buf)) && buf != text
      ensures status.Expanded? ==> resp' + left' == buf.Length && left' >= 1 && scan <= scan' <= scan + |s|
      ensures status.Expanded? ==> scan' > scan
      ensures status.Expanded? ==>
                && buf[..resp'] == old(buf[..resp]) + status.text
                && Expand(s, at, lookup) == Prepend(status.text, Expand(s[scan' - scan..], at, lookup))
      ensures !status.Expanded? ==> Expand(s, at, lookup) == status
    {
      var cp;
      resp', left' := resp, left;
      assert text[scan + 5] == text[scan..scan + |s|][5] && text[scan + 6] == text[scan..scan + |s|][6];
      if text[scan + 5] == '@' && text[scan + 6] == ')' {
        cp := at;
        scan' := scan + 7;
      } else {
        assert text[scan + 5..scan + |s|] == s[5..];
        var found, n := FindClose(text, scan + 5, s[5..]);
        if !found {
          return Unclosed, scan, resp, left;
        }
        if n == 0 {
          return EmptyPath, scan, resp, left;
        }
        cp := LookUp(text, scan + 5, n, lookup, s[5..]);
        scan' := scan + 5 + n + 1;
        assert s[5..][n + 1..] == s[scan' - scan..];
      }
      resp', left' := Append(resp, left, cp);
      status := Expanded(cp);
    }

    method CopyChar(resp: nat, c: char)
      requires resp < buf.Length
      modifies buf
      ensures buf[..resp + 1] == old(buf[..resp]) + [c]
    {
      buf[resp] := c;
    }

    /** One round of the loop: a character that starts no reference is copied, a reference is expanded. */
    method Step(text: array<char>, scan: nat, resp: nat, left: int, ghost s: string)
        returns (status: Expansion, scan': nat, resp': nat, left': int)
      requires HoldsString(text, scan, s) && s != "" && text != buf
      requires left >= 0 && resp + left == buf.Length
      modifies this, buf, text
      ensures text[..] == old(text[..])
      ensures (buf == old(buf) || fresh(buf)) && buf != text
      ensures status.Expanded? ==> resp' + left' == buf.Length && left' >= 1 && scan < scan' <= scan + |s|
      ensures status.Expanded? ==>
                && buf[..resp'] == old(buf[..resp]) + status.text
                && Expand(s, at, lookup) == Prepend(status.text, Expand(s[scan' - scan..], at, lookup))
      ensures !status.Expanded? ==> Expand(s, at, lookup) == status
    {
      var room := left;
      if left <= 1 {
        Grow();
        room := left + DELTA;
      }
      assert buf[..resp] == old(buf[..resp]);
      var n := StrLen(text, scan, s);
      if text[scan] != '$' || n < 7 || text[scan..scan + 5] != MARKER {
        NoReference(text, scan, s);
        CopyChar(resp, text[scan]);
        status, scan', resp', left' := Expanded([text[scan]]), scan + 1, resp + 1, room - 1;
      } else {
        IsReference(text, scan, s);
        status, scan', resp', left' := ExpandAt(text, scan, resp, room, s);
      }
    }

    /**
      `expand_string`: it succeeds if and only if the references of the template are closed and not empty. Then the
      buffer holds exactly the template with every reference substituted once, and a terminator, whatever it held
      before. The template is left as it was.
    */
    method ExpandInto(text: array<char>, ghost s: string) returns (status: Expansion)
      requires HoldsString(text, 0, s) && s != "" && text != buf
      modifies this, buf, text
      ensures buf == old(buf) || fresh(buf)
      ensures text[..] == old(text[..])
      ensures status.Expanded? <==> Closed(s)
      ensures if Closed(s) then Stored(Substitute(Pieces(s), at, lookup)) else status == Expand(s, at, lookup)
    {
      ExpandsIffClosed(s, at, lookup);
      status := ExpandAll(text, s);
    }

    /** The buffer starts with this text and a terminator. */
    ghost predicate Stored(t: string)
      reads this, buf
    {
      |t| < buf.Length && buf[..|t|] == t && buf[|t|] == '\0'
    }

    /** The loop. */
    method ExpandAll(text: array<char>, ghost s: string) returns (status: Expansion)
      requires HoldsString(text, 0, s) && s != "" && text != buf
      modifies this, buf, text
      ensures buf == old(buf) || fresh(buf)
      ensures text[..] == old(text[..])
      ensures match Expand(s, at, lookup)
              case Expanded(t) => status == Expanded("") && Stored(t)
              case e => status == e
    {
      var scan, resp, left := 0, 0, buf.Length;
      ghost var goal, out, rest := Expand(s, at, lookup), "", s;
      PrependNothing(goal);
      while true
        invariant 0 <= scan < |s| && 0 <= resp && resp + left == buf.Length && left >= 0
        invariant buf == old(buf) || fresh(buf)
        invariant buf != text && text[..] == old(text[..])
        invariant rest == s[scan..] && out == buf[..resp]
        invariant goal == Prepend(out, Expand(rest, at, lookup))
        decreases |s| - scan
      {
        RestOfString(text, s, scan);
        var step, scan', resp', left' := Step(text, scan, resp, left, rest);
        if !step.Expanded? {
          return step;
        }
        PrependPrepend(out, step.text, Expand(rest[scan' - scan..], at, lookup));
        assert rest[scan' - scan..] == s[scan'..];
        out, rest := out + step.text, s[scan'..];
        scan, resp, left := scan', resp', left';
        if text[scan] == '\0' {
          EndOfString(text, s, scan);
          break;
        }
      }
      assert goal == Expanded(out) by {
        assert out + "" == out;
      }
      buf[resp] := '\0';
      status := Expanded("");
    }
  }

  lemma PrependNothing(e: Expansion)
    ensures Prepend("", e) == e
  {
    if e.Expanded? {
      assert "" + e.text == e.text;
    }
  }

  lemma RestOfString(a: array<char>, s: string, i: nat)
    requires HoldsString(a, 0, s) && i <= |s|
    ensures HoldsString(a, i, s[i..])
  {
    assert a[i..|s|] == a[0..|s|][i..];
  }

  lemma EndOfString(a: array<char>, s: string, i: nat)
    requires HoldsString(a, 0, s) && i <= |s| && a[i] == '\0'
    ensures i == |s|
  {
    CharsOf(a, 0, s);
  }

  lemma IsReference(a: array<char>, from: nat, s: string)
    requires HoldsString(a, from, s) && |s| >= 7 && a[from..from + 5] == MARKER
    ensures StartsReference(s)
  {
    assert a[from..from + 5] == a[from..from + |s|][..5];
  }

  lemma NoReference(a: array<char>, from: nat, s: string)
    requires HoldsString(a, from, s) && s != ""
    requires a[from] != '$' || |s| < 7 || a[from..from + 5] != MARKER
    ensures !StartsReference(s) && a[from] == s[0]
  {
    assert a[from] == a[from..from + |s|][0];
    if |s| >= 7 {
      assert a[from..from + 5] == a[from..from + |s|][..5];
      assert s[..5][0] == s[0];
      assert MARKER[0] == '$';
    }
  }

  // ----- templates as they are written

  predicate MarkerAt(s: string, i: int) {
    0 <= i && i + 5 <= |s| && s[i..i + 5] == "$VAR("
  }

  /** Text without the marker is copied, dollar signs and all; so is text shorter than `$VAR(@)`. */
  lemma {:induction false} PlainTextIsCopied(s: string, at: string, lookup: Lookup)
    requires |s| < 7 || forall i :: !MarkerAt(s, i)
    ensures Expand(s, at, lookup) == Expanded(s)
    decreases |s|
  {
    if s != "" {
      NoMarkerBehind(s);
      PlainTextIsCopied(s[1..], at, lookup);
      assert [s[0]] + s[1..] == s;
    }
  }

  lemma NoMarkerBehind(s: string)
    requires s != "" && (|s| < 7 || forall i :: !MarkerAt(s, i))
    ensures !StartsReference(s) && (|s[1..]| < 7 || forall i :: !MarkerAt(s[1..], i))
  {
    if |s| >= 7 {
      assert !MarkerAt(s, 0);
      assert s[0..5] == s[..5];
      forall i
        ensures !MarkerAt(s[1..], i)
      {
        if MarkerAt(s[1..], i) {
          assert s[1..][i..i + 5] == s[i + 1..i + 6];
          assert MarkerAt(s, i + 1);
        }
      }
    }
  }

  /** A character that starts no reference is copied. */
  lemma CharacterIsCopied(c: char, s: string, at: string, lookup: Lookup)
    requires c != '$'
    ensures Expand([c] + s, at, lookup) == Prepend([c], Expand(s, at, lookup))
  {
    var t := [c] + s;
    assert t[1..] == s;
    assert |t| >= 5 ==> t[..5][0] == c;
  }

  /** `$VAR(path)` is the value of the path, `$VAR(@)` is the at-string, and what follows is expanded likewise. */
  lemma ReferenceIsReplaced(path: string, rest: string, at: string, lookup: Lookup)
    requires path != "" && forall i :: 0 <= i < |path| ==> path[i] != ')'
    ensures Expand("$VAR(" + path + ")" + rest, at, lookup) ==
              Prepend(if path == "@" then at else lookup(path), Expand(rest, at, lookup))
  {
    if path == "@" {
      ExpandSelf(rest, at, lookup);
      assert "$VAR(" + "@" + ")" + rest == MARKER + "@)" + rest;
    } else {
      ExpandReference(path, rest, at, lookup);
    }
  }

  /** A reference without an end is an error, and so is one without a path. */
  lemma BadReference(path: string, rest: string, at: string, lookup: Lookup)
    ensures |path| >= 2 && (forall i :: 0 <= i < |path| ==> path[i] != ')') ==>
              Expand("$VAR(" + path, at, lookup) == Unclosed
    ensures rest != "" ==> Expand("$VAR()" + rest, at, lookup) == EmptyPath
  {
    var s, t := "$VAR(" + path, "$VAR()" + rest;
    assert s[..5] == MARKER && s[5..] == path && t[..5] == MARKER && t[5..] == ")" + rest;
    if |path| >= 2 && forall i :: 0 <= i < |path| ==> path[i] != ')' {
      assert s[5] == path[0];
      assert CloseIndex(path) == |path|;
    }
    if rest != "" {
      assert t[5] == ')';
      assert CloseIndex(")" + rest) == 0;
    }
  }
}
