/**
  Value lists as the template engine keeps them: a single value, or an array of values whose
  capacity is the count rounded up to a multiple of MULTI_ALLOC.
*/
module ValueArrays {
  import opened BlankText

  const MULTI_ALLOC := 5

  datatype ElementType = ErrorType | TextType | OtherType

  function RoundUp(n: nat): (r: nat)
    ensures n <= r < n + MULTI_ALLOC && r % MULTI_ALLOC == 0
  {
    var blocks := (n + MULTI_ALLOC - 1) / MULTI_ALLOC;
    assert n + MULTI_ALLOC - 1 == blocks * MULTI_ALLOC + (n + MULTI_ALLOC - 1) % MULTI_ALLOC;
    blocks * MULTI_ALLOC
  }

  // ----- lines

  function LineEnd(s: string): (n: nat)
    ensures n <= |s|
    ensures n < |s| ==> s[n] == '\n'
    ensures forall i :: 0 <= i < n ==> s[i] != '\n'
  {
    if s == "" || s[0] == '\n' then 0 else 1 + LineEnd(s[1..])
  }

  /** The lines of a text; a newline at the very end does not start another line. */
  function Lines(s: string): (r: seq<string>)
    ensures r != []
    decreases |s|
  {
    var n := LineEnd(s);
    if n == |s| then [s]
    else if n + 1 == |s| then [s[..n]]
    else [s[..n]] + Lines(s[n + 1..])
  }

  function Newlines(s: string): nat {
    if s == "" then 0 else (if s[|s| - 1] == '\n' then 1 else 0) + Newlines(s[..|s| - 1])
  }

  /** The number of lines as the code counts them. */
  function LineCount(s: string): nat {
    var n := Newlines(s) + if s != "" && s[|s| - 1] != '\n' then 1 else 0;
    if n == 0 then 1 else n
  }

  lemma {:induction false} NewlinesAppend(s: string, t: string)
    ensures Newlines(s + t) == Newlines(s) + Newlines(t)
    decreases |t|
  {
    if t == "" {
      assert s + t == s;
    } else {
      assert (s + t)[..|s + t| - 1] == s + t[..|t| - 1];
      NewlinesAppend(s, t[..|t| - 1]);
    }
  }

  lemma {:induction false} NoNewlines(s: string)
    requires forall i :: 0 <= i < |s| ==> s[i] != '\n'
    ensures Newlines(s) == 0
  {
    if s != "" {
      NoNewlines(s[..|s| - 1]);
    }
  }

  /** The count is the number of lines. */
  lemma {:induction false} LineCountIsRight(s: string)
    ensures LineCount(s) == |Lines(s)|
    decreases |s|
  {
    var n := LineEnd(s);
    if n == |s| {
      NoNewlines(s);
    } else {
      FirstNewline(s, n);
      if n + 1 == |s| {
        OneEndedLine(s, n);
      } else {
        LineCountIsRight(s[n + 1..]);
        LineCountBehind(s, n);
        assert |Lines(s)| == 1 + |Lines(s[n + 1..])|;
      }
    }
  }

  lemma OneEndedLine(s: string, n: nat)
    requires n + 1 == |s| && n == LineEnd(s) && Newlines(s) == 1 + Newlines(s[n + 1..])
    ensures LineCount(s) == 1 && |Lines(s)| == 1
  {
    assert s[n + 1..] == "" && s[|s| - 1] == '\n';
  }

  lemma LineCountBehind(s: string, n: nat)
    requires n + 1 < |s| && Newlines(s) == 1 + Newlines(s[n + 1..])
    ensures LineCount(s) == 1 + LineCount(s[n + 1..])
  {
    var rest := s[n + 1..];
    assert s[|s| - 1] == rest[|rest| - 1];
    assert rest[|rest| - 1] == '\n' ==> Newlines(rest) >= 1;
  }

  lemma FirstNewline(s: string, n: nat)
    requires n < |s| && s[n] == '\n' && forall i :: 0 <= i < n ==> s[i] != '\n'
    ensures Newlines(s) == 1 + Newlines(s[n + 1..])
  {
    NoNewlines(s[..n]);
    assert s == s[..n + 1] + s[n + 1..];
    NewlinesAppend(s[..n + 1], s[n + 1..]);
    assert s[..n + 1][..n] == s[..n];
  }

  // ----- C strings in arrays

  ghost predicate HoldsText(a: array<char>, s: string)
    reads a
  {
    && a.Length == |s| + 1
    && (forall i :: 0 <= i < |s| ==> a[i] == s[i] && s[i] != '\0')
    && a[|s|] == '\0'
  }

  method CountLines(a: array<char>, ghost s: string) returns (n: nat)
    requires HoldsText(a, s)
    ensures n == |Lines(s)|
  {
    n := 0;
    var cp := 0;
    while a[cp] != '\0'
      invariant cp <= |s| && n == Newlines(s[..cp])
      decreases |s| - cp
    {
      assert s[..cp + 1][..cp] == s[..cp];
      if a[cp] == '\n' {
        n := n + 1;
      }
      cp := cp + 1;
    }
    assert s[..cp] == s;
    if cp != 0 && a[cp - 1] != '\n' {
      n := n + 1;
    }
    if n == 0 {
      n := 1;
    }
    LineCountIsRight(s);
  }

  /** The string from `from` to the terminator. */
  method CopyFrom(a: array<char>, from: nat, ghost upto: nat) returns (r: string)
    requires from <= upto < a.Length && a[upto] == '\0'
    requires forall i :: from <= i < upto ==> a[i] != '\0'
    ensures r == a[from..upto]
  {
    var n := from;
    r := "";
    while a[n] != '\0'
      invariant from <= n <= upto && r == a[from..n]
      decreases upto - n
    {
      r := r + [a[n]];
      n := n + 1;
    }
  }

  /** Copies the line at `cp`; its newline is a terminator for the time of the copy. */
  method CopyLine(a: array<char>, cp: nat, ghost s: string) returns (line: string, found: bool, end: nat)
    requires HoldsText(a, s) && cp <= |s|
    modifies a
    ensures HoldsText(a, s)
    ensures end == cp + LineEnd(s[cp..]) && line == s[cp..end] && (found <==> end < |s|)
  {
    end := cp;
    while a[end] != '\0' && a[end] != '\n'
      invariant cp <= end <= |s|
      invariant forall i :: cp <= i < end ==> s[i] != '\n'
      decreases |s| - end
    {
      end := end + 1;
    }
    found := a[end] == '\n';
    LineEndIs(s, cp, end);
    if found {
      a[end] := '\0';
    }
    line := CopyFrom(a, cp, end);
    assert line == s[cp..end];
    if found {
      a[end] := '\n';
    }
  }

  lemma LineEndIs(s: string, cp: nat, end: nat)
    requires cp <= end <= |s|
    requires forall i :: cp <= i < end ==> s[i] != '\n'
    requires end < |s| ==> s[end] == '\n'
    ensures end == cp + LineEnd(s[cp..])
  {
    var t := s[cp..];
    assert forall i :: 0 <= i < |t| ==> t[i] == s[cp + i];
  }

  // ----- the value structure

  /** There is a free place behind `n` values unless their number is a multiple of the block size. */
  lemma RoomFor(n: nat)
    ensures RoundUp(n + 1) == if n % MULTI_ALLOC == 0 then n + MULTI_ALLOC else RoundUp(n)
    ensures n % MULTI_ALLOC == 0 ==> RoundUp(n) == n
  {
  }

  class ValueList {
    var val: string
    var cnt: nat
    var vals: array<string>
    var types: array<ElementType>
    var valType: ElementType

    /** A count above zero means that the values are in the array. */
    ghost predicate Valid()
      reads this
    {
      cnt > 0 ==> cnt <= vals.Length == types.Length == RoundUp(cnt)
    }

    ghost function Contents(): seq<string>
      requires Valid()
      reads this, vals
    {
      if cnt == 0 then [val] else vals[..cnt]
    }

    /** The types of the values. */
    ghost function Types(): seq<ElementType>
      requires Valid()
      reads this, types
    {
      if cnt == 0 then [valType] else types[..cnt]
    }

    constructor (val: string, valType: ElementType)
      ensures Valid() && Contents() == [val] && cnt == 0 && fresh(vals) && fresh(types)
      ensures this.valType == valType
    {
      this.val, this.valType, cnt := val, valType, 0;
      vals, types := new string[0], new ElementType[0];
    }

    /** `realloc` of both arrays. */
    method Reallocate(size: nat)
      requires size >= vals.Length && size >= types.Length
      modifies this`vals, this`types
      ensures fresh(vals) && fresh(types) && vals.Length == types.Length == size
      ensures vals[..old(vals.Length)] == old(vals[..]) && types[..old(types.Length)] == old(types[..])
    {
      var newVals := new string[size](_ => "");
      forall i | 0 <= i < vals.Length {
        newVals[i] := vals[i];
      }
      var newTypes := new ElementType[size](_ => ErrorType);
      forall i | 0 <= i < types.Length {
        newTypes[i] := types[i];
      }
      vals, types := newVals, newTypes;
    }

    /** `add_val`: appends a value and keeps the capacity rounded. */
    method AddVal(second: string, secondType: ElementType)
      requires Valid() && (cnt == 0 ==> vals.Length == types.Length == 0)
      modifies this, vals, types
      ensures Valid() && Contents() == old(Contents()) + [second] && Types() == old(Types()) + [secondType]
      ensures (vals == old(vals) || fresh(vals)) && (types == old(types) || fresh(types))
      ensures cnt == (if old(cnt) == 0 then 2 else old(cnt) + 1) && vals.Length == RoundUp(cnt)
      ensures valType == old(valType)
    {
      MakeRoom();
      vals[cnt], types[cnt] := second, secondType;
      cnt := cnt + 1;
    }

    /** Makes the structure an array with a free place. */
    method MakeRoom()
      requires Valid() && (cnt == 0 ==> vals.Length == types.Length == 0)
      modifies this
      ensures cnt == (if old(cnt) == 0 then 1 else old(cnt)) && vals.Length == types.Length == RoundUp(cnt + 1)
      ensures vals[..cnt] == old(Contents()) && types[..cnt] == old(Types()) && valType == old(valType)
      ensures (vals == old(vals) || fresh(vals)) && (types == old(types) || fresh(types))
    {
      RoomFor(cnt);
      if cnt % MULTI_ALLOC == 0 {
        Reallocate(cnt + MULTI_ALLOC);
        if cnt == 0 {
          vals[0], types[0] := val, valType;
          cnt, val := 1, "";
        }
      }
    }

    /** The splitting of `eval_va`: text is split at blanks; text without a word stays as it is. */
    method SetWords(text: string)
      requires cnt == 0 && vals.Length == types.Length == 0
      modifies this, vals, types
      ensures Valid()
      ensures Contents() == if Words(IsSpace, text) == [] then [text] else Words(IsSpace, text)
    {
      var words := Words(IsSpace, text);
      if words == [] {
        val := text;
        return;
      }
      val := words[0];
      var i := 1;
      while i < |words|
        invariant 1 <= i <= |words|
        invariant Valid() && Contents() == words[..i]
        invariant cnt == 0 ==> vals.Length == types.Length == 0
        invariant (vals == old(vals) || fresh(vals)) && (types == old(types) || fresh(types))
        decreases |words| - i
      {
        AddVal(words[i], TextType);
        i := i + 1;
      }
    }

    /** `char2val_text`: one value for each line, and the text is left as it was. */
    method SetLines(text: array<char>, ghost s: string)
      requires HoldsText(text, s)
      modifies this, text
      ensures text[..] == old(text[..])
      ensures Valid() && Contents() == Lines(s) && valType == TextType
      ensures cnt > 0 ==> fresh(vals) && forall i :: 0 <= i < types.Length ==> types[i] == ErrorType
    {
      TextInArray(text, s);
      valType := TextType;
      var lineCnt := CountLines(text, s);
      if lineCnt == 1 {
        var line, _, _ := CopyLine(text, 0, s);
        TextInArray(text, s);
        assert s[0..] == s;
        cnt, val := 0, line;
        OneLine(s);
        return;
      }
      var capacity := (lineCnt + MULTI_ALLOC - 1) / MULTI_ALLOC * MULTI_ALLOC;
      var newVals := new string[capacity](_ => "");
      var newTypes := new ElementType[capacity](_ => ErrorType);
      FillLines(text, s, newVals, lineCnt);
      TextInArray(text, s);
      cnt, vals, types := lineCnt, newVals, newTypes;
    }
  }

  predicate IsSpace(c: char) {
    c == ' '
  }

  lemma OneLine(s: string)
    requires |Lines(s)| == 1
    ensures Lines(s) == [s[..LineEnd(s)]]
  {
    assert s[..|s|] == s;
  }

  /** Stores the lines one after the other; the loop ends with exactly as many lines as were counted. */
  method FillLines(text: array<char>, ghost s: string, vals: array<string>, lineCnt: nat)
    requires HoldsText(text, s) && lineCnt == |Lines(s)| && lineCnt <= vals.Length
    modifies text, vals
    ensures HoldsText(text, s)
    ensures vals[..lineCnt] == Lines(s)
  {
    var cp, cnt := 0, 0;
    ghost var all := Lines(s);
    assert s[0..] == s && all[0..] == all;
    while cnt < lineCnt
      invariant 0 <= cp <= |s| && 0 <= cnt <= lineCnt && HoldsText(text, s)
      invariant forall i :: 0 <= i < cnt ==> vals[i] == all[i]
      invariant cnt < lineCnt ==> Lines(s[cp..]) == all[cnt..]
      decreases lineCnt - cnt
    {
      var found, next := StoreLine(text, cp, vals, cnt, s, all);
      if found {
        cp, cnt := next, cnt + 1;
      } else {
        cnt := cnt + 1;
        assert cnt == lineCnt;
        break;
      }
    }
    assert vals[..lineCnt] == all;
  }

  /** Stores one line and tells where the next one starts, if its newline was found. */
  method StoreLine(text: array<char>, cp: nat, vals: array<string>, cnt: nat, ghost s: string, ghost all: seq<string>)
      returns (found: bool, next: nat)
    requires HoldsText(text, s) && cp <= |s| && cnt < |all| <= vals.Length && Lines(s[cp..]) == all[cnt..]
    modifies text, vals
    ensures HoldsText(text, s)
    ensures vals[cnt] == all[cnt] && forall i :: 0 <= i < vals.Length && i != cnt ==> vals[i] == old(vals[i])
    ensures found ==> next <= |s| && (cnt + 1 < |all| ==> Lines(s[next..]) == all[cnt + 1..])
    ensures !found ==> cnt + 1 == |all|
  {
    var line, end;
    line, found, end := CopyLine(text, cp, s);
    LinesStep(s, cp, end);
    HeadAndTail(all, cnt, line, if end + 1 < |s| then Lines(s[end + 1..]) else []);
    vals[cnt] := line;
    next := end + 1;
  }

  lemma TextInArray(a: array<char>, s: string)
    requires HoldsText(a, s)
    ensures a[..] == s + ['\0']
  {
  }

  lemma HeadAndTail<T>(all: seq<T>, i: nat, head: T, tail: seq<T>)
    requires i <= |all| && all[i..] == [head] + tail
    ensures i < |all| && all[i] == head && all[i + 1..] == tail
  {
    assert |all[i..]| == 1 + |tail|;
    assert all[i] == all[i..][0];
    assert all[i + 1..] == all[i..][1..];
  }

  lemma LinesStep(s: string, cp: nat, end: nat)
    requires cp <= |s| && end == cp + LineEnd(s[cp..])
    ensures Lines(s[cp..]) == [s[cp..end]] + if end + 1 < |s| then Lines(s[end + 1..]) else []
  {
    var t := s[cp..];
    assert t[..end - cp] == s[cp..end];
    if end == |s| {
      assert t == s[cp..end];
    } else {
      assert t[end - cp + 1..] == s[end + 1..];
    }
  }

  // ----- joining and splitting

  /** Joined values of a multi leaf come back as the same values in the same order. */
  lemma JoinedValuesSplit(vs: seq<string>)
    requires vs != [] && AreWords(IsSpace, vs)
    ensures Words(IsSpace, Join(vs)) == vs
  {
    WordsOfJoin(IsSpace, vs, "");
    assert Join(vs) + "" == Join(vs);
  }

  // ----- lines, blanks and capacities as they are written

  /** The texts with a newline between. */
  function Broken(ms: seq<string>): string
    requires ms != []
  {
    if |ms| == 1 then ms[0] else ms[0] + "\n" + Broken(ms[1..])
  }

  predicate OneLineEach(ms: seq<string>) {
    forall i :: 0 <= i < |ms| ==> forall k :: 0 <= k < |ms[i]| ==> ms[i][k] != '\n'
  }

  /** Without an empty last one. */
  function WithoutEmptyEnd(ms: seq<string>): seq<string>
    requires ms != []
  {
    if |ms| > 1 && ms[|ms| - 1] == "" then ms[..|ms| - 1] else ms
  }

  lemma EndOfTail(m: string, tail: seq<string>)
    requires tail != []
    ensures WithoutEmptyEnd([m] + tail) == [m] + if tail == [""] then [] else WithoutEmptyEnd(tail)
  {
    var ms := [m] + tail;
    assert ms[|ms| - 1] == tail[|tail| - 1];
    assert ms[..|ms| - 1] == [m] + tail[..|tail| - 1];
  }

  lemma BrokenTail(m: string, tail: seq<string>)
    requires tail != []
    ensures Broken([m] + tail) == m + "\n" + Broken(tail) && (Broken(tail) == "" <==> tail == [""])
  {
    assert ([m] + tail)[1..] == tail;
    assert |tail| == 1 ==> tail == [tail[0]];
  }

  /** The lines of a text are what is between its newlines; an empty last line does not count. */
  lemma {:induction false} LinesAre(ms: seq<string>)
    requires ms != [] && OneLineEach(ms)
    ensures Lines(Broken(ms)) == WithoutEmptyEnd(ms)
    decreases |ms|
  {
    if |ms| == 1 {
      SingleLine(ms[0]);
    } else {
      var m, tail := ms[0], ms[1..];
      assert ms == [m] + tail;
      LinesAre(tail);
      BrokenTail(m, tail);
      EndOfTail(m, tail);
      FirstOfLines(m, Broken(tail));
    }
  }

  lemma SingleLine(m: string)
    requires forall k :: 0 <= k < |m| ==> m[k] != '\n'
    ensures Lines(m) == [m]
  {
    assert LineEnd(m) == |m|;
  }

  lemma FirstOfLines(m: string, rest: string)
    requires forall k :: 0 <= k < |m| ==> m[k] != '\n'
    ensures Lines(m + "\n" + rest) == [m] + if rest == "" then [] else Lines(rest)
  {
    var s := m + "\n" + rest;
    assert s[|m|] == '\n';
    assert forall k :: 0 <= k < |m| ==> s[k] == m[k];
    assert LineEnd(s) == |m|;
    assert s[..|m|] == m && s[|m| + 1..] == rest;
  }

  /** Values are split at blanks only, and capacities are multiples of five. */
  lemma Constants(c: char, n: nat)
    ensures IsSpace(c) <==> c == ' '
    ensures n <= RoundUp(n) < n + 5 && RoundUp(n) % 5 == 0
  {
  }
}
