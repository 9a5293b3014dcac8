/**
  Configuration paths as percent-encoded text (section 2.1 of RFC 3986), and the class that
  parses and prints them.
*/
module Cpath {
  import opened SlashPath

  /** A byte of a C string. */
  predicate IsByte(c: char) {
    1 <= c as int <= 255
  }

  predicate IsBytes(s: string) {
    forall i :: 0 <= i < |s| ==> IsByte(s[i])
  }

  predicate AreBytes(p: seq<string>) {
    forall i :: 0 <= i < |p| ==> IsBytes(p[i])
  }

  // ----- percent-encoding

  predicate IsUnreserved(c: char) {
    'a' <= c <= 'z' || 'A' <= c <= 'Z' || '0' <= c <= '9' || c == '-' || c == '.' || c == '_' || c == '~'
  }

  function HexDigit(n: int): char
    requires 0 <= n < 16
  {
    if n < 10 then '0' + n as char else 'A' + (n - 10) as char
  }

  function HexValue(c: char): int {
    if '0' <= c <= '9' then c as int - '0' as int
    else if 'a' <= c <= 'f' then c as int - 'a' as int + 10
    else if 'A' <= c <= 'F' then c as int - 'A' as int + 10
    else -1
  }

  function Percent(c: char): (r: string)
    requires IsByte(c)
    ensures |r| == 3
  {
    ['%', HexDigit(c as int / 16), HexDigit(c as int % 16)]
  }

  const LINE_BREAK := "%0D%0A"

  /** Escaping; line breaks become CR LF, and the LF of a CR LF adds nothing. */
  function Escape(s: string, afterCr: bool := false): string
    requires IsBytes(s)
  {
    if s == "" then ""
    else if IsUnreserved(s[0]) then [s[0]] + Escape(s[1..], false)
    else if s[0] == '\n' then (if afterCr then "" else LINE_BREAK) + Escape(s[1..], false)
    else if s[0] == '\r' then LINE_BREAK + Escape(s[1..], true)
    else Percent(s[0]) + Escape(s[1..], false)
  }

  predicate IsEncoded(s: string) {
    |s| >= 3 && s[0] == '%' && HexValue(s[1]) >= 0 && HexValue(s[2]) >= 0
  }

  function Unescape(s: string): string
    decreases |s|
  {
    if s == "" then ""
    else if IsEncoded(s) then [(HexValue(s[1]) * 16 + HexValue(s[2])) as char] + Unescape(s[3..])
    else [s[0]] + Unescape(s[1..])
  }

  /** The text with its line breaks normalized. */
  function Normalized(s: string, afterCr: bool := false): string {
    if s == "" then ""
    else if s[0] == '\n' then (if afterCr then "" else "\r\n") + Normalized(s[1..], false)
    else if s[0] == '\r' then "\r\n" + Normalized(s[1..], true)
    else [s[0]] + Normalized(s[1..], false)
  }

  /** The character before this one is a CR; before the first one it is if `afterCr` says so. */
  predicate BehindCr(s: string, i: nat, afterCr: bool)
    requires i <= |s|
  {
    if i == 0 then afterCr else s[i - 1] == '\r'
  }

  /** LF stands exactly behind every CR. */
  predicate PairedBreaks(s: string, afterCr: bool := false) {
    && (forall i :: 0 <= i < |s| ==> (s[i] == '\n' <==> BehindCr(s, i, afterCr)))
    && !BehindCr(s, |s|, afterCr)
  }

  lemma HexRoundTrip(n: int)
    requires 0 <= n < 16
    ensures HexValue(HexDigit(n)) == n
  {
  }

  lemma UnescapePercent(c: char, rest: string)
    requires IsByte(c)
    ensures Unescape(Percent(c) + rest) == [c] + Unescape(rest)
  {
    var s := Percent(c) + rest;
    HexRoundTrip(c as int / 16);
    HexRoundTrip(c as int % 16);
    assert s[0] == '%' && s[1] == Percent(c)[1] && s[2] == Percent(c)[2];
    assert s[3..] == rest;
  }

  lemma UnescapeUnreserved(c: char, rest: string)
    requires IsUnreserved(c)
    ensures Unescape([c] + rest) == [c] + Unescape(rest)
  {
    assert ([c] + rest)[1..] == rest;
  }

  lemma UnescapeBreak(rest: string)
    ensures Unescape(LINE_BREAK + rest) == "\r\n" + Unescape(rest)
  {
    assert LINE_BREAK == Percent('\r') + Percent('\n');
    assert LINE_BREAK + rest == Percent('\r') + (Percent('\n') + rest);
    UnescapePercent('\r', Percent('\n') + rest);
    UnescapePercent('\n', rest);
  }

  /** Unescaping escaped text gives the text with normalized line breaks. */
  lemma {:induction false} UnescapeEscape(s: string, afterCr: bool)
    requires IsBytes(s)
    ensures Unescape(Escape(s, afterCr)) == Normalized(s, afterCr)
    decreases |s|
  {
    if s != "" {
      var rest := s[1..];
      if IsUnreserved(s[0]) {
        UnescapeEscape(rest, false);
        UnescapeUnreserved(s[0], Escape(rest, false));
      } else if s[0] == '\n' {
        UnescapeEscape(rest, false);
        if afterCr {
          assert "" + Escape(rest, false) == Escape(rest, false);
          assert "" + Normalized(rest, false) == Normalized(rest, false);
        } else {
          UnescapeBreak(Escape(rest, false));
        }
      } else if s[0] == '\r' {
        UnescapeEscape(rest, true);
        UnescapeBreak(Escape(rest, true));
      } else {
        UnescapeEscape(rest, false);
        UnescapePercent(s[0], Escape(rest, false));
      }
    }
  }

  /** Escaped text has no slash, and is empty only for empty text. */
  lemma {:induction false} EscapedHasNoSlash(s: string, afterCr: bool)
    requires IsBytes(s)
    ensures forall i :: 0 <= i < |Escape(s, afterCr)| ==>
              Escape(s, afterCr)[i] == '%' || IsUnreserved(Escape(s, afterCr)[i])
    ensures !afterCr ==> (Escape(s, afterCr) == "" <==> s == "")
    decreases |s|
  {
    if s != "" {
      EscapedHasNoSlash(s[1..], false);
      EscapedHasNoSlash(s[1..], true);
      if !IsUnreserved(s[0]) && s[0] != '\n' && s[0] != '\r' {
        PercentIsClean(s[0]);
      }
    }
  }

  lemma PercentIsClean(c: char)
    requires IsByte(c)
    ensures forall i :: 0 <= i < 3 ==> Percent(c)[i] == '%' || IsUnreserved(Percent(c)[i])
  {
  }

  /** Only line breaks, each of which is written out: no LF behind a CR. */
  predicate OnlyBreaks(s: string, afterCr: bool := false) {
    forall i :: 0 <= i < |s| ==> s[i] == '\r' || (s[i] == '\n' && !BehindCr(s, i, afterCr))
  }

  lemma OnlyBreaksStep(s: string, afterCr: bool)
    requires s != ""
    ensures OnlyBreaks(s, afterCr) <==> (s[0] == '\r' || (s[0] == '\n' && !afterCr)) && OnlyBreaks(s[1..], s[0] == '\r')
  {
    var t, cr := s[1..], s[0] == '\r';
    forall i | 0 <= i < |t|
      ensures BehindCr(t, i, cr) == BehindCr(s, i + 1, afterCr) && t[i] == s[i + 1]
    {
    }
    if OnlyBreaks(t, cr) && (s[0] == '\r' || (s[0] == '\n' && !afterCr)) {
      forall i | 0 <= i < |s|
        ensures s[i] == '\r' || (s[i] == '\n' && !BehindCr(s, i, afterCr))
      {
        if i > 0 {
          assert t[i - 1] == s[i] && BehindCr(t, i - 1, cr) == BehindCr(s, i, afterCr);
        }
      }
    }
  }

  const URI_MULT := 6

  /**
    The buffer of `url_escape` has six characters for each one of the text. The escaped text always fits, and there
    is room for its terminator if and only if some character of the text takes less than six: any other character than
    a line break, or an LF behind a CR.
  */
  lemma {:induction false} EscapeFitsIff(s: string, afterCr: bool)
    requires IsBytes(s)
    ensures |Escape(s, afterCr)| <= URI_MULT * |s|
    ensures |Escape(s, afterCr)| + 1 <= URI_MULT * |s| <==> !OnlyBreaks(s, afterCr)
    decreases |s|
  {
    if s != "" {
      EscapeFitsIff(s[1..], false);
      EscapeFitsIff(s[1..], true);
      OnlyBreaksStep(s, afterCr);
    }
  }

  /** Every component of the path is escaped within its buffer. */
  predicate PrintFits(p: seq<string>)
    requires AreBytes(p)
  {
    forall i :: 0 <= i < |p| ==> |Escape(p[i])| + 1 <= URI_MULT * |p[i]|
  }

  /** Which is so if and only if no component is empty or takes six characters for each of its own. */
  lemma PrintFitsIff(p: seq<string>)
    requires AreBytes(p)
    ensures PrintFits(p) <==> forall i :: 0 <= i < |p| ==> !OnlyBreaks(p[i])
  {
    forall i | 0 <= i < |p|
      ensures |Escape(p[i])| + 1 <= URI_MULT * |p[i]| <==> !OnlyBreaks(p[i])
    {
      EscapeFitsIff(p[i], false);
    }
  }

  lemma PairedStep(s: string, afterCr: bool)
    requires s != ""
    ensures PairedBreaks(s, afterCr) <==> (s[0] == '\n' <==> afterCr) && PairedBreaks(s[1..], s[0] == '\r')
  {
    var t, cr := s[1..], s[0] == '\r';
    forall i | 0 <= i <= |t|
      ensures BehindCr(t, i, cr) == BehindCr(s, i + 1, afterCr)
    {
    }
    assert BehindCr(t, |t|, cr) == BehindCr(s, |s|, afterCr);
    if PairedBreaks(s, afterCr) {
      assert BehindCr(s, 0, afterCr) == afterCr;
      forall i | 0 <= i < |t|
        ensures t[i] == '\n' <==> BehindCr(t, i, cr)
      {
        assert t[i] == s[i + 1];
      }
    }
    if (s[0] == '\n' <==> afterCr) && PairedBreaks(t, cr) {
      forall i | 0 <= i < |s|
        ensures s[i] == '\n' <==> BehindCr(s, i, afterCr)
      {
        if i > 0 {
          assert s[i] == t[i - 1];
          assert BehindCr(t, i - 1, cr) == BehindCr(s, i, afterCr);
        }
      }
    }
  }

  /** Normalization never shortens by more than the LF that is already written. */
  lemma {:induction false} NormalizedLength(s: string, afterCr: bool)
    ensures |Normalized(s, afterCr)| >= |s| - if afterCr then 1 else 0
    ensures |Normalized(s, afterCr)| == |s| - (if afterCr then 1 else 0) <==> PairedBreaks(s, afterCr)
    decreases |s|
  {
    if s != "" {
      NormalizedLength(s[1..], false);
      NormalizedLength(s[1..], true);
      PairedStep(s, afterCr);
    }
  }

  lemma {:induction false} PairedIsNormalized(s: string, afterCr: bool)
    requires PairedBreaks(s, afterCr)
    ensures Normalized(s, afterCr) == if afterCr then s[1..] else s
    decreases |s|
  {
    if s != "" {
      PairedStep(s, afterCr);
      if afterCr {
        PairedIsNormalized(s[1..], false);
        assert "" + Normalized(s[1..], false) == Normalized(s[1..], false);
      } else if s[0] == '\r' {
        PairedIsNormalized(s[1..], true);
        assert s == "\r\n" + s[1..][1..];
      } else {
        PairedIsNormalized(s[1..], false);
        assert s == [s[0]] + s[1..];
      }
    }
  }

  /** A component survives escaping and unescaping exactly when its line breaks are CR LF pairs. */
  lemma ComponentRoundTripIff(s: string)
    requires IsBytes(s)
    ensures Unescape(Escape(s)) == s <==> PairedBreaks(s)
  {
    UnescapeEscape(s, false);
    NormalizedLength(s, false);
    if PairedBreaks(s) {
      PairedIsNormalized(s, false);
    }
  }

  // ----- paths

  function SlashIndex(s: string): (n: nat)
    ensures n <= |s|
    ensures n < |s| ==> s[n] == '/'
    ensures forall i :: 0 <= i < n ==> s[i] != '/'
  {
    if s == "" || s[0] == '/' then 0 else 1 + SlashIndex(s[1..])
  }

  function Split(s: string): (r: seq<string>)
    ensures r != []
    ensures IsBytes(s) ==> AreBytes(r)
    decreases |s|
  {
    var n := SlashIndex(s);
    [s[..n]] + if n == |s| then [] else Split(s[n + 1..])
  }

  /** The text up to the first zero byte. */
  function BeforeNul(s: string): (r: string)
    ensures r <= s && forall i :: 0 <= i < |r| ==> r[i] != '\0'
    ensures |r| < |s| ==> s[|r|] == '\0'
  {
    if s == "" || s[0] == '\0' then "" else [s[0]] + BeforeNul(s[1..])
  }

  /** The component that a token stands for; an encoded zero byte ends it. */
  function Component(token: string): (r: string)
    ensures IsBytes(token) ==> IsBytes(r)
  {
    UnescapedBytes(token);
    BeforeNul(Unescape(token))
  }

  lemma {:induction false} UnescapedBytes(s: string)
    ensures IsBytes(s) ==> forall i :: 0 <= i < |Unescape(s)| ==> Unescape(s)[i] as int <= 255
    decreases |s|
  {
    if s != "" {
      UnescapedBytes(s[1..]);
      if IsEncoded(s) {
        UnescapedBytes(s[3..]);
      }
    }
  }

  lemma {:induction false} NormalizedBytes(s: string, afterCr: bool)
    requires IsBytes(s)
    ensures IsBytes(Normalized(s, afterCr))
    decreases |s|
  {
    if s != "" {
      NormalizedBytes(s[1..], false);
      NormalizedBytes(s[1..], true);
    }
  }

  /** Escaped text has no encoded zero byte. */
  lemma ComponentOfEscape(s: string)
    requires IsBytes(s)
    ensures Component(Escape(s)) == Unescape(Escape(s))
  {
    UnescapeEscape(s, false);
    NormalizedBytes(s, false);
  }

  function Components(p: seq<string>): (r: seq<string>)
    ensures |r| == |p|
    ensures AreBytes(p) ==> AreBytes(r)
  {
    seq(|p|, i requires 0 <= i < |p| => Component(p[i]))
  }

  function EscapeAll(p: seq<string>): (r: seq<string>)
    requires AreBytes(p)
    ensures |r| == |p|
  {
    seq(|p|, i requires 0 <= i < |p| => Escape(p[i]))
  }

  predicate IsLead(c: char) {
    c == ' ' || c == '\t' || c == '/'
  }

  /** Where the first component starts, if there is anything but blanks and slashes. */
  function LeadLength(s: string): (n: nat)
    ensures n <= |s|
    ensures n < |s| ==> !IsLead(s[n])
    ensures forall i :: 0 <= i < n ==> IsLead(s[i])
  {
    if s == "" || !IsLead(s[0]) then 0 else 1 + LeadLength(s[1..])
  }

  function SkipLead(s: string): string {
    if LeadLength(s) == |s| then s else s[LeadLength(s)..]
  }

  function Parse(s: string): (r: seq<string>)
    ensures r != []
    ensures IsBytes(s) ==> AreBytes(r)
  {
    Components(Split(SkipLead(s)))
  }

  function ToPathString(p: seq<string>): string
    requires AreBytes(p)
  {
    "/" + SlashJoin(EscapeAll(p))
  }

  // ----- printing and parsing

  lemma SlashAfter(t: string, rest: string)
    requires SlashFree(t)
    ensures SlashIndex(t) == |t|
    ensures SlashIndex(t + "/" + rest) == |t|
  {
    var s := t + "/" + rest;
    assert s[|t|] == '/';
    assert forall i :: 0 <= i < |t| ==> s[i] == t[i];
  }

  lemma {:induction false} SplitOfJoin(ts: seq<string>)
    requires ts != [] && forall i :: 0 <= i < |ts| ==> SlashFree(ts[i])
    ensures Split(SlashJoin(ts)) == ts
    decreases |ts|
  {
    if |ts| == 1 {
      SlashAfter(ts[0], "");
      assert ts[0][..|ts[0]|] == ts[0];
    } else {
      var rest := SlashJoin(ts[1..]);
      var s := ts[0] + "/" + rest;
      SlashAfter(ts[0], rest);
      assert s[..|ts[0]|] == ts[0] && s[|ts[0]| + 1..] == rest;
      SplitOfJoin(ts[1..]);
    }
  }

  lemma EscapedComponents(p: seq<string>)
    requires AreBytes(p)
    ensures forall i :: 0 <= i < |p| ==> SlashFree(EscapeAll(p)[i])
    ensures forall i :: 0 <= i < |p| ==> (EscapeAll(p)[i] == "" <==> p[i] == "")
    ensures forall i, j :: 0 <= i < |p| && 0 <= j < |EscapeAll(p)[i]| ==> !IsLead(EscapeAll(p)[i][j])
    ensures AreBytes(EscapeAll(p))
  {
    forall i | 0 <= i < |p|
      ensures SlashFree(EscapeAll(p)[i]) && (EscapeAll(p)[i] == "" <==> p[i] == "")
      ensures forall j :: 0 <= j < |EscapeAll(p)[i]| ==> !IsLead(EscapeAll(p)[i][j])
      ensures IsBytes(EscapeAll(p)[i])
    {
      EscapedHasNoSlash(p[i], false);
    }
  }

  lemma LeadOf(s: string, n: nat)
    requires n < |s| && !IsLead(s[n]) && forall i :: 0 <= i < n ==> IsLead(s[i])
    ensures LeadLength(s) == n
  {
  }

  /** A path whose first component is not empty comes back with its line breaks normalized. */
  lemma ParsePrinted(p: seq<string>)
    requires AreBytes(p) && p != [] && p[0] != ""
    ensures Parse(ToPathString(p)) == Components(EscapeAll(p))
  {
    var ts := EscapeAll(p);
    EscapedComponents(p);
    var s := ToPathString(p);
    assert s[0] == '/' && s[1] == ts[0][0];
    LeadOf(s, 1);
    assert s[1..] == SlashJoin(ts);
    SplitOfJoin(ts);
  }

  lemma {:induction false} AllSlashes(ts: seq<string>)
    requires ts != [] && forall i :: 0 <= i < |ts| ==> ts[i] == ""
    ensures |SlashJoin(ts)| == |ts| - 1
    ensures forall i :: 0 <= i < |SlashJoin(ts)| ==> SlashJoin(ts)[i] == '/'
    decreases |ts|
  {
    if |ts| > 1 {
      AllSlashes(ts[1..]);
    }
  }

  lemma {:induction false} SplitSlashes(s: string)
    requires forall i :: 0 <= i < |s| ==> s[i] == '/'
    ensures |Split(s)| == |s| + 1
    decreases |s|
  {
    if s != "" {
      assert SlashIndex(s) == 0;
      SplitSlashes(s[1..]);
    }
  }

  lemma LeadOfLeads(s: string)
    requires forall i :: 0 <= i < |s| ==> IsLead(s[i])
    ensures SkipLead(s) == s
  {
    assert LeadLength(s) == |s|;
  }

  /** Empty components in front are skipped together with the slashes behind them. */
  lemma {:induction false} EmptyOnesAreSkipped(ts: seq<string>, k: nat)
    requires k < |ts| && (forall i :: 0 <= i < k ==> ts[i] == "") && ts[k] != "" && !IsLead(ts[k][0])
    ensures SkipLead("/" + SlashJoin(ts)) == SlashJoin(ts[k..])
    decreases k
  {
    var s := "/" + SlashJoin(ts);
    if k == 0 {
      assert s[1] == ts[0][0];
      LeadOf(s, 1);
      assert s[1..] == SlashJoin(ts) && ts[0..] == ts;
    } else {
      assert SlashJoin(ts) == "/" + SlashJoin(ts[1..]);
      EmptyOnesAreSkipped(ts[1..], k - 1);
      assert ts[1..][k - 1..] == ts[k..];
      assert s[1..] == SlashJoin(ts);
    }
  }

  /** Without a component, or with an empty first one, the printed path has another number of components. */
  lemma BadStartIsLost(p: seq<string>)
    requires AreBytes(p) && (p == [] || p[0] == "")
    ensures |Parse(ToPathString(p))| != |p|
  {
    if p != [] {
      var s, ts := ToPathString(p), EscapeAll(p);
      EscapedComponents(p);
      if forall i :: 0 <= i < |p| ==> p[i] == "" {
        AllSlashes(ts);
        LeadOfLeads(s);
        SplitSlashes(s);
      } else {
        var k := FirstNonEmpty(p);
        EmptyOnesAreSkipped(ts, k);
        SplitOfJoin(ts[k..]);
      }
    }
  }

  lemma {:induction false} FirstNonEmpty(p: seq<string>) returns (k: nat)
    requires exists i :: 0 <= i < |p| && p[i] != ""
    ensures k < |p| && p[k] != "" && forall i :: 0 <= i < k ==> p[i] == ""
    decreases |p|
  {
    if p[0] != "" {
      k := 0;
    } else {
      var i :| 0 <= i < |p| && p[i] != "";
      assert p[1..][i - 1] == p[i];
      var m := FirstNonEmpty(p[1..]);
      k := m + 1;
    }
  }

  /**
    Parsing a printed path gives the path, if and only if it has a first component, that one is not
    empty, and all line breaks in components are CR LF pairs.
  */
  lemma PathRoundTripIff(p: seq<string>)
    requires AreBytes(p)
    ensures Parse(ToPathString(p)) == p <==> p != [] && p[0] != "" && forall i :: 0 <= i < |p| ==> PairedBreaks(p[i])
  {
    if p == [] || p[0] == "" {
      BadStartIsLost(p);
    } else {
      ParsePrinted(p);
      var r := Components(EscapeAll(p));
      forall i | 0 <= i < |p|
        ensures r[i] == p[i] <==> PairedBreaks(p[i])
      {
        ComponentOfEscape(p[i]);
        ComponentRoundTripIff(p[i]);
      }
      if r == p {
        forall i | 0 <= i < |p|
          ensures PairedBreaks(p[i])
        {
          assert r[i] == p[i];
        }
      }
    }
  }

  // ----- the class

  /** What is left of the text when 0, 1, ... tokens have been cut off. */
  ghost function Suffixes(s: string): seq<string>
    decreases |s|
  {
    var n := SlashIndex(s);
    [s] + if n == |s| then [] else Suffixes(s[n + 1..])
  }

  /** The token at the front of a suffix, and the suffix behind it. */
  ghost predicate Linked(sufs: seq<string>, toks: seq<string>, i: nat)
    requires i < |sufs| == |toks|
  {
    var n := SlashIndex(sufs[i]);
    && toks[i] == sufs[i][..n]
    && (i + 1 < |sufs| <==> n < |sufs[i]|)
    && (i + 1 < |sufs| ==> sufs[i + 1] == sufs[i][n + 1..])
  }

  lemma {:induction false} SuffixesAreLinked(s: string, toks: seq<string>, sufs: seq<string>)
    requires toks == Split(s) && sufs == Suffixes(s)
    ensures |toks| == |sufs| > 0 && sufs[0] == s && forall i :: 0 <= i < |sufs| ==> Linked(sufs, toks, i)
    decreases |s|
  {
    var n := SlashIndex(s);
    if n < |s| {
      var rest := s[n + 1..];
      var toks', sufs' := Split(rest), Suffixes(rest);
      SuffixesAreLinked(rest, toks', sufs');
      forall i | 0 <= i < |sufs|
        ensures Linked(sufs, toks, i)
      {
        if i > 0 {
          LinkedBehind(s, s[..n], sufs', toks', i - 1);
        }
      }
    }
  }

  lemma LinkedBehind(s: string, t: string, sufs: seq<string>, toks: seq<string>, i: nat)
    requires i < |sufs| == |toks| && Linked(sufs, toks, i)
    ensures Linked([s] + sufs, [t] + toks, i + 1)
  {
  }

  class ConfigPath {
    var data: seq<string>

    constructor ()
      ensures data == []
    {
      data := [];
    }

    /** The constructor from text. */
    constructor FromText(comps: string)
      ensures data == Parse(comps)
    {
      data := [];
      new;
      var s := SkipLead(comps);
      SuffixesAreLinked(s, Split(s), Suffixes(s));
      PushTokens(s, Split(s), Suffixes(s));
      assert data == Components(Split(s));
    }

    /** Cuts off one token after the other. */
    method PushTokens(text: string, ghost toks: seq<string>, ghost sufs: seq<string>)
      requires data == [] && |toks| == |sufs| > 0 && sufs[0] == text
      requires forall i :: 0 <= i < |sufs| ==> Linked(sufs, toks, i)
      modifies this
      ensures |data| == |toks| && forall i :: 0 <= i < |toks| ==> data[i] == Component(toks[i])
    {
      var s := text;
      var pos := SlashIndex(s);
      while pos < |s|
        invariant |data| < |sufs| && s == sufs[|data|] && pos == SlashIndex(s)
        invariant forall i :: 0 <= i < |data| ==> data[i] == Component(toks[i])
        decreases |s|
      {
        assert Linked(sufs, toks, |data|);
        Push(Component(s[..pos]));
        s := s[pos + 1..];
        pos := SlashIndex(s);
      }
      assert Linked(sufs, toks, |data|);
      Push(Component(s[..pos]));
    }

    method Push(comp: string)
      modifies this
      ensures data == old(data) + [comp]
    {
      data := data + [comp];
    }

    method Pop() returns (last: string)
      requires data != []
      modifies this
      ensures data + [last] == old(data)
    {
      last := data[|data| - 1];
      data := data[..|data| - 1];
    }

    /** Prints the components one after the other. */
    method PathString() returns (out: string)
      requires AreBytes(data)
      ensures out == ToPathString(data)
    {
      out := "/";
      ghost var ts := EscapeAll(data);
      for i := 0 to |data|
        invariant out == "/" + JoinFirst(ts, i)
      {
        if i > 0 {
          out := out + "/";
        }
        out := out + Escape(data[i]);
      }
      JoinFirstIsJoin(ts, |ts|);
      assert ts[..|ts|] == ts;
    }
  }

  /** The first `n` parts joined, as the printing loop does it. */
  function JoinFirst(ts: seq<string>, n: nat): string
    requires n <= |ts|
  {
    if n == 0 then "" else JoinFirst(ts, n - 1) + (if n == 1 then "" else "/") + ts[n - 1]
  }

  lemma {:induction false} JoinFirstIsJoin(ts: seq<string>, n: nat)
    requires n <= |ts|
    ensures JoinFirst(ts, n) == SlashJoin(ts[..n])
  {
    if n > 0 {
      JoinFirstIsJoin(ts, n - 1);
      assert ts[..n] == ts[..n - 1] + [ts[n - 1]];
      if n > 1 {
        SlashJoinAppend(ts[..n - 1], ts[n - 1]);
      }
    }
  }
}
