/** Character buffers that hold zero-terminated text. */
module CText {

  const NUL: char := '\0'

  /** Text without zero characters. */
  predicate IsText(s: string) {
    forall i :: 0 <= i < |s| ==> s[i] != NUL
  }

  function StrLen(b: seq<char>): (n: nat)
    ensures n <= |b|
    ensures forall i :: 0 <= i < n ==> b[i] != NUL
    ensures n < |b| ==> b[n] == NUL
  {
    if b == [] || b[0] == NUL then 0 else 1 + StrLen(b[1..])
  }

  /** The text in the buffer. */
  function TextOf(b: seq<char>): (s: string)
    ensures IsText(s)
  {
    b[..StrLen(b)]
  }

  lemma LengthIs(b: seq<char>, n: nat)
    requires n < |b| && b[n] == NUL && forall i :: 0 <= i < n ==> b[i] != NUL
    ensures StrLen(b) == n
  {
    assert StrLen(b) >= n;
  }

  /** What `snprintf` stores in a buffer of n characters. */
  function Stored(n: nat, text: string): (s: string)
    requires n > 0
    ensures |s| < n
    ensures |text| < n ==> s == text
  {
    if |text| < n then text else text[..n - 1]
  }

  /** Writes `text` and a terminator at position k. */
  method Write(buf: array<char>, k: nat, text: string)
    requires k + |text| < buf.Length
    modifies buf
    ensures buf[..k] == old(buf[..k]) && buf[k..k + |text|] == text && buf[k + |text|] == NUL
  {
    var i := 0;
    while i < |text|
      invariant 0 <= i <= |text|
      invariant buf[..k] == old(buf[..k])
      invariant forall j :: 0 <= j < i ==> buf[k + j] == text[j]
    {
      buf[k + i] := text[i];
      i := i + 1;
    }
    buf[k + |text|] := NUL;
  }

  /** `strncat` with room enough. */
  method StrCat(buf: array<char>, text: string)
    requires IsText(text) && StrLen(buf[..]) + |text| < buf.Length
    modifies buf
    ensures TextOf(buf[..]) == old(TextOf(buf[..])) + text
    ensures StrLen(buf[..]) == old(StrLen(buf[..])) + |text|
  {
    var k := StrLen(buf[..]);
    ghost var before := buf[..];
    Write(buf, k, text);
    Extended(before, buf[..], k, text);
  }

  lemma Extended(b: seq<char>, c: seq<char>, k: nat, text: string)
    requires k == StrLen(b) < |b| && IsText(text) && k + |text| < |c|
    requires k <= |b| && c[..k] == b[..k] && c[k..k + |text|] == text && c[k + |text|] == NUL
    ensures StrLen(c) == k + |text| && TextOf(c) == TextOf(b) + text
  {
    var n := k + |text|;
    assert c[..n] == c[..k] + c[k..n];
    forall i | 0 <= i < n
      ensures c[i] != NUL
    {
      assert c[i] == c[..n][i];
    }
    LengthIs(c, n);
  }
}
