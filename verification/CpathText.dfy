/** Percent-encoding and splitting, character by character. */
module CpathText {
  import opened SlashPath
  import opened Cpath

  const UPPER_DIGITS := "0123456789ABCDEF"
  const LOWER_DIGITS := "0123456789abcdef"

  /** The unreserved characters of section 2.3 of RFC 3986: letters, digits, and `-`, `.`, `_`, `~`. */
  lemma UnreservedIff(c: char)
    ensures IsUnreserved(c) <==>
            var n := c as int;
            0x41 <= n <= 0x5A || 0x61 <= n <= 0x7A || 0x30 <= n <= 0x39 || n in {0x2D, 0x2E, 0x5F, 0x7E}
  {
  }

  /** Digits are written in upper case and read in either. */
  lemma HexDigits(n: nat)
    requires n < 16
    ensures HexDigit(n) == UPPER_DIGITS[n]
    ensures HexValue(UPPER_DIGITS[n]) == n && HexValue(LOWER_DIGITS[n]) == n
  {
  }

  lemma NoOtherDigits(c: char)
    requires HexValue(c) >= 0
    ensures HexValue(c) < 16 && c in {UPPER_DIGITS[HexValue(c)], LOWER_DIGITS[HexValue(c)]}
  {
  }

  /** An unreserved character stands for itself. */
  lemma UnreservedIsKept(c: char, s: string)
    requires IsUnreserved(c) && IsByte(c) && IsBytes(s)
    ensures Escape([c] + s) == [c] + Escape(s)
  {
    assert ([c] + s)[1..] == s;
  }

  /** Any other one but a line break is written as its code. */
  lemma OtherIsEncoded(c: char, s: string)
    requires !IsUnreserved(c) && c !in {'\r', '\n'} && IsByte(c) && IsBytes(s)
    ensures Escape([c] + s) == ['%', HexDigit(c as int / 16), HexDigit(c as int % 16)] + Escape(s)
  {
    assert ([c] + s)[1..] == s;
  }

  /** A line break is written as CR LF. */
  lemma BreakIsEncoded(s: string)
    requires IsBytes(s)
    ensures Escape(['\n'] + s) == "%0D%0A" + Escape(s)
    ensures Escape(['\r'] + (['\n'] + s)) == "%0D%0A" + Escape(s)
  {
    assert (['\n'] + s)[1..] == s && (['\r'] + (['\n'] + s))[1..] == ['\n'] + s;
    assert "" + Escape(s) == Escape(s);
  }

  /** A code is read as its character, and every other character as itself. */
  lemma CodeIsRead(a: char, b: char, c: char, s: string)
    ensures HexValue(a) >= 0 && HexValue(b) >= 0 ==>
              Unescape(['%', a, b] + s) == [(HexValue(a) * 16 + HexValue(b)) as char] + Unescape(s)
    ensures c != '%' ==> Unescape([c] + s) == [c] + Unescape(s)
  {
    assert (['%', a, b] + s)[3..] == s;
    assert ([c] + s)[1..] == s;
  }

  // ----- splitting

  /** Blanks, tabs and slashes in front of the first component are skipped. */
  lemma LeadIsSkipped(c: char, s: string)
    requires c in {' ', '\t', '/'} && LeadLength(s) < |s|
    ensures SkipLead([c] + s) == SkipLead(s)
  {
    assert ([c] + s)[1..] == s;
    var n := LeadLength(s);
    assert LeadLength([c] + s) == n + 1;
    assert ([c] + s)[n + 1..] == s[n..];
  }

  /** No other character is. */
  lemma OtherIsNotSkipped(c: char, s: string)
    requires c !in {' ', '\t', '/'}
    ensures SkipLead([c] + s) == [c] + s
  {
    assert LeadLength([c] + s) == 0;
  }

  /** The text is split at its slashes. */
  lemma SplitAtSlash(t: string, rest: string)
    requires SlashFree(t)
    ensures Split(t) == [t] && Split(t + "/" + rest) == [t] + Split(rest)
  {
    SlashAfter(t, rest);
    var v := t + "/" + rest;
    assert t[..|t|] == t && v[..|t|] == t && v[|t| + 1..] == rest;
  }
}
