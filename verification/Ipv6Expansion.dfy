/**
  The numbers that the IPv6 scanner has written when it reaches the end of the text, and what
  filling the gap of `::` makes of them.
*/
module Ipv6Expansion {
  import opened Ipv6Text

  /** The numbers up to `::`; without a group before it, a zero. */
  function PreWritten(n: Numbers): seq<int> {
    if !n.compressed then [] else if n.pre == [] then [0] else n.pre
  }

  /** The numbers after `::`; without any, a zero. A prefix length is merged into the second group of a dotted quad. */
  function PostWritten(n: Numbers): seq<int>
    requires n.Valid()
  {
    if n.QuadAndPrefix() then n.post + [n.quad[0], n.quad[1] * 256 + n.prefix[0]]
    else (if n.post == [] && n.quad == [] then [0] else n.post + n.quad) + n.prefix
  }

  function Total(n: Numbers): nat {
    if n.prefix == [] then 8 else 9
  }

  lemma WrittenLength(n: Numbers)
    requires n.Valid()
    ensures |PreWritten(n)| <= 7
    ensures |PreWritten(n)| + |n.post| + |n.quad| <= 8
    ensures |PreWritten(n)| + |PostWritten(n)| <= Total(n)
    ensures n.QuadAndPrefix() ==> |PreWritten(n)| + |PostWritten(n)| <= 8
  {
  }

  /** The written numbers with the gap filled. */
  function Expanded(n: Numbers): seq<int>
    requires n.Valid()
  {
    WrittenLength(n);
    if n.compressed then PreWritten(n) + Zeros(Total(n) - |PreWritten(n)| - |PostWritten(n)|) + PostWritten(n)
    else PostWritten(n)
  }

  /** The numbers that a merge too many does not disturb. */
  predicate HidesExtraMerge(n: Numbers)
    requires n.Valid() && n.QuadAndPrefix()
  {
    && n.quad[1] == 0
    && if n.compressed then n.quad[0] == 0 && forall i :: 0 <= i < |n.post| ==> n.post[i] == 0
       else n.prefix[0] == 0
  }

  lemma AllSplit(n: Numbers)
    requires n.Valid()
    ensures n.All() == n.pre + Zeros(8 - |n.pre| - |n.post| - |n.quad|) + ((n.post + n.quad) + n.prefix)
  {
  }

  lemma PreAsZeros(n: Numbers)
    requires n.Valid() && n.compressed
    ensures PreWritten(n) == n.pre + Zeros(ZerosBefore(n))
  {
  }

  lemma PostAsZeros(n: Numbers)
    requires n.Valid() && !n.QuadAndPrefix()
    ensures PostWritten(n) == Zeros(ZerosBehind(n)) + ((n.post + n.quad) + n.prefix)
  {
    assert Zeros(1) == [0];
  }

  /** The zeros that stand for a missing group before and behind `::`, and those that fill the gap between. */
  function ZerosBefore(n: Numbers): nat {
    if n.pre == [] then 1 else 0
  }

  function ZerosBehind(n: Numbers): nat {
    if n.post == [] && n.quad == [] then 1 else 0
  }

  function GapOf(n: Numbers): int {
    8 - |n.pre| - |n.post| - |n.quad| - ZerosBefore(n) - ZerosBehind(n)
  }

  lemma GapSize(n: Numbers)
    requires n.Valid() && n.compressed && !n.QuadAndPrefix()
    ensures GapOf(n) >= 0 && Expanded(n) == PreWritten(n) + Zeros(GapOf(n)) + PostWritten(n)
  {
    WrittenLength(n);
    assert Total(n) - |PreWritten(n)| - |PostWritten(n)| == GapOf(n);
  }

  /** Without a dotted quad before a prefix length, the gap is filled as it should be. */
  lemma ExpandsToAll(n: Numbers)
    requires n.Valid() && n.compressed && !n.QuadAndPrefix()
    ensures Expanded(n) == n.All()
  {
    GapSize(n);
    PreAsZeros(n);
    PostAsZeros(n);
    AllSplit(n);
  }

  /** One zero too many in front is hidden exactly by zeros. */
  lemma ShiftedByZero(q: seq<int>, low: int)
    ensures [0] + q == q + [low] <==> low == 0 && forall i :: 0 <= i < |q| ==> q[i] == 0
  {
    var x, y := [0] + q, q + [low];
    if x == y {
      ZeroUpTo(q, low, |q|);
      assert y[|q|] == x[|q|];
    }
    if low == 0 && forall i :: 0 <= i < |q| ==> q[i] == 0 {
      assert x == y;
    }
  }

  lemma {:induction false} ZeroUpTo(q: seq<int>, low: int, n: nat)
    requires [0] + q == q + [low] && n <= |q|
    ensures forall i :: 0 <= i < n ==> q[i] == 0
  {
    if n > 0 {
      ZeroUpTo(q, low, n - 1);
      assert ([0] + q)[n - 1] == (q + [low])[n - 1];
    }
  }

  lemma SameSuffix(v: seq<int>, x: seq<int>, y: seq<int>)
    ensures v + x == v + y <==> x == y
  {
    assert (v + x)[|v|..] == x && (v + y)[|v|..] == y;
  }

  lemma SameEnds(x: seq<int>, y: seq<int>, c: int, d: int)
    requires |x| == |y|
    ensures x + [c] == y + [d] <==> x == y && c == d
  {
    assert (x + [c])[..|x|] == x && (y + [d])[..|y|] == y;
    assert (x + [c])[|x|] == c && (y + [d])[|y|] == d;
  }

  /** Groups moved up by one place, with `low * 256 + p` behind them, against groups in their place. */
  lemma MovedUp(v: seq<int>, k: nat, g: nat, post: seq<int>, high: int, low: int, p: int)
    requires k + g >= 1 && low >= 0
    ensures (v + Zeros(k)) + Zeros(g) + (post + [high, low * 256 + p])
              == v + Zeros(k + g - 1) + ((post + [high, low]) + [p])
            <==> low == 0 && high == 0 && forall i :: 0 <= i < |post| ==> post[i] == 0
  {
    var q := post + [high];
    var front := v + Zeros(k + g - 1);
    var x, y := [0] + q + [low * 256 + p], q + [low] + [p];
    assert Zeros(k) + Zeros(g) == Zeros(k + g - 1) + [0];
    assert (v + Zeros(k)) + Zeros(g) + (post + [high, low * 256 + p]) == front + x;
    assert v + Zeros(k + g - 1) + ((post + [high, low]) + [p]) == front + y;
    SameSuffix(front, x, y);
    SameEnds([0] + q, q + [low], low * 256 + p, p);
    ShiftedByZero(q, low);
    assert q[|post|] == high;
    assert forall i :: 0 <= i < |post| ==> q[i] == post[i];
  }

  /** With `::`, the extra merge moves the last groups up by one place. */
  lemma MergedExpansion(n: Numbers)
    requires n.Valid() && n.compressed && n.QuadAndPrefix()
    ensures Expanded(n) == n.All() <==> HidesExtraMerge(n)
  {
    WrittenLength(n);
    AllSplit(n);
    PreAsZeros(n);
    var k := if n.pre == [] then 1 else 0;
    assert n.quad == [n.quad[0], n.quad[1]] && n.prefix == [n.prefix[0]];
    MovedUp(n.pre, k, 9 - |PreWritten(n)| - |PostWritten(n)|, n.post, n.quad[0], n.quad[1], n.prefix[0]);
  }

  /** Without `::`, the prefix length spoils the last group. */
  lemma MergedLastGroup(r: seq<int>, n: Numbers)
    requires n.Valid() && !n.compressed && n.QuadAndPrefix()
    requires |r| == 9 && r[..8] == PostWritten(n) && r[8] == n.prefix[0]
    ensures r == n.All() <==> HidesExtraMerge(n)
  {
    AllSplit(n);
    assert n.quad == [n.quad[0], n.quad[1]] && n.prefix == [n.prefix[0]];
    assert n.pre + Zeros(0) + ((n.post + n.quad) + n.prefix) == (n.post + n.quad) + n.prefix;
    SpoiltGroup(r, n.post, n.quad[0], n.quad[1], n.prefix[0]);
  }

  lemma SpoiltGroup(r: seq<int>, post: seq<int>, high: int, low: int, p: int)
    requires |r| == 9 && |post| == 6 && low >= 0 && p >= 0
    requires r[..8] == post + [high, low * 256 + p] && r[8] == p
    ensures r == (post + [high, low]) + [p] <==> low == 0 && p == 0
  {
    var x := post + [high];
    assert r == (x + [low * 256 + p]) + [p] by {
      assert r == r[..8] + [r[8]];
      assert post + [high, low * 256 + p] == x + [low * 256 + p];
    }
    assert post + [high, low] == x + [low];
    SameEnds(x + [low * 256 + p], x + [low], p, p);
    SameEnds(x, x, low * 256 + p, low);
  }
}
