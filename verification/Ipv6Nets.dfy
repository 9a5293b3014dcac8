/**
  What the scanner makes of addresses with a prefix length, and when two spellings of one net are scanned
  alike in spite of the extra merge.
*/
module Ipv6Nets {
  import opened Ipv6Text
  import opened Ipv6Expansion
  import opened Ipv6Scan

  /** The scanner reads the groups and the prefix length. */
  predicate Sound(n: Numbers)
    requires n.Valid()
  {
    n.QuadAndPrefix() ==> HidesExtraMerge(n)
  }

  /** The first seven groups, moved up by one place from `i` on. */
  function MovedFrom(g: seq<int>, i: nat): (r: seq<int>)
    requires |g| == 8 && i <= 7
    ensures |r| == 8
  {
    g[..i] + [0] + g[i..7]
  }

  /** The nine numbers that are left by the scanner. */
  function NetRead(n: Numbers): (r: seq<int>)
    requires n.Valid() && n.prefix != []
    ensures |r| == 9
  {
    var g, p := n.Groups(), n.prefix[0];
    if !n.QuadAndPrefix() then n.All()
    else if n.compressed then MovedFrom(g, |n.pre|) + [g[7] * 256 + p]
    else g[..7] + [g[7] * 256 + p] + [p]
  }

  lemma MovedByExpansion(pre: seq<int>, k: nat, z: nat, post: seq<int>, high: int, low: int, x: int)
    requires |pre| + z + |post| + 2 == 8 && k <= z
    ensures var g := pre + Zeros(z) + post + [high, low];
            |g| == 8 && (pre + Zeros(k)) + Zeros(z + 1 - k) + (post + [high, x]) == MovedFrom(g, |pre|) + [x]
  {
    var g := pre + Zeros(z) + post + [high, low];
    assert g[..|pre|] == pre && g[|pre|..7] == Zeros(z) + post + [high];
    assert Zeros(k) + Zeros(z + 1 - k) == [0] + Zeros(z);
  }

  lemma ExpandedNet(n: Numbers)
    requires n.Valid() && n.compressed && n.QuadAndPrefix()
    ensures Expanded(n) == NetRead(n)
  {
    WrittenLength(n);
    PreAsZeros(n);
    assert n.quad == [n.quad[0], n.quad[1]] && n.Groups()[7] == n.quad[1];
    var z, k := 8 - |n.pre| - |n.post| - 2, if n.pre == [] then 1 else 0;
    MovedByExpansion(n.pre, k, z, n.post, n.quad[0], n.quad[1], n.quad[1] * 256 + n.prefix[0]);
  }

  lemma SpoiltNet(r: seq<int>, n: Numbers)
    requires n.Valid() && !n.compressed && n.QuadAndPrefix()
    requires |r| == 9 && r[..8] == PostWritten(n) && r[8] == n.prefix[0]
    ensures r == NetRead(n)
  {
    assert n.quad == [n.quad[0], n.quad[1]];
    assert n.Groups() == n.post + n.quad;
    assert n.Groups()[..7] == n.post + [n.quad[0]];
    assert r == r[..8] + [r[8]];
  }

  /** Scanning the text of a net leaves these numbers, whatever the array held before. */
  lemma ScannedNet(parts: seq<int>, a: Address)
    requires ValidAddress(a) && |parts| == PARTS && a.prefix.Some?
    ensures NumbersOf(a).Valid() && Scanned(parts, a) == NetRead(NumbersOf(a))
  {
    NumbersAreValid(a);
    var n, r := NumbersOf(a), Scanned(parts, a);
    assert r[..9] == r;
    if !n.QuadAndPrefix() {
      ScanIsCorrectIff(parts, a);
    } else if a.compressed {
      ScannedCompressed(parts, a);
      ExpandedNet(n);
    } else {
      ScannedUncompressed(parts, a);
      SpoiltNet(r, n);
    }
  }

  lemma ReadsAllIffSound(n: Numbers)
    requires n.Valid() && n.prefix != []
    ensures NetRead(n) == n.All() <==> Sound(n)
  {
    if n.QuadAndPrefix() {
      if n.compressed {
        ExpandedNet(n);
        MergedExpansion(n);
      } else {
        var r := PostWritten(n) + n.prefix;
        assert r[..8] == PostWritten(n);
        SpoiltNet(r, n);
        MergedLastGroup(r, n);
      }
    }
  }

  predicate ZeroBetween(g: seq<int>, i: nat, j: nat)
    requires i <= |g| && j <= |g|
  {
    forall k :: 0 <= k < |g| && (i <= k < j || j <= k < i) ==> g[k] == 0
  }

  /** Two spellings of one net are read alike: both rightly, or both wrongly in the same way. */
  predicate ReadAlike(m: Numbers, n: Numbers)
    requires m.Valid() && n.Valid()
  {
    if Sound(m) || Sound(n) then Sound(m) && Sound(n)
    else m.compressed == n.compressed && (m.compressed ==> ZeroBetween(m.Groups(), |m.pre|, |n.pre|))
  }

  lemma MovedAlike(g: seq<int>, i: nat, j: nat)
    requires |g| == 8 && i <= j <= 7
    ensures MovedFrom(g, i) == MovedFrom(g, j) <==> ZeroBetween(g, i, j)
  {
    var front, q, back := g[..i], g[i..j], g[j..7];
    assert MovedFrom(g, i) == front + (([0] + q) + back) by {
      assert g[i..7] == q + back;
    }
    assert MovedFrom(g, j) == front + ((q + [0]) + back) by {
      assert g[..j] == front + q;
    }
    SameSuffix(front, ([0] + q) + back, (q + [0]) + back);
    SameFront([0] + q, q + [0], back);
    ShiftedByZero(q, 0);
    assert forall k :: i <= k < j ==> g[k] == q[k - i];
    assert forall k :: 0 <= k < |q| ==> q[k] == g[k + i];
  }

  lemma SameFront(x: seq<int>, y: seq<int>, back: seq<int>)
    requires |x| == |y|
    ensures x + back == y + back <==> x == y
  {
    assert (x + back)[..|x|] == x && (y + back)[..|y|] == y;
  }

  /** A wrong reading with `::` is never the wrong reading without. */
  lemma MixedReadings(g: seq<int>, i: nat, p: int)
    requires |g| == 8 && i <= 6 && g[7] >= 0
    requires MovedFrom(g, i) + [g[7] * 256 + p] == g[..7] + [g[7] * 256 + p] + [p]
    ensures g[7] == 0 && p == 0
  {
    var x := g[7] * 256 + p;
    SameEnds(MovedFrom(g, i), g[..7] + [x], x, p);
    var front, q := g[..i], g[i..7];
    assert MovedFrom(g, i) == front + ([0] + q);
    assert g[..7] == front + q;
    assert g[..7] + [x] == front + (q + [x]);
    SameSuffix(front, [0] + q, q + [x]);
    ShiftedByZero(q, x);
  }

  lemma PartsOfAll(m: Numbers, n: Numbers)
    requires m.Valid() && n.Valid() && m.prefix != [] && n.prefix != [] && m.All() == n.All()
    ensures m.Groups() == n.Groups() && m.prefix[0] == n.prefix[0]
  {
    assert m.All()[..8] == m.Groups() && n.All()[..8] == n.Groups();
    assert m.All()[8] == m.prefix[0] && n.All()[8] == n.prefix[0];
  }

  lemma QuadIsLast(n: Numbers)
    requires n.Valid() && n.QuadAndPrefix()
    ensures n.Groups()[7] == n.quad[1] >= 0 && n.Groups()[6] == n.quad[0]
    ensures n.compressed ==> |n.pre| <= 6
  {
  }

  lemma MixedNets(m: Numbers, n: Numbers)
    requires m.Valid() && n.Valid() && m.prefix != [] && n.prefix != [] && m.All() == n.All()
    requires !Sound(m) && !Sound(n) && m.compressed && !n.compressed
    ensures NetRead(m) != NetRead(n)
  {
    PartsOfAll(m, n);
    QuadIsLast(m);
    QuadIsLast(n);
    if NetRead(m) == NetRead(n) {
      MixedReadings(m.Groups(), |m.pre|, m.prefix[0]);
    }
  }

  /** The exact condition under which one net, spelled twice, is read as the same numbers. */
  lemma SameNetIsReadAlikeIff(m: Numbers, n: Numbers)
    requires m.Valid() && n.Valid() && m.prefix != [] && n.prefix != [] && m.All() == n.All()
    ensures NetRead(m) == NetRead(n) <==> ReadAlike(m, n)
  {
    ReadsAllIffSound(m);
    ReadsAllIffSound(n);
    if !Sound(m) && !Sound(n) {
      PartsOfAll(m, n);
      if m.compressed && n.compressed {
        MovedNets(m, n);
      } else if m.compressed {
        MixedNets(m, n);
      } else if n.compressed {
        MixedNets(n, m);
      }
    }
  }

  lemma MovedNets(m: Numbers, n: Numbers)
    requires m.Valid() && n.Valid() && m.QuadAndPrefix() && n.QuadAndPrefix() && m.compressed && n.compressed
    requires m.Groups() == n.Groups() && m.prefix[0] == n.prefix[0]
    ensures NetRead(m) == NetRead(n) <==> ZeroBetween(m.Groups(), |m.pre|, |n.pre|)
  {
    var g, i, j := m.Groups(), |m.pre|, |n.pre|;
    QuadIsLast(m);
    QuadIsLast(n);
    SameEnds(MovedFrom(g, i), MovedFrom(g, j), g[7] * 256 + m.prefix[0], g[7] * 256 + m.prefix[0]);
    if i <= j {
      MovedAlike(g, i, j);
    } else {
      MovedAlike(g, j, i);
    }
  }
}
