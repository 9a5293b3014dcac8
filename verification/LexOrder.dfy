/** The lexicographic order on sequences of numbers, as -1, 0 or 1. */
module LexOrder {

  function Lex(x: seq<int>, y: seq<int>): (r: int)
    ensures r in {-1, 0, 1}
  {
    if x == [] then (if y == [] then 0 else -1)
    else if y == [] then 1
    else if x[0] < y[0] then -1
    else if x[0] > y[0] then 1
    else Lex(x[1..], y[1..])
  }

  lemma {:induction false} LexIsZeroIffEqual(x: seq<int>, y: seq<int>)
    ensures Lex(x, y) == 0 <==> x == y
  {
    if x != [] && y != [] {
      LexIsZeroIffEqual(x[1..], y[1..]);
      assert x == [x[0]] + x[1..] && y == [y[0]] + y[1..];
    }
  }

  lemma {:induction false} LexIsAntisymmetric(x: seq<int>, y: seq<int>)
    ensures Lex(y, x) == -Lex(x, y)
  {
    if x != [] && y != [] {
      LexIsAntisymmetric(x[1..], y[1..]);
    }
  }

  lemma {:induction false} LexIsTransitive(x: seq<int>, y: seq<int>, z: seq<int>)
    requires Lex(x, y) <= 0 && Lex(y, z) <= 0
    ensures Lex(x, z) <= 0
    ensures Lex(x, z) == 0 ==> Lex(x, y) == 0 && Lex(y, z) == 0
  {
    if x != [] && y != [] && z != [] && x[0] == y[0] && y[0] == z[0] {
      LexIsTransitive(x[1..], y[1..], z[1..]);
    }
  }

  /** Equal prefixes do not matter. */
  lemma {:induction false} LexSkips(x: seq<int>, y: seq<int>, n: nat)
    requires n <= |x| && n <= |y| && forall i :: 0 <= i < n ==> x[i] == y[i]
    ensures Lex(x, y) == Lex(x[n..], y[n..])
  {
    if n > 0 {
      LexSkips(x[1..], y[1..], n - 1);
      assert x[1..][n - 1..] == x[n..] && y[1..][n - 1..] == y[n..];
    } else {
      assert x[0..] == x && y[0..] == y;
    }
  }

  /** Up to a place the same, and less there. */
  ghost predicate LessAtFirstDifference(x: seq<int>, y: seq<int>) {
    exists k :: 0 <= k < |x| && k < |y| && x[..k] == y[..k] && x[k] < y[k]
  }

  lemma LexAt(x: seq<int>, y: seq<int>, k: nat)
    requires k < |x| && k < |y| && x[..k] == y[..k]
    ensures x[k] < y[k] ==> Lex(x, y) == -1
    ensures x[k] > y[k] ==> Lex(x, y) == 1
  {
    assert forall i :: 0 <= i < k ==> x[i] == x[..k][i] && y[i] == y[..k][i];
    LexSkips(x, y, k);
  }

  /** A proper prefix is less. */
  lemma LexOfPrefix(x: seq<int>, y: seq<int>)
    requires y != []
    ensures Lex(x, x + y) == -1
  {
    LexSkips(x, x + y, |x|);
    assert x[|x|..] == [] && (x + y)[|x|..] == y;
  }

  lemma {:induction false} FirstDifference(x: seq<int>, y: seq<int>) returns (k: nat)
    requires |x| == |y| && x != y
    ensures k < |x| && x[..k] == y[..k] && x[k] != y[k]
  {
    if x[0] != y[0] {
      k := 0;
    } else {
      assert x == [x[0]] + x[1..] && y == [y[0]] + y[1..];
      var m := FirstDifference(x[1..], y[1..]);
      k := m + 1;
      assert x[..k] == [x[0]] + x[1..][..m] && y[..k] == [y[0]] + y[1..][..m];
    }
  }

  /** Of two sequences of one length, the one that is less at the first difference is less. */
  lemma LexIsFirstDifference(x: seq<int>, y: seq<int>)
    requires |x| == |y|
    ensures Lex(x, y) < 0 <==> LessAtFirstDifference(x, y)
  {
    LexIsZeroIffEqual(x, y);
    if LessAtFirstDifference(x, y) {
      var k :| 0 <= k < |x| && k < |y| && x[..k] == y[..k] && x[k] < y[k];
      LexAt(x, y, k);
    }
    if x != y {
      var k := FirstDifference(x, y);
      LexAt(x, y, k);
    }
  }

  lemma LexTells(x: seq<int>, y: seq<int>)
    requires |x| == |y|
    ensures Lex(x, y) < 0 <==> LessAtFirstDifference(x, y)
    ensures Lex(x, y) > 0 <==> LessAtFirstDifference(y, x)
    ensures Lex(x, y) == 0 <==> x == y
  {
    LexIsFirstDifference(x, y);
    LexIsFirstDifference(y, x);
    LexIsAntisymmetric(x, y);
    LexIsZeroIffEqual(x, y);
  }
}
