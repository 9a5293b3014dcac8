/** Sorting by a numeric rank. */
module RankSort {
  import opened ValueLists

  function InsertByRank<T>(rank: T -> nat, v: T, sorted: seq<T>): seq<T> {
    if sorted == [] then [v]
    else if rank(v) <= rank(sorted[0]) then [v] + sorted
    else [sorted[0]] + InsertByRank(rank, v, sorted[1..])
  }

  function SortByRank<T>(rank: T -> nat, vs: seq<T>): seq<T> {
    if vs == [] then []
    else InsertByRank(rank, vs[0], SortByRank(rank, vs[1..]))
  }

  /** Strictly increasing ranks. */
  ghost predicate Ranked<T(!new)>(rank: T -> nat, vs: seq<T>) {
    forall i, j :: 0 <= i < j < |vs| ==> rank(vs[i]) < rank(vs[j])
  }

  ghost predicate DistinctRanks<T(!new)>(rank: T -> nat, keys: set<T>) {
    forall u, v :: u in keys && v in keys && u != v ==> rank(u) != rank(v)
  }

  lemma RankedCons<T(!new)>(rank: T -> nat, v: T, vs: seq<T>)
    requires Ranked(rank, vs) && forall u :: u in vs ==> rank(v) < rank(u)
    ensures Ranked(rank, [v] + vs)
  {
    assert forall j :: 0 <= j < |vs| ==> vs[j] in vs;
  }

  lemma RankedTail<T(!new)>(rank: T -> nat, vs: seq<T>)
    requires Ranked(rank, vs) && vs != []
    ensures Ranked(rank, vs[1..])
    ensures forall u :: u in vs[1..] ==> rank(vs[0]) < rank(u)
    ensures forall u :: u in vs <==> u == vs[0] || u in vs[1..]
  {
    assert forall i :: 0 <= i < |vs| - 1 ==> vs[1..][i] == vs[i + 1];
  }

  lemma {:induction false} InsertByRankKeeps<T(!new)>(rank: T -> nat, v: T, sorted: seq<T>)
    requires Ranked(rank, sorted) && forall u :: u in sorted ==> rank(u) != rank(v)
    ensures var r := InsertByRank(rank, v, sorted);
            && (forall u :: u in r <==> u == v || u in sorted)
            && Ranked(rank, r)
    decreases |sorted|
  {
    if sorted != [] {
      RankedTail(rank, sorted);
      if rank(v) <= rank(sorted[0]) {
        RankedCons(rank, v, sorted);
      } else {
        InsertByRankKeeps(rank, v, sorted[1..]);
        RankedCons(rank, sorted[0], InsertByRank(rank, v, sorted[1..]));
      }
    }
  }

  /** Sorting a duplicate-free list whose ranks differ gives its values in strict order. */
  lemma {:induction false} SortedIsRanked<T(!new)>(rank: T -> nat, vs: seq<T>, keys: set<T>)
    requires DistinctRanks(rank, keys) && Distinct(vs)
    requires forall u :: u in vs ==> u in keys
    ensures var r := SortByRank(rank, vs);
            && (forall u :: u in r <==> u in vs)
            && Ranked(rank, r)
    decreases |vs|
  {
    if vs != [] {
      assert vs[0] in vs;
      assert forall u :: u in vs <==> u == vs[0] || u in vs[1..];
      assert vs[0] !in vs[1..];
      SortedIsRanked(rank, vs[1..], keys);
      InsertByRankKeeps(rank, vs[0], SortByRank(rank, vs[1..]));
    }
  }

  /** There is only one way to put a set of values into the order of their ranks. */
  lemma {:induction false} RankedIsUnique<T(!new)>(rank: T -> nat, a: seq<T>, b: seq<T>)
    requires Ranked(rank, a) && Ranked(rank, b)
    requires forall u :: u in a <==> u in b
    ensures a == b
    decreases |a|
  {
    assert a != [] ==> a[0] in a;
    assert b != [] ==> b[0] in b;
    if a != [] && b != [] {
      RankedTail(rank, a);
      RankedTail(rank, b);
      RankedIsUnique(rank, a[1..], b[1..]);
      assert a == [a[0]] + a[1..] && b == [b[0]] + b[1..];
    }
  }

  lemma RankedIsDistinct<T(!new)>(rank: T -> nat, vs: seq<T>)
    requires Ranked(rank, vs)
    ensures Distinct(vs)
  {
  }

  lemma {:induction false} RankedRemove<T(!new)>(rank: T -> nat, vs: seq<T>, v: T)
    requires Ranked(rank, vs)
    ensures Ranked(rank, Remove(vs, v)) && forall u :: u in Remove(vs, v) <==> u in vs && u != v
    decreases |vs|
  {
    SelectionMembers(vs, [v]);
    if vs != [] {
      var init, last := vs[..|vs| - 1], vs[|vs| - 1];
      RankedRemove(rank, init, v);
      if last != v {
        RankedBefore(rank, rank, Remove(init, v), last);
      }
    }
  }

  /** A value that gets the highest rank, new or not, goes to the end. */
  lemma SortWithLatest<T(!new)>(rank: T -> nat, rank': T -> nat, vs: seq<T>, vs': seq<T>, keys: set<T>, v: T)
    requires DistinctRanks(rank, keys) && Distinct(vs) && Distinct(vs')
    requires forall u :: u in vs <==> u in keys
    requires forall u :: u in vs' <==> u in keys || u == v
    requires forall u :: u in keys && u != v ==> rank'(u) == rank(u) && rank(u) < rank'(v)
    ensures SortByRank(rank', vs') == Remove(SortByRank(rank, vs), v) + [v]
  {
    var sorted := SortByRank(rank, vs);
    SortedIsRanked(rank, vs, keys);
    SortedIsRanked(rank', vs', keys + {v});
    RankedRemove(rank, sorted, v);
    var rest := Remove(sorted, v);
    RankedBefore(rank, rank', rest, v);
    RankedIsUnique(rank', SortByRank(rank', vs'), rest + [v]);
  }

  lemma RankedBefore<T(!new)>(rank: T -> nat, rank': T -> nat, vs: seq<T>, v: T)
    requires Ranked(rank, vs) && forall u :: u in vs ==> rank'(u) == rank(u) < rank'(v)
    ensures Ranked(rank', vs + [v])
  {
    assert forall i :: 0 <= i < |vs| ==> vs[i] in vs;
  }
}
