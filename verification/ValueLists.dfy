/**
  Ordered value lists of multi-value leaf nodes.

  `CompareValueLists` is the comparison of `Vyatta::Config`: it decides which of
  the old values have to be deleted and which of the new values have to be added
  so that a store which only appends ends up with the new values in the new order.
*/
module ValueLists {

  /** "Nothing has changed": the start value of the smallest changed index. */
  const NO_CHANGE: nat := 0x8000_0000

  predicate Distinct<T(==, !new)>(s: seq<T>) {
    forall i, j :: 0 <= i < j < |s| ==> s[i] != s[j]
  }

  /** The length of the longest common prefix. */
  function CommonPrefix<T(==, !new)>(a: seq<T>, b: seq<T>): (n: nat)
    ensures n <= |a| && n <= |b|
    ensures forall i :: 0 <= i < n ==> a[i] == b[i]
    ensures n < |a| && n < |b| ==> a[n] != b[n]
  {
    if a == [] || b == [] || a[0] != b[0] then 0
    else 1 + CommonPrefix(a[1..], b[1..])
  }

  /** Where the two lists part, as far as an index below NO_CHANGE can tell. */
  function Cut<T(==, !new)>(ovals: seq<T>, nvals: seq<T>): nat {
    var n := CommonPrefix(ovals, nvals);
    if n < NO_CHANGE then n else NO_CHANGE
  }

  /** The values of `s` that are not in `from`. */
  function Absent<T(==)>(s: seq<T>, from: seq<T>): seq<T> {
    if s == [] then []
    else
      var init := Absent(s[..|s| - 1], from);
      if s[|s| - 1] in from then init else init + [s[|s| - 1]]
  }

  /** The values of `s` that are in `within`. */
  function Present<T(==)>(s: seq<T>, within: seq<T>): seq<T> {
    if s == [] then []
    else
      var init := Present(s[..|s| - 1], within);
      if s[|s| - 1] in within then init + [s[|s| - 1]] else init
  }

  /** The values to delete, in the order in which the comparison finds them. */
  function Deleted<T(==, !new)>(ovals: seq<T>, nvals: seq<T>): seq<T> {
    Absent(ovals, nvals) + Present(nvals[Cut(ovals, nvals)..], ovals)
  }

  /** The values to add. */
  function Added<T(==, !new)>(ovals: seq<T>, nvals: seq<T>): seq<T> {
    nvals[Cut(ovals, nvals)..]
  }

  /** Deletes one value. */
  function Remove<T(==, !new)>(s: seq<T>, v: T): seq<T> {
    Absent(s, [v])
  }

  /** Deletes the values one after the other. */
  function RemoveAll<T(==, !new)>(s: seq<T>, vs: seq<T>): seq<T>
    decreases |vs|
  {
    if vs == [] then s else RemoveAll(Remove(s, vs[0]), vs[1..])
  }

  // ----- what the comparison promises

  lemma {:induction false} SelectionMembers<T(!new)>(s: seq<T>, t: seq<T>)
    ensures forall v :: v in Absent(s, t) <==> v in s && v !in t
    ensures forall v :: v in Present(s, t) <==> v in s && v in t
  {
    if s != [] {
      SelectionMembers(s[..|s| - 1], t);
      assert s == s[..|s| - 1] + [s[|s| - 1]];
    }
  }

  lemma AbsentAppend<T(!new)>(s: seq<T>, v: T, from: seq<T>)
    ensures Absent(s + [v], from) == if v in from then Absent(s, from) else Absent(s, from) + [v]
  {
    assert (s + [v])[..|s|] == s;
  }

  lemma AbsentStep<T(!new)>(s: seq<T>, i: nat, from: seq<T>)
    requires i < |s|
    ensures s[i] in from ==> Absent(s[..i + 1], from) == Absent(s[..i], from)
    ensures s[i] !in from ==> Absent(s[..i + 1], from) == Absent(s[..i], from) + [s[i]]
  {
    assert s[..i + 1] == s[..i] + [s[i]];
    AbsentAppend(s[..i], s[i], from);
  }

  lemma PresentAppend<T(!new)>(s: seq<T>, v: T, within: seq<T>)
    ensures Present(s + [v], within) == if v in within then Present(s, within) + [v] else Present(s, within)
  {
    assert (s + [v])[..|s|] == s;
  }

  lemma {:induction false} SelectionIsDistinct<T(!new)>(s: seq<T>, t: seq<T>)
    requires Distinct(s)
    ensures Distinct(Absent(s, t)) && Distinct(Present(s, t))
  {
    if s != [] {
      var init, last := s[..|s| - 1], s[|s| - 1];
      SelectionIsDistinct(init, t);
      SelectionMembers(init, t);
      assert last !in init;
      assert last !in Absent(init, t) && last !in Present(init, t);
    }
  }

  lemma {:induction false} AbsentAbsent<T(!new)>(s: seq<T>, a: seq<T>, b: seq<T>)
    ensures Absent(Absent(s, a), b) == Absent(s, a + b)
  {
    if s != [] {
      var init, last := s[..|s| - 1], s[|s| - 1];
      AbsentAbsent(init, a, b);
      if last !in a {
        assert Absent(s, a) == Absent(init, a) + [last];
        assert Absent(s, a)[..|Absent(s, a)| - 1] == Absent(init, a);
      }
    }
  }

  lemma {:induction false} RemoveAllIsAbsent<T(!new)>(s: seq<T>, vs: seq<T>)
    ensures RemoveAll(s, vs) == Absent(s, vs)
    decreases |vs|
  {
    if vs == [] {
      AbsentFromNothing(s);
    } else {
      RemoveAllIsAbsent(Remove(s, vs[0]), vs[1..]);
      AbsentAbsent(s, [vs[0]], vs[1..]);
      assert [vs[0]] + vs[1..] == vs;
    }
  }

  lemma {:induction false} AbsentFromNothing<T(!new)>(s: seq<T>)
    ensures Absent(s, []) == s
  {
    if s != [] {
      AbsentFromNothing(s[..|s| - 1]);
    }
  }

  lemma {:induction false} AbsentOfParts<T(!new)>(a: seq<T>, b: seq<T>, gone: seq<T>)
    ensures Absent(a + b, gone) == Absent(a, gone) + Absent(b, gone)
  {
    if b == [] {
      assert a + b == a;
    } else {
      var init, last := b[..|b| - 1], b[|b| - 1];
      assert a + b == (a + init) + [last];
      AbsentAppend(a + init, last, gone);
      AbsentOfParts(a, init, gone);
    }
  }

  lemma {:induction false} NoneAbsent<T(!new)>(s: seq<T>, gone: seq<T>)
    requires forall v :: v in s ==> v !in gone
    ensures Absent(s, gone) == s
  {
    if s != [] {
      assert s[|s| - 1] in s;
      NoneAbsent(s[..|s| - 1], gone);
    }
  }

  lemma DistinctApart<T(!new)>(a: seq<T>, b: seq<T>, v: T)
    requires Distinct(a + b) && v in a
    ensures v !in b
  {
    var i :| 0 <= i < |a| && a[i] == v;
    assert (a + b)[i] == v;
    forall j | 0 <= j < |b|
      ensures b[j] != v
    {
      assert (a + b)[|a| + j] == b[j];
    }
  }

  /** Behind a common prefix, the values to delete are the rest of the old list, each once. */
  lemma DeletedBehindPrefix<T(!new)>(p: seq<T>, a: seq<T>, b: seq<T>)
    requires Distinct(p + a) && Distinct(p + b)
    ensures var del := Absent(p + a, p + b) + Present(b, p + a);
            Distinct(del) && forall v :: v in del <==> v in a
  {
    SelectionMembers(p + a, p + b);
    SelectionMembers(b, p + a);
    forall v | v in p
      ensures v !in a && v !in b
    {
      DistinctApart(p, a, v);
      DistinctApart(p, b, v);
    }
    SelectionIsDistinct(p + a, p + b);
    assert b == (p + b)[|p|..];
    SelectionIsDistinct(b, p + a);
    DistinctParts(Absent(p + a, p + b), Present(b, p + a));
  }

  lemma SplitAtCut<T(!new)>(ovals: seq<T>, nvals: seq<T>)
    ensures var cut := Cut(ovals, nvals);
            && cut <= |ovals| && cut <= |nvals|
            && ovals == nvals[..cut] + ovals[cut..]
            && nvals == nvals[..cut] + nvals[cut..]
  {
    var cut := Cut(ovals, nvals);
    assert ovals[..cut] == nvals[..cut];
    assert ovals == ovals[..cut] + ovals[cut..];
  }

  /** The deleted values are exactly the old values from the cut on, each once. */
  lemma DeletedIsOldTail<T(!new)>(ovals: seq<T>, nvals: seq<T>)
    requires Distinct(ovals) && Distinct(nvals)
    ensures Distinct(Deleted(ovals, nvals))
    ensures forall v :: v in Deleted(ovals, nvals) <==> v in ovals[Cut(ovals, nvals)..]
  {
    var cut := Cut(ovals, nvals);
    SplitAtCut(ovals, nvals);
    DeletedBehindPrefix(nvals[..cut], ovals[cut..], nvals[cut..]);
  }

  lemma DistinctParts<T(!new)>(a: seq<T>, b: seq<T>)
    requires Distinct(a) && Distinct(b)
    requires forall v :: v in a ==> v !in b
    ensures Distinct(a + b)
  {
    forall i, j | 0 <= i < j < |a + b|
      ensures (a + b)[i] != (a + b)[j]
    {
      if i < |a| <= j {
        assert a[i] in a && b[j - |a|] in b;
      }
    }
  }

  /** Deleting what is to be deleted and appending what is to be added gives the new list. */
  lemma CompareIsCorrect<T(!new)>(ovals: seq<T>, nvals: seq<T>)
    requires Distinct(ovals) && Distinct(nvals)
    ensures RemoveAll(ovals, Deleted(ovals, nvals)) == ovals[..Cut(ovals, nvals)]
    ensures RemoveAll(ovals, Deleted(ovals, nvals)) + Added(ovals, nvals) == nvals
  {
    var cut := Cut(ovals, nvals);
    var p, a, gone := nvals[..cut], ovals[cut..], Deleted(ovals, nvals);
    SplitAtCut(ovals, nvals);
    DeletedIsOldTail(ovals, nvals);
    RemoveAllIsAbsent(ovals, gone);
    AbsentOfParts(p, a, gone);
    AbsentFromItself(a, gone);
    forall v | v in p
      ensures v !in gone
    {
      DistinctApart(p, a, v);
    }
    NoneAbsent(p, gone);
  }

  /** A list of at most NO_CHANGE values compared with itself gives nothing to do. */
  lemma CompareWithItself<T(!new)>(vals: seq<T>)
    requires Distinct(vals)
    ensures Cut(vals, vals) == if |vals| < NO_CHANGE then |vals| else NO_CHANGE
    ensures |vals| <= NO_CHANGE <==> Deleted(vals, vals) == [] && Added(vals, vals) == []
    ensures |vals| <= NO_CHANGE <==> Deleted(vals, vals) == []
  {
    AbsentFromItself(vals, vals);
    var tail := vals[Cut(vals, vals)..];
    if tail != [] {
      SelectionMembers(tail, vals);
      assert tail[0] in Present(tail, vals);
    }
  }

  function Upto(n: nat): (r: seq<nat>)
    ensures |r| == n && forall i :: 0 <= i < n ==> r[i] == i
  {
    seq(n, i => i)
  }

  /** The first list that is too long: its last value is deleted and added again. */
  lemma TooLongList(n: nat)
    requires n == NO_CHANGE + 1
    ensures Distinct(Upto(n)) && Added(Upto(n), Upto(n)) == [NO_CHANGE] && Deleted(Upto(n), Upto(n)) == [NO_CHANGE]
  {
    var vals, last: nat := Upto(n), n - 1;
    CompareWithItself(vals);
    assert vals[Cut(vals, vals)..] == [last];
    AbsentFromItself(vals, vals);
    assert vals[last] == last;
    assert last in vals;
    PresentAppend([], last, vals);
    assert [] + [last] == [last];
    assert Deleted(vals, vals) == [] + Present([last], vals);
  }

  lemma {:induction false} AbsentFromItself<T(!new)>(s: seq<T>, t: seq<T>)
    requires forall v :: v in s ==> v in t
    ensures Absent(s, t) == []
  {
    if s != [] {
      AbsentFromItself(s[..|s| - 1], t);
    }
  }

  // ----- the comparison itself

  /** Each value with its position. */
  ghost predicate IsIndex<T(!new)>(m: map<T, nat>, vals: seq<T>) {
    && (forall v :: v in m <==> v in vals)
    && (forall i :: 0 <= i < |vals| ==> m[vals[i]] == i)
  }

  method IndexValues<T(==, !new)>(vals: seq<T>) returns (m: map<T, nat>)
    requires Distinct(vals)
    ensures IsIndex(m, vals)
  {
    m := map[];
    for i := 0 to |vals|
      invariant forall v :: v in m <==> v in vals[..i]
      invariant forall k :: 0 <= k < i ==> m[vals[k]] == k
    {
      m := m[vals[i] := i];
    }
    assert vals[..|vals|] == vals;
  }

  /** The value at this old index is not at the same index of the new list. */
  predicate Moved<T(==, !new)>(ovals: seq<T>, nvals: seq<T>, i: nat)
    requires i < |ovals|
  {
    i >= |nvals| || nvals[i] != ovals[i]
  }

  /** An index at which something changed, or NO_CHANGE. */
  predicate ChangeIndex<T(==, !new)>(ovals: seq<T>, nvals: seq<T>, m: nat) {
    m == NO_CHANGE || (m < NO_CHANGE && m < |ovals| && Moved(ovals, nvals, m))
  }

  /** The old values that are gone, and the smallest index of one of them. */
  method FindGone<T(==, !new)>(ovals: seq<T>, nvals: seq<T>, ohash: map<T, nat>, nhash: map<T, nat>)
      returns (minChanged: nat, deleted: seq<T>)
    requires Distinct(ovals) && Distinct(nvals)
    requires IsIndex(ohash, ovals) && IsIndex(nhash, nvals)
    ensures ChangeIndex(ovals, nvals, minChanged)
    ensures forall j :: 0 <= j < |ovals| && ovals[j] !in nvals ==> minChanged <= j || NO_CHANGE <= j
    ensures deleted == Absent(ovals, nvals)
  {
    minChanged, deleted := NO_CHANGE, [];
    for i := 0 to |ovals|
      invariant ChangeIndex(ovals, nvals, minChanged)
      invariant forall j :: 0 <= j < i && ovals[j] !in nvals ==> minChanged <= j || NO_CHANGE <= j
      invariant deleted == Absent(ovals[..i], nvals)
    {
      var v := ovals[i];
      assert ohash[v] == i && (v in nhash <==> v in nvals);
      AbsentStep(ovals, i, nvals);
      if v !in nhash {
        deleted := deleted + [v];
        if ohash[v] < minChanged {
          minChanged := ohash[v];
        }
      }
    }
    assert ovals[..|ovals|] == ovals;
  }

  /** The smallest changed index, where there is one below NO_CHANGE. */
  method FindMoved<T(==, !new)>(ovals: seq<T>, nvals: seq<T>, ohash: map<T, nat>, nhash: map<T, nat>, start: nat)
      returns (minChanged: nat)
    requires Distinct(ovals) && Distinct(nvals)
    requires IsIndex(ohash, ovals) && IsIndex(nhash, nvals)
    requires ChangeIndex(ovals, nvals, start)
    requires forall j :: 0 <= j < |ovals| && ovals[j] !in nvals ==> start <= j || NO_CHANGE <= j
    ensures ChangeIndex(ovals, nvals, minChanged)
    ensures forall j :: 0 <= j < |ovals| && Moved(ovals, nvals, j) ==> minChanged <= j || NO_CHANGE <= j
  {
    minChanged := start;
    for i := 0 to |nvals|
      invariant minChanged <= start && ChangeIndex(ovals, nvals, minChanged)
      invariant forall k :: 0 <= k < i && nvals[k] in ovals && ohash[nvals[k]] != k ==>
                  minChanged <= ohash[nvals[k]] || NO_CHANGE <= ohash[nvals[k]]
    {
      var v := nvals[i];
      if v in ohash {
        if ohash[v] != nhash[v] {
          if ohash[v] < minChanged {
            minChanged := ohash[v];
          }
        }
      }
    }
    forall j | 0 <= j < |ovals| && Moved(ovals, nvals, j)
      ensures minChanged <= j || NO_CHANGE <= j
    {
      if ovals[j] in nvals {
        var k :| 0 <= k < |nvals| && nvals[k] == ovals[j];
        assert ohash[nvals[k]] == j;
      }
    }
  }

  /** The comparison keeps exactly the new values before the cut. */
  lemma KeptIsBeforeCut<T(!new)>(ovals: seq<T>, nvals: seq<T>, ohash: map<T, nat>, minChanged: nat, k: nat)
    requires k < |nvals| && IsIndex(ohash, ovals) && ChangeIndex(ovals, nvals, minChanged)
    requires forall j :: 0 <= j < |ovals| && Moved(ovals, nvals, j) ==> minChanged <= j || NO_CHANGE <= j
    ensures k < Cut(ovals, nvals) <==>
              nvals[k] in ohash && ohash[nvals[k]] == k && ohash[nvals[k]] < minChanged
  {
    var n := CommonPrefix(ovals, nvals);
    if n < |ovals| {
      assert Moved(ovals, nvals, n);
    }
    if k < n {
      assert ohash[ovals[k]] == k;
    }
    if nvals[k] in ohash && ohash[nvals[k]] == k {
      assert nvals[k] in ovals;
      var j :| 0 <= j < |ovals| && ovals[j] == nvals[k];
      assert ohash[ovals[j]] == j;
      assert !Moved(ovals, nvals, k);
    }
  }

  lemma DeletedStep<T(!new)>(gone: seq<T>, added: seq<T>, v: T, ovals: seq<T>)
    ensures v in ovals ==> gone + Present(added + [v], ovals) == (gone + Present(added, ovals)) + [v]
    ensures v !in ovals ==> gone + Present(added + [v], ovals) == gone + Present(added, ovals)
  {
    PresentAppend(added, v, ovals);
  }

  /** Collects what has to be re-added, and deletes it first unless it is already deleted. */
  method CollectChanges<T(==, !new)>(ovals: seq<T>, nvals: seq<T>, ohash: map<T, nat>, nhash: map<T, nat>,
                                     minChanged: nat, gone: seq<T>, ghost cut: nat)
      returns (deleted: seq<T>, added: seq<T>)
    requires Distinct(nvals) && cut <= |nvals|
    requires IsIndex(ohash, ovals) && IsIndex(nhash, nvals)
    requires forall v :: v in gone ==> v !in nvals
    requires forall k :: 0 <= k < |nvals| ==>
               (k < cut <==> nvals[k] in ohash && ohash[nvals[k]] == k && ohash[nvals[k]] < minChanged)
    ensures deleted == gone + Present(nvals[cut..], ovals) && added == nvals[cut..]
  {
    var dhash := set v | v in gone;
    deleted, added := gone, [];
    for i := 0 to |nvals|
      invariant i <= cut ==> added == []
      invariant i > cut ==> added == nvals[cut..i]
      invariant deleted == gone + Present(added, ovals)
      invariant forall k :: i <= k < |nvals| ==> nvals[k] !in dhash
    {
      var v := nvals[i];
      if v !in ohash || ohash[v] != nhash[v] || ohash[v] >= minChanged {
        assert i >= cut && nvals[cut..i + 1] == added + [v];
        DeletedStep(gone, added, v, ovals);
        if v in ohash && v !in dhash {
          deleted, dhash := deleted + [v], dhash + {v};
        }
        added := added + [v];
      }
    }
    assert added == nvals[cut..];
  }

  method CompareValueLists<T(==, !new)>(ovals: seq<T>, nvals: seq<T>) returns (deleted: seq<T>, added: seq<T>)
    requires Distinct(ovals) && Distinct(nvals)
    ensures deleted == Deleted(ovals, nvals) && added == Added(ovals, nvals)
    ensures Distinct(deleted) && forall v :: v in deleted <==> v in ovals[Cut(ovals, nvals)..]
    ensures RemoveAll(ovals, deleted) + added == nvals
  {
    var ohash := IndexValues(ovals);
    var nhash := IndexValues(nvals);
    var start, gone := FindGone(ovals, nvals, ohash, nhash);
    var minChanged := FindMoved(ovals, nvals, ohash, nhash, start);
    SelectionMembers(ovals, nvals);
    forall k | 0 <= k < |nvals| {
      KeptIsBeforeCut(ovals, nvals, ohash, minChanged, k);
    }
    deleted, added := CollectChanges(ovals, nvals, ohash, nhash, minChanged, gone, Cut(ovals, nvals));
    DeletedIsOldTail(ovals, nvals);
    CompareIsCorrect(ovals, nvals);
  }
}
