/** The two list operations the message handling is built from: `Array.prototype.filter`
    and `Array.from(new Set(...))`, with index-based statements of what they keep. */
module Seqs {

  /** `s.filter(p)`: the elements of `s` that satisfy `p`, in their order in `s`. */
  function Filter<T>(s: seq<T>, p: T -> bool): (r: seq<T>)
    ensures |r| <= |s|
    ensures forall x <- r :: x in s && p(x)
    ensures forall x <- s :: p(x) ==> x in r
  {
    if s == [] then []
    else Filter(s[..|s| - 1], p) + (if p(s[|s| - 1]) then [s[|s| - 1]] else [])
  }

  /** `idx` lists strictly increasing positions of `s`, and `r` is `s` read at those positions. */
  ghost predicate Picks<T>(s: seq<T>, r: seq<T>, idx: seq<int>)
  {
    && |idx| == |r|
    && (forall k :: 0 <= k < |idx| ==> 0 <= idx[k] < |s|)
    && (forall k, l :: 0 <= k < l < |idx| ==> idx[k] < idx[l])
    && (forall k :: 0 <= k < |idx| ==> r[k] == s[idx[k]])
  }

  /** `r` is the order-preserving subsequence of `s` made of exactly the positions whose
      element satisfies `p`. */
  ghost predicate SelectsExactly<T>(s: seq<T>, p: T -> bool, r: seq<T>)
  {
    exists idx :: Picks(s, r, idx) && forall i :: 0 <= i < |s| ==> (p(s[i]) <==> i in idx)
  }

  /** Appending an element to `s` keeps every pick, and picking the new last position as well
      extends the picked subsequence by that element. */
  lemma PicksSnoc<T>(s: seq<T>, r: seq<T>, idx: seq<int>, x: T)
    requires Picks(s, r, idx)
    ensures Picks(s + [x], r, idx)
    ensures Picks(s + [x], r + [x], idx + [|s|])
  {
  }

  lemma {:induction false} FilterIndices<T>(s: seq<T>, p: T -> bool) returns (idx: seq<int>)
    ensures Picks(s, Filter(s, p), idx)
    ensures forall i :: 0 <= i < |s| ==> (p(s[i]) <==> i in idx)
  {
    if s == [] {
      idx := [];
    } else {
      var n := |s| - 1;
      var t := s[..n];
      assert s == t + [s[n]];
      var pre := FilterIndices(t, p);
      PicksSnoc(t, Filter(t, p), pre, s[n]);
      idx := if p(s[n]) then pre + [n] else pre;
      assert n !in pre;
    }
  }

  lemma FilterSelects<T>(s: seq<T>, p: T -> bool)
    ensures SelectsExactly(s, p, Filter(s, p))
  {
    var idx := FilterIndices(s, p);
  }

  lemma FilterSnoc<T>(s: seq<T>, x: T, p: T -> bool)
    ensures Filter(s + [x], p) == Filter(s, p) + (if p(x) then [x] else [])
  {
    assert (s + [x])[..|s|] == s;
  }

  lemma {:induction false} FilterConcat<T>(a: seq<T>, b: seq<T>, p: T -> bool)
    ensures Filter(a + b, p) == Filter(a, p) + Filter(b, p)
  {
    if b != [] {
      var n := |b| - 1;
      assert (a + b)[..|a + b| - 1] == a + b[..n];
      FilterConcat(a, b[..n], p);
    } else {
      assert a + b == a;
    }
  }

  /** Filtering keeps the whole sequence when every element passes. */
  lemma {:induction false} FilterAll<T>(s: seq<T>, p: T -> bool)
    requires forall x :: x in s ==> p(x)
    ensures Filter(s, p) == s
  {
    if s != [] {
      var n := |s| - 1;
      var t, x := s[..n], s[n];
      assert t + [x] == s;
      assert forall y :: y in t ==> y in s;
      FilterAll(t, p);
      assert Filter(s, p) == Filter(t, p) + [x];
    }
  }

  /** Filtering leaves nothing when no element passes. */
  lemma FilterNone<T>(s: seq<T>, p: T -> bool)
    requires forall x :: x in s ==> !p(x)
    ensures Filter(s, p) == []
  {
  }

  /** Filtering with complementary predicates splits the multiset of elements in two. */
  lemma {:induction false} FilterPartition<T>(s: seq<T>, p: T -> bool, q: T -> bool)
    requires forall x :: x in s ==> q(x) == !p(x)
    ensures multiset(Filter(s, p)) + multiset(Filter(s, q)) == multiset(s)
  {
    if s != [] {
      var n := |s| - 1;
      var t, x := s[..n], s[n];
      assert t + [x] == s;
      FilterPartition(t, p, q);
      var a, b := Filter(t, p), Filter(t, q);
      assert multiset(s) == multiset(t) + multiset{x};
      if p(x) {
        assert Filter(s, p) == a + [x] && Filter(s, q) == b;
        assert multiset(a + [x]) == multiset(a) + multiset{x};
      } else {
        assert Filter(s, p) == a && Filter(s, q) == b + [x];
        assert multiset(b + [x]) == multiset(b) + multiset{x};
      }
    }
  }

  predicate NoDuplicates<T(==)>(s: seq<T>)
  {
    forall i, j :: 0 <= i < j < |s| ==> s[i] != s[j]
  }

  lemma {:induction false} FilterNoDuplicates<T>(s: seq<T>, p: T -> bool)
    requires NoDuplicates(s)
    ensures NoDuplicates(Filter(s, p))
  {
    if s != [] {
      var n := |s| - 1;
      assert forall i :: 0 <= i < n ==> s[..n][i] == s[i];
      FilterNoDuplicates(s[..n], p);
    }
  }

  lemma NoDuplicatesConcat<T>(a: seq<T>, b: seq<T>)
    requires NoDuplicates(a) && NoDuplicates(b)
    requires forall x :: x in a ==> x !in b
    ensures NoDuplicates(a + b)
  {
    forall i, j | 0 <= i < j < |a + b|
      ensures (a + b)[i] != (a + b)[j]
    {
      if i < |a| && |a| <= j {
        assert (a + b)[i] in a && (a + b)[j] in b;
      }
    }
  }

  /** `Array.from(new Set(s))`: a JavaScript `Set` iterates in insertion order, so each value
      stays where it first occurs and later repeats are dropped. */
  function Dedup<T(==)>(s: seq<T>): (r: seq<T>)
    ensures NoDuplicates(r)
    ensures forall x <- r :: x in s
    ensures forall x <- s :: x in r
  {
    if s == [] then []
    else
      var r := Dedup(s[..|s| - 1]);
      if s[|s| - 1] in r then r else r + [s[|s| - 1]]
  }

  lemma {:induction false} DedupIndices<T>(s: seq<T>) returns (idx: seq<int>)
    ensures Picks(s, Dedup(s), idx)
    ensures forall i :: 0 <= i < |s| ==> (s[i] !in s[..i] <==> i in idx)
  {
    if s == [] {
      idx := [];
    } else {
      var n := |s| - 1;
      var t := s[..n];
      assert s == t + [s[n]];
      var pre := DedupIndices(t);
      PicksSnoc(t, Dedup(t), pre, s[n]);
      idx := if s[n] in t then pre else pre + [n];
      assert n !in pre;
      assert forall i :: 0 <= i < n ==> t[..i] == s[..i];
    }
  }

  /** The deduplicated sequence is exactly the subsequence of first occurrences. */
  lemma DedupKeepsFirstOccurrences<T>(s: seq<T>)
    ensures exists idx :: Picks(s, Dedup(s), idx)
                       && forall i :: 0 <= i < |s| ==> (s[i] !in s[..i] <==> i in idx)
  {
    var idx := DedupIndices(s);
  }

  lemma FirstOccurrence<T>(s: seq<T>, a: int)
    requires 0 <= a < |s| && s[a] !in s[..a]
    ensures forall k :: 0 <= k < a ==> s[k] != s[a]
  {
    assert forall k :: 0 <= k < a ==> s[..a][k] == s[k];
  }

  lemma IncreasingKeepsOrder(idx: seq<int>, x: int, y: int)
    requires forall k, l :: 0 <= k < l < |idx| ==> idx[k] < idx[l]
    requires 0 <= x < |idx| && 0 <= y < |idx|
    ensures x < y <==> idx[x] < idx[y]
  {
  }

  /** After deduplicating `x + y`, an element of `x` comes before an element that is not
      in `x`. */
  lemma DedupKeepsPartsInOrder<T>(x: seq<T>, y: seq<T>, i: int, j: int)
    requires 0 <= i < |Dedup(x + y)| && 0 <= j < |Dedup(x + y)|
    requires Dedup(x + y)[i] in x && Dedup(x + y)[j] !in x
    ensures i < j
  {
    var c, r := x + y, Dedup(x + y);
    var idx := DedupIndices(c);
    var a, b := idx[i], idx[j];
    FirstOccurrence(c, a);
    var k :| 0 <= k < |x| && x[k] == r[i];
    assert c[k] == c[a];
    assert b >= |x| by {
      assert forall l :: 0 <= l < |x| ==> c[l] == x[l];
    }
    IncreasingKeepsOrder(idx, i, j);
  }
}
