/**
 * LINQ's `Where`, `Skip` and `Take` over finite sequences, with the facts
 * about them that the extension methods rely on.
 */
module Sequences {

  /** `source.Where(keep)`: the elements satisfying `keep`, in source order. */
  function Filter<T>(s: seq<T>, keep: T -> bool): (r: seq<T>)
    ensures |r| <= |s|
    ensures forall i :: 0 <= i < |r| ==> keep(r[i])
  {
    if s == [] then []
    else (if keep(s[0]) then [s[0]] else []) + Filter(s[1..], keep)
  }

  /** An element is in the filter exactly when it is in the source and passes. */
  lemma {:induction false} FilterMembers<T>(s: seq<T>, keep: T -> bool, x: T)
    ensures x in Filter(s, keep) <==> x in s && keep(x)
  {
    if s != [] {
      FilterMembers(s[1..], keep, x);
    }
  }

  /** `source.Where((x, i) => keep(x, i))`: the predicate also sees each element's index. */
  function FilterIndexed<T>(s: seq<T>, keep: (T, int) -> bool): (r: seq<T>)
    ensures |r| <= |s|
    ensures forall i :: 0 <= i < |r| ==> PassesSomewhere(s, keep, 0, r[i])
    ensures forall i :: 0 <= i < |s| && keep(s[i], i) ==> s[i] in r
    ensures IsSubsequence(r, s)
  {
    var r := FilterIndexedFrom(s, keep, 0);
    FilterIndexedIsSubsequence(s, keep, 0);
    forall i | 0 <= i < |r|
      ensures PassesSomewhere(s, keep, 0, r[i])
    {
      FilterIndexedMembers(s, keep, 0, r[i]);
    }
    forall i | 0 <= i < |s| && keep(s[i], i)
      ensures s[i] in r
    {
      assert keep(s[i], 0 + i);
      FilterIndexedMembers(s, keep, 0, s[i]);
    }
    r
  }

  function FilterIndexedFrom<T>(s: seq<T>, keep: (T, int) -> bool, offset: int): (r: seq<T>)
    ensures |r| <= |s|
  {
    if s == [] then []
    else (if keep(s[0], offset) then [s[0]] else []) + FilterIndexedFrom(s[1..], keep, offset + 1)
  }

  /** `x` occurs in `s` at an index i with `keep(x, offset + i)`. */
  ghost predicate PassesSomewhere<T>(s: seq<T>, keep: (T, int) -> bool, offset: int, x: T) {
    exists i :: 0 <= i < |s| && s[i] == x && keep(x, offset + i)
  }

  /**
   * An element is in the indexed filter exactly when it occurs in the source
   * at some index whose (element, offset + index) pair passes.
   */
  lemma {:induction false} FilterIndexedMembers<T>(s: seq<T>, keep: (T, int) -> bool, offset: int, x: T)
    ensures x in FilterIndexedFrom(s, keep, offset) <==> PassesSomewhere(s, keep, offset, x)
  {
    if s != [] {
      var tail := s[1..];
      FilterIndexedMembers(tail, keep, offset + 1, x);
      var head := if keep(s[0], offset) then [s[0]] else [];
      var rest := FilterIndexedFrom(tail, keep, offset + 1);
      assert FilterIndexedFrom(s, keep, offset) == head + rest;
      if x in head {
        assert s[0] == x && keep(x, offset + 0);
      }
      if x in rest {
        var j :| 0 <= j < |tail| && tail[j] == x && keep(x, offset + 1 + j);
        assert s[j + 1] == x && keep(x, offset + (j + 1));
      }
      if PassesSomewhere(s, keep, offset, x) {
        var i :| 0 <= i < |s| && s[i] == x && keep(x, offset + i);
        if i == 0 {
          assert x in head;
        } else {
          assert tail[i - 1] == x && keep(x, offset + 1 + (i - 1));
          assert PassesSomewhere(tail, keep, offset + 1, x);
        }
      }
    }
  }


  /** `a` can be obtained from `b` by deleting elements. */
  ghost predicate IsSubsequence<T>(a: seq<T>, b: seq<T>)
    decreases |b|
  {
    a == [] || (b != [] && ((a[0] == b[0] && IsSubsequence(a[1..], b[1..])) || IsSubsequence(a, b[1..])))
  }

  /** LINQ `Skip(k)`: drop the first `k` elements; a non-positive `k` drops nothing. */
  function Skip<T>(s: seq<T>, k: int): (r: seq<T>)
    ensures var d := if k <= 0 then 0 else k; |r| == if |s| <= d then 0 else |s| - d
    ensures var d := if k <= 0 then 0 else k; forall i :: 0 <= i < |r| ==> r[i] == s[d + i]
  {
    if k <= 0 then s else if k >= |s| then [] else s[k..]
  }

  /** LINQ `Take(k)`: keep the first `k` elements; a non-positive `k` keeps nothing. */
  function Take<T>(s: seq<T>, k: int): (r: seq<T>)
    ensures |r| == if k <= 0 then 0 else if k < |s| then k else |s|
    ensures forall i :: 0 <= i < |r| ==> r[i] == s[i]
  {
    if k <= 0 then [] else if k >= |s| then s else s[..k]
  }

  /** Filtering distributes over concatenation. */
  lemma {:induction false} FilterConcat<T>(a: seq<T>, b: seq<T>, keep: T -> bool)
    ensures Filter(a + b, keep) == Filter(a, keep) + Filter(b, keep)
  {
    if a != [] {
      var head := if keep(a[0]) then [a[0]] else [];
      assert (a + b)[0] == a[0];
      assert (a + b)[1..] == a[1..] + b;
      assert Filter(a + b, keep) == head + Filter(a[1..] + b, keep);
      FilterConcat(a[1..], b, keep);
      assert Filter(a, keep) == head + Filter(a[1..], keep);
    } else {
      assert a + b == b;
    }
  }

  /** The filter is order-preserving: it is a subsequence of its source. */
  lemma {:induction false} FilterIsSubsequence<T>(s: seq<T>, keep: T -> bool)
    ensures IsSubsequence(Filter(s, keep), s)
  {
    if s != [] {
      FilterIsSubsequence(s[1..], keep);
      if keep(s[0]) {
        var r := Filter(s, keep);
        assert r == [s[0]] + Filter(s[1..], keep);
        assert r[1..] == Filter(s[1..], keep);
      } else {
        assert Filter(s, keep) == Filter(s[1..], keep);
      }
    }
  }

  /** The indexed filter is order-preserving: it is a subsequence of its source. */
  lemma {:induction false} FilterIndexedIsSubsequence<T>(s: seq<T>, keep: (T, int) -> bool, offset: int)
    ensures IsSubsequence(FilterIndexedFrom(s, keep, offset), s)
  {
    if s != [] {
      var rest := FilterIndexedFrom(s[1..], keep, offset + 1);
      FilterIndexedIsSubsequence(s[1..], keep, offset + 1);
      if keep(s[0], offset) {
        var r := FilterIndexedFrom(s, keep, offset);
        assert r == [s[0]] + rest;
        assert r[1..] == rest;
      } else {
        assert FilterIndexedFrom(s, keep, offset) == rest;
      }
    }
  }

  /**
   * The indexed filter distributes over concatenation, the second part
   * seeing indices that continue after the first.
   */
  lemma {:induction false} FilterIndexedConcat<T>(a: seq<T>, b: seq<T>, keep: (T, int) -> bool, offset: int)
    ensures FilterIndexedFrom(a + b, keep, offset) ==
      FilterIndexedFrom(a, keep, offset) + FilterIndexedFrom(b, keep, offset + |a|)
  {
    if a != [] {
      var head := if keep(a[0], offset) then [a[0]] else [];
      assert (a + b)[0] == a[0];
      assert (a + b)[1..] == a[1..] + b;
      assert FilterIndexedFrom(a + b, keep, offset) == head + FilterIndexedFrom(a[1..] + b, keep, offset + 1);
      FilterIndexedConcat(a[1..], b, keep, offset + 1);
      assert FilterIndexedFrom(a, keep, offset) == head + FilterIndexedFrom(a[1..], keep, offset + 1);
    } else {
      assert a + b == b;
    }
  }

  /** The indexed filter leaves its source unchanged exactly when every element passes at its index. */
  lemma {:induction false} FilterIndexedUnchanged<T>(s: seq<T>, keep: (T, int) -> bool, offset: int)
    ensures FilterIndexedFrom(s, keep, offset) == s <==> forall i :: 0 <= i < |s| ==> keep(s[i], offset + i)
  {
    if s != [] {
      var tail := s[1..];
      var rest := FilterIndexedFrom(tail, keep, offset + 1);
      FilterIndexedUnchanged(tail, keep, offset + 1);
      PassesEverywhereCons(s, keep, offset);
      var r := FilterIndexedFrom(s, keep, offset);
      if keep(s[0], offset) {
        assert r == [s[0]] + rest;
        if rest == tail {
          assert r == s;
        }
        if r == s {
          assert rest == r[1..];
        }
      } else {
        assert r == rest;
        assert |rest| <= |tail| < |s|;
      }
    }
  }

  /** Every element of a non-empty `s` passes at its index exactly when the head does and every element of the tail does. */
  lemma PassesEverywhereCons<T>(s: seq<T>, keep: (T, int) -> bool, offset: int)
    requires s != []
    ensures (forall i :: 0 <= i < |s| ==> keep(s[i], offset + i)) <==>
      keep(s[0], offset) && forall i :: 0 <= i < |s[1..]| ==> keep(s[1..][i], offset + 1 + i)
  {
    if forall i :: 0 <= i < |s| ==> keep(s[i], offset + i) {
      assert keep(s[0], offset + 0);
      forall i | 0 <= i < |s[1..]|
        ensures keep(s[1..][i], offset + 1 + i)
      {
        assert s[1..][i] == s[i + 1] && offset + 1 + i == offset + (i + 1);
      }
    }
    if keep(s[0], offset) && forall i :: 0 <= i < |s[1..]| ==> keep(s[1..][i], offset + 1 + i) {
      forall i | 0 <= i < |s|
        ensures keep(s[i], offset + i)
      {
        if i > 0 {
          assert s[1..][i - 1] == s[i] && offset + 1 + (i - 1) == offset + i;
        }
      }
    }
  }

  /** Filtering twice with the same predicate changes nothing the second time. */
  lemma {:induction false} FilterIdempotent<T>(s: seq<T>, keep: T -> bool)
    ensures Filter(Filter(s, keep), keep) == Filter(s, keep)
  {
    if s != [] {
      FilterIdempotent(s[1..], keep);
      var head := if keep(s[0]) then [s[0]] else [];
      FilterConcat(head, Filter(s[1..], keep), keep);
    }
  }

  /** Two filters in a row are one filter by the conjunction. */
  lemma {:induction false} FilterFilter<T>(s: seq<T>, p: T -> bool, q: T -> bool, pq: T -> bool)
    requires forall x :: pq(x) == (p(x) && q(x))
    ensures Filter(Filter(s, p), q) == Filter(s, pq)
  {
    if s != [] {
      FilterFilter(s[1..], p, q, pq);
      var head := if p(s[0]) then [s[0]] else [];
      FilterConcat(head, Filter(s[1..], p), q);
    }
  }

  /** A filter leaves its source unchanged exactly when every element passes. */
  lemma {:induction false} FilterUnchanged<T>(s: seq<T>, keep: T -> bool)
    ensures Filter(s, keep) == s <==> forall i :: 0 <= i < |s| ==> keep(s[i])
  {
    if s != [] {
      FilterUnchanged(s[1..], keep);
      assert forall i :: 1 <= i < |s| ==> s[i] == s[1..][i - 1];
      if !keep(s[0]) {
        assert |Filter(s, keep)| < |s|;
      } else if Filter(s, keep) == s {
        assert Filter(s[1..], keep) == Filter(s, keep)[1..];
      }
    }
  }

  /** The filter is empty exactly when no element passes. */
  lemma {:induction false} FilterEmptyIffNoneKept<T>(s: seq<T>, keep: T -> bool)
    ensures Filter(s, keep) == [] <==> forall i :: 0 <= i < |s| ==> !keep(s[i])
  {
    if s != [] {
      FilterEmptyIffNoneKept(s[1..], keep);
      assert forall i :: 1 <= i < |s| ==> s[i] == s[1..][i - 1];
    }
  }

  /** A predicate that ignores the index filters like the plain `Where`. */
  lemma {:induction false} FilterIndexedIgnoringIndex<T>(s: seq<T>, keepAt: (T, int) -> bool, keep: T -> bool, offset: int)
    requires forall x, i :: keepAt(x, i) == keep(x)
    ensures FilterIndexedFrom(s, keepAt, offset) == Filter(s, keep)
  {
    if s != [] {
      FilterIndexedIgnoringIndex(s[1..], keepAt, keep, offset + 1);
    }
  }

  /** Every sequence is a subsequence of itself. */
  lemma {:induction false} SubsequenceReflexive<T>(s: seq<T>)
    ensures IsSubsequence(s, s)
  {
    if s != [] {
      SubsequenceReflexive(s[1..]);
    }
  }
}
