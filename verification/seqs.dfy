/** Generic sequence operations that the client code uses through JavaScript's
    Array.prototype.filter and Array.prototype.findIndex. */
module Seqs {

  /** Keeps, in order, the elements of `s` that satisfy `keep`
      (Array.prototype.filter with a pure callback). */
  function Filter<T(==,!new)>(s: seq<T>, keep: T -> bool): (r: seq<T>)
    ensures |r| <= |s|
    ensures forall i :: 0 <= i < |r| ==> keep(r[i])
    ensures forall x :: multiset(r)[x] == if keep(x) then multiset(s)[x] else 0
  {
    if |s| == 0 then []
    else
      assert s == [s[0]] + s[1..];
      (if keep(s[0]) then [s[0]] else []) + Filter(s[1..], keep)
  }

  /** Filtering distributes over concatenation: the kept elements of the
      front come first, in their original order. */
  lemma {:induction false} FilterAppend<T(!new)>(a: seq<T>, b: seq<T>, keep: T -> bool)
    ensures Filter(a + b, keep) == Filter(a, keep) + Filter(b, keep)
  {
    if |a| == 0 {
      assert a + b == b;
    } else {
      assert (a + b)[1..] == a[1..] + b;
      FilterAppend(a[1..], b, keep);
    }
  }

  /** A sequence whose elements all pass comes back unchanged. */
  lemma {:induction false} FilterKeepsAll<T(!new)>(s: seq<T>, keep: T -> bool)
    requires forall i :: 0 <= i < |s| ==> keep(s[i])
    ensures Filter(s, keep) == s
  {
    if |s| > 0 {
      FilterKeepsAll(s[1..], keep);
    }
  }

  /** When the first `k` elements all pass, at least `k` survive. */
  lemma FilterKeepsPrefix<T(!new)>(s: seq<T>, keep: T -> bool, k: int)
    requires 0 <= k <= |s|
    requires forall i :: 0 <= i < k ==> keep(s[i])
    ensures k <= |Filter(s, keep)|
  {
    assert s == s[..k] + s[k..];
    FilterAppend(s[..k], s[k..], keep);
    FilterKeepsAll(s[..k], keep);
  }

  /** Nothing is lost exactly when every element passes. */
  lemma {:induction false} FilterFullIff<T(!new)>(s: seq<T>, keep: T -> bool)
    ensures |Filter(s, keep)| == |s| <==> forall i :: 0 <= i < |s| ==> keep(s[i])
  {
    if |s| > 0 {
      FilterFullIff(s[1..], keep);
      if |Filter(s, keep)| == |s| {
        assert keep(s[0]);
        forall i | 0 <= i < |s|
          ensures keep(s[i])
        {
          if i > 0 { assert s[i] == s[1..][i - 1]; }
        }
      } else {
        if forall i :: 0 <= i < |s| ==> keep(s[i]) {
          FilterKeepsAll(s, keep);
        }
      }
    }
  }

  /** The result is empty exactly when no element passes. */
  lemma FilterEmptyIff<T(!new)>(s: seq<T>, keep: T -> bool)
    ensures Filter(s, keep) == [] <==> forall i :: 0 <= i < |s| ==> !keep(s[i])
  {
    var r := Filter(s, keep);
    if r == [] {
      forall i | 0 <= i < |s|
        ensures !keep(s[i])
      {
        assert s[i] in multiset(s);
        assert multiset(r)[s[i]] == 0;
      }
    } else {
      assert r[0] in multiset(r);
      assert multiset(s)[r[0]] > 0;
      assert r[0] in s;
      var i :| 0 <= i < |s| && s[i] == r[0];
      assert keep(s[i]);
    }
  }

  /** Filtering twice is filtering once. */
  lemma FilterIdempotent<T(!new)>(s: seq<T>, keep: T -> bool)
    ensures Filter(Filter(s, keep), keep) == Filter(s, keep)
  {
    FilterKeepsAll(Filter(s, keep), keep);
  }

  /** Position `p`, counted from 1, holds an element that passes `keep`. */
  predicate PassesAt<T>(s: seq<T>, keep: T -> bool, p: int)
  {
    1 <= p <= |s| && keep(s[p - 1])
  }

  /** The positions, counted from 1, of the elements of `s` that pass `keep`. */
  function PassingPositions<T>(s: seq<T>, keep: T -> bool): set<int>
  {
    set p | 1 <= p <= |s| && PassesAt(s, keep, p)
  }

  /** Appending one element adds one passing position exactly when the
      element passes. */
  lemma PassingPositionsSnoc<T>(front: seq<T>, x: T, keep: T -> bool)
    ensures |PassingPositions(front + [x], keep)|
            == |PassingPositions(front, keep)| + (if keep(x) then 1 else 0)
  {
    var s := front + [x];
    var before := PassingPositions(front, keep);
    forall p | 1 <= p <= |front|
      ensures PassesAt(s, keep, p) == PassesAt(front, keep, p)
    {
      assert s[p - 1] == front[p - 1];
    }
    assert |front| + 1 !in before;
    if keep(x) {
      assert PassingPositions(s, keep) == before + {|front| + 1};
    } else {
      assert PassingPositions(s, keep) == before;
    }
  }

  /** The length of the filtered sequence is the number of positions
      that pass, counted independently of the order of the scan. */
  lemma {:induction false} FilterLengthCounts<T(!new)>(s: seq<T>, keep: T -> bool)
    ensures |Filter(s, keep)| == |PassingPositions(s, keep)|
    decreases |s|
  {
    if |s| > 0 {
      var n := |s| - 1;
      var front, x := s[..n], s[n];
      assert s == front + [x];
      FilterAppend(front, [x], keep);
      assert |Filter([x], keep)| == if keep(x) then 1 else 0 by {
        assert [x][1..] == [];
      }
      FilterLengthCounts(front, keep);
      PassingPositionsSnoc(front, x, keep);
    }
  }

  /** The index of the first element satisfying `p`, or -1 when there is
      none (Array.prototype.findIndex with a pure callback). */
  function FindIndex<T>(s: seq<T>, p: T -> bool): (r: int)
    ensures -1 <= r < |s|
    ensures r == -1 <==> forall i :: 0 <= i < |s| ==> !p(s[i])
    ensures r >= 0 ==> p(s[r]) && forall i :: 0 <= i < r ==> !p(s[i])
  {
    if |s| == 0 then -1
    else if p(s[0]) then 0
    else
      var k := FindIndex(s[1..], p);
      if k == -1 then -1 else k + 1
  }
}
