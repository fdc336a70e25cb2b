/**
 * `Array.prototype.filter` and `Array.prototype.reverse` as functions on sequences,
 * with the facts the query pipeline needs about them.
 */
module Seqs {

  /** `s.filter(p)`: the elements of `s` satisfying `p`, in their original order. */
  function Filter<T>(s: seq<T>, p: T -> bool): (r: seq<T>)
    ensures |r| <= |s|
  {
    if s == [] then [] else
      assert s == [s[0]] + s[1..];
      (if p(s[0]) then [s[0]] else []) + Filter(s[1..], p)
  }

  /** Each element keeps its multiplicity if it satisfies `p` and disappears otherwise. */
  lemma {:induction false} FilterCount<T>(s: seq<T>, p: T -> bool, x: T)
    ensures multiset(Filter(s, p))[x] == if p(x) then multiset(s)[x] else 0
  {
    if s != [] {
      var h := if p(s[0]) then [s[0]] else [];
      FilterCount(s[1..], p, x);
      SplitFirst(s);
      assert Filter(s, p) == h + Filter(s[1..], p);
      assert multiset(Filter(s, p))[x] == multiset(h)[x] + multiset(Filter(s[1..], p))[x];
      assert multiset(s)[x] == multiset([s[0]])[x] + multiset(s[1..])[x];
    }
  }

  /** Every element of the result satisfies `p`. */
  lemma {:induction false} FilterSatisfies<T>(s: seq<T>, p: T -> bool)
    ensures forall k :: 0 <= k < |Filter(s, p)| ==> p(Filter(s, p)[k])
  {
    if s != [] {
      var h := if p(s[0]) then [s[0]] else [];
      FilterSatisfies(s[1..], p);
      assert Filter(s, p) == h + Filter(s[1..], p);
    }
  }

  /** The indices of `s` whose element satisfies `p`. */
  ghost function Satisfying<T>(s: seq<T>, p: T -> bool): set<int> {
    set k | 0 <= k < |s| && p(s[k])
  }

  /** The length of the result is the number of indices whose element satisfies `p`. */
  lemma {:induction false} FilterIndices<T>(s: seq<T>, p: T -> bool)
    ensures |Filter(s, p)| == |Satisfying(s, p)|
    decreases |s|
  {
    if s != [] {
      var n := |s| - 1;
      var q, x := s[..n], s[n];
      FilterIndices(q, p);
      SplitLast(s);
      FilterAppend(q, [x], p);
      assert [x][1..] == [];
      assert Filter([x], p) == if p(x) then [x] else [];
      var a, b := Satisfying(q, p), Satisfying(s, p);
      if p(x) {
        assert b == a + {n};
        assert n !in a;
      } else {
        assert b == a;
      }
    }
  }

  /** Filtering by pointwise-equal predicates gives the same sequence. */
  lemma {:induction false} FilterExt<T>(s: seq<T>, p: T -> bool, q: T -> bool)
    requires forall x :: p(x) == q(x)
    ensures Filter(s, p) == Filter(s, q)
  {
    if s != [] {
      FilterExt(s[1..], p, q);
    }
  }

  /** A predicate every element satisfies filters nothing out. */
  lemma {:induction false} FilterKeepsAll<T>(s: seq<T>, p: T -> bool)
    requires forall k :: 0 <= k < |s| ==> p(s[k])
    ensures Filter(s, p) == s
  {
    if s != [] {
      FilterKeepsAll(s[1..], p);
    }
  }

  /** Two successive filters are one filter by the conjunction. */
  lemma {:induction false} FilterFuse<T>(s: seq<T>, p: T -> bool, q: T -> bool, pq: T -> bool)
    requires forall x :: pq(x) == (p(x) && q(x))
    ensures Filter(Filter(s, p), q) == Filter(s, pq)
  {
    if s != [] {
      FilterFuse(s[1..], p, q, pq);
      FilterAppend([s[0]], s[1..], p);
      FilterAppend(if p(s[0]) then [s[0]] else [], Filter(s[1..], p), q);
    }
  }

  /** Filter distributes over concatenation. */
  lemma {:induction false} FilterAppend<T>(a: seq<T>, b: seq<T>, p: T -> bool)
    ensures Filter(a + b, p) == Filter(a, p) + Filter(b, p)
  {
    if a == [] {
      assert a + b == b;
    } else {
      var h := if p(a[0]) then [a[0]] else [];
      calc {
        Filter(a + b, p);
        { assert (a + b)[0] == a[0] && (a + b)[1..] == a[1..] + b; }
        h + Filter(a[1..] + b, p);
        { FilterAppend(a[1..], b, p); }
        h + (Filter(a[1..], p) + Filter(b, p));
        (h + Filter(a[1..], p)) + Filter(b, p);
      }
    }
  }

  /** The elements of `s` in the opposite order. */
  function Reversed<T>(s: seq<T>): (r: seq<T>)
    ensures |r| == |s|
    ensures multiset(r) == multiset(s)
  {
    if s == [] then [] else
      assert s == [s[0]] + s[1..];
      Reversed(s[1..]) + [s[0]]
  }

  lemma {:induction false} ReversedAt<T>(s: seq<T>, k: int)
    requires 0 <= k < |s|
    ensures Reversed(s)[k] == s[|s| - 1 - k]
  {
    assert Reversed(s) == Reversed(s[1..]) + [s[0]];
    if k < |s| - 1 {
      ReversedAt(s[1..], k);
    }
  }

  /** A sequence holding, at each index, the element at the mirrored index of `s` is the
      reversal of `s`. */
  lemma ReversedByIndex<T>(s: seq<T>, r: seq<T>)
    requires |r| == |s| && forall k :: 0 <= k < |s| ==> r[k] == s[|s| - 1 - k]
    ensures r == Reversed(s)
  {
    forall k | 0 <= k < |s|
      ensures r[k] == Reversed(s)[k]
    {
      ReversedAt(s, k);
    }
  }

  /** Reversing a sequence that starts with at most one element moves it to the end. */
  lemma ReversedSnoc<T>(h: seq<T>, t: seq<T>)
    requires |h| <= 1
    ensures Reversed(h + t) == Reversed(t) + h
  {
    if h == [] {
      assert h + t == t;
    } else {
      assert (h + t)[1..] == t;
    }
  }

  lemma ReversedPair<T>(a: T, b: T)
    ensures Reversed([a, b]) == [b, a]
  {
    assert [a, b][1..] == [b];
    assert Reversed([b]) == [b];
  }

  /** A sequence is its first `n` elements followed by the rest. */
  lemma SplitAt<T>(s: seq<T>, n: nat)
    requires n <= |s|
    ensures s == s[..n] + s[n..]
    ensures multiset(s) == multiset(s[..n]) + multiset(s[n..])
  {
    assert s == s[..n] + s[n..];
  }

  /** A non-empty sequence is its first element followed by the rest. */
  lemma SplitFirst<T>(s: seq<T>)
    requires s != []
    ensures s == [s[0]] + s[1..]
  {
  }

  /** A non-empty sequence is its prefix followed by its last element. */
  lemma SplitLast<T>(s: seq<T>)
    requires s != []
    ensures s == s[..|s| - 1] + [s[|s| - 1]]
  {
  }

  /** Reversing twice gives the sequence back. */
  lemma ReversedInvolution<T>(s: seq<T>)
    ensures Reversed(Reversed(s)) == s
  {
    forall k | 0 <= k < |s|
      ensures s[k] == Reversed(s)[|s| - 1 - k]
    {
      ReversedAt(s, |s| - 1 - k);
    }
    ReversedByIndex(Reversed(s), s);
  }
}
