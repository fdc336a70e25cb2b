/**
 * A stable insertion sort over a comparator returning a negative, zero or positive
 * number, as `Array.prototype.sort(comparefn)` uses one (stable since ECMAScript 2019),
 * and the in-place `Array.prototype.reverse`.
 */
module StableSort {
  import opened Seqs
  import Text

  /** A sort key: a number or a string. Numbers compare numerically, strings by code
      point; a key never compares equal to a key of the other kind. */
  datatype Key = Num(n: int) | Str(s: string)

  /** -1, 0 or 1 as `a` is below, equal to or above `b`. */
  function KeyCompare(a: Key, b: Key): (r: int)
    ensures -1 <= r <= 1
  {
    match (a, b)
    case (Num(m), Num(n)) => if m < n then -1 else if m > n then 1 else 0
    case (Str(u), Str(v)) => Text.Compare(u, v)
    case (Num(_), Str(_)) => -1
    case (Str(_), Num(_)) => 1
  }

  /** Two keys compare equal exactly when they are the same key. */
  lemma KeyCompareZero(a: Key, b: Key)
    ensures KeyCompare(a, b) == 0 <==> a == b
  {
  }

  lemma KeyCompareAntisymmetric(a: Key, b: Key)
    ensures KeyCompare(a, b) == -KeyCompare(b, a)
  {
    if a.Str? && b.Str? {
      Text.CompareAntisymmetric(a.s, b.s);
    }
  }

  lemma KeyCompareTransitive(a: Key, b: Key, c: Key)
    requires KeyCompare(a, b) <= 0 && KeyCompare(b, c) <= 0
    ensures KeyCompare(a, c) <= 0
  {
    if a.Str? && b.Str? && c.Str? {
      Text.CompareTransitive(a.s, b.s, c.s);
    }
  }

  function Sign(n: int): (r: int)
    ensures r < 0 <==> n < 0
    ensures r == 0 <==> n == 0
    ensures -1 <= r <= 1
  {
    if n < 0 then -1 else if n > 0 then 1 else 0
  }

  /** The comparator `cmp` orders elements as `key` orders their keys: it has the sign of
      `KeyCompare` on the keys. A comparator of this kind is consistent in the sense of
      ECMA-262 (see `Flip` and `Transitive`). */
  ghost predicate OrdersBy<T(!new)>(cmp: (T, T) -> int, key: T -> Key) {
    forall a, b :: Sign(cmp(a, b)) == KeyCompare(key(a), key(b))
  }

  /** Swapping the arguments of a key comparator flips the sign. */
  lemma Flip<T(!new)>(cmp: (T, T) -> int, key: T -> Key, a: T, b: T)
    requires OrdersBy(cmp, key)
    ensures cmp(a, b) <= 0 <==> cmp(b, a) >= 0
    ensures cmp(a, b) == 0 <==> cmp(b, a) == 0
  {
    KeyCompareAntisymmetric(key(a), key(b));
    assert Sign(cmp(a, b)) == KeyCompare(key(a), key(b));
    assert Sign(cmp(b, a)) == KeyCompare(key(b), key(a));
  }

  /** "At most" under a key comparator is transitive. */
  lemma Transitive<T(!new)>(cmp: (T, T) -> int, key: T -> Key, a: T, b: T, c: T)
    requires OrdersBy(cmp, key) && cmp(a, b) <= 0 && cmp(b, c) <= 0
    ensures cmp(a, c) <= 0
  {
    assert Sign(cmp(a, b)) == KeyCompare(key(a), key(b));
    assert Sign(cmp(b, c)) == KeyCompare(key(b), key(c));
    assert Sign(cmp(a, c)) == KeyCompare(key(a), key(c));
    KeyCompareTransitive(key(a), key(b), key(c));
  }

  /** Every element is at most every later one. */
  ghost predicate Sorted<T>(s: seq<T>, cmp: (T, T) -> int) {
    forall i, j :: 0 <= i < j < |s| ==> cmp(s[i], s[j]) <= 0
  }

  /** The elements of `s` that compare equal to `y`, in their order in `s`. */
  function Ties<T>(s: seq<T>, y: T, cmp: (T, T) -> int): seq<T> {
    Filter(s, x => cmp(x, y) == 0)
  }

  lemma TiesAppend<T>(a: seq<T>, b: seq<T>, y: T, cmp: (T, T) -> int)
    ensures Ties(a + b, y, cmp) == Ties(a, y, cmp) + Ties(b, y, cmp)
  {
    FilterAppend(a, b, x => cmp(x, y) == 0);
  }

  /** Inserts `x` into `t` from the right, after every element that is at most `x`:
      one pass of the inner loop of insertion sort. */
  function Insert<T>(t: seq<T>, x: T, cmp: (T, T) -> int): (r: seq<T>)
    ensures |r| == |t| + 1
    decreases |t|
  {
    if t == [] then [x]
    else if cmp(t[|t| - 1], x) <= 0 then t + [x]
    else Insert(t[..|t| - 1], x, cmp) + [t[|t| - 1]]
  }

  /** Insertion sort: the last element is inserted into the sorted prefix. */
  function Sort<T>(s: seq<T>, cmp: (T, T) -> int): (r: seq<T>)
    ensures |r| == |s|
    decreases |s|
  {
    if s == [] then []
    else Insert(Sort(s[..|s| - 1], cmp), s[|s| - 1], cmp)
  }

  /** `Insert` places `x` right after the last element that is at most `x`. */
  lemma {:induction false} InsertAt<T>(t: seq<T>, j: nat, x: T, cmp: (T, T) -> int)
    requires j <= |t|
    requires j > 0 ==> cmp(t[j - 1], x) <= 0
    requires forall m :: j <= m < |t| ==> cmp(t[m], x) > 0
    ensures Insert(t, x, cmp) == t[..j] + [x] + t[j..]
    decreases |t|
  {
    if |t| > j {
      var p := t[..|t| - 1];
      assert cmp(t[|t| - 1], x) > 0;
      assert Insert(t, x, cmp) == Insert(p, x, cmp) + [t[|t| - 1]];
      InsertAt(p, j, x, cmp);
      assert t[..j] == p[..j];
      assert t[j..] == p[j..] + [t[|t| - 1]];
    } else {
      assert t[..j] == t && t[j..] == [];
    }
  }

  lemma SortSnoc<T>(p: seq<T>, x: T, cmp: (T, T) -> int)
    ensures Sort(p + [x], cmp) == Insert(Sort(p, cmp), x, cmp)
  {
    assert (p + [x])[..|p|] == p;
  }

  lemma InsertPermutes<T>(t: seq<T>, k: nat, x: T)
    requires k <= |t|
    ensures multiset(t[..k] + [x] + t[k..]) == multiset(t) + multiset{x}
  {
    assert t == t[..k] + t[k..];
  }

  /** Sorting permutes: the output has the same elements with the same multiplicities. */
  lemma {:induction false} SortPermutes<T>(s: seq<T>, cmp: (T, T) -> int)
    ensures multiset(Sort(s, cmp)) == multiset(s)
    decreases |s|
  {
    if s != [] {
      var p, x := s[..|s| - 1], s[|s| - 1];
      SortPermutes(p, cmp);
      var t := Sort(p, cmp);
      var k := InsertSplit(t, x, cmp);
      InsertPermutes(t, k, x);
      SplitLast(s);
      calc {
        multiset(Sort(s, cmp));
        multiset(Insert(t, x, cmp));
        multiset(t[..k] + [x] + t[k..]);
        multiset(p) + multiset{x};
        multiset(s);
      }
    }
  }

  /** `Insert` puts `x` at a position `k`: everything after it is greater than `x`,
      the element just before it is at most `x`. */
  lemma InsertSplit<T>(t: seq<T>, x: T, cmp: (T, T) -> int) returns (k: nat)
    ensures k <= |t| && Insert(t, x, cmp) == t[..k] + [x] + t[k..]
    ensures forall i :: k <= i < |t| ==> cmp(t[i], x) > 0
    ensures k > 0 ==> cmp(t[k - 1], x) <= 0
  {
    k := Gap(t, x, cmp);
    InsertAt(t, k, x, cmp);
  }

  /** Where `Insert` puts `x`: just after the last element that is at most `x`. */
  function Gap<T>(t: seq<T>, x: T, cmp: (T, T) -> int): (k: nat)
    ensures k <= |t|
    ensures forall i :: k <= i < |t| ==> cmp(t[i], x) > 0
    ensures k > 0 ==> cmp(t[k - 1], x) <= 0
    decreases |t|
  {
    if t == [] then 0
    else if cmp(t[|t| - 1], x) <= 0 then |t|
    else Gap(t[..|t| - 1], x, cmp)
  }


  lemma {:induction false} InsertSorted<T(!new)>(t: seq<T>, x: T, cmp: (T, T) -> int, key: T -> Key)
    requires OrdersBy(cmp, key) && Sorted(t, cmp)
    ensures Sorted(Insert(t, x, cmp), cmp)
    decreases |t|
  {
    var k := InsertSplit(t, x, cmp);
    forall i | k <= i < |t|
      ensures cmp(x, t[i]) <= 0
    {
      Flip(cmp, key, t[i], x);
    }
    forall i | 0 <= i < k
      ensures cmp(t[i], x) <= 0
    {
      if i < k - 1 {
        assert cmp(t[i], t[k - 1]) <= 0;
        Transitive(cmp, key, t[i], t[k - 1], x);
      }
    }
    SortedAround(t, k, x, cmp);
  }

  /** Placing `x` between the elements at most `x` and those at least `x` of a sorted
      sequence keeps it sorted. */
  lemma SortedAround<T>(t: seq<T>, k: nat, x: T, cmp: (T, T) -> int)
    requires Sorted(t, cmp) && k <= |t|
    requires forall i :: 0 <= i < k ==> cmp(t[i], x) <= 0
    requires forall i :: k <= i < |t| ==> cmp(x, t[i]) <= 0
    ensures Sorted(t[..k] + [x] + t[k..], cmp)
  {
    var r := t[..k] + [x] + t[k..];
    forall i, j | 0 <= i < j < |r|
      ensures cmp(r[i], r[j]) <= 0
    {
      if j < k {
        assert r[i] == t[i] && r[j] == t[j];
      } else if j == k {
        assert r[i] == t[i] && r[j] == x;
      } else if i < k {
        assert r[i] == t[i] && r[j] == t[j - 1];
      } else if i == k {
        assert r[i] == x && r[j] == t[j - 1];
      } else {
        assert r[i] == t[i - 1] && r[j] == t[j - 1];
      }
    }
  }

  /** The output of `Sort` is sorted. */
  lemma {:induction false} SortSorted<T(!new)>(s: seq<T>, cmp: (T, T) -> int, key: T -> Key)
    requires OrdersBy(cmp, key)
    ensures Sorted(Sort(s, cmp), cmp)
    decreases |s|
  {
    if s != [] {
      SortSorted(s[..|s| - 1], cmp, key);
      InsertSorted(Sort(s[..|s| - 1], cmp), s[|s| - 1], cmp, key);
    }
  }

  /** An element equal to `y` lands after every element already equal to `y`,
      so the ties of `y` grow by exactly `x` or not at all. */
  lemma {:induction false} InsertTies<T(!new)>(t: seq<T>, x: T, y: T, cmp: (T, T) -> int, key: T -> Key)
    requires OrdersBy(cmp, key)
    ensures Ties(Insert(t, x, cmp), y, cmp) == Ties(t, y, cmp) + Ties([x], y, cmp)
  {
    var k := InsertSplit(t, x, cmp);
    TiesAround(t, k, x, y, cmp, key);
  }

  lemma TiesAround<T(!new)>(t: seq<T>, k: nat, x: T, y: T, cmp: (T, T) -> int, key: T -> Key)
    requires OrdersBy(cmp, key) && k <= |t|
    requires forall i :: k <= i < |t| ==> cmp(t[i], x) > 0
    ensures Ties(t[..k] + [x] + t[k..], y, cmp) == Ties(t, y, cmp) + Ties([x], y, cmp)
  {
    var a, b := t[..k], t[k..];
    assert t == a + b;
    TiesAppend(a, b, y, cmp);
    TiesAppend(a + [x], b, y, cmp);
    TiesAppend(a, [x], y, cmp);
    assert Ties([x], y, cmp) == if cmp(x, y) == 0 then [x] else [];
    if cmp(x, y) == 0 {
      FilterKeepsNone(b, x, y, cmp, key);
      assert Ties(b, y, cmp) == [];
    }
  }

  /** Elements greater than a tie of `y` are not ties of `y`. */
  lemma {:induction false} FilterKeepsNone<T(!new)>(u: seq<T>, x: T, y: T, cmp: (T, T) -> int, key: T -> Key)
    requires OrdersBy(cmp, key) && cmp(x, y) == 0
    requires forall i :: 0 <= i < |u| ==> cmp(u[i], x) > 0
    ensures Ties(u, y, cmp) == []
  {
    if u != [] {
      Flip(cmp, key, x, y);
      if cmp(u[0], y) == 0 {
        Transitive(cmp, key, u[0], y, x);
      }
      FilterKeepsNone(u[1..], x, y, cmp, key);
    }
  }

  /** Stability: elements that compare equal keep their relative input order. */
  lemma {:induction false} SortStable<T(!new)>(s: seq<T>, y: T, cmp: (T, T) -> int, key: T -> Key)
    requires OrdersBy(cmp, key)
    ensures Ties(Sort(s, cmp), y, cmp) == Ties(s, y, cmp)
    decreases |s|
  {
    if s != [] {
      var p, x := s[..|s| - 1], s[|s| - 1];
      SortStable(p, y, cmp, key);
      InsertTies(Sort(p, cmp), x, y, cmp, key);
      SplitLast(s);
      FilterAppend(p, [x], z => cmp(z, y) == 0);
    }
  }

  /** In a sorted sequence, an element that occurs more often than in the first `n`
      places is at least each of them. */
  lemma SortedPrefixBelow<T>(s: seq<T>, cmp: (T, T) -> int, n: nat, t: T)
    requires Sorted(s, cmp) && n <= |s| && multiset(s[..n])[t] < multiset(s)[t]
    ensures forall k :: 0 <= k < n ==> cmp(s[k], t) <= 0
  {
    SplitAt(s, n);
    assert t in s[n..];
    var m :| n <= m < |s| && s[m] == t;
    assert forall k :: 0 <= k < n ==> cmp(s[k], s[m]) <= 0;
  }

  /** Sorting an already sorted sequence changes nothing. */
  lemma {:induction false} SortOfSorted<T>(s: seq<T>, cmp: (T, T) -> int)
    requires Sorted(s, cmp)
    ensures Sort(s, cmp) == s
    decreases |s|
  {
    if s != [] {
      var p := s[..|s| - 1];
      assert Sorted(p, cmp);
      SortOfSorted(p, cmp);
      SplitLast(s);
    }
  }

  /** Two elements that both pass `p` and are already in order are kept, sorted, as
      they are; reversed, they swap. */
  lemma SortOfPair<T>(a: T, b: T, p: T -> bool, cmp: (T, T) -> int)
    requires p(a) && p(b) && cmp(a, b) <= 0
    ensures Sort(Filter([a, b], p), cmp) == [a, b]
    ensures Reversed(Sort(Filter([a, b], p), cmp)) == [b, a]
  {
    FilterKeepsAll([a, b], p);
    assert Sorted([a, b], cmp);
    SortOfSorted([a, b], cmp);
    ReversedPair(a, b);
  }

  /** Reversing a sorted sequence gives a sequence in which every element is at least
      every later one. */
  lemma ReversedSortedDescending<T(!new)>(s: seq<T>, cmp: (T, T) -> int, key: T -> Key)
    requires OrdersBy(cmp, key) && Sorted(s, cmp)
    ensures forall i, j :: 0 <= i < j < |s| ==> cmp(Reversed(s)[i], Reversed(s)[j]) >= 0
  {
    forall i, j | 0 <= i < j < |s|
      ensures cmp(Reversed(s)[i], Reversed(s)[j]) >= 0
    {
      ReversedAt(s, i);
      ReversedAt(s, j);
      Flip(cmp, key, s[|s| - 1 - j], s[|s| - 1 - i]);
    }
  }

  /** The ties of `y` in a reversed sequence are the reversed ties. */
  lemma {:induction false} TiesReversed<T>(s: seq<T>, y: T, cmp: (T, T) -> int)
    ensures Ties(Reversed(s), y, cmp) == Reversed(Ties(s, y, cmp))
  {
    if s != [] {
      var p := z => cmp(z, y) == 0;
      var x, t := s[0], s[1..];
      var h := if p(x) then [x] else [];
      assert Reversed(s) == Reversed(t) + [x];
      assert Filter(s, p) == h + Filter(t, p);
      assert Filter([x], p) == h;
      FilterAppend(Reversed(t), [x], p);
      TiesReversed(t, y, cmp);
      ReversedSnoc(h, Filter(t, p));
    }
  }

  /** An element is among the ties of `y` exactly when it occurs and compares equal to `y`. */
  lemma TiesMember<T>(s: seq<T>, x: T, y: T, cmp: (T, T) -> int)
    ensures x in Ties(s, y, cmp) <==> x in s && cmp(x, y) == 0
  {
    FilterCount(s, z => cmp(z, y) == 0, x);
    assert x in Ties(s, y, cmp) <==> multiset(Ties(s, y, cmp))[x] > 0;
  }

  /** A sorted sequence with the same ties as another sorted sequence is that sequence:
      there is only one stable sort, whatever algorithm computes it. */
  lemma {:induction false} SortedTiesUnique<T(!new)>(r: seq<T>, u: seq<T>, cmp: (T, T) -> int, key: T -> Key)
    requires OrdersBy(cmp, key) && Sorted(r, cmp) && Sorted(u, cmp)
    requires forall y :: Ties(r, y, cmp) == Ties(u, y, cmp)
    ensures r == u
    decreases |r|
  {
    if r == [] || u == [] {
      var s := if r == [] then u else r;
      if s != [] {
        NoTiesInEmpty(s, if r == [] then r else u, cmp, key);
      }
    } else {
      HeadsTie(r, u, cmp, key);
      var y := r[0];
      forall z
        ensures Ties(r[1..], z, cmp) == Ties(u[1..], z, cmp)
      {
        TiesTail(r, u, z, cmp);
      }
      assert Sorted(r[1..], cmp) && Sorted(u[1..], cmp);
      SortedTiesUnique(r[1..], u[1..], cmp, key);
      assert r == [y] + r[1..] && u == [y] + u[1..];
    }
  }

  /** A non-empty sequence and the empty one never agree on the ties of its first
      element. */
  lemma NoTiesInEmpty<T(!new)>(s: seq<T>, e: seq<T>, cmp: (T, T) -> int, key: T -> Key)
    requires OrdersBy(cmp, key) && s != [] && e == []
    ensures Ties(s, s[0], cmp) != Ties(e, s[0], cmp)
  {
    KeyCompareZero(key(s[0]), key(s[0]));
    assert Sign(cmp(s[0], s[0])) == KeyCompare(key(s[0]), key(s[0]));
    TiesMember(s, s[0], s[0], cmp);
  }

  /** Two sorted sequences with the same ties start with elements that compare equal. */
  lemma HeadsTie<T(!new)>(r: seq<T>, u: seq<T>, cmp: (T, T) -> int, key: T -> Key)
    requires OrdersBy(cmp, key) && Sorted(r, cmp) && Sorted(u, cmp) && r != [] && u != []
    requires forall y :: Ties(r, y, cmp) == Ties(u, y, cmp)
    ensures u[0] == r[0]
  {
    var x, y := u[0], r[0];
    KeyCompareZero(key(x), key(x));
    KeyCompareZero(key(y), key(y));
    assert Sign(cmp(x, x)) == KeyCompare(key(x), key(x));
    assert Sign(cmp(y, y)) == KeyCompare(key(y), key(y));
    TiesMember(u, x, x, cmp);
    TiesMember(r, x, x, cmp);
    TiesMember(r, y, y, cmp);
    TiesMember(u, y, y, cmp);
    var p :| 0 <= p < |r| && r[p] == x;
    var q :| 0 <= q < |u| && u[q] == y;
    Flip(cmp, key, x, y);
    assert cmp(y, x) <= 0 by {
      if p != 0 { assert cmp(r[0], r[p]) <= 0; }
    }
    assert cmp(x, y) <= 0 by {
      if q != 0 { assert cmp(u[0], u[q]) <= 0; }
    }
    assert Ties(r, y, cmp) == [y] + Ties(r[1..], y, cmp);
    assert Ties(u, y, cmp) == [x] + Ties(u[1..], y, cmp);
    assert Ties(r, y, cmp)[0] == y && Ties(u, y, cmp)[0] == x;
  }

  /** Sequences with the same first element and the same ties have the same ties after
      it. */
  lemma TiesTail<T>(r: seq<T>, u: seq<T>, z: T, cmp: (T, T) -> int)
    requires r != [] && u != [] && r[0] == u[0] && Ties(r, z, cmp) == Ties(u, z, cmp)
    ensures Ties(r[1..], z, cmp) == Ties(u[1..], z, cmp)
  {
    var y := r[0];
    assert Ties(r, z, cmp) == (if cmp(y, z) == 0 then [y] else []) + Ties(r[1..], z, cmp);
    assert Ties(u, z, cmp) == (if cmp(y, z) == 0 then [y] else []) + Ties(u[1..], z, cmp);
    var h := if cmp(y, z) == 0 then 1 else 0;
    assert Ties(r[1..], z, cmp) == Ties(r, z, cmp)[h..];
    assert Ties(u[1..], z, cmp) == Ties(u, z, cmp)[h..];
  }

  /** Any sorted rearrangement that keeps ties in input order is `Sort`'s output. */
  lemma StableSortIsUnique<T(!new)>(s: seq<T>, r: seq<T>, cmp: (T, T) -> int, key: T -> Key)
    requires OrdersBy(cmp, key) && Sorted(r, cmp)
    requires forall y :: Ties(r, y, cmp) == Ties(s, y, cmp)
    ensures r == Sort(s, cmp)
  {
    SortSorted(s, cmp, key);
    forall y
      ensures Ties(r, y, cmp) == Ties(Sort(s, cmp), y, cmp)
    {
      SortStable(s, y, cmp, key);
    }
    SortedTiesUnique(r, Sort(s, cmp), cmp, key);
  }

  /** In-place insertion sort of `a` by `cmp`; the result is `Sort` of the old contents. */
  method SortInPlace<T>(a: array<T>, cmp: (T, T) -> int)
    modifies a
    ensures a[..] == Sort(old(a[..]), cmp)
  {
    ghost var s := a[..];
    var i := 0;
    while i < a.Length
      invariant 0 <= i <= a.Length
      invariant a[..i] == Sort(s[..i], cmp)
      invariant forall m :: i <= m < a.Length ==> a[m] == s[m]
    {
      InsertInPlace(a, i, cmp);
      SortSnoc(s[..i], s[i], cmp);
      assert s[..i + 1] == s[..i] + [s[i]];
      i := i + 1;
    }
    assert s[..a.Length] == s;
  }

  /** One step of insertion sort: the prefix `a[..i]` is shifted right past `a[i]`
      while its elements are greater than `a[i]`, and `a[i]` is dropped into the gap. */
  method InsertInPlace<T>(a: array<T>, i: nat, cmp: (T, T) -> int)
    requires i < a.Length
    modifies a
    ensures a[..i + 1] == Insert(old(a[..i]), old(a[i]), cmp)
    ensures forall m :: i < m < a.Length ==> a[m] == old(a[m])
  {
    var x := a[i];
    ghost var sorted := a[..i];
    var j := ShiftGreater(a, i, x, cmp);
    a[j] := x;
    SplicedByIndex(a[..i + 1], sorted, j, x);
    InsertAt(sorted, j, x, cmp);
  }

  /** Moves the elements of `a[..i]` greater than `x` one place to the right, scanning
      from `i - 1` down, and returns the gap left at `j`. */
  method ShiftGreater<T>(a: array<T>, i: nat, x: T, cmp: (T, T) -> int) returns (j: nat)
    requires i < a.Length
    modifies a
    ensures j <= i
    ensures forall m :: 0 <= m < j ==> a[m] == old(a[m])
    ensures forall m :: j < m <= i ==> a[m] == old(a[m - 1])
    ensures forall m :: i < m < a.Length ==> a[m] == old(a[m])
    ensures j > 0 ==> cmp(old(a[j - 1]), x) <= 0
    ensures forall m :: j <= m < i ==> cmp(old(a[m]), x) > 0
  {
    j := i;
    while j > 0 && cmp(a[j - 1], x) > 0
      invariant 0 <= j <= i
      invariant forall m :: 0 <= m < j ==> a[m] == old(a[m])
      invariant forall m :: j < m <= i ==> a[m] == old(a[m - 1])
      invariant forall m :: i < m < a.Length ==> a[m] == old(a[m])
      invariant forall m :: j <= m < i ==> cmp(old(a[m]), x) > 0
    {
      a[j] := a[j - 1];
      j := j - 1;
    }
  }

  /** A sequence that agrees with `t` before `j`, holds `x` at `j` and is `t` shifted by
      one after `j` is `t` with `x` spliced in at `j`. */
  lemma SplicedByIndex<T>(r: seq<T>, t: seq<T>, j: nat, x: T)
    requires j <= |t| && |r| == |t| + 1 && r[j] == x
    requires forall m :: 0 <= m < j ==> r[m] == t[m]
    requires forall m :: j < m < |r| ==> r[m] == t[m - 1]
    ensures r == t[..j] + [x] + t[j..]
  {
    var s := t[..j] + [x] + t[j..];
    forall m | 0 <= m < |r|
      ensures r[m] == s[m]
    {
      if m < j {
        assert s[m] == t[m];
      } else if m > j {
        assert s[m] == t[m - 1];
      }
    }
  }

  /** In-place reversal of `a`, swapping from both ends. */
  method ReverseInPlace<T>(a: array<T>)
    modifies a
    ensures a[..] == Reversed(old(a[..]))
  {
    ghost var was := a[..];
    var n, i := a.Length, 0;
    while i < n / 2
      invariant 0 <= i <= n / 2
      invariant forall k :: 0 <= k < i ==> a[k] == was[n - 1 - k] && a[n - 1 - k] == was[k]
      invariant forall k :: i <= k < n - i ==> a[k] == was[k]
    {
      a[i], a[n - 1 - i] := a[n - 1 - i], a[i];
      i := i + 1;
    }
    ReversedByIndex(was, a[..]);
  }
}
