/**
 * `Array.prototype.sort(cmp)` with a comparator of the form `(a, b) => key(b) - key(a)`:
 * a stable sort, largest key first. It is modelled by insertion sort; `StableSortIsUnique`
 * shows that every stable sort by the same key yields the same sequence, so the choice of
 * algorithm does not matter.
 */
module StableSort {

  /** `s` is ordered by `key`, largest first. */
  predicate SortedDesc<T>(s: seq<T>, key: T -> int) {
    forall i, j :: 0 <= i < j < |s| ==> key(s[i]) >= key(s[j])
  }

  /** The elements of `s` whose key is `k`, in their order in `s`. */
  function WithKey<T>(s: seq<T>, key: T -> int, k: int): seq<T> {
    if s == [] then []
    else WithKey(s[..|s| - 1], key, k) + (if key(s[|s| - 1]) == k then [s[|s| - 1]] else [])
  }

  /** Places `x` after every element of `r` whose key is at least `key(x)`. */
  function Insert<T>(r: seq<T>, x: T, key: T -> int): seq<T> {
    if r == [] || key(r[|r| - 1]) >= key(x) then r + [x]
    else Insert(r[..|r| - 1], x, key) + [r[|r| - 1]]
  }

  /** Stable insertion sort of `s` by `key`, largest first. */
  function SortDesc<T>(s: seq<T>, key: T -> int): seq<T> {
    if s == [] then [] else Insert(SortDesc(s[..|s| - 1], key), s[|s| - 1], key)
  }

  lemma {:induction false} InsertPermutes<T>(r: seq<T>, x: T, key: T -> int)
    ensures multiset(Insert(r, x, key)) == multiset(r) + multiset{x}
    decreases |r|
  {
    if !(r == [] || key(r[|r| - 1]) >= key(x)) {
      var init := r[..|r| - 1];
      InsertPermutes(init, x, key);
      assert r == init + [r[|r| - 1]];
    }
  }

  lemma {:induction false} InsertSorted<T>(r: seq<T>, x: T, key: T -> int)
    requires SortedDesc(r, key)
    ensures SortedDesc(Insert(r, x, key), key)
    decreases |r|
  {
    if !(r == [] || key(r[|r| - 1]) >= key(x)) {
      var init, last := r[..|r| - 1], r[|r| - 1];
      InsertSorted(init, x, key);
      InsertPermutes(init, x, key);
      var ins := Insert(init, x, key);
      forall i | 0 <= i < |ins| ensures key(ins[i]) >= key(last) {
        assert ins[i] in multiset(init) + multiset{x};
        if ins[i] != x {
          var j :| 0 <= j < |init| && init[j] == ins[i];
          assert r[j] == init[j];
        }
      }
    }
  }

  lemma {:induction false} InsertWithKey<T>(r: seq<T>, x: T, key: T -> int, k: int)
    ensures WithKey(Insert(r, x, key), key, k) == WithKey(r, key, k) + (if key(x) == k then [x] else [])
    decreases |r|
  {
    if r == [] || key(r[|r| - 1]) >= key(x) {
      assert (r + [x])[..|r|] == r;
    } else {
      var init, last := r[..|r| - 1], r[|r| - 1];
      InsertWithKey(init, x, key, k);
      var ins := Insert(init, x, key);
      assert (ins + [last])[..|ins|] == ins;
    }
  }

  /** The sort keeps every element, each as often as it occurs. */
  lemma {:induction false} SortDescPermutes<T>(s: seq<T>, key: T -> int)
    ensures multiset(SortDesc(s, key)) == multiset(s)
    ensures |SortDesc(s, key)| == |s|
    decreases |s|
  {
    if s != [] {
      SortDescPermutes(s[..|s| - 1], key);
      InsertPermutes(SortDesc(s[..|s| - 1], key), s[|s| - 1], key);
      assert s == s[..|s| - 1] + [s[|s| - 1]];
    }
    assert |multiset(SortDesc(s, key))| == |SortDesc(s, key)|;
  }

  /** The sort orders by key, largest first. */
  lemma {:induction false} SortDescSorted<T>(s: seq<T>, key: T -> int)
    ensures SortedDesc(SortDesc(s, key), key)
    decreases |s|
  {
    if s != [] {
      SortDescSorted(s[..|s| - 1], key);
      InsertSorted(SortDesc(s[..|s| - 1], key), s[|s| - 1], key);
    }
  }

  /** The sort is stable: among elements with equal keys the input order is kept. */
  lemma {:induction false} SortDescStable<T>(s: seq<T>, key: T -> int, k: int)
    ensures WithKey(SortDesc(s, key), key, k) == WithKey(s, key, k)
    decreases |s|
  {
    if s != [] {
      SortDescStable(s[..|s| - 1], key, k);
      InsertWithKey(SortDesc(s[..|s| - 1], key), s[|s| - 1], key, k);
    }
  }

  lemma {:induction false} WithKeyMembers<T>(s: seq<T>, key: T -> int, k: int, x: T)
    ensures x in WithKey(s, key, k) <==> x in s && key(x) == k
    decreases |s|
  {
    if s != [] {
      WithKeyMembers(s[..|s| - 1], key, k, x);
      assert s == s[..|s| - 1] + [s[|s| - 1]];
    }
  }

  /** The last element of a nonempty `s` is the last element of its key's group. */
  lemma WithKeyInit<T>(s: seq<T>, key: T -> int, k: int)
    requires s != []
    ensures WithKey(s, key, k) == WithKey(s[..|s| - 1], key, k) + (if key(s[|s| - 1]) == k then [s[|s| - 1]] else [])
  {
  }

  /** Two sequences sorted by key that agree on every key's group end in elements with the same key. */
  lemma {:induction false} SameLastKey<T>(a: seq<T>, b: seq<T>, key: T -> int)
    requires a != [] && b != []
    requires SortedDesc(a, key) && SortedDesc(b, key)
    requires forall k :: WithKey(a, key, k) == WithKey(b, key, k)
    ensures key(a[|a| - 1]) == key(b[|b| - 1])
  {
    var x, y := a[|a| - 1], b[|b| - 1];
    WithKeyMembers(a, key, key(x), x);
    WithKeyMembers(b, key, key(x), x);
    WithKeyMembers(b, key, key(y), y);
    WithKeyMembers(a, key, key(y), y);
    var j :| 0 <= j < |b| && b[j] == x;
    var i :| 0 <= i < |a| && a[i] == y;
    assert key(b[j]) >= key(y);
    assert key(a[i]) >= key(x);
  }

  /** Any two sequences that are sorted by key and agree on the elements of each key are equal. */
  lemma {:induction false} SortedWithKeyUnique<T>(a: seq<T>, b: seq<T>, key: T -> int)
    requires SortedDesc(a, key) && SortedDesc(b, key)
    requires forall k :: WithKey(a, key, k) == WithKey(b, key, k)
    ensures a == b
    decreases |a| + |b|
  {
    if a == [] && b == [] {
    } else if a == [] || b == [] {
      var z := if a == [] then b[|b| - 1] else a[|a| - 1];
      WithKeyMembers(b, key, key(z), z);
      WithKeyMembers(a, key, key(z), z);
      assert false;
    } else {
      SameLastKey(a, b, key);
      var x, y := a[|a| - 1], b[|b| - 1];
      var kx := key(x);
      var a', b' := a[..|a| - 1], b[..|b| - 1];
      WithKeyInit(a, key, kx);
      WithKeyInit(b, key, kx);
      assert WithKey(a, key, kx) == WithKey(a', key, kx) + [x];
      assert WithKey(b, key, kx) == WithKey(b', key, kx) + [y];
      var wa := WithKey(a, key, kx);
      assert wa == WithKey(a', key, kx) + [x] && wa[|wa| - 1] == x;
      assert wa == WithKey(b', key, kx) + [y] && wa[|wa| - 1] == y;
      forall k ensures WithKey(a', key, k) == WithKey(b', key, k) {
        WithKeyInit(a, key, k);
        WithKeyInit(b, key, k);
        var ua, ub := WithKey(a', key, k), WithKey(b', key, k);
        if k == kx {
          assert ua + [x] == ub + [x];
          assert ua == (ua + [x])[..|ua|] && ub == (ub + [x])[..|ub|];
        } else {
          assert ua + [] == ua && ub + [] == ub;
        }
      }
      assert SortedDesc(a', key) && SortedDesc(b', key);
      SortedWithKeyUnique(a', b', key);
      assert a == a' + [x] && b == b' + [y];
    }
  }

  /**
   * Whatever stable sorting algorithm the runtime uses, its result is `SortDesc`: a sequence
   * sorted by key that keeps the input order of every key's elements is exactly `SortDesc(s)`.
   */
  lemma StableSortIsUnique<T>(s: seq<T>, r: seq<T>, key: T -> int)
    requires SortedDesc(r, key)
    requires forall k :: WithKey(r, key, k) == WithKey(s, key, k)
    ensures r == SortDesc(s, key)
  {
    SortDescSorted(s, key);
    forall k ensures WithKey(r, key, k) == WithKey(SortDesc(s, key), key, k) {
      SortDescStable(s, key, k);
    }
    SortedWithKeyUnique(r, SortDesc(s, key), key);
  }

  /**
   * `Insert` puts `x` at position `j` when every element from `j` on has a smaller key and
   * the element before `j`, if any, does not.
   */
  lemma {:induction false} InsertAt<T>(r: seq<T>, x: T, key: T -> int, j: nat)
    requires j <= |r|
    requires forall k :: j <= k < |r| ==> key(r[k]) < key(x)
    requires j == 0 || key(r[j - 1]) >= key(x)
    ensures Insert(r, x, key) == r[..j] + [x] + r[j..]
    decreases |r|
  {
    if j < |r| {
      var init, last := r[..|r| - 1], r[|r| - 1];
      assert key(last) < key(x);
      InsertAt(init, x, key, j);
      assert init[..j] == r[..j];
      assert r[j..] == init[j..] + [last];
    }
  }

  /** `x` occurs somewhere before `y` in `s`. */
  ghost predicate Before<T>(s: seq<T>, x: T, y: T) {
    exists a, b :: 0 <= a < b < |s| && s[a] == x && s[b] == y
  }

  /** Taking the elements of one key keeps the relative order of two of them. */
  lemma {:induction false} WithKeyKeepsBefore<T>(s: seq<T>, key: T -> int, k: int, x: T, y: T)
    requires Before(s, x, y) && key(x) == k && key(y) == k
    ensures Before(WithKey(s, key, k), x, y)
    decreases |s|
  {
    var a, b :| 0 <= a < b < |s| && s[a] == x && s[b] == y;
    var init, last := s[..|s| - 1], s[|s| - 1];
    var w := WithKey(init, key, k);
    var tail := if key(last) == k then [last] else [];
    WithKeyInit(s, key, k);
    if b < |init| {
      assert init[a] == x && init[b] == y;
      WithKeyKeepsBefore(init, key, k, x, y);
      var c, d :| 0 <= c < d < |w| && w[c] == x && w[d] == y;
      assert (w + tail)[c] == x && (w + tail)[d] == y;
    } else {
      assert init[a] == x;
      WithKeyMembers(init, key, k, x);
      var c :| 0 <= c < |w| && w[c] == x;
      assert (w + tail)[c] == x && (w + tail)[|w|] == y;
    }
  }

  /** Two elements in order among those of one key are in that order in `s`. */
  lemma {:induction false} BeforeFromWithKey<T>(s: seq<T>, key: T -> int, k: int, x: T, y: T)
    requires Before(WithKey(s, key, k), x, y)
    ensures Before(s, x, y)
    decreases |s|
  {
    var init, last := s[..|s| - 1], s[|s| - 1];
    var w := WithKey(init, key, k);
    var tail := if key(last) == k then [last] else [];
    WithKeyInit(s, key, k);
    var c, d :| 0 <= c < d < |w + tail| && (w + tail)[c] == x && (w + tail)[d] == y;
    if d < |w| {
      assert w[c] == x && w[d] == y;
      BeforeFromWithKey(init, key, k, x, y);
      var a, b :| 0 <= a < b < |init| && init[a] == x && init[b] == y;
      assert s[a] == x && s[b] == y;
    } else {
      assert w[c] == x && y == last;
      WithKeyMembers(init, key, k, x);
      var a :| 0 <= a < |init| && init[a] == x;
      assert s[a] == x && s[|init|] == y;
    }
  }

  /** Ties keep their input order: two sorted elements with equal keys come in the order of `s`. */
  lemma SortDescKeepsTies<T>(s: seq<T>, key: T -> int)
    ensures forall i, j :: 0 <= i < j < |SortDesc(s, key)| && key(SortDesc(s, key)[i]) == key(SortDesc(s, key)[j]) ==>
      Before(s, SortDesc(s, key)[i], SortDesc(s, key)[j])
  {
    var r := SortDesc(s, key);
    forall i, j | 0 <= i < j < |r| && key(r[i]) == key(r[j]) ensures Before(s, r[i], r[j]) {
      var k := key(r[i]);
      WithKeyKeepsBefore(r, key, k, r[i], r[j]);
      SortDescStable(s, key, k);
      BeforeFromWithKey(s, key, k, r[i], r[j]);
    }
  }

  /** Moves `a[i]` back past the elements of `a[..i]` with a smaller key (one insertion step). */
  method InsertInPlace<T>(a: array<T>, i: nat, key: T -> int)
    requires i < a.Length
    modifies a
    ensures a[..i + 1] == Insert(old(a[..i]), old(a[i]), key)
    ensures forall k :: i < k < a.Length ==> a[k] == old(a[k])
  {
    ghost var p := a[..i];
    var x := a[i];
    var j := i;
    while j > 0 && key(a[j - 1]) < key(x)
      invariant 0 <= j <= i
      invariant forall k :: 0 <= k < j ==> a[k] == p[k]
      invariant forall k :: j < k <= i ==> a[k] == p[k - 1]
      invariant forall k :: i < k < a.Length ==> a[k] == old(a[k])
      invariant forall k :: j <= k < i ==> key(p[k]) < key(x)
    {
      a[j] := a[j - 1];
      j := j - 1;
    }
    a[j] := x;
    InsertAt(p, x, key, j);
    assert a[..i + 1] == p[..j] + [x] + p[j..] by {
      forall k | 0 <= k <= i ensures a[k] == (p[..j] + [x] + p[j..])[k] {
        if k > j {
          assert (p[..j] + [x] + p[j..])[k] == p[k - 1];
        }
      }
    }
  }

  /** Sorts `a` in place by `key`, largest first, keeping equal keys in their original order. */
  method SortInPlace<T>(a: array<T>, key: T -> int)
    modifies a
    ensures a[..] == SortDesc(old(a[..]), key)
  {
    ghost var s := a[..];
    for i := 0 to a.Length
      invariant a[..i] == SortDesc(s[..i], key)
      invariant forall k :: i <= k < a.Length ==> a[k] == s[k]
    {
      InsertInPlace(a, i, key);
      assert s[..i + 1] == s[..i] + [s[i]];
    }
    assert a[..] == a[..a.Length] && s == s[..a.Length];
  }

  /** Copies `s` into a fresh array, sorts it in place and answers the sorted contents. */
  method SortedCopy<T>(s: seq<T>, key: T -> int) returns (r: seq<T>)
    ensures r == SortDesc(s, key)
  {
    var a := new T[|s|](i requires 0 <= i < |s| => s[i]);
    assert a[..] == s;
    SortInPlace(a, key);
    r := a[..];
  }
}
