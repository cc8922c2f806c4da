/** Python's `list.sort(key=..., reverse=...)` and `sorted(...)` on an integer
    key: a stable sort, where `reverse=True` sorts descending but still keeps
    elements with equal keys in their original relative order. */
module Sorting {

  /** `a` may stand before `b` in a list sorted ascending (or, with `reverse`, descending). */
  predicate InOrder(a: int, b: int, reverse: bool)
  {
    if reverse then a >= b else a <= b
  }

  predicate Sorted<T>(s: seq<T>, key: T -> int, reverse: bool)
  {
    forall i, j | 0 <= i < j < |s| :: InOrder(key(s[i]), key(s[j]), reverse)
  }

  /** Places `x` after every trailing element that may stand before it. */
  function Insert<T>(s: seq<T>, x: T, key: T -> int, reverse: bool): seq<T>
    decreases |s|
  {
    if s == [] || InOrder(key(s[|s| - 1]), key(x), reverse) then s + [x]
    else Insert(s[..|s| - 1], x, key, reverse) + [s[|s| - 1]]
  }

  /** The stable sort, as insertion sort from the front of the list. */
  function SortBy<T>(s: seq<T>, key: T -> int, reverse: bool): seq<T>
    decreases |s|
  {
    if s == [] then [] else Insert(SortBy(s[..|s| - 1], key, reverse), s[|s| - 1], key, reverse)
  }

  /** The elements of `s` whose key is `k`, in the order they occur in `s`. */
  function WithKey<T>(s: seq<T>, key: T -> int, k: int): seq<T>
    decreases |s|
  {
    if s == [] then []
    else WithKey(s[..|s| - 1], key, k) + (if key(s[|s| - 1]) == k then [s[|s| - 1]] else [])
  }

  function Reverse<T>(s: seq<T>): (r: seq<T>)
    ensures |r| == |s|
    ensures forall i | 0 <= i < |s| :: r[i] == s[|s| - 1 - i]
    decreases |s|
  {
    if s == [] then [] else [s[|s| - 1]] + Reverse(s[..|s| - 1])
  }

  predicate DistinctKeys<T>(s: seq<T>, key: T -> int)
  {
    forall i, j | 0 <= i < j < |s| :: key(s[i]) != key(s[j])
  }

  // ---------------------------------------------------------------- Insert

  lemma {:induction false} InsertPermutes<T>(s: seq<T>, x: T, key: T -> int, reverse: bool)
    ensures multiset(Insert(s, x, key, reverse)) == multiset(s) + multiset{x}
    decreases |s|
  {
    if !(s == [] || InOrder(key(s[|s| - 1]), key(x), reverse)) {
      var init, last := s[..|s| - 1], s[|s| - 1];
      InsertPermutes(init, x, key, reverse);
      assert s == init + [last];
    }
  }

  lemma {:induction false} InsertSorted<T>(s: seq<T>, x: T, key: T -> int, reverse: bool)
    requires Sorted(s, key, reverse)
    ensures Sorted(Insert(s, x, key, reverse), key, reverse)
    decreases |s|
  {
    if !(s == [] || InOrder(key(s[|s| - 1]), key(x), reverse)) {
      var init, last := s[..|s| - 1], s[|s| - 1];
      var r := Insert(init, x, key, reverse);
      InsertSorted(init, x, key, reverse);
      InsertPermutes(init, x, key, reverse);
      forall i | 0 <= i < |r| ensures InOrder(key(r[i]), key(last), reverse) {
        assert r[i] in multiset(init) + multiset{x};
        if r[i] != x {
          assert r[i] in init;
        }
      }
    }
  }

  lemma {:induction false} WithKeyAppend<T>(a: seq<T>, b: seq<T>, key: T -> int, k: int)
    ensures WithKey(a + b, key, k) == WithKey(a, key, k) + WithKey(b, key, k)
    decreases |b|
  {
    if b != [] {
      var init := b[..|b| - 1];
      WithKeyAppend(a, init, key, k);
      var last := b[|b| - 1];
      var tail := if key(last) == k then [last] else [];
      assert (a + b)[..|a + b| - 1] == a + init;
      assert (a + b)[|a + b| - 1] == last;
      assert WithKey(a + b, key, k) == WithKey(a + init, key, k) + tail;
      assert WithKey(b, key, k) == WithKey(init, key, k) + tail;
    } else {
      assert a + b == a;
    }
  }

  /** Inserting `x` adds it after all elements with the same key: equal keys keep their order. */
  lemma {:induction false} InsertStable<T>(s: seq<T>, x: T, key: T -> int, reverse: bool, k: int)
    ensures WithKey(Insert(s, x, key, reverse), key, k)
         == WithKey(s, key, k) + (if key(x) == k then [x] else [])
    decreases |s|
  {
    if s == [] || InOrder(key(s[|s| - 1]), key(x), reverse) {
      assert (s + [x])[..|s|] == s;
    } else {
      InsertStable(s[..|s| - 1], x, key, reverse, k);
      InsertPastLast(s, x, key, reverse, k);
    }
  }

  /** The step of InsertStable where `x` moves in front of the last element,
      whose key differs from its own. */
  lemma InsertPastLast<T>(s: seq<T>, x: T, key: T -> int, reverse: bool, k: int)
    requires s != [] && !InOrder(key(s[|s| - 1]), key(x), reverse)
    requires WithKey(Insert(s[..|s| - 1], x, key, reverse), key, k)
          == WithKey(s[..|s| - 1], key, k) + (if key(x) == k then [x] else [])
    ensures WithKey(Insert(s, x, key, reverse), key, k)
         == WithKey(s, key, k) + (if key(x) == k then [x] else [])
  {
    var init, last := s[..|s| - 1], s[|s| - 1];
    var ins := Insert(init, x, key, reverse);
    var w := WithKey(init, key, k);
    assert Insert(s, x, key, reverse) == ins + [last];
    assert (ins + [last])[..|ins + [last]| - 1] == ins;
    assert key(last) != key(x);
    if key(last) == k {
      assert WithKey(ins + [last], key, k) == WithKey(ins, key, k) + [last] == w + [last];
      assert WithKey(s, key, k) == w + [last];
    } else {
      assert WithKey(ins + [last], key, k) == WithKey(ins, key, k);
      assert WithKey(s, key, k) == w;
    }
  }

  // ---------------------------------------------------------------- SortBy

  /** The sort returns a permutation of its input. */
  lemma {:induction false} SortByPermutes<T>(s: seq<T>, key: T -> int, reverse: bool)
    ensures multiset(SortBy(s, key, reverse)) == multiset(s)
    decreases |s|
  {
    if s != [] {
      var init, last := s[..|s| - 1], s[|s| - 1];
      SortByPermutes(init, key, reverse);
      InsertPermutes(SortBy(init, key, reverse), last, key, reverse);
      assert s == init + [last];
    }
  }

  /** The sort returns its input ordered by key. */
  lemma {:induction false} SortBySorted<T>(s: seq<T>, key: T -> int, reverse: bool)
    ensures Sorted(SortBy(s, key, reverse), key, reverse)
    decreases |s|
  {
    if s != [] {
      SortBySorted(s[..|s| - 1], key, reverse);
      InsertSorted(SortBy(s[..|s| - 1], key, reverse), s[|s| - 1], key, reverse);
    }
  }

  /** The sort is stable: the elements sharing a key keep their original order. */
  lemma {:induction false} SortByStable<T>(s: seq<T>, key: T -> int, reverse: bool, k: int)
    ensures WithKey(SortBy(s, key, reverse), key, k) == WithKey(s, key, k)
    decreases |s|
  {
    if s != [] {
      SortByStable(s[..|s| - 1], key, reverse, k);
      InsertStable(SortBy(s[..|s| - 1], key, reverse), s[|s| - 1], key, reverse, k);
    }
  }

  // ------------------------------------------------------------ uniqueness

  lemma {:induction false} WithKeyMembers<T>(s: seq<T>, key: T -> int, k: int, x: T)
    requires x in WithKey(s, key, k)
    ensures x in s && key(x) == k
    decreases |s|
  {
    var init, last := s[..|s| - 1], s[|s| - 1];
    if x in WithKey(init, key, k) {
      WithKeyMembers(init, key, k, x);
      assert s == init + [last];
    }
  }

  lemma InOrderAntisymmetric(a: int, b: int, reverse: bool)
    requires InOrder(a, b, reverse) && InOrder(b, a, reverse)
    ensures a == b
  {
  }

  /** In a sorted list the last element carries the extreme key. */
  lemma LastIsExtreme<T>(s: seq<T>, key: T -> int, reverse: bool, x: T)
    requires Sorted(s, key, reverse) && x in s
    ensures InOrder(key(x), key(s[|s| - 1]), reverse)
  {
    var j :| 0 <= j < |s| && s[j] == x;
    if j < |s| - 1 {
      assert InOrder(key(s[j]), key(s[|s| - 1]), reverse);
    }
  }

  /** In a sorted list the first element carries the extreme key at the other end. */
  lemma FirstIsExtreme<T>(s: seq<T>, key: T -> int, reverse: bool, x: T)
    requires Sorted(s, key, reverse) && x in s
    ensures InOrder(key(s[0]), key(x), reverse)
  {
    var j :| 0 <= j < |s| && s[j] == x;
    if 0 < j {
      assert InOrder(key(s[0]), key(s[j]), reverse);
    }
  }

  /** The ascending sort of a list holding `x` starts with an element of the
      list whose key is at most `x`'s. */
  lemma SortedHeadIsLeast<T>(s: seq<T>, key: T -> int, x: T)
    requires x in s
    ensures var r := SortBy(s, key, false);
      r != [] && r[0] in s && key(r[0]) <= key(x)
  {
    var r := SortBy(s, key, false);
    SortByPermutes(s, key, false);
    SortBySorted(s, key, false);
    assert x in multiset(r);
    assert r[0] in multiset(s);
    FirstIsExtreme(r, key, false, x);
  }

  /** The last element of a list ends the run of its own key. */
  lemma WithKeyOfLast<T>(s: seq<T>, key: T -> int, k: int)
    requires s != []
    ensures key(s[|s| - 1]) == k ==> WithKey(s, key, k) == WithKey(s[..|s| - 1], key, k) + [s[|s| - 1]]
    ensures key(s[|s| - 1]) != k ==> WithKey(s, key, k) == WithKey(s[..|s| - 1], key, k)
  {
  }

  /** Two lists, both sorted by key and holding the same elements per key in the
      same order, are equal; so "sorted and stable" determines the result. */
  lemma {:induction false} StableSortUnique<T>(a: seq<T>, b: seq<T>, key: T -> int, reverse: bool)
    requires Sorted(a, key, reverse) && Sorted(b, key, reverse)
    requires forall k :: WithKey(a, key, k) == WithKey(b, key, k)
    ensures a == b
    decreases |a| + |b|
  {
    if a == [] && b != [] {
      WithKeyOfLast(b, key, key(b[|b| - 1]));
      assert false;
    } else if a != [] && b == [] {
      WithKeyOfLast(a, key, key(a[|a| - 1]));
      assert false;
    } else if a != [] && b != [] {
      var ai, la := a[..|a| - 1], a[|a| - 1];
      var bi, lb := b[..|b| - 1], b[|b| - 1];
      var ka, kb := key(la), key(lb);
      WithKeyOfLast(a, key, ka);
      WithKeyOfLast(b, key, kb);
      assert WithKey(a, key, kb) == WithKey(b, key, kb);
      assert WithKey(b, key, ka) == WithKey(a, key, ka);
      assert lb in WithKey(b, key, kb);
      assert la in WithKey(a, key, ka);
      WithKeyMembers(a, key, kb, lb);
      WithKeyMembers(b, key, ka, la);
      LastIsExtreme(a, key, reverse, lb);
      LastIsExtreme(b, key, reverse, la);
      InOrderAntisymmetric(ka, kb, reverse);
      var w := WithKey(a, key, ka);
      assert w == WithKey(b, key, kb);
      assert w[|w| - 1] == la && w[|w| - 1] == lb;
      forall k ensures WithKey(ai, key, k) == WithKey(bi, key, k) {
        WithKeyPrefix(a, b, key, k);
      }
      StableSortUnique(ai, bi, key, reverse);
      assert a == ai + [la];
      assert b == bi + [lb];
    }
  }

  /** Dropping equal last elements keeps the per-key runs equal. */
  lemma WithKeyPrefix<T>(a: seq<T>, b: seq<T>, key: T -> int, k: int)
    requires a != [] && b != [] && a[|a| - 1] == b[|b| - 1]
    requires WithKey(a, key, k) == WithKey(b, key, k)
    ensures WithKey(a[..|a| - 1], key, k) == WithKey(b[..|b| - 1], key, k)
  {
    var wa, wb := WithKey(a, key, k), WithKey(b, key, k);
    WithKeyOfLast(a, key, k);
    WithKeyOfLast(b, key, k);
    if key(a[|a| - 1]) == k {
      assert WithKey(a[..|a| - 1], key, k) == wa[..|wa| - 1];
      assert WithKey(b[..|b| - 1], key, k) == wb[..|wb| - 1];
    }
  }

  /** Any sorted list holding, key by key, the input's elements in input order is SortBy's result. */
  lemma SortByCharacterised<T>(s: seq<T>, r: seq<T>, key: T -> int, reverse: bool)
    requires Sorted(r, key, reverse)
    requires forall k :: WithKey(r, key, k) == WithKey(s, key, k)
    ensures r == SortBy(s, key, reverse)
  {
    SortBySorted(s, key, reverse);
    forall k ensures WithKey(r, key, k) == WithKey(SortBy(s, key, reverse), key, k) {
      SortByStable(s, key, reverse, k);
    }
    StableSortUnique(r, SortBy(s, key, reverse), key, reverse);
  }

  // ------------------------------------------------------------ reversal

  lemma {:induction false} WithKeyOfReverse<T>(s: seq<T>, key: T -> int, k: int)
    ensures WithKey(Reverse(s), key, k) == Reverse(WithKey(s, key, k))
    decreases |s|
  {
    if s != [] {
      var init, last := s[..|s| - 1], s[|s| - 1];
      WithKeyOfReverse(init, key, k);
      WithKeyAppend([last], Reverse(init), key, k);
      assert WithKey([last], key, k) == if key(last) == k then [last] else [];
      var w := WithKey(init, key, k);
      if key(last) == k {
        assert Reverse(w + [last]) == [last] + Reverse(w) by {
          assert (w + [last])[..|w + [last]| - 1] == w;
        }
      } else {
        assert WithKey(s, key, k) == w;
      }
    }
  }

  lemma {:induction false} DistinctKeysSingletons<T>(s: seq<T>, key: T -> int, k: int)
    requires DistinctKeys(s, key)
    ensures |WithKey(s, key, k)| <= 1
    decreases |s|
  {
    if s != [] {
      var init, last := s[..|s| - 1], s[|s| - 1];
      DistinctKeysSingletons(init, key, k);
      if key(last) == k && WithKey(init, key, k) != [] {
        WithKeyMembers(init, key, k, WithKey(init, key, k)[0]);
        assert false;
      }
    }
  }

  /** With no tied keys, sorting with `reverse=True` gives exactly the reversal of
      the ascending sort. */
  lemma SortDescendingIsReversal<T>(s: seq<T>, key: T -> int)
    requires DistinctKeys(s, key)
    ensures SortBy(s, key, true) == Reverse(SortBy(s, key, false))
  {
    var up := SortBy(s, key, false);
    var r := Reverse(up);
    SortBySorted(s, key, false);
    assert Sorted(r, key, true) by {
      forall i, j | 0 <= i < j < |r| ensures key(r[i]) >= key(r[j]) {
        assert r[i] == up[|up| - 1 - i] && r[j] == up[|up| - 1 - j];
      }
    }
    forall k ensures WithKey(r, key, k) == WithKey(s, key, k) {
      WithKeyOfReverse(up, key, k);
      SortByStable(s, key, false, k);
      DistinctKeysSingletons(s, key, k);
      var w := WithKey(up, key, k);
      assert Reverse(w) == w;
    }
    SortByCharacterised(s, r, key, true);
  }
}
