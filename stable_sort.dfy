/**
 * `Array.prototype.sort` with a numeric comparator `(a, b) => key(b) - key(a)`: a stable
 * sort into non-increasing key order (ECMAScript 2019 requires stability). The engine's
 * algorithm is not visible, so the model is an insertion sort together with a proof that
 * every stable non-increasing sort of the same input gives the same sequence.
 */
module StableSort {

  predicate SortedDesc<T>(s: seq<T>, key: T -> int) {
    forall i, j :: 0 <= i < j < |s| ==> key(s[i]) >= key(s[j])
  }

  /** The elements of `s` whose key is `k`, in their order in `s`. */
  function WithKey<T>(s: seq<T>, key: T -> int, k: int): seq<T> {
    if s == [] then []
    else (if key(s[0]) == k then [s[0]] else []) + WithKey(s[1..], key, k)
  }

  /** `r` is what a stable sort of `s` into non-increasing key order produces. */
  ghost predicate IsStableSortDesc<T>(s: seq<T>, r: seq<T>, key: T -> int) {
    && multiset(r) == multiset(s)
    && SortedDesc(r, key)
    && forall k :: WithKey(r, key, k) == WithKey(s, key, k)
  }

  /** Places `x` in front of the first element whose key is not greater than its own. */
  function Insert<T>(x: T, s: seq<T>, key: T -> int): seq<T> {
    if s == [] || key(s[0]) <= key(x) then [x] + s
    else [s[0]] + Insert(x, s[1..], key)
  }

  function SortDesc<T>(s: seq<T>, key: T -> int): seq<T> {
    if s == [] then [] else Insert(s[0], SortDesc(s[1..], key), key)
  }

  lemma {:induction false} WithKeyAppend<T>(a: seq<T>, b: seq<T>, key: T -> int, k: int)
    ensures WithKey(a + b, key, k) == WithKey(a, key, k) + WithKey(b, key, k)
  {
    if a == [] {
      assert a + b == b;
    } else {
      var head := if key(a[0]) == k then [a[0]] else [];
      assert (a + b)[0] == a[0];
      assert (a + b)[1..] == a[1..] + b;
      assert WithKey(a + b, key, k) == head + WithKey(a[1..] + b, key, k);
      WithKeyAppend(a[1..], b, key, k);
      assert WithKey(a, key, k) == head + WithKey(a[1..], key, k);
    }
  }


  lemma {:induction false} InsertPermutation<T>(x: T, s: seq<T>, key: T -> int)
    ensures multiset(Insert(x, s, key)) == multiset{x} + multiset(s)
  {
    if !(s == [] || key(s[0]) <= key(x)) {
      InsertPermutation(x, s[1..], key);
      assert s == [s[0]] + s[1..];
    }
  }

  lemma {:induction false} InsertSorted<T>(x: T, s: seq<T>, key: T -> int)
    requires SortedDesc(s, key)
    ensures SortedDesc(Insert(x, s, key), key)
  {
    if !(s == [] || key(s[0]) <= key(x)) {
      InsertSorted(x, s[1..], key);
      InsertPermutation(x, s[1..], key);
      var t := Insert(x, s[1..], key);
      forall j | 0 <= j < |t| ensures key(s[0]) >= key(t[j]) {
        assert t[j] in multiset(t);
        assert t[j] == x || t[j] in multiset(s[1..]);
      }
    }
  }

  lemma {:induction false} InsertWithKey<T>(x: T, s: seq<T>, key: T -> int, k: int)
    ensures WithKey(Insert(x, s, key), key, k) == WithKey([x] + s, key, k)
  {
    if s == [] || key(s[0]) <= key(x) {
    } else {
      InsertWithKey(x, s[1..], key, k);
      var t := Insert(x, s[1..], key);
      assert Insert(x, s, key) == [s[0]] + t;
      assert ([s[0]] + t)[1..] == t;
      assert ([x] + s)[1..] == s;
      assert ([x] + s[1..])[1..] == s[1..];
    }
  }

  lemma {:induction false} SortDescPermutation<T>(s: seq<T>, key: T -> int)
    ensures multiset(SortDesc(s, key)) == multiset(s)
  {
    if s != [] {
      SortDescPermutation(s[1..], key);
      InsertPermutation(s[0], SortDesc(s[1..], key), key);
      assert s == [s[0]] + s[1..];
    }
  }

  lemma {:induction false} SortDescSorted<T>(s: seq<T>, key: T -> int)
    ensures SortedDesc(SortDesc(s, key), key)
  {
    if s != [] {
      SortDescSorted(s[1..], key);
      InsertSorted(s[0], SortDesc(s[1..], key), key);
    }
  }

  lemma {:induction false} SortDescStable<T>(s: seq<T>, key: T -> int, k: int)
    ensures WithKey(SortDesc(s, key), key, k) == WithKey(s, key, k)
  {
    if s != [] {
      var t := SortDesc(s[1..], key);
      SortDescStable(s[1..], key, k);
      InsertWithKey(s[0], t, key, k);
      WithKeyAppend([s[0]], t, key, k);
      WithKeyAppend([s[0]], s[1..], key, k);
      assert [s[0]] + s[1..] == s;
    }
  }

  /** The model sort is a stable sort into non-increasing key order. */
  lemma SortDescIsStableSort<T>(s: seq<T>, key: T -> int)
    ensures IsStableSortDesc(s, SortDesc(s, key), key)
  {
    SortDescPermutation(s, key);
    SortDescSorted(s, key);
    forall k ensures WithKey(SortDesc(s, key), key, k) == WithKey(s, key, k) {
      SortDescStable(s, key, k);
    }
  }

  lemma {:induction false} WithKeyHead<T>(s: seq<T>, key: T -> int)
    requires s != []
    ensures WithKey(s, key, key(s[0])) == [s[0]] + WithKey(s[1..], key, key(s[0]))
  {
  }

  lemma {:induction false} WithKeyOther<T>(s: seq<T>, key: T -> int, k: int)
    requires s != [] && key(s[0]) != k
    ensures WithKey(s, key, k) == WithKey(s[1..], key, k)
  {
  }

  /** Two sorted permutations of each other start with equal keys. */
  lemma HeadKeys<T>(r1: seq<T>, r2: seq<T>, key: T -> int)
    requires multiset(r1) == multiset(r2) && SortedDesc(r1, key) && SortedDesc(r2, key)
    requires r1 != []
    ensures r2 != [] && key(r1[0]) == key(r2[0])
  {
    assert r1[0] in multiset(r2);
    var j :| 0 <= j < |r2| && r2[j] == r1[0];
    assert r2[0] in multiset(r1);
    var i :| 0 <= i < |r1| && r1[i] == r2[0];
    assert key(r1[0]) >= key(r1[i]);
    assert key(r2[0]) >= key(r2[j]);
  }

  /** Two stable sorts of the same input start with the same element. */
  lemma SameHead<T>(r1: seq<T>, r2: seq<T>, key: T -> int)
    requires multiset(r1) == multiset(r2) && SortedDesc(r1, key) && SortedDesc(r2, key)
    requires forall k :: WithKey(r1, key, k) == WithKey(r2, key, k)
    requires r1 != []
    ensures r2 != [] && r1[0] == r2[0]
  {
    HeadKeys(r1, r2, key);
    var m := key(r1[0]);
    WithKeyHead(r1, key);
    WithKeyHead(r2, key);
    assert WithKey(r1, key, m) == WithKey(r2, key, m);
    assert WithKey(r1, key, m)[0] == r1[0];
    assert WithKey(r2, key, m)[0] == r2[0];
  }

  /** Removing the same first element keeps the per-key subsequences equal. */
  lemma TailsAgree<T>(r1: seq<T>, r2: seq<T>, key: T -> int)
    requires r1 != [] && r2 != [] && r1[0] == r2[0]
    requires forall k :: WithKey(r1, key, k) == WithKey(r2, key, k)
    ensures forall k :: WithKey(r1[1..], key, k) == WithKey(r2[1..], key, k)
  {
    var m := key(r1[0]);
    forall k ensures WithKey(r1[1..], key, k) == WithKey(r2[1..], key, k) {
      if k != m {
        WithKeyOther(r1, key, k);
        WithKeyOther(r2, key, k);
      } else {
        WithKeyHead(r1, key);
        WithKeyHead(r2, key);
        assert WithKey(r1, key, m) == WithKey(r2, key, m);
        assert WithKey(r1[1..], key, m) == WithKey(r1, key, m)[1..];
        assert WithKey(r2[1..], key, m) == WithKey(r2, key, m)[1..];
      }
    }
  }

  /**
   * A stable non-increasing sort is unique: two sorted sequences that are permutations of
   * each other and agree on every per-key subsequence are equal. So the model sort agrees
   * with whatever stable algorithm the JavaScript engine uses.
   */
  lemma {:induction false} StableSortUnique<T>(r1: seq<T>, r2: seq<T>, key: T -> int)
    requires multiset(r1) == multiset(r2) && SortedDesc(r1, key) && SortedDesc(r2, key)
    requires forall k :: WithKey(r1, key, k) == WithKey(r2, key, k)
    decreases |r1|
    ensures r1 == r2
  {
    if r1 == [] {
      assert |r2| == |multiset(r2)| == 0;
    } else {
      SameHead(r1, r2, key);
      TailsAgree(r1, r2, key);
      SortedTail(r1, key);
      SortedTail(r2, key);
      TailMultiset(r1, r2);
      StableSortUnique(r1[1..], r2[1..], key);
      assert r1 == [r1[0]] + r1[1..] && r2 == [r2[0]] + r2[1..];
    }
  }

  lemma SortedTail<T>(r: seq<T>, key: T -> int)
    requires r != [] && SortedDesc(r, key)
    ensures SortedDesc(r[1..], key)
  {
    forall i, j | 0 <= i < j < |r| - 1 ensures key(r[1..][i]) >= key(r[1..][j]) {
      assert r[1..][i] == r[i + 1] && r[1..][j] == r[j + 1];
    }
  }

  lemma TailMultiset<T>(r1: seq<T>, r2: seq<T>)
    requires r1 != [] && r2 != [] && r1[0] == r2[0] && multiset(r1) == multiset(r2)
    ensures multiset(r1[1..]) == multiset(r2[1..])
  {
    assert r1 == [r1[0]] + r1[1..] && r2 == [r2[0]] + r2[1..];
    assert multiset(r1) == multiset([r1[0]]) + multiset(r1[1..]);
    assert multiset(r2) == multiset([r2[0]]) + multiset(r2[1..]);
    var a, x, y := multiset([r1[0]]), multiset(r1[1..]), multiset(r2[1..]);
    assert a + x == a + y;
    forall e ensures x[e] == y[e] {
      assert (a + x)[e] == a[e] + x[e];
      assert (a + y)[e] == a[e] + y[e];
    }
  }

  /** Any stable non-increasing sort of `s` is the model sort. */
  lemma StableSortIsSortDesc<T>(s: seq<T>, r: seq<T>, key: T -> int)
    requires IsStableSortDesc(s, r, key)
    ensures r == SortDesc(s, key)
  {
    SortDescIsStableSort(s, key);
    StableSortUnique(r, SortDesc(s, key), key);
  }

  /** Sorting a concatenation `a + b`: a sorted permutation in which, key by key, the elements of `a` precede those of `b`. */
  lemma SortDescConcat<T>(a: seq<T>, b: seq<T>, key: T -> int)
    ensures multiset(SortDesc(a + b, key)) == multiset(a) + multiset(b)
    ensures |SortDesc(a + b, key)| == |a| + |b|
    ensures SortedDesc(SortDesc(a + b, key), key)
    ensures forall k :: WithKey(SortDesc(a + b, key), key, k) == WithKey(a, key, k) + WithKey(b, key, k)
  {
    SortDescPermutation(a + b, key);
    assert |multiset(SortDesc(a + b, key))| == |SortDesc(a + b, key)|;
    SortDescSorted(a + b, key);
    forall k ensures WithKey(SortDesc(a + b, key), key, k) == WithKey(a, key, k) + WithKey(b, key, k) {
      SortDescStable(a + b, key, k);
      WithKeyAppend(a, b, key, k);
    }
  }
}
