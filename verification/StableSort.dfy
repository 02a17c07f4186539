/**
 Rust's stable `sort_by_key`, as a function, with the theory the resolver cache, the zone
 stages and zone search need: it is the only stable sort, and it merges and truncates well.
 */
module StableSort {

  predicate Sorted<T>(key: T -> int, s: seq<T>) {
    forall i, j :: 0 <= i < j < |s| ==> key(s[i]) <= key(s[j])
  }

  /** The elements with key `k`, in their order in `s`. */
  function WithKey<T>(key: T -> int, s: seq<T>, k: int): seq<T> {
    if |s| == 0 then []
    else (if key(s[0]) == k then [s[0]] else []) + WithKey(key, s[1..], k)
  }

  /** `r` holds the elements of `s` in key order, elements with equal keys in their old order. */
  ghost predicate IsStableSortOf<T>(key: T -> int, s: seq<T>, r: seq<T>) {
    Sorted(key, r) && forall k :: WithKey(key, r, k) == WithKey(key, s, k)
  }

  function Insert<T>(key: T -> int, x: T, s: seq<T>): seq<T> {
    if |s| == 0 || key(x) <= key(s[0]) then [x] + s
    else [s[0]] + Insert(key, x, s[1..])
  }

  function Sort<T>(key: T -> int, s: seq<T>): seq<T> {
    if |s| == 0 then [] else Insert(key, s[0], Sort(key, s[1..]))
  }

  function Merge<T>(key: T -> int, a: seq<T>, b: seq<T>): seq<T>
    decreases |a| + |b|
  {
    if |a| == 0 then b
    else if |b| == 0 then a
    else if key(a[0]) <= key(b[0]) then [a[0]] + Merge(key, a[1..], b)
    else [b[0]] + Merge(key, a, b[1..])
  }

  /** `Vec::truncate`. */
  function Take<T>(n: nat, s: seq<T>): seq<T> {
    if n <= |s| then s[..n] else s
  }

  lemma WithKeyCons<T>(key: T -> int, x: T, s: seq<T>, k: int)
    ensures WithKey(key, [x] + s, k) == (if key(x) == k then [x] else []) + WithKey(key, s, k)
  {
    assert ([x] + s)[1..] == s;
  }

  // ----- Sort is a stable sort, and the only one -----

  lemma {:induction false} InsertSorted<T>(key: T -> int, x: T, s: seq<T>)
    requires Sorted(key, s)
    ensures Sorted(key, Insert(key, x, s))
    ensures |Insert(key, x, s)| == |s| + 1
    ensures key(Insert(key, x, s)[0]) == (if |s| > 0 && key(s[0]) < key(x) then key(s[0]) else key(x))
  {
    if |s| > 0 && key(x) > key(s[0]) {
      InsertSorted(key, x, s[1..]);
    }
  }

  lemma {:induction false} InsertWithKey<T>(key: T -> int, x: T, s: seq<T>, k: int)
    requires Sorted(key, s)
    ensures WithKey(key, Insert(key, x, s), k) == (if key(x) == k then [x] else []) + WithKey(key, s, k)
  {
    hide WithKey;
    if |s| == 0 || key(x) <= key(s[0]) {
      WithKeyCons(key, x, s, k);
    } else {
      InsertWithKey(key, x, s[1..], k);
      WithKeyCons(key, s[0], Insert(key, x, s[1..]), k);
      WithKeyCons(key, s[0], s[1..], k);
      assert s == [s[0]] + s[1..];
    }
  }

  lemma {:induction false} SortIsStable<T>(key: T -> int, s: seq<T>)
    ensures IsStableSortOf(key, s, Sort(key, s))
    ensures |Sort(key, s)| == |s|
  {
    if |s| > 0 {
      SortIsStable(key, s[1..]);
      InsertSorted(key, s[0], Sort(key, s[1..]));
      forall k
        ensures WithKey(key, Sort(key, s), k) == WithKey(key, s, k)
      {
        InsertWithKey(key, s[0], Sort(key, s[1..]), k);
      }
    }
  }

  lemma {:induction false} NoSmallerKey<T>(key: T -> int, s: seq<T>, k: int)
    requires forall i :: 0 <= i < |s| ==> k < key(s[i])
    ensures WithKey(key, s, k) == []
  {
    if |s| > 0 {
      NoSmallerKey(key, s[1..], k);
    }
  }

  lemma {:induction false} SameKeysSameSorted<T>(key: T -> int, a: seq<T>, b: seq<T>)
    requires Sorted(key, a) && Sorted(key, b)
    requires forall k :: WithKey(key, a, k) == WithKey(key, b, k)
    ensures a == b
  {
    if |a| > 0 {
      assert WithKey(key, b, key(a[0])) == WithKey(key, a, key(a[0]));
    }
    if |b| > 0 {
      assert WithKey(key, a, key(b[0])) == WithKey(key, b, key(b[0]));
      var ka, kb := key(a[0]), key(b[0]);
      assert WithKey(key, a, ka)[0] == a[0] && WithKey(key, b, kb)[0] == b[0];
      if ka < kb {
        NoSmallerKey(key, b, ka);
        assert false;
      }
      if kb < ka {
        NoSmallerKey(key, a, kb);
        assert false;
      }
      forall k
        ensures WithKey(key, a[1..], k) == WithKey(key, b[1..], k)
      {
        assert WithKey(key, a, k) == WithKey(key, b, k);
        assert WithKey(key, a[1..], k) == WithKey(key, a, k)[if k == ka then 1 else 0..];
        assert WithKey(key, b[1..], k) == WithKey(key, b, k)[if k == ka then 1 else 0..];
      }
      SameKeysSameSorted(key, a[1..], b[1..]);
    }
  }

  /** There is exactly one stable sort of a sequence. */
  lemma OnlyStableSort<T>(key: T -> int, s: seq<T>, r: seq<T>)
    requires IsStableSortOf(key, s, r)
    ensures r == Sort(key, s)
  {
    SortIsStable(key, s);
    forall k
      ensures WithKey(key, r, k) == WithKey(key, Sort(key, s), k)
    {
      assert WithKey(key, r, k) == WithKey(key, s, k);
    }
    SameKeysSameSorted(key, r, Sort(key, s));
  }

  // ----- Membership -----

  lemma {:induction false} InsertPermutes<T>(key: T -> int, x: T, s: seq<T>)
    ensures multiset(Insert(key, x, s)) == multiset{x} + multiset(s)
  {
    if |s| > 0 && key(x) > key(s[0]) {
      InsertPermutes(key, x, s[1..]);
      assert s == [s[0]] + s[1..];
    }
  }

  lemma {:induction false} SortPermutes<T>(key: T -> int, s: seq<T>)
    ensures multiset(Sort(key, s)) == multiset(s)
  {
    SortFirst(key, s);
    hide Sort, Insert;
    if |s| > 0 {
      SortPermutes(key, s[1..]);
      InsertPermutes(key, s[0], Sort(key, s[1..]));
      assert s == [s[0]] + s[1..];
    }
  }

  lemma SortFirst<T>(key: T -> int, s: seq<T>)
    ensures Sort(key, s) == if |s| == 0 then [] else Insert(key, s[0], Sort(key, s[1..]))
  {
  }

  // ----- Merging -----

  lemma {:induction false} ConcatWithKey<T>(key: T -> int, a: seq<T>, b: seq<T>, k: int)
    ensures WithKey(key, a + b, k) == WithKey(key, a, k) + WithKey(key, b, k)
  {
    if |a| == 0 {
      assert a + b == b;
    } else {
      hide WithKey;
      ConcatWithKey(key, a[1..], b, k);
      WithKeyCons(key, a[0], a[1..] + b, k);
      WithKeyCons(key, a[0], a[1..], k);
      assert a == [a[0]] + a[1..];
      assert a + b == [a[0]] + (a[1..] + b);
    }
  }

  lemma {:induction false} MergeSorted<T>(key: T -> int, a: seq<T>, b: seq<T>)
    requires Sorted(key, a) && Sorted(key, b)
    ensures Sorted(key, Merge(key, a, b))
    ensures |Merge(key, a, b)| == |a| + |b|
    ensures |a| > 0 && |b| > 0 ==>
              key(Merge(key, a, b)[0]) == (if key(a[0]) <= key(b[0]) then key(a[0]) else key(b[0]))
    decreases |a| + |b|
  {
    if |a| > 0 && |b| > 0 {
      if key(a[0]) <= key(b[0]) {
        MergeSorted(key, a[1..], b);
      } else {
        MergeSorted(key, a, b[1..]);
      }
    }
  }

  lemma {:induction false} MergeWithKey<T>(key: T -> int, a: seq<T>, b: seq<T>, k: int)
    requires Sorted(key, a) && Sorted(key, b)
    ensures WithKey(key, Merge(key, a, b), k) == WithKey(key, a, k) + WithKey(key, b, k)
    decreases |a| + |b|
  {
    if |a| == 0 || |b| == 0 {
      MergeEmpty(key, a, b, k);
    } else {
      hide WithKey, Merge;
      if key(a[0]) <= key(b[0]) {
        MergeWithKey(key, a[1..], b, k);
        LeftFirst(key, a, b, k);
      } else {
        MergeWithKey(key, a, b[1..], k);
        RightFirst(key, a, b, k);
      }
    }
  }

  lemma LeftFirst<T>(key: T -> int, a: seq<T>, b: seq<T>, k: int)
    requires |a| > 0 && |b| > 0 && key(a[0]) <= key(b[0])
    requires WithKey(key, Merge(key, a[1..], b), k) == WithKey(key, a[1..], k) + WithKey(key, b, k)
    ensures WithKey(key, Merge(key, a, b), k) == WithKey(key, a, k) + WithKey(key, b, k)
  {
    hide WithKey, Merge;
    MergeCons(key, a, b);
    WithKeyCons(key, a[0], Merge(key, a[1..], b), k);
    WithKeyHead(key, a, k);
    Reassociate(if key(a[0]) == k then [a[0]] else [], WithKey(key, a[1..], k), WithKey(key, b, k));
  }

  lemma RightFirst<T>(key: T -> int, a: seq<T>, b: seq<T>, k: int)
    requires Sorted(key, a) && |a| > 0 && |b| > 0 && key(a[0]) > key(b[0])
    requires WithKey(key, Merge(key, a, b[1..]), k) == WithKey(key, a, k) + WithKey(key, b[1..], k)
    ensures WithKey(key, Merge(key, a, b), k) == WithKey(key, a, k) + WithKey(key, b, k)
  {
    hide WithKey, Merge, Sorted;
    MergeCons(key, a, b);
    WithKeyCons(key, b[0], Merge(key, a, b[1..]), k);
    WithKeyHead(key, b, k);
    if key(b[0]) == k {
      BelowHead(key, a, k);
    }
  }

  lemma BelowHead<T>(key: T -> int, s: seq<T>, k: int)
    requires Sorted(key, s) && |s| > 0 && k < key(s[0])
    ensures WithKey(key, s, k) == []
  {
    NoSmallerKey(key, s, k);
  }

  lemma WithKeyHead<T>(key: T -> int, s: seq<T>, k: int)
    requires |s| > 0
    ensures WithKey(key, s, k) == (if key(s[0]) == k then [s[0]] else []) + WithKey(key, s[1..], k)
  {
  }

  lemma Reassociate<T>(a: seq<T>, b: seq<T>, c: seq<T>)
    ensures a + (b + c) == (a + b) + c
  {
  }

  lemma MergeCons<T>(key: T -> int, a: seq<T>, b: seq<T>)
    requires |a| > 0 && |b| > 0
    ensures Merge(key, a, b) ==
            if key(a[0]) <= key(b[0]) then [a[0]] + Merge(key, a[1..], b) else [b[0]] + Merge(key, a, b[1..])
  {
  }

  lemma MergeEmpty<T>(key: T -> int, a: seq<T>, b: seq<T>, k: int)
    requires |a| == 0 || |b| == 0
    ensures WithKey(key, Merge(key, a, b), k) == WithKey(key, a, k) + WithKey(key, b, k)
  {
  }

  /** Sorting a concatenation is merging the sorted parts, the left part first on ties. */
  lemma SortConcat<T>(key: T -> int, a: seq<T>, b: seq<T>)
    ensures Sort(key, a + b) == Merge(key, Sort(key, a), Sort(key, b))
  {
    var m := Merge(key, Sort(key, a), Sort(key, b));
    SortIsStable(key, a);
    SortIsStable(key, b);
    MergeSorted(key, Sort(key, a), Sort(key, b));
    forall k
      ensures WithKey(key, m, k) == WithKey(key, a + b, k)
    {
      MergeWithKey(key, Sort(key, a), Sort(key, b), k);
      ConcatWithKey(key, a, b, k);
    }
    OnlyStableSort(key, a + b, m);
  }

  /** The first `k` of a merge depend only on the first `k` of each side. */
  lemma {:induction false} TakeMerge<T>(key: T -> int, a: seq<T>, b: seq<T>, i: nat, j: nat, k: nat)
    requires k <= i && k <= j
    ensures Take(k, Merge(key, Take(i, a), Take(j, b))) == Take(k, Merge(key, a, b))
    decreases |a| + |b|
  {
    var ta, tb := Take(i, a), Take(j, b);
    if k == 0 || |a| == 0 || |b| == 0 {
    } else if key(a[0]) <= key(b[0]) {
      TakeMerge(key, a[1..], b, i - 1, j, k - 1);
      hide Take;
      TakeRest(i, a);
      TakeRest(j, b);
      TakeCons(k, a[0], Merge(key, ta[1..], tb));
      TakeCons(k, a[0], Merge(key, a[1..], b));
    } else {
      TakeMerge(key, a, b[1..], i, j - 1, k - 1);
      hide Take;
      TakeRest(i, a);
      TakeRest(j, b);
      TakeCons(k, b[0], Merge(key, ta, tb[1..]));
      TakeCons(k, b[0], Merge(key, a, b[1..]));
    }
  }

  lemma TakeRest<T>(i: nat, a: seq<T>)
    requires i > 0 && |a| > 0
    ensures |Take(i, a)| > 0 && Take(i, a)[0] == a[0] && Take(i, a)[1..] == Take(i - 1, a[1..])
  {
  }

  lemma TakeCons<T>(k: nat, x: T, s: seq<T>)
    requires k > 0
    ensures Take(k, [x] + s) == [x] + Take(k - 1, s)
  {
  }
}
