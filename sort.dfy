/** The stable descending sort that Parallel nodes apply to their children's
    values (`sort_by(|a, b| b.partial_cmp(a).unwrap())` in src/behaviortree.rs),
    as an insertion sort that keeps equal keys in their original order. */
module Sorting {
  import opened ExtReal

  /** Non-increasing by key. */
  predicate SortedDesc<T>(s: seq<T>, key: T -> Ext)
  {
    forall i, j :: 0 <= i < j < |s| ==> Le(key(s[j]), key(s[i]))
  }

  /** x goes in front of the first element whose key is not larger than its own,
      so it stays ahead of the equal keys that followed it. */
  function Insert<T>(x: T, s: seq<T>, key: T -> Ext): (r: seq<T>)
    ensures |r| == |s| + 1
    ensures multiset(r) == multiset(s) + multiset{x}
  {
    if |s| == 0 || Le(key(s[0]), key(x)) then [x] + s
    else
      assert s == [s[0]] + s[1..];
      [s[0]] + Insert(x, s[1..], key)
  }

  function SortDesc<T>(s: seq<T>, key: T -> Ext): (r: seq<T>)
    ensures |r| == |s|
    ensures multiset(r) == multiset(s)
  {
    if |s| == 0 then []
    else
      assert s == [s[0]] + s[1..];
      Insert(s[0], SortDesc(s[1..], key), key)
  }

  /** Everything Insert puts after x has a key no larger than x's; everything
      before it a larger one. */
  lemma {:induction false} InsertSorted<T>(x: T, s: seq<T>, key: T -> Ext)
    requires SortedDesc(s, key)
    ensures SortedDesc(Insert(x, s, key), key)
  {
    if |s| > 0 && !Le(key(s[0]), key(x)) {
      InsertSorted(x, s[1..], key);
      var r := Insert(x, s, key);
      var t := Insert(x, s[1..], key);
      assert r == [s[0]] + t;
      forall j | 0 < j < |r|
        ensures Le(key(r[j]), key(s[0]))
      {
        assert r[j] in multiset(t);
        assert r[j] in multiset(s[1..]) + multiset{x};
        if r[j] == x {
          LeTotal(key(s[0]), key(x));
        } else {
          assert r[j] in multiset(s[1..]);
          var k :| 0 <= k < |s[1..]| && s[1..][k] == r[j];
          assert s[k + 1] == r[j];
        }
      }
    } else if |s| > 0 {
      var r := Insert(x, s, key);
      forall i, j | 0 <= i < j < |r|
        ensures Le(key(r[j]), key(r[i]))
      {
        if i == 0 {
          LeTrans(key(s[j - 1]), key(s[0]), key(x));
        }
      }
    }
  }

  lemma {:induction false} SortDescSorted<T>(s: seq<T>, key: T -> Ext)
    ensures SortedDesc(SortDesc(s, key), key)
  {
    if |s| > 0 {
      SortDescSorted(s[1..], key);
      InsertSorted(s[0], SortDesc(s[1..], key), key);
    }
  }

  /** How many elements have a key of at least v, and at most v. */
  function CountAtLeast<T>(s: seq<T>, key: T -> Ext, v: Ext): nat
  {
    if |s| == 0 then 0 else (if Le(v, key(s[0])) then 1 else 0) + CountAtLeast(s[1..], key, v)
  }

  function CountAtMost<T>(s: seq<T>, key: T -> Ext, v: Ext): nat
  {
    if |s| == 0 then 0 else (if Le(key(s[0]), v) then 1 else 0) + CountAtMost(s[1..], key, v)
  }

  lemma {:induction false} InsertCounts<T>(x: T, s: seq<T>, key: T -> Ext, v: Ext)
    ensures CountAtLeast(Insert(x, s, key), key, v) == CountAtLeast([x] + s, key, v)
    ensures CountAtMost(Insert(x, s, key), key, v) == CountAtMost([x] + s, key, v)
  {
    if |s| > 0 && !Le(key(s[0]), key(x)) {
      InsertCounts(x, s[1..], key, v);
      assert ([x] + s)[1..] == s;
      assert ([x] + s[1..])[1..] == s[1..];
      assert (Insert(x, s, key))[1..] == Insert(x, s[1..], key);
    } else {
      assert Insert(x, s, key) == [x] + s;
    }
  }

  /** Sorting keeps the number of elements above (and below) any threshold. */
  lemma {:induction false} SortCounts<T>(s: seq<T>, key: T -> Ext, v: Ext)
    ensures CountAtLeast(SortDesc(s, key), key, v) == CountAtLeast(s, key, v)
    ensures CountAtMost(SortDesc(s, key), key, v) == CountAtMost(s, key, v)
  {
    if |s| > 0 {
      SortCounts(s[1..], key, v);
      InsertCounts(s[0], SortDesc(s[1..], key), key, v);
      assert ([s[0]] + SortDesc(s[1..], key))[1..] == SortDesc(s[1..], key);
    }
  }

  /** A prefix of k elements at least v gives at least k such elements. */
  lemma {:induction false} CountAtLeastPrefix<T>(s: seq<T>, key: T -> Ext, v: Ext, k: nat)
    requires k <= |s| && forall i :: 0 <= i < k ==> Le(v, key(s[i]))
    ensures CountAtLeast(s, key, v) >= k
  {
    if k > 0 {
      CountAtLeastPrefix(s[1..], key, v, k - 1);
    }
  }

  /** A suffix from k on of elements at most v gives at least |s| - k such elements. */
  lemma {:induction false} CountAtMostSuffix<T>(s: seq<T>, key: T -> Ext, v: Ext, k: nat)
    requires k <= |s| && forall i :: k <= i < |s| ==> Le(key(s[i]), v)
    ensures CountAtMost(s, key, v) >= |s| - k
  {
    if |s| > 0 {
      if k > 0 {
        CountAtMostSuffix(s[1..], key, v, k - 1);
      } else {
        CountAtMostSuffix(s[1..], key, v, 0);
      }
    }
  }

  /** In a descending sequence the element at position m - 1 has at least m
      elements at or above it and at least |r| - m + 1 at or below it. */
  lemma SortedCounts<T>(r: seq<T>, key: T -> Ext, m: nat)
    requires SortedDesc(r, key) && 1 <= m <= |r|
    ensures CountAtLeast(r, key, key(r[m - 1])) >= m
    ensures CountAtMost(r, key, key(r[m - 1])) >= |r| - m + 1
  {
    var v := key(r[m - 1]);
    CountAtLeastPrefix(r, key, v, m);
    CountAtMostSuffix(r, key, v, m - 1);
  }

  /** The element at position m - 1 of the sorted sequence is the m-th largest:
      at least m elements have a key of at least its key, and at least
      |s| - m + 1 have a key of at most it. */
  lemma MthLargest<T>(s: seq<T>, key: T -> Ext, m: nat)
    requires 1 <= m <= |s|
    ensures var v := key(SortDesc(s, key)[m - 1]);
            CountAtLeast(s, key, v) >= m && CountAtMost(s, key, v) >= |s| - m + 1
  {
    var r := SortDesc(s, key);
    SortDescSorted(s, key);
    SortedCounts(r, key, m);
    SortCounts(s, key, key(r[m - 1]));
  }

  /** Raising every key pointwise cannot lower the count of keys at least v. */
  lemma {:induction false} CountAtLeastMono<T, U>(a: seq<T>, ka: T -> Ext, b: seq<U>, kb: U -> Ext, v: Ext)
    requires |a| == |b| && forall j :: 0 <= j < |a| ==> Le(ka(a[j]), kb(b[j]))
    ensures CountAtLeast(a, ka, v) <= CountAtLeast(b, kb, v)
  {
    if |a| > 0 {
      CountAtLeastMono(a[1..], ka, b[1..], kb, v);
      if Le(v, ka(a[0])) {
        LeTrans(v, ka(a[0]), kb(b[0]));
      }
    }
  }

  /** When every element from position k on is below v, at most k are at least v. */
  lemma {:induction false} CountAtLeastBelow<T>(s: seq<T>, key: T -> Ext, v: Ext, k: nat)
    requires k <= |s| && forall i :: k <= i < |s| ==> Lt(key(s[i]), v)
    ensures CountAtLeast(s, key, v) <= k
  {
    if |s| > 0 {
      if k > 0 {
        CountAtLeastBelow(s[1..], key, v, k - 1);
      } else {
        CountAtLeastBelow(s[1..], key, v, 0);
        assert !Le(v, key(s[0])) by {
          if Le(v, key(s[0])) {
            LeAntisym(v, key(s[0]));
          }
        }
      }
    }
  }

  /** The m-th largest is monotone: raising every key pointwise does not
      lower it. */
  lemma MthLargestMono<T, U>(a: seq<T>, ka: T -> Ext, b: seq<U>, kb: U -> Ext, m: nat)
    requires 1 <= m <= |a| && |a| == |b|
    requires forall j :: 0 <= j < |a| ==> Le(ka(a[j]), kb(b[j]))
    ensures Le(ka(SortDesc(a, ka)[m - 1]), kb(SortDesc(b, kb)[m - 1]))
  {
    var v := ka(SortDesc(a, ka)[m - 1]);
    var sb := SortDesc(b, kb);
    var w := kb(sb[m - 1]);
    MthLargest(a, ka, m);
    CountAtLeastMono(a, ka, b, kb, v);
    LeTotal(v, w);
    if !Le(v, w) {
      SortDescSorted(b, kb);
      forall i | m - 1 <= i < |sb|
        ensures Lt(kb(sb[i]), v)
      {
        if i > m - 1 {
          LeTrans(kb(sb[i]), w, v);
        }
      }
      CountAtLeastBelow(sb, kb, v, m - 1);
      SortCounts(b, kb, v);
    }
  }

  /** The key of the m-th largest element. */
  function MthKey<T>(s: seq<T>, key: T -> Ext, m: nat): Ext
    requires 1 <= m <= |s|
  {
    key(SortDesc(s, key)[m - 1])
  }
}
