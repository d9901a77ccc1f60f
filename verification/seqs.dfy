/** Generic sequence operations: the list comprehension with a condition,
    the first-match scan, and the stable sort that Python's `sorted` and
    `list.sort` perform. */
module Seqs {
  import opened Wrappers

  /** `[f(x) for x in s[:n]]`, built the way an appending loop builds it. */
  function MapPrefix<T, U>(s: seq<T>, n: nat, f: T -> U): (r: seq<U>)
    requires n <= |s|
    ensures |r| == n
  {
    if n == 0 then [] else MapPrefix(s, n - 1, f) + [f(s[n - 1])]
  }

  /** Element `k` of the mapped prefix is `f` of element `k`. */
  lemma {:induction false} MapPrefixAt<T, U>(s: seq<T>, n: nat, f: T -> U, k: int)
    requires 0 <= k < n <= |s|
    ensures MapPrefix(s, n, f)[k] == f(s[k])
  {
    if k < n - 1 {
      MapPrefixAt(s, n - 1, f, k);
    }
  }

  /** `[x for x in s if p(x)]`: the elements satisfying `p`, in order. */
  function Filter<T>(s: seq<T>, p: T -> bool): (r: seq<T>)
    ensures |r| <= |s|
    ensures forall x :: x in r ==> x in s && p(x)
    ensures forall x :: x in s && p(x) ==> x in r
    ensures multiset(r) <= multiset(s)
  {
    if s == [] then []
    else
      assert s == [s[0]] + s[1..];
      (if p(s[0]) then [s[0]] else []) + Filter(s[1..], p)
  }

  /** Filtering keeps every copy of an element that satisfies `p` and none of the others. */
  lemma {:induction false} FilterCount<T>(s: seq<T>, p: T -> bool, x: T)
    ensures multiset(Filter(s, p))[x] == if p(x) then multiset(s)[x] else 0
  {
    if s != [] {
      assert s == [s[0]] + s[1..];
      FilterCount(s[1..], p, x);
    }
  }

  /** Filtering distributes over concatenation, so it keeps the relative order of what it keeps. */
  lemma {:induction false} FilterAppend<T>(a: seq<T>, b: seq<T>, p: T -> bool)
    ensures Filter(a + b, p) == Filter(a, p) + Filter(b, p)
  {
    if a == [] {
      assert a + b == b;
    } else {
      assert (a + b)[1..] == a[1..] + b;
      FilterAppend(a[1..], b, p);
    }
  }

  /** A filter whose condition holds everywhere keeps everything. */
  lemma {:induction false} FilterAll<T>(s: seq<T>, p: T -> bool)
    requires forall x :: x in s ==> p(x)
    ensures Filter(s, p) == s
  {
    if s != [] {
      FilterAll(s[1..], p);
    }
  }

  ghost predicate NoDuplicates<T>(s: seq<T>) {
    forall i, j :: 0 <= i < j < |s| ==> s[i] != s[j]
  }

  /** A sequence has no duplicates exactly when no element occurs twice in its multiset. */
  lemma {:induction false} NoDuplicatesMultiset<T>(s: seq<T>)
    ensures NoDuplicates(s) <==> forall x :: multiset(s)[x] <= 1
  {
    if s != [] {
      var t := s[1..];
      assert s == [s[0]] + t;
      NoDuplicatesMultiset(t);
      assert forall j :: 1 <= j < |s| ==> s[j] == t[j - 1];
      if NoDuplicates(s) {
        assert NoDuplicates(t);
        assert s[0] !in t;
      }
      if forall x :: multiset(s)[x] <= 1 {
        assert forall x :: multiset(t)[x] <= 1 by {
          forall x ensures multiset(t)[x] <= 1 {
            assert multiset(s)[x] == multiset([s[0]])[x] + multiset(t)[x];
          }
        }
        assert multiset(s)[s[0]] == 1 + multiset(t)[s[0]];
        assert s[0] !in t;
      }
    }
  }

  /** A permutation of a sequence without duplicates has none either. */
  lemma NoDuplicatesPermutation<T>(s: seq<T>, r: seq<T>)
    requires multiset(r) == multiset(s) && NoDuplicates(s)
    ensures NoDuplicates(r)
  {
    NoDuplicatesMultiset(s);
    NoDuplicatesMultiset(r);
  }

  /** Two permutations of each other have the same elements. */
  lemma SameElements<T>(s: seq<T>, r: seq<T>)
    requires multiset(r) == multiset(s)
    ensures forall x :: x in r <==> x in s
  {
    forall x ensures x in r <==> x in s {
      assert x in r <==> x in multiset(r);
      assert x in s <==> x in multiset(s);
    }
  }

  /** `k` is the first position in `s` whose element satisfies `p`. */
  ghost predicate IsFirstWhere<T>(s: seq<T>, p: T -> bool, k: int) {
    0 <= k < |s| && p(s[k]) && forall j :: 0 <= j < k ==> !p(s[j])
  }

  /** The first element satisfying `p`, as a `for ... if p(x): return x` loop finds it. */
  function FindFirst<T>(s: seq<T>, p: T -> bool): (r: Option<T>)
    ensures r.None? <==> forall i :: 0 <= i < |s| ==> !p(s[i])
    ensures r.Some? ==> r.value in s && p(r.value)
    ensures forall k :: IsFirstWhere(s, p, k) ==> r == Some(s[k])
  {
    if s == [] then None
    else if p(s[0]) then Some(s[0])
    else
      var r := FindFirst(s[1..], p);
      assert forall i :: 1 <= i < |s| ==> s[i] == s[1..][i - 1];
      assert forall k :: IsFirstWhere(s, p, k) ==> IsFirstWhere(s[1..], p, k - 1);
      r
  }

  /** A scan of `a + b` finds in `a` if it can, and otherwise in `b`. */
  lemma {:induction false} FindFirstAppend<T>(a: seq<T>, b: seq<T>, p: T -> bool)
    ensures FindFirst(a + b, p) == if FindFirst(a, p).Some? then FindFirst(a, p) else FindFirst(b, p)
  {
    if a == [] {
      assert a + b == b;
    } else {
      assert (a + b)[1..] == a[1..] + b;
      FindFirstAppend(a[1..], b, p);
    }
  }

  /** `le` orders keys: every pair is comparable and the order is transitive. */
  ghost predicate TotalPreorder<K(!new)>(le: (K, K) -> bool) {
    && (forall a, b :: le(a, b) || le(b, a))
    && (forall a, b, c :: le(a, b) && le(b, c) ==> le(a, c))
  }

  ghost predicate SortedBy<T, K>(s: seq<T>, key: T -> K, le: (K, K) -> bool) {
    forall i, j :: 0 <= i < j < |s| ==> le(key(s[i]), key(s[j]))
  }

  /** Inserts `x` in front of the first element it may precede. */
  function Insert<T, K>(x: T, s: seq<T>, key: T -> K, le: (K, K) -> bool): (r: seq<T>)
    ensures multiset(r) == multiset(s) + multiset{x}
    ensures |r| == |s| + 1
  {
    if s == [] || le(key(x), key(s[0])) then [x] + s
    else
      assert s == [s[0]] + s[1..];
      [s[0]] + Insert(x, s[1..], key, le)
  }

  lemma {:induction false} InsertSorted<T, K(!new)>(x: T, s: seq<T>, key: T -> K, le: (K, K) -> bool)
    requires TotalPreorder(le)
    requires SortedBy(s, key, le)
    ensures SortedBy(Insert(x, s, key, le), key, le)
  {
    if s == [] || le(key(x), key(s[0])) {
    } else {
      var t := Insert(x, s[1..], key, le);
      InsertSorted(x, s[1..], key, le);
      assert le(key(s[0]), key(x));
      forall y | y in t ensures le(key(s[0]), key(y)) {
        assert y in multiset(t);
        if y != x {
          assert y in s[1..];
        }
      }
    }
  }

  /** Stable sort by `key` under the order `le`: equal keys keep their input
      order. With `le` as `>=` it is `sorted(..., reverse=True)`, which Python
      also keeps stable. */
  function Sort<T, K(!new)>(s: seq<T>, key: T -> K, le: (K, K) -> bool): (r: seq<T>)
    requires TotalPreorder(le)
    ensures multiset(r) == multiset(s)
    ensures |r| == |s|
    ensures SortedBy(r, key, le)
  {
    if s == [] then []
    else
      assert s == [s[0]] + s[1..];
      var t := Sort(s[1..], key, le);
      InsertSorted(s[0], t, key, le);
      Insert(s[0], t, key, le)
  }

  /** Filtering `[x] + t` decides `x` first, then filters `t`. */
  lemma FilterCons<T>(x: T, t: seq<T>, p: T -> bool)
    ensures Filter([x] + t, p) == (if p(x) then [x] else []) + Filter(t, p)
  {
    assert ([x] + t)[1..] == t;
  }

  /** `c` holds of exactly the elements whose key is equivalent to `k` under `le`. */
  ghost predicate IsKeyClass<T(!new), K>(c: T -> bool, key: T -> K, le: (K, K) -> bool, k: K) {
    forall y :: c(y) == (le(key(y), k) && le(k, key(y)))
  }

  /** An element that `x` may not precede is not in the same key class as `x`. */
  lemma ClassApart<T(!new), K(!new)>(x: T, y: T, key: T -> K, le: (K, K) -> bool, c: T -> bool, k: K)
    requires TotalPreorder(le)
    requires IsKeyClass(c, key, le, k)
    requires !le(key(x), key(y))
    ensures !(c(x) && c(y))
  {
    assert c(x) ==> le(key(x), k);
    assert c(y) ==> le(k, key(y));
  }

  /** `x` passes over a head `y` that it may not precede. */
  lemma InsertPast<T, K>(x: T, y: T, t: seq<T>, key: T -> K, le: (K, K) -> bool)
    requires !le(key(x), key(y))
    ensures Insert(x, [y] + t, key, le) == [y] + Insert(x, t, key, le)
  {
    assert ([y] + t)[1..] == t;
  }

  /** Two pieces of which one is empty may be swapped. */
  lemma SwapEmpty<T>(a: seq<T>, b: seq<T>, f: seq<T>)
    requires a == [] || b == []
    ensures b + (a + f) == a + (b + f)
  {
  }

  /** The step of `InsertClass`: `x` passes over a head `y` that lies outside its class. */
  lemma InsertClassStep<T, K>(x: T, y: T, t: seq<T>, key: T -> K, le: (K, K) -> bool, c: T -> bool)
    requires !le(key(x), key(y)) && !(c(x) && c(y))
    requires Filter(Insert(x, t, key, le), c) == (if c(x) then [x] else []) + Filter(t, c)
    ensures Filter(Insert(x, [y] + t, key, le), c) == (if c(x) then [x] else []) + Filter([y] + t, c)
  {
    InsertPast(x, y, t, key, le);
    FilterCons(y, Insert(x, t, key, le), c);
    FilterCons(y, t, c);
    SwapEmpty(if c(x) then [x] else [], if c(y) then [y] else [], Filter(t, c));
  }

  /** `Insert` passes over no element of `x`'s own key class: within that
      class, `x` lands in front. */
  lemma {:induction false} InsertClass<T(!new), K(!new)>(x: T, s: seq<T>, key: T -> K, le: (K, K) -> bool, c: T -> bool, k: K)
    requires TotalPreorder(le)
    requires IsKeyClass(c, key, le, k)
    ensures Filter(Insert(x, s, key, le), c) == (if c(x) then [x] else []) + Filter(s, c)
  {
    if s == [] || le(key(x), key(s[0])) {
      FilterCons(x, s, c);
    } else {
      assert s == [s[0]] + s[1..];
      InsertClass(x, s[1..], key, le, c, k);
      ClassApart(x, s[0], key, le, c, k);
      InsertClassStep(x, s[0], s[1..], key, le, c);
    }
  }

  /** `Sort` is stable: the elements of any one key class come out in their
      input order. */
  lemma {:induction false} SortStable<T(!new), K(!new)>(s: seq<T>, key: T -> K, le: (K, K) -> bool, c: T -> bool, k: K)
    requires TotalPreorder(le)
    requires IsKeyClass(c, key, le, k)
    ensures Filter(Sort(s, key, le), c) == Filter(s, c)
  {
    if s != [] {
      assert s == [s[0]] + s[1..];
      SortStable(s[1..], key, le, c, k);
      InsertClass(s[0], Sort(s[1..], key, le), key, le, c, k);
      FilterCons(s[0], s[1..], c);
    }
  }

  /** `i` is the position in `s` of the element with key first in the order
      among those satisfying `p`, the earliest such one on ties. */
  ghost predicate IsFirstBest<T, K>(s: seq<T>, key: T -> K, le: (K, K) -> bool, p: T -> bool, i: int) {
    && 0 <= i < |s|
    && p(s[i])
    && (forall j :: 0 <= j < |s| && p(s[j]) ==> le(key(s[i]), key(s[j])))
    && (forall j :: 0 <= j < i && p(s[j]) ==> !le(key(s[j]), key(s[i])))
  }

  lemma {:induction false} FindFirstInsert<T, K(!new)>(x: T, s: seq<T>, key: T -> K, le: (K, K) -> bool, p: T -> bool)
    requires TotalPreorder(le)
    requires SortedBy(s, key, le)
    ensures var f := FindFirst(s, p);
      FindFirst(Insert(x, s, key, le), p)
      == if p(x) && (f.None? || le(key(x), key(f.value))) then Some(x) else f
  {
    if s == [] || le(key(x), key(s[0])) {
      var f := FindFirst(s, p);
      if f.Some? {
        assert f.value in s;
        var k :| 0 <= k < |s| && s[k] == f.value;
        if k > 0 {
          assert le(key(s[0]), key(s[k]));
        }
      }
      assert ([x] + s)[1..] == s;
    } else {
      FindFirstInsert(x, s[1..], key, le, p);
      assert ([s[0]] + Insert(x, s[1..], key, le))[1..] == Insert(x, s[1..], key, le);
      if !p(s[0]) {
        assert FindFirst(s, p) == FindFirst(s[1..], p);
      }
    }
  }

  /** Choosing the head of `s`: it satisfies `p` and no `p`-element of the tail ranks before it. */
  lemma FirstBestHead<T, K(!new)>(s: seq<T>, key: T -> K, le: (K, K) -> bool, p: T -> bool)
    requires TotalPreorder(le)
    requires s != [] && p(s[0])
    requires forall j :: 1 <= j < |s| && p(s[j]) ==> le(key(s[0]), key(s[j]))
    ensures IsFirstBest(s, key, le, p, 0)
  {
    var k := key(s[0]);
    assert le(k, k) || le(k, k);
  }

  /** Choosing the best element of the tail `s[1..]`, which the head does not beat. */
  lemma FirstBestTail<T, K(!new)>(s: seq<T>, key: T -> K, le: (K, K) -> bool, p: T -> bool, i: int)
    requires TotalPreorder(le)
    requires s != [] && IsFirstBest(s[1..], key, le, p, i)
    requires p(s[0]) ==> !le(key(s[0]), key(s[1..][i]))
    ensures IsFirstBest(s, key, le, p, i + 1)
  {
    var t := s[1..];
    assert forall j :: 1 <= j < |s| ==> s[j] == t[j - 1];
    if p(s[0]) {
      assert le(key(t[i]), key(s[0]));
    }
  }

  /** A first-match scan over the stably sorted sequence picks the
      `p`-element whose key comes first in the order, the earliest in the
      input on ties; it finds nothing exactly when no element satisfies `p`. */
  lemma {:induction false} FindFirstOfSorted<T, K(!new)>(s: seq<T>, key: T -> K, le: (K, K) -> bool, p: T -> bool)
    requires TotalPreorder(le)
    ensures FindFirst(Sort(s, key, le), p).None? <==> forall j :: 0 <= j < |s| ==> !p(s[j])
    ensures FindFirst(Sort(s, key, le), p).Some? ==>
      exists i :: IsFirstBest(s, key, le, p, i) && s[i] == FindFirst(Sort(s, key, le), p).value
  {
    var r := Sort(s, key, le);
    var f := FindFirst(r, p);
    if f.None? {
      forall j | 0 <= j < |s| ensures !p(s[j]) {
        assert s[j] in multiset(r);
      }
    } else if s != [] {
      var x, t := s[0], s[1..];
      var st := Sort(t, key, le);
      assert r == Insert(x, st, key, le);
      FindFirstOfSorted(t, key, le, p);
      FindFirstInsert(x, st, key, le, p);
      var g := FindFirst(st, p);
      if p(x) && (g.None? || le(key(x), key(g.value))) {
        assert f == Some(x);
        forall j | 1 <= j < |s| && p(s[j]) ensures le(key(x), key(s[j])) {
          assert s[j] == t[j - 1];
          var i' :| IsFirstBest(t, key, le, p, i') && t[i'] == g.value;
          assert le(key(t[i']), key(t[j - 1]));
        }
        FirstBestHead(s, key, le, p);
      } else {
        assert f == g;
        var i' :| IsFirstBest(t, key, le, p, i') && t[i'] == g.value;
        FirstBestTail(s, key, le, p, i');
        assert s[i' + 1] == f.value;
      }
    }
  }

  /** The order used for `sorted(..., reverse=True)` on a numeric key. */
  function AtLeast(a: int, b: int): bool { a >= b }

  lemma AtLeastIsTotalPreorder()
    ensures TotalPreorder(AtLeast)
  {
  }
}
