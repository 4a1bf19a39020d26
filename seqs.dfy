/** Sequence operations behind the front-end's `filter`, `new Set(...)` and `sort`. */
module Seqs {

  predicate Distinct<T(==)>(s: seq<T>)
  {
    forall i, j :: 0 <= i < j < |s| ==> s[i] != s[j]
  }

  /** `s.filter(y => y !== x)`. */
  function RemoveAll<T(==)>(s: seq<T>, x: T): (r: seq<T>)
    ensures x !in r
    decreases |s|
  {
    if |s| == 0 then [] else (if s[0] == x then [] else [s[0]]) + RemoveAll(s[1..], x)
  }

  lemma {:induction false} RemoveAllAppend<T>(a: seq<T>, b: seq<T>, x: T)
    ensures RemoveAll(a + b, x) == RemoveAll(a, x) + RemoveAll(b, x)
    decreases |a|
  {
    if |a| == 0 {
      assert a + b == b;
    } else {
      var head := if a[0] == x then [] else [a[0]];
      assert (a + b)[0] == a[0] && (a + b)[1..] == a[1..] + b;
      assert RemoveAll(a + b, x) == head + RemoveAll(a[1..] + b, x);
      RemoveAllAppend(a[1..], b, x);
      assert RemoveAll(a, x) == head + RemoveAll(a[1..], x);
    }
  }

  lemma {:induction false} RemoveAllAbsent<T>(s: seq<T>, x: T)
    requires x !in s
    ensures RemoveAll(s, x) == s
    decreases |s|
  {
    if |s| > 0 {
      assert x !in s[1..] by { assert forall i :: 0 <= i < |s[1..]| ==> s[1..][i] == s[i + 1]; }
      RemoveAllAbsent(s[1..], x);
    }
  }

  lemma DistinctConcat<T>(a: seq<T>, b: seq<T>)
    requires Distinct(a) && Distinct(b)
    requires forall x :: x in a ==> x !in b
    ensures Distinct(a + b)
  {
    forall i, j | 0 <= i < j < |a + b| ensures (a + b)[i] != (a + b)[j] {
      if i < |a| && |a| <= j {
        assert (a + b)[i] in a && (a + b)[j] == b[j - |a|];
      }
    }
  }

  lemma AppendParts<T>(a: seq<T>, b: seq<T>)
    ensures (a + b)[..|a|] == a && (a + b)[|a|..] == b
  {
  }

  /** Concatenation is associative. */
  lemma AppendAt<T>(a: seq<T>, b: seq<T>, k: nat)
    requires k < |a| + |b|
    ensures k < |a| ==> (a + b)[k] == a[k]
    ensures |a| <= k ==> (a + b)[k] == b[k - |a|]
  {
  }

  lemma Assoc<T>(a: seq<T>, b: seq<T>, c: seq<T>)
    ensures a + (b + c) == a + b + c
  {
  }

  /** Splicing `q` over `s[i..i + n]` shifts what lies after it by `|q| - n`. */
  lemma Splice<T>(s: seq<T>, q: seq<T>, i: nat, n: nat, j: nat, m: nat)
    requires i + n <= j && j + m <= |s|
    ensures var t := s[..i] + q + s[i + n..];
      var j' := j - n + |q|;
      && j' + m <= |t|
      && t[j'..j' + m] == s[j..j + m]
      && t[..j'] == s[..i] + q + s[i + n..j]
      && t[j' + m..] == s[j + m..]
  {
  }

  /** A sequence is its part before `i`, its element at `i` and its part after `i`. */
  lemma Around<T>(s: seq<T>, i: nat)
    requires i < |s|
    ensures s == s[..i] + [s[i]] + s[i + 1..]
  {
  }

  /** A sequence is its three consecutive slices. */
  lemma Slices<T>(s: seq<T>, i: nat, j: nat)
    requires i <= j <= |s|
    ensures s == s[..i] + s[i..j] + s[j..]
  {
  }

  /** The elements of `s` that are not in `excluded`, in order. */
  function Without<T(==)>(s: seq<T>, excluded: seq<T>): (r: seq<T>)
    decreases |s|
  {
    if |s| == 0 then []
    else Without(s[..|s| - 1], excluded) + (if s[|s| - 1] in excluded then [] else [s[|s| - 1]])
  }

  /** `[...new Set(s)]`: the first occurrence of each element, in order. */
  function Dedup<T(==)>(s: seq<T>): (r: seq<T>)
    decreases |s|
  {
    if |s| == 0 then []
    else
      var d := Dedup(s[..|s| - 1]);
      if s[|s| - 1] in d then d else d + [s[|s| - 1]]
  }

  /** A sequence without duplicates is its own deduplication. */
  lemma {:induction false} DedupDistinct<T>(s: seq<T>)
    requires Distinct(s)
    ensures Dedup(s) == s
    decreases |s|
  {
    if |s| > 0 {
      var p := s[..|s| - 1];
      assert Distinct(p);
      DedupDistinct(p);
      assert s[|s| - 1] !in p;
      assert s == p + [s[|s| - 1]];
      DedupHas(p, s[|s| - 1]);
    }
  }

  /** Deduplication keeps every element and repeats none. */
  lemma {:induction false} DedupHas<T>(s: seq<T>, y: T)
    ensures y in Dedup(s) <==> y in s
    decreases |s|
  {
    if |s| > 0 {
      var p := s[..|s| - 1];
      DedupHas(p, y);
      DedupHas(p, s[|s| - 1]);
      assert y in s <==> y in p || y == s[|s| - 1] by { assert s == p + [s[|s| - 1]]; }
    }
  }

  lemma {:induction false} DedupIsDistinct<T>(s: seq<T>)
    ensures Distinct(Dedup(s))
    decreases |s|
  {
    if |s| > 0 {
      var p := s[..|s| - 1];
      DedupIsDistinct(p);
      DedupHas(p, s[|s| - 1]);
    }
  }

  lemma {:induction false} WithoutHas<T>(s: seq<T>, excluded: seq<T>, y: T)
    ensures y in Without(s, excluded) <==> y in s && y !in excluded
    decreases |s|
  {
    if |s| > 0 {
      var p := s[..|s| - 1];
      WithoutHas(p, excluded, y);
      assert s == p + [s[|s| - 1]];
    }
  }

  lemma {:induction false} RemoveAllHas<T>(s: seq<T>, x: T, y: T)
    ensures y in RemoveAll(s, x) <==> y in s && y != x
    decreases |s|
  {
    if |s| > 0 {
      RemoveAllHas(s[1..], x, y);
      assert s == [s[0]] + s[1..];
    }
  }

  lemma DedupSnoc<T>(s: seq<T>, x: T)
    ensures Dedup(s + [x]) == if x in s then Dedup(s) else Dedup(s) + [x]
  {
    assert (s + [x])[..|s|] == s;
    DedupHas(s, x);
  }

  lemma WithoutSnoc<T>(s: seq<T>, x: T, excluded: seq<T>)
    ensures Without(s + [x], excluded) == Without(s, excluded) + (if x in excluded then [] else [x])
  {
    assert (s + [x])[..|s|] == s;
  }

  lemma DedupAppendStep<T>(a: seq<T>, b': seq<T>, x: T)
    requires Dedup(a + b') == Dedup(a) + Dedup(Without(b', a))
    ensures Dedup(a + (b' + [x])) == Dedup(a) + Dedup(Without(b' + [x], a))
  {
    var w := Without(b', a);
    assert a + (b' + [x]) == (a + b') + [x];
    DedupSnoc(a + b', x);
    WithoutSnoc(b', x, a);
    assert x in a + b' <==> x in a || x in b';
    if x in a {
      assert Without(b' + [x], a) == w;
    } else {
      assert Without(b' + [x], a) == w + [x];
      DedupSnoc(w, x);
      WithoutHas(b', a, x);
      if x !in b' {
        Assoc(Dedup(a), Dedup(w), [x]);
      }
    }
  }

  /** Deduplicating a concatenation keeps the deduplicated first part and then
      the deduplicated elements of the second part that the first lacks. */
  lemma {:induction false} DedupAppend<T>(a: seq<T>, b: seq<T>)
    ensures Dedup(a + b) == Dedup(a) + Dedup(Without(b, a))
    decreases |b|
  {
    if |b| == 0 {
      assert a + b == a;
      assert Dedup(Without(b, a)) == [];
    } else {
      var b', x := b[..|b| - 1], b[|b| - 1];
      assert b == b' + [x];
      DedupAppend(a, b');
      DedupAppendStep(a, b', x);
    }
  }

  // ---------------------------------------------------------------------------
  // Stable sorting by an integer key (what `arr.sort((a, b) => key(a) - key(b))`
  // does: the sort of ECMAScript 2019 and later is stable)
  // ---------------------------------------------------------------------------

  ghost predicate SortedBy<T>(s: seq<T>, key: T -> int)
  {
    forall i, j :: 0 <= i < j < |s| ==> key(s[i]) <= key(s[j])
  }

  /** In a sorted sequence no element of a prefix has a larger key than an
      element after it. */
  lemma SortedSplit<T>(s: seq<T>, key: T -> int, m: nat)
    requires SortedBy(s, key) && m <= |s|
    ensures forall p, q :: p in s[..m] && q in s[m..] ==> key(p) <= key(q)
  {
    forall p, q | p in s[..m] && q in s[m..] ensures key(p) <= key(q) {
      var i :| 0 <= i < m && s[..m][i] == p;
      var j :| 0 <= j < |s| - m && s[m..][j] == q;
      assert s[i] == p && s[m + j] == q;
    }
  }

  /** The elements of `s` whose key is `k`, in order. */
  function WithKey<T>(s: seq<T>, key: T -> int, k: int): seq<T>
    decreases |s|
  {
    if |s| == 0 then [] else (if key(s[0]) == k then [s[0]] else []) + WithKey(s[1..], key, k)
  }

  /** Puts `x` in front of the first element whose key is not smaller. */
  function Insert<T>(x: T, s: seq<T>, key: T -> int): (r: seq<T>)
    ensures |r| == |s| + 1
    decreases |s|
  {
    if |s| == 0 then [x]
    else if key(x) <= key(s[0]) then [x] + s
    else [s[0]] + Insert(x, s[1..], key)
  }

  /** Inserting adds `x` to the elements. */
  lemma {:induction false} InsertMultiset<T>(x: T, s: seq<T>, key: T -> int)
    ensures multiset(Insert(x, s, key)) == multiset(s) + multiset{x}
    decreases |s|
  {
    if |s| > 0 && key(x) > key(s[0]) {
      InsertMultiset(x, s[1..], key);
      assert s == [s[0]] + s[1..];
    }
  }

  lemma InsertHead<T>(x: T, s: seq<T>, key: T -> int)
    ensures Insert(x, s, key)[0] == x || (|s| > 0 && Insert(x, s, key)[0] == s[0])
  {
  }

  /** Inserting into a sorted sequence keeps it sorted. */
  lemma {:induction false} InsertSorted<T>(x: T, s: seq<T>, key: T -> int)
    requires SortedBy(s, key)
    ensures SortedBy(Insert(x, s, key), key)
    decreases |s|
  {
    if |s| > 0 && key(x) > key(s[0]) {
      var rest := Insert(x, s[1..], key);
      assert SortedBy(s[1..], key);
      InsertSorted(x, s[1..], key);
      InsertHead(x, s[1..], key);
      var r := [s[0]] + rest;
      forall i, j | 0 <= i < j < |r| ensures key(r[i]) <= key(r[j]) {
        if i == 0 {
          assert key(s[0]) <= key(rest[0]);
          assert r[j] == rest[j - 1];
        } else {
          assert r[i] == rest[i - 1] && r[j] == rest[j - 1];
        }
      }
    } else if |s| > 0 {
      var r := [x] + s;
      forall i, j | 0 <= i < j < |r| ensures key(r[i]) <= key(r[j]) {
        if i > 0 {
          assert r[i] == s[i - 1];
        }
        assert r[j] == s[j - 1];
      }
    }
  }

  /** Stable insertion sort by `key`. */
  function SortBy<T>(s: seq<T>, key: T -> int): (r: seq<T>)
    ensures SortedBy(r, key)
    ensures multiset(r) == multiset(s)
    ensures |r| == |s|
    decreases |s|
  {
    if |s| == 0 then [] else
      assert s == [s[0]] + s[1..];
      InsertMultiset(s[0], SortBy(s[1..], key), key);
      InsertSorted(s[0], SortBy(s[1..], key), key);
      Insert(s[0], SortBy(s[1..], key), key)
  }

  lemma {:induction false} InsertWithKey<T>(x: T, s: seq<T>, key: T -> int, k: int)
    ensures WithKey(Insert(x, s, key), key, k)
         == (if key(x) == k then [x] else []) + WithKey(s, key, k)
    decreases |s|
  {
    if |s| > 0 && key(x) > key(s[0]) {
      InsertWithKey(x, s[1..], key, k);
    }
  }

  /** The sort is stable: elements with equal keys keep their relative order. */
  lemma {:induction false} SortByStable<T>(s: seq<T>, key: T -> int, k: int)
    ensures WithKey(SortBy(s, key), key, k) == WithKey(s, key, k)
    decreases |s|
  {
    if |s| > 0 {
      SortByStable(s[1..], key, k);
      InsertWithKey(s[0], SortBy(s[1..], key), key, k);
    }
  }

  lemma {:induction false} WithKeyHas<T>(s: seq<T>, key: T -> int, k: int, x: T)
    ensures x in WithKey(s, key, k) <==> x in s && key(x) == k
    decreases |s|
  {
    if |s| > 0 {
      WithKeyHas(s[1..], key, k, x);
      assert s == [s[0]] + s[1..];
    }
  }

  /** A non-empty sequence has an element of its first element's key. */
  lemma WithKeyOfHead<T>(s: seq<T>, key: T -> int)
    ensures |s| > 0 ==> |WithKey(s, key, key(s[0]))| > 0
  {
  }

  /** The first element of a sorted sequence has the least key. */
  lemma SortedHead<T>(s: seq<T>, key: T -> int, x: T)
    requires SortedBy(s, key) && x in s
    ensures key(s[0]) <= key(x)
  {
    var i :| 0 <= i < |s| && s[i] == x;
    if i > 0 {
      assert key(s[0]) <= key(s[i]);
    }
  }

  /** A sorted sequence is determined by its elements of each key, in order:
      so a stable sort has exactly one possible result. */
  lemma {:induction false} SortedUnique<T>(s: seq<T>, t: seq<T>, key: T -> int)
    requires SortedBy(s, key) && SortedBy(t, key)
    requires forall k :: WithKey(s, key, k) == WithKey(t, key, k)
    ensures s == t
    decreases |s|
  {
    if |s| == 0 || |t| == 0 {
      WithKeyOfHead(s, key);
      WithKeyOfHead(t, key);
    } else {
      var a, b := key(s[0]), key(t[0]);
      assert WithKey(s, key, a)[0] == s[0];
      WithKeyHas(t, key, a, s[0]);
      SortedHead(t, key, s[0]);
      assert WithKey(t, key, b)[0] == t[0];
      WithKeyHas(s, key, b, t[0]);
      SortedHead(s, key, t[0]);
      assert a == b;
      assert WithKey(s, key, a) == [s[0]] + WithKey(s[1..], key, a);
      assert WithKey(t, key, a) == [t[0]] + WithKey(t[1..], key, a);
      assert s[0] == t[0];
      forall k ensures WithKey(s[1..], key, k) == WithKey(t[1..], key, k) {
        if k == a {
          assert WithKey(s, key, a)[1..] == WithKey(s[1..], key, a);
          assert WithKey(t, key, a)[1..] == WithKey(t[1..], key, a);
        } else {
          assert WithKey(s, key, k) == WithKey(s[1..], key, k);
          assert WithKey(t, key, k) == WithKey(t[1..], key, k);
        }
      }
      assert SortedBy(s[1..], key) by {
        forall i, j | 0 <= i < j < |s[1..]| ensures key(s[1..][i]) <= key(s[1..][j]) {
          assert s[1..][i] == s[i + 1] && s[1..][j] == s[j + 1];
        }
      }
      assert SortedBy(t[1..], key) by {
        forall i, j | 0 <= i < j < |t[1..]| ensures key(t[1..][i]) <= key(t[1..][j]) {
          assert t[1..][i] == t[i + 1] && t[1..][j] == t[j + 1];
        }
      }
      SortedUnique(s[1..], t[1..], key);
      assert s == [s[0]] + s[1..] && t == [t[0]] + t[1..];
    }
  }

  // ---------------------------------------------------------------------------
  // Images (`arr.map(f)`)
  // ---------------------------------------------------------------------------

  function Map<T, U>(s: seq<T>, f: T -> U): (r: seq<U>)
    ensures |r| == |s|
    decreases |s|
  {
    if |s| == 0 then [] else Map(s[..|s| - 1], f) + [f(s[|s| - 1])]
  }

  lemma {:induction false} MapAt<T, U>(s: seq<T>, f: T -> U)
    ensures forall k :: 0 <= k < |s| ==> Map(s, f)[k] == f(s[k])
    decreases |s|
  {
    if |s| > 0 {
      var p := s[..|s| - 1];
      MapAt(p, f);
      assert forall k :: 0 <= k < |p| ==> p[k] == s[k];
    }
  }

  // ---------------------------------------------------------------------------
  // Concatenated images
  // ---------------------------------------------------------------------------

  /** `f(s[0]) + f(s[1]) + ...`. */
  function FlatMap<T, U>(s: seq<T>, f: T -> seq<U>): seq<U>
    decreases |s|
  {
    if |s| == 0 then [] else FlatMap(s[..|s| - 1], f) + f(s[|s| - 1])
  }

  lemma {:induction false} FlatMapHas<T, U>(s: seq<T>, f: T -> seq<U>, u: U)
    ensures u in FlatMap(s, f) <==> exists j :: 0 <= j < |s| && u in f(s[j])
    decreases |s|
  {
    if |s| > 0 {
      var n := |s| - 1;
      FlatMapHas(s[..n], f, u);
      if u in FlatMap(s[..n], f) {
        var j :| 0 <= j < n && u in f(s[..n][j]);
        assert s[j] == s[..n][j];
      }
      if exists j :: 0 <= j < |s| && u in f(s[j]) {
        var j :| 0 <= j < |s| && u in f(s[j]);
        if j < n {
          assert s[..n][j] == s[j];
        }
      }
    }
  }

  // ---------------------------------------------------------------------------
  // Filtering (`arr.filter(p)`)
  // ---------------------------------------------------------------------------

  function Filter<T>(s: seq<T>, p: T -> bool): (r: seq<T>)
    ensures |r| <= |s|
    decreases |s|
  {
    if |s| == 0 then [] else (if p(s[0]) then [s[0]] else []) + Filter(s[1..], p)
  }

  lemma {:induction false} FilterHas<T>(s: seq<T>, p: T -> bool, x: T)
    ensures x in Filter(s, p) <==> x in s && p(x)
    decreases |s|
  {
    if |s| > 0 {
      FilterHas(s[1..], p, x);
      assert s == [s[0]] + s[1..];
    }
  }

  /** Filtering keeps every copy of a kept element and no copy of another. */
  lemma {:induction false} FilterCount<T>(s: seq<T>, p: T -> bool, x: T)
    ensures multiset(Filter(s, p))[x] == if p(x) then multiset(s)[x] else 0
    decreases |s|
  {
    if |s| > 0 {
      FilterCount(s[1..], p, x);
      assert s == [s[0]] + s[1..];
    }
  }

  lemma {:induction false} FilterInsert<T>(x: T, s: seq<T>, key: T -> int, p: T -> bool)
    ensures multiset(Filter(Insert(x, s, key), p))
         == multiset(Filter(s, p)) + (if p(x) then multiset{x} else multiset{})
    decreases |s|
  {
    if |s| == 0 {
    } else if key(x) <= key(s[0]) {
      assert ([x] + s)[0] == x && ([x] + s)[1..] == s;
    } else {
      var r := Insert(x, s[1..], key);
      FilterInsert(x, s[1..], key, p);
      assert ([s[0]] + r)[0] == s[0] && ([s[0]] + r)[1..] == r;
    }
  }

  /** Filtering keeps a sequence whose elements all pass. */
  lemma {:induction false} FilterAll<T>(s: seq<T>, p: T -> bool)
    requires forall i :: 0 <= i < |s| ==> p(s[i])
    ensures Filter(s, p) == s
    decreases |s|
  {
    if |s| > 0 {
      FilterAll(s[1..], p);
      assert s == [s[0]] + s[1..];
    }
  }

  /** Sorting and then filtering keeps the same elements as filtering alone. */
  lemma {:induction false} FilterSortBy<T>(s: seq<T>, key: T -> int, p: T -> bool)
    ensures multiset(Filter(SortBy(s, key), p)) == multiset(Filter(s, p))
    decreases |s|
  {
    if |s| > 0 {
      FilterSortBy(s[1..], key, p);
      FilterInsert(s[0], SortBy(s[1..], key), key, p);
    }
  }

  /** Filtering a sorted sequence leaves it sorted. */
  lemma {:induction false} FilterSorted<T>(s: seq<T>, p: T -> bool, key: T -> int)
    requires SortedBy(s, key)
    ensures SortedBy(Filter(s, p), key)
    decreases |s|
  {
    if |s| > 0 {
      var rest := Filter(s[1..], p);
      FilterSorted(s[1..], p, key);
      if p(s[0]) {
        forall j | 0 <= j < |rest| ensures key(s[0]) <= key(rest[j]) {
          FilterHas(s[1..], p, rest[j]);
          var k :| 0 <= k < |s[1..]| && s[1..][k] == rest[j];
          assert s[1..][k] == s[k + 1];
        }
        assert Filter(s, p) == [s[0]] + rest;
      }
    }
  }

  /** Filtering commutes with picking out the elements of one key. */
  lemma {:induction false} FilterWithKey<T>(s: seq<T>, p: T -> bool, key: T -> int, k: int)
    ensures WithKey(Filter(s, p), key, k) == Filter(WithKey(s, key, k), p)
    decreases |s|
  {
    if |s| > 0 {
      FilterWithKey(s[1..], p, key, k);
      var f := Filter(s, p);
      var w := WithKey(s, key, k);
      if p(s[0]) {
        assert f == [s[0]] + Filter(s[1..], p);
        assert f[0] == s[0] && f[1..] == Filter(s[1..], p);
      } else {
        assert f == Filter(s[1..], p);
      }
      if key(s[0]) == k {
        assert w == [s[0]] + WithKey(s[1..], key, k);
        assert w[0] == s[0] && w[1..] == WithKey(s[1..], key, k);
      } else {
        assert w == WithKey(s[1..], key, k);
      }
    }
  }
}
