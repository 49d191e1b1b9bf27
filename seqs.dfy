/** Generic list operations that the app's components are built from:
    `filter`, `reduce` with `+`, the insertion-ordered keys of a `Map`
    filled by `forEach`, and `sort` with a numeric comparator. */
module Seqs {

  /** No element occurs twice. */
  ghost predicate NoDup<T>(s: seq<T>) {
    forall i, j :: 0 <= i < j < |s| ==> s[i] != s[j]
  }

  /** `Array.prototype.filter`: the elements that satisfy `p`, in order. */
  function Filter<T(!new)>(s: seq<T>, p: T -> bool): (r: seq<T>)
    ensures |r| <= |s|
    ensures forall x :: x in r <==> x in s && p(x)
  {
    if s == [] then [] else (if p(s[0]) then [s[0]] else []) + Filter(s[1..], p)
  }

  /** Filtering a concatenation filters each part: the kept elements stay in
      their original order. */
  lemma {:induction false} FilterAppend<T(!new)>(a: seq<T>, b: seq<T>, p: T -> bool)
    ensures Filter(a + b, p) == Filter(a, p) + Filter(b, p)
  {
    if a == [] {
      assert a + b == b;
    } else {
      assert (a + b)[0] == a[0];
      assert (a + b)[1..] == a[1..] + b;
      FilterAppend(a[1..], b, p);
    }
  }

  lemma FilterOne<T(!new)>(x: T, p: T -> bool)
    ensures Filter([x], p) == if p(x) then [x] else []
  {
    assert [x][1..] == [];
  }

  /** When every element passes, the filter returns its input unchanged. */
  lemma {:induction false} FilterKeepsAll<T(!new)>(s: seq<T>, p: T -> bool)
    requires forall x :: x in s ==> p(x)
    ensures Filter(s, p) == s
  {
    if s != [] {
      assert forall x :: x in s[1..] ==> x in s;
      FilterKeepsAll(s[1..], p);
    }
  }

  /** Filtering twice by the same predicate is filtering once. */
  lemma FilterIdempotent<T(!new)>(s: seq<T>, p: T -> bool)
    ensures Filter(Filter(s, p), p) == Filter(s, p)
  {
    FilterKeepsAll(Filter(s, p), p);
  }

  /** Two complementary filters split a list without losing or adding an element. */
  lemma {:induction false} FilterPartition<T(!new)>(s: seq<T>, p: T -> bool, q: T -> bool)
    requires forall x :: x in s ==> p(x) != q(x)
    ensures multiset(Filter(s, p)) + multiset(Filter(s, q)) == multiset(s)
  {
    if s != [] {
      var x, rest := s[0], s[1..];
      assert s == [x] + rest;
      assert forall y :: y in rest ==> y in s;
      FilterPartition(rest, p, q);
      PartitionCons(x, rest, p, q);
    }
  }

  /** The step of `FilterPartition`: the head goes to exactly one side. */
  lemma PartitionCons<T(!new)>(x: T, rest: seq<T>, p: T -> bool, q: T -> bool)
    requires p(x) != q(x)
    requires multiset(Filter(rest, p)) + multiset(Filter(rest, q)) == multiset(rest)
    ensures multiset(Filter([x] + rest, p)) + multiset(Filter([x] + rest, q)) == multiset([x] + rest)
  {
    FilterCons(x, rest, p);
    FilterCons(x, rest, q);
    if p(x) {
      assert multiset(Filter([x] + rest, p)) == multiset{x} + multiset(Filter(rest, p));
      assert Filter([x] + rest, q) == Filter(rest, q);
    } else {
      assert multiset(Filter([x] + rest, q)) == multiset{x} + multiset(Filter(rest, q));
      assert Filter([x] + rest, p) == Filter(rest, p);
    }
    assert multiset([x] + rest) == multiset{x} + multiset(rest);
  }

  /** `reduce((acc, x) => acc + f(x), 0)`: a left fold, so the last element is
      added last. */
  function Sum<T>(s: seq<T>, f: T -> real): real {
    if s == [] then 0.0 else Sum(s[..|s| - 1], f) + f(s[|s| - 1])
  }

  lemma {:induction false} SumAppend<T>(a: seq<T>, b: seq<T>, f: T -> real)
    ensures Sum(a + b, f) == Sum(a, f) + Sum(b, f)
  {
    if b == [] {
      assert a + b == a;
    } else {
      assert (a + b)[..|a + b| - 1] == a + b[..|b| - 1];
      SumAppend(a, b[..|b| - 1], f);
    }
  }

  /** The sum of a one-element prefix put in front. */
  lemma SumCons<T>(x: T, s: seq<T>, f: T -> real)
    ensures Sum([x] + s, f) == f(x) + Sum(s, f)
  {
    SumAppend([x], s, f);
    assert [x][..0] == [];
  }

  /** What a `Map` filled by `map.set(key(x), (map.get(key(x)) || 0) + f(x))`
      holds for key `k`: the sum of `f` over the elements with that key. */
  function SumWhere<T, K(==)>(s: seq<T>, key: T -> K, k: K, f: T -> real): real {
    if s == [] then 0.0
    else SumWhere(s[..|s| - 1], key, k, f) + (if key(s[|s| - 1]) == k then f(s[|s| - 1]) else 0.0)
  }

  /** No element with the key: the sum for it is zero. */
  lemma {:induction false} SumWhereAbsent<T, K>(s: seq<T>, key: T -> K, k: K, f: T -> real)
    requires forall x :: x in s ==> key(x) != k
    ensures SumWhere(s, key, k, f) == 0.0
  {
    if s != [] {
      assert forall x :: x in s[..|s| - 1] ==> x in s;
      assert s[|s| - 1] in s;
      SumWhereAbsent(s[..|s| - 1], key, k, f);
    }
  }

  /** Every element has the key: the sum for it is the whole sum. */
  lemma {:induction false} SumWhereAll<T, K>(s: seq<T>, key: T -> K, k: K, f: T -> real)
    requires forall x :: x in s ==> key(x) == k
    ensures SumWhere(s, key, k, f) == Sum(s, f)
  {
    if s != [] {
      assert forall x :: x in s[..|s| - 1] ==> x in s;
      assert s[|s| - 1] in s;
      SumWhereAll(s[..|s| - 1], key, k, f);
    }
  }

  /** Nothing to add: the sum is zero. */
  lemma {:induction false} SumWhereZero<T, K>(s: seq<T>, key: T -> K, k: K, f: T -> real)
    requires forall x :: x in s ==> f(x) == 0.0
    ensures SumWhere(s, key, k, f) == 0.0
  {
    if s != [] {
      assert forall x :: x in s[..|s| - 1] ==> x in s;
      assert s[|s| - 1] in s;
      SumWhereZero(s[..|s| - 1], key, k, f);
    }
  }

  /** Putting an element in front adds its share to its key's sum. */
  lemma {:induction false} SumWhereCons<T, K>(x: T, s: seq<T>, key: T -> K, k: K, f: T -> real)
    ensures SumWhere([x] + s, key, k, f) == (if key(x) == k then f(x) else 0.0) + SumWhere(s, key, k, f)
  {
    if s != [] {
      assert ([x] + s)[..|[x] + s| - 1] == [x] + s[..|s| - 1];
      SumWhereCons(x, s[..|s| - 1], key, k, f);
    } else {
      assert ([x] + s)[..0] == [];
    }
  }

  /** The per-key sums over a list of keys. */
  function SumOverKeys<T, K(==)>(keys: seq<K>, s: seq<T>, key: T -> K, f: T -> real): real {
    if keys == [] then 0.0 else SumWhere(s, key, keys[0], f) + SumOverKeys(keys[1..], s, key, f)
  }

  /** One more key adds that key's sum. */
  lemma {:induction false} SumOverKeysAppendKey<T, K>(keys: seq<K>, k: K, s: seq<T>, key: T -> K, f: T -> real)
    ensures SumOverKeys(keys + [k], s, key, f) == SumOverKeys(keys, s, key, f) + SumWhere(s, key, k, f)
  {
    if keys == [] {
      assert keys + [k] == [k];
    } else {
      assert (keys + [k])[1..] == keys[1..] + [k];
      SumOverKeysAppendKey(keys[1..], k, s, key, f);
    }
  }

  /** The sum over all keys is the sum over all but the last plus the last. */
  lemma SumOverKeysLast<T, K>(keys: seq<K>, s: seq<T>, key: T -> K, f: T -> real)
    requires keys != []
    ensures SumOverKeys(keys, s, key, f)
         == SumOverKeys(keys[..|keys| - 1], s, key, f) + SumWhere(s, key, keys[|keys| - 1], f)
  {
    assert keys[..|keys| - 1] + [keys[|keys| - 1]] == keys;
    SumOverKeysAppendKey(keys[..|keys| - 1], keys[|keys| - 1], s, key, f);
  }

  /** The per-key sum as a function of the key. */
  function KeySum<T, K(==)>(s: seq<T>, key: T -> K, f: T -> real): K -> real {
    k => SumWhere(s, key, k, f)
  }

  lemma {:induction false} SumKeySum<T, K>(keys: seq<K>, s: seq<T>, key: T -> K, f: T -> real)
    ensures Sum(keys, KeySum(s, key, f)) == SumOverKeys(keys, s, key, f)
  {
    if keys != [] {
      SumKeySum(keys[..|keys| - 1], s, key, f);
      SumOverKeysLast(keys, s, key, f);
    }
  }

  /** A constant summed over a sequence. */
  lemma {:induction false} SumConst<T>(s: seq<T>, f: T -> real, c: real)
    requires forall x :: x in s ==> f(x) == c
    ensures Sum(s, f) == c * |s| as real
  {
    if s != [] {
      var init := s[..|s| - 1];
      assert forall x :: x in init ==> x in s;
      SumConst(init, f, c);
      assert s[|s| - 1] in s;
      assert c * |init| as real + c == c * |s| as real;
    }
  }

  /** Sums of differences. */
  lemma {:induction false} SumDifference<K>(keys: seq<K>, g: K -> real, h: K -> real, d: K -> real)
    requires forall k :: k in keys ==> d(k) == g(k) - h(k)
    ensures Sum(keys, d) == Sum(keys, g) - Sum(keys, h)
  {
    if keys != [] {
      var init := keys[..|keys| - 1];
      assert forall k :: k in init ==> k in keys;
      SumDifference(init, g, h, d);
    }
  }

  lemma {:induction false} SumOverKeysSnoc<T, K>(keys: seq<K>, s: seq<T>, x: T, key: T -> K, f: T -> real)
    requires NoDup(keys)
    ensures SumOverKeys(keys, s + [x], key, f)
         == SumOverKeys(keys, s, key, f) + (if key(x) in keys then f(x) else 0.0)
  {
    if keys != [] {
      assert (s + [x])[..|s + [x]| - 1] == s;
      assert NoDup(keys[1..]) by {
        forall i, j | 0 <= i < j < |keys[1..]| ensures keys[1..][i] != keys[1..][j] {
          assert keys[1..][i] == keys[i + 1] && keys[1..][j] == keys[j + 1];
        }
      }
      SumOverKeysSnoc(keys[1..], s, x, key, f);
      if key(x) == keys[0] {
        assert key(x) !in keys[1..] by {
          forall i | 0 <= i < |keys[1..]| ensures keys[1..][i] != keys[0] {
            assert keys[1..][i] == keys[i + 1];
          }
        }
      }
      assert key(x) in keys <==> key(x) == keys[0] || key(x) in keys[1..];
    }
  }

  /** Grouping by key loses nothing: when every element's key is among the
      distinct `keys`, the per-key sums add up to the grand total. */
  lemma {:induction false} SumOverKeysTotal<T, K>(keys: seq<K>, s: seq<T>, key: T -> K, f: T -> real)
    requires NoDup(keys)
    requires forall x :: x in s ==> key(x) in keys
    ensures SumOverKeys(keys, s, key, f) == Sum(s, f)
  {
    if s == [] {
      SumOverKeysEmpty(keys, key, f);
    } else {
      var init := s[..|s| - 1];
      assert forall x :: x in init ==> x in s;
      SumOverKeysTotal(keys, init, key, f);
      assert init + [s[|s| - 1]] == s;
      SumOverKeysSnoc(keys, init, s[|s| - 1], key, f);
    }
  }

  lemma {:induction false} SumOverKeysEmpty<T, K>(keys: seq<K>, key: T -> K, f: T -> real)
    ensures SumOverKeys(keys, [], key, f) == 0.0
  {
    if keys != [] {
      SumOverKeysEmpty(keys[1..], key, f);
    }
  }

  /** The keys of `s` in order of first occurrence, as a `Map` or a plain object
      enumerates the keys inserted into it. */
  function Distinct<T(==,!new)>(s: seq<T>): (r: seq<T>)
    ensures NoDup(r)
    ensures forall x :: x in r <==> x in s
    ensures |r| <= |s|
  {
    if s == [] then []
    else
      var d := Distinct(s[..|s| - 1]);
      assert forall x :: x in s <==> x in s[..|s| - 1] || x == s[|s| - 1];
      if s[|s| - 1] in d then d else d + [s[|s| - 1]]
  }

  /** Inserting one more key appends it unless it is already present. */
  lemma DistinctSnoc<T(!new)>(s: seq<T>, x: T)
    ensures Distinct(s + [x]) == if x in Distinct(s) then Distinct(s) else Distinct(s) + [x]
  {
    assert (s + [x])[..|s + [x]| - 1] == s;
  }

  /** Appending keys that are already present does not change the key order. */
  lemma {:induction false} DistinctAppendKnown<T(!new)>(a: seq<T>, b: seq<T>)
    requires forall x :: x in b ==> x in a
    ensures Distinct(a + b) == Distinct(a)
  {
    if b == [] {
      assert a + b == a;
    } else {
      var init := b[..|b| - 1];
      assert (a + b)[..|a + b| - 1] == a + init;
      assert forall x :: x in init ==> x in b;
      DistinctAppendKnown(a, init);
    }
  }

  /** A non-empty sequence has a first element. */
  lemma HeadIsMember<T>(s: seq<T>)
    ensures s == [] || s[0] in s
  {
  }

  /** Growing a prefix by one element. */
  lemma TakeSnoc<T>(s: seq<T>, t: int)
    requires 0 <= t < |s|
    ensures s[..t + 1] == s[..t] + [s[t]]
  {
  }

  /** `s.slice(0, n)`: the first `n` elements, or all of them when there are
      fewer. */
  function Take<T>(s: seq<T>, n: nat): (r: seq<T>)
    ensures |r| == if |s| < n then |s| else n
    ensures r == s[..|r|]
  {
    if |s| < n then s else s[..n]
  }

  /** `Array.prototype.map`. */
  function Map<A, B>(s: seq<A>, f: A -> B): (r: seq<B>)
    ensures |r| == |s|
    ensures forall k :: 0 <= k < |s| ==> r[k] == f(s[k])
  {
    if s == [] then [] else [f(s[0])] + Map(s[1..], f)
  }

  /** Mapping a prefix one element longer. */
  lemma MapSnoc<A, B>(s: seq<A>, t: int, f: A -> B)
    requires 0 <= t < |s|
    ensures Map(s[..t + 1], f) == Map(s[..t], f) + [f(s[t])]
  {
    assert Map(s[..t + 1], f) == Map(s[..t], f) + [f(s[t])] by {
      var a, b := Map(s[..t + 1], f), Map(s[..t], f) + [f(s[t])];
      assert |a| == |b|;
      forall k | 0 <= k < |a| ensures a[k] == b[k] {
        assert s[..t + 1][k] == s[k];
        if k < t {
          assert s[..t][k] == s[k];
        }
      }
    }
  }

  /** A key that no element carries has sum zero. */
  lemma SumWhereUnseen<T, K>(s: seq<T>, key: T -> K, k: K, f: T -> real)
    requires k !in Map(s, key)
    ensures SumWhere(s, key, k, f) == 0.0
  {
    forall x | x in s ensures key(x) != k {
      var i :| 0 <= i < |s| && s[i] == x;
      assert Map(s, key)[i] == key(x);
    }
    SumWhereAbsent(s, key, k, f);
  }

  /** Summing over a mapped sequence sums the composed function. */
  lemma {:induction false} SumMap<A, B>(s: seq<A>, g: A -> B, f: B -> real, h: A -> real)
    requires forall x :: x in s ==> h(x) == f(g(x))
    ensures Sum(Map(s, g), f) == Sum(s, h)
  {
    if s != [] {
      var n := |s| - 1;
      assert s[..n + 1] == s;
      MapSnoc(s, n, g);
      assert Map(s, g)[..n] == Map(s[..n], g);
      assert forall x :: x in s[..n] ==> x in s;
      SumMap(s[..n], g, f, h);
      assert s[n] in s;
    }
  }

  /** Sorting does not change a sum. */
  lemma {:induction false} SumInsertDesc<T>(x: T, s: seq<T>, key: T -> real, f: T -> real)
    ensures Sum(InsertDesc(x, s, key), f) == f(x) + Sum(s, f)
  {
    if s == [] {
      SumCons(x, s, f);
    } else if key(s[0]) <= key(x) {
      SumCons(x, s, f);
    } else {
      assert s == [s[0]] + s[1..];
      SumInsertDesc(x, s[1..], key, f);
      SumCons(s[0], InsertDesc(x, s[1..], key), f);
      SumCons(s[0], s[1..], f);
    }
  }

  lemma {:induction false} SumSortDesc<T>(s: seq<T>, key: T -> real, f: T -> real)
    ensures Sum(SortDesc(s, key), f) == Sum(s, f)
  {
    if s != [] {
      assert s == [s[0]] + s[1..];
      SumSortDesc(s[1..], key, f);
      SumInsertDesc(s[0], SortDesc(s[1..], key), key, f);
      SumCons(s[0], s[1..], f);
    }
  }

  /** An element of a duplicate-free sequence occurs at most once. */
  lemma {:induction false} NoDupCount<T>(s: seq<T>, x: T)
    requires NoDup(s)
    ensures multiset(s)[x] <= 1
  {
    if s != [] {
      assert s == [s[0]] + s[1..];
      assert NoDup(s[1..]) by {
        forall i, j | 0 <= i < j < |s[1..]| ensures s[1..][i] != s[1..][j] {
          assert s[1..][i] == s[i + 1] && s[1..][j] == s[j + 1];
        }
      }
      NoDupCount(s[1..], x);
      if s[0] == x {
        assert x !in s[1..] by {
          forall i | 0 <= i < |s[1..]| ensures s[1..][i] != s[0] {
            assert s[1..][i] == s[i + 1];
          }
        }
      }
    }
  }

  /** Two equal elements at different places occur at least twice. */
  lemma DupCount<T>(s: seq<T>, i: int, j: int)
    requires 0 <= i < j < |s| && s[i] == s[j]
    ensures multiset(s)[s[i]] >= 2
  {
    assert s == s[..j] + s[j..];
    assert s[i] == s[..j][i];
    assert s[j] == s[j..][0];
    assert multiset(s) == multiset(s[..j]) + multiset(s[j..]);
  }

  /** A rearrangement of a duplicate-free sequence is duplicate-free. */
  lemma NoDupPermutation<T>(s: seq<T>, t: seq<T>)
    requires NoDup(s) && multiset(s) == multiset(t)
    ensures NoDup(t)
  {
    forall i, j | 0 <= i < j < |t| ensures t[i] != t[j] {
      if t[i] == t[j] {
        DupCount(t, i, j);
        NoDupCount(s, t[i]);
      }
    }
  }

  /** Mapping a function that fixes every element changes nothing. */
  lemma MapFixed<A>(s: seq<A>, f: A -> A)
    requires forall k :: 0 <= k < |s| ==> f(s[k]) == s[k]
    ensures Map(s, f) == s
  {
  }

  /** Non-increasing by `key`. */
  ghost predicate SortedDesc<T>(s: seq<T>, key: T -> real) {
    forall i, j :: 0 <= i < j < |s| ==> key(s[i]) >= key(s[j])
  }

  /** Puts `x` before the first element whose key is not larger: `x` goes
      ahead of the elements of `s` with an equal key. */
  function InsertDesc<T>(x: T, s: seq<T>, key: T -> real): (r: seq<T>)
    ensures multiset(r) == multiset(s) + multiset{x}
  {
    if s == [] then [x]
    else if key(s[0]) <= key(x) then [x] + s
    else
      assert s == [s[0]] + s[1..];
      [s[0]] + InsertDesc(x, s[1..], key)
  }

  lemma {:induction false} InsertDescSorted<T>(x: T, s: seq<T>, key: T -> real)
    requires SortedDesc(s, key)
    ensures SortedDesc(InsertDesc(x, s, key), key)
  {
    if s != [] && key(s[0]) > key(x) {
      var rest := InsertDesc(x, s[1..], key);
      InsertDescSorted(x, s[1..], key);
      // The head of `rest` is `x` or `s[1]`, and neither has a larger key than `s[0]`.
      assert key(s[0]) >= key(rest[0]) by {
        if |s| > 1 && key(s[1]) > key(x) {
          assert rest[0] == s[1];
        }
      }
      var r := [s[0]] + rest;
      forall i, j | 0 <= i < j < |r| ensures key(r[i]) >= key(r[j]) {
        if i == 0 {
          assert r[j] == rest[j - 1];
          if j > 1 {
            assert key(rest[0]) >= key(rest[j - 1]);
          }
        } else {
          assert r[i] == rest[i - 1] && r[j] == rest[j - 1];
        }
      }
    }
  }

  /** Sorting commutes with a map that carries the sort key over. */
  lemma {:induction false} InsertDescMap<A, B>(x: A, s: seq<A>, f: A -> B, k1: A -> real, k2: B -> real)
    requires forall y :: k2(f(y)) == k1(y)
    ensures InsertDesc(f(x), Map(s, f), k2) == Map(InsertDesc(x, s, k1), f)
  {
    if s == [] {
      assert Map([x], f) == [f(x)];
    } else if k1(s[0]) <= k1(x) {
      assert Map([x] + s, f) == [f(x)] + Map(s, f);
    } else {
      assert s == [s[0]] + s[1..];
      assert Map(s, f)[1..] == Map(s[1..], f);
      InsertDescMap(x, s[1..], f, k1, k2);
      assert Map([s[0]] + InsertDesc(x, s[1..], k1), f) == [f(s[0])] + Map(InsertDesc(x, s[1..], k1), f);
    }
  }

  lemma {:induction false} SortDescMap<A, B>(s: seq<A>, f: A -> B, k1: A -> real, k2: B -> real)
    requires forall y :: k2(f(y)) == k1(y)
    ensures SortDesc(Map(s, f), k2) == Map(SortDesc(s, k1), f)
  {
    if s != [] {
      assert s == [s[0]] + s[1..];
      assert Map(s, f)[1..] == Map(s[1..], f);
      SortDescMap(s[1..], f, k1, k2);
      InsertDescMap(s[0], SortDesc(s[1..], k1), f, k1, k2);
    }
  }

  /** `[...s].sort((a, b) => key(b) - key(a))` as a stable sort: `s[0]` is
      inserted last, ahead of the equal keys from `s[1..]`, so equal keys keep
      their input order (`SortDescStable`). */
  function SortDesc<T>(s: seq<T>, key: T -> real): (r: seq<T>)
    ensures multiset(r) == multiset(s)
    ensures |r| == |s|
    ensures SortedDesc(r, key)
  {
    if s == [] then []
    else
      assert s == [s[0]] + s[1..];
      var rest := SortDesc(s[1..], key);
      InsertDescSorted(s[0], rest, key);
      InsertDesc(s[0], rest, key)
  }

  /** The elements whose key is `v`. */
  function KeyIs<T>(key: T -> real, v: real): T -> bool {
    (y: T) => key(y) == v
  }

  /** Inserting `x` puts it ahead of every element with its key and leaves
      the others with that key in order. */
  lemma {:induction false} InsertDescKeepsTies<T(!new)>(x: T, s: seq<T>, key: T -> real, v: real)
    ensures Filter(InsertDesc(x, s, key), KeyIs(key, v)) == Filter([x], KeyIs(key, v)) + Filter(s, KeyIs(key, v))
  {
    var p := KeyIs(key, v);
    if s == [] {
      assert InsertDesc(x, s, key) == [x];
    } else if key(s[0]) <= key(x) {
      assert InsertDesc(x, s, key) == [x] + s;
      FilterAppend([x], s, p);
    } else {
      var tail := InsertDesc(x, s[1..], key);
      assert InsertDesc(x, s, key) == [s[0]] + tail;
      InsertDescKeepsTies(x, s[1..], key, v);
      assert !(p(s[0]) && p(x));
      TieSwap(x, s[0], s[1..], tail, p);
      assert [s[0]] + s[1..] == s;
    }
  }

  /** The step of `InsertDescKeepsTies` where `x` goes past the head `h`:
      at most one of the two is kept, so their order does not matter. */
  lemma TieSwap<T(!new)>(x: T, h: T, rest: seq<T>, tail: seq<T>, p: T -> bool)
    requires !(p(h) && p(x))
    requires Filter(tail, p) == Filter([x], p) + Filter(rest, p)
    ensures Filter([h] + tail, p) == Filter([x], p) + Filter([h] + rest, p)
  {
    FilterCons(h, tail, p);
    FilterCons(h, rest, p);
    FilterOne(x, p);
    if p(h) {
      assert Filter([x], p) == [];
      assert Filter([h] + tail, p) == [h] + Filter(rest, p);
    } else {
      assert Filter([h] + rest, p) == Filter(rest, p);
    }
  }

  /** Filtering a sequence with head `h` decides `h` and filters the rest. */
  lemma FilterCons<T(!new)>(h: T, t: seq<T>, p: T -> bool)
    ensures Filter([h] + t, p) == (if p(h) then [h] else []) + Filter(t, p)
  {
    assert ([h] + t)[0] == h;
    assert ([h] + t)[1..] == t;
  }

  /** The sort is stable: the elements with any one key come out in the
      order they went in. */
  lemma {:induction false} SortDescStable<T(!new)>(s: seq<T>, key: T -> real, v: real)
    ensures Filter(SortDesc(s, key), KeyIs(key, v)) == Filter(s, KeyIs(key, v))
  {
    if s != [] {
      assert s == [s[0]] + s[1..];
      SortDescStable(s[1..], key, v);
      InsertDescKeepsTies(s[0], SortDesc(s[1..], key), key, v);
      FilterAppend([s[0]], s[1..], KeyIs(key, v));
    }
  }
}
