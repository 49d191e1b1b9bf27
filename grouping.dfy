/** Totals per key of a list of transactions, the way the charts build them:
    a `Map` filled by `forEach(t => map.set(key(t), (map.get(key(t)) || 0) + t.amount))`
    and read back with `Array.from(map.entries())`, whose order is the order
    in which keys were first inserted. */
module Grouping {
  import opened Types
  import opened Seqs

  function Amount(t: Transaction): real { t.amount }

  function IsExpense(t: Transaction): bool { t.kind == Expense }

  /** The second component of a `[key, total]` entry. */
  function Total<K>(e: (K, real)): real { e.1 }

  /** The keys of the filled `Map`, in insertion order. */
  function GroupKeys<K(==,!new)>(s: seq<Transaction>, key: Transaction -> K): (r: seq<K>)
    ensures NoDup(r)
    ensures forall k :: k in r <==> k in Map(s, key)
  {
    Distinct(Map(s, key))
  }

  /** The entry the filled `Map` holds for key `k`. */
  function EntryFor<K(==)>(s: seq<Transaction>, key: Transaction -> K): K -> (K, real) {
    k => (k, SumWhere(s, key, k, Amount))
  }

  /** `Array.from(map.entries())`. */
  function Entries<K(==,!new)>(s: seq<Transaction>, key: Transaction -> K): (r: seq<(K, real)>)
    ensures |r| == |GroupKeys(s, key)|
  {
    Map(GroupKeys(s, key), EntryFor(s, key))
  }

  /** `map.set(k, (map.get(k) || 0) + x)`: a missing key reads as 0. */
  function Bump<K(!new)>(totals: map<K, real>, k: K, x: real): (r: map<K, real>)
    ensures k in r && forall j :: j in r <==> j in totals || j == k
  {
    totals[k := (if k in totals then totals[k] else 0.0) + x]
  }

  /** `Array.from(map.entries())` for the keys in insertion order. */
  function Lookup<K>(totals: map<K, real>): K -> (K, real) {
    k => (k, if k in totals then totals[k] else 0.0)
  }

  /** The state of the fill after the first `t` transactions. */
  ghost predicate Filled<K(!new)>(s: seq<Transaction>, t: int, key: Transaction -> K,
                                  keys: seq<K>, totals: map<K, real>)
    requires 0 <= t <= |s|
  {
    && keys == Distinct(Map(s[..t], key))
    && (forall k :: k in totals <==> k in keys)
    && (forall k :: k in totals ==> totals[k] == SumWhere(s[..t], key, k, Amount))
  }

  /** Fills the `Map` one transaction at a time and reads its entries back. */
  method GroupTotals<K(==,!new)>(s: seq<Transaction>, key: Transaction -> K) returns (entries: seq<(K, real)>)
    ensures entries == Entries(s, key)
  {
    var keys: seq<K> := [];
    var totals: map<K, real> := map[];
    for t := 0 to |s|
      invariant Filled(s, t, key, keys, totals)
    {
      var k := key(s[t]);
      var keys' := if k in totals then keys else keys + [k];
      var totals' := Bump(totals, k, s[t].amount);
      GroupStep(s, t, key, keys, totals, keys', totals');
      keys, totals := keys', totals';
    }
    entries := Map(keys, Lookup(totals));
    FilledEntries(s, key, keys, totals);
  }

  /** One `map.set` of the fill keeps `Filled`: `keys'` and `totals'` are
      the insertion order and the `Map` after it. */
  lemma GroupStep<K(!new)>(s: seq<Transaction>, t: int, key: Transaction -> K,
                           keys: seq<K>, totals: map<K, real>, keys': seq<K>, totals': map<K, real>)
    requires 0 <= t < |s|
    requires Filled(s, t, key, keys, totals)
    requires keys' == if key(s[t]) in totals then keys else keys + [key(s[t])]
    requires totals' == Bump(totals, key(s[t]), s[t].amount)
    ensures Filled(s, t + 1, key, keys', totals')
  {
    MapSnoc(s, t, key);
    DistinctSnoc(Map(s[..t], key), key(s[t]));
    GroupTotalsStep(s, t, key, totals, totals');
  }

  /** The totals after one `map.set`, key by key. */
  lemma GroupTotalsStep<K(!new)>(s: seq<Transaction>, t: int, key: Transaction -> K,
                                 totals: map<K, real>, totals': map<K, real>)
    requires 0 <= t < |s|
    requires forall k :: k in totals <==> k in Map(s[..t], key)
    requires forall k :: k in totals ==> totals[k] == SumWhere(s[..t], key, k, Amount)
    requires totals' == Bump(totals, key(s[t]), s[t].amount)
    ensures forall k :: k in totals' ==> totals'[k] == SumWhere(s[..t + 1], key, k, Amount)
  {
    TakeSnoc(s, t);
    assert s[..t + 1][..t] == s[..t];
    forall k | k in totals' ensures totals'[k] == SumWhere(s[..t + 1], key, k, Amount) {
      if k !in totals {
        SumWhereUnseen(s[..t], key, k, Amount);
      }
    }
  }

  /** One more amount for the running total. */
  lemma SumStep(s: seq<Transaction>, t: int)
    requires 0 <= t < |s|
    ensures Sum(s[..t + 1], Amount) == Sum(s[..t], Amount) + s[t].amount
  {
    assert s[..t + 1][..t] == s[..t];
  }

  /** The running total once every transaction is in. */
  lemma SumDone(s: seq<Transaction>, total: real)
    requires total == Sum(s[..|s|], Amount)
    ensures total == Sum(s, Amount)
  {
    assert s[..|s|] == s;
  }

  /** Once every transaction is in, the entries read back are `Entries`. */
  lemma FilledEntries<K(!new)>(s: seq<Transaction>, key: Transaction -> K, keys: seq<K>, totals: map<K, real>)
    requires Filled(s, |s|, key, keys, totals)
    ensures Map(keys, Lookup(totals)) == Entries(s, key)
  {
    assert s[..|s|] == s;
  }

  /** The key of a transaction is among the keys. */
  lemma KeyOfMember<K>(s: seq<Transaction>, key: Transaction -> K, x: Transaction)
    requires x in s
    ensures key(x) in Map(s, key)
  {
    var i :| 0 <= i < |s| && s[i] == x;
    assert Map(s, key)[i] == key(x);
  }

  /** Each entry is a key of the `Map` with that key's total. */
  lemma EntriesAt<K(!new)>(s: seq<Transaction>, key: Transaction -> K, i: int)
    requires 0 <= i < |Entries(s, key)|
    ensures Entries(s, key)[i].0 == GroupKeys(s, key)[i]
    ensures Entries(s, key)[i].1 == SumWhere(s, key, Entries(s, key)[i].0, Amount)
  {
  }

  /** The entries are exactly the pairs of a key that occurs and its total. */
  lemma EntriesExactly<K(!new)>(s: seq<Transaction>, key: Transaction -> K, e: (K, real))
    ensures e in Entries(s, key) <==> e.0 in Map(s, key) && e.1 == SumWhere(s, key, e.0, Amount)
  {
    var es, ks := Entries(s, key), GroupKeys(s, key);
    if e.0 in Map(s, key) && e.1 == SumWhere(s, key, e.0, Amount) {
      var i :| 0 <= i < |ks| && ks[i] == e.0;
      assert es[i] == e;
    }
    if e in es {
      var i :| 0 <= i < |es| && es[i] == e;
      assert ks[i] == e.0;
    }
  }

  /** No key has two entries, in any rearrangement of the entries. */
  lemma EntriesDistinct<K(!new)>(s: seq<Transaction>, key: Transaction -> K, p: seq<(K, real)>)
    requires multiset(p) == multiset(Entries(s, key))
    ensures forall i, j :: 0 <= i < j < |p| ==> p[i].0 != p[j].0
  {
    var es, ks := Entries(s, key), GroupKeys(s, key);
    assert NoDup(es) by {
      forall i, j | 0 <= i < j < |es| ensures es[i] != es[j] {
        assert es[i].0 == ks[i] && es[j].0 == ks[j];
      }
    }
    NoDupPermutation(es, p);
    forall i, j | 0 <= i < j < |p| ensures p[i].0 != p[j].0 {
      assert p[i] in multiset(es) && p[j] in multiset(es);
      EntriesExactly(s, key, p[i]);
      EntriesExactly(s, key, p[j]);
    }
  }

  /** Grouping loses nothing: the totals add up to the sum of all amounts. */
  lemma EntriesSum<K(!new)>(s: seq<Transaction>, key: Transaction -> K)
    ensures Sum(Entries(s, key), Total) == Sum(s, Amount)
  {
    var ks := GroupKeys(s, key);
    SumMap(ks, EntryFor(s, key), Total, KeySum(s, key, Amount));
    SumKeySum(ks, s, key, Amount);
    forall x | x in s ensures key(x) in ks {
      var i :| 0 <= i < |s| && s[i] == x;
      assert Map(s, key)[i] == key(x);
    }
    SumOverKeysTotal(ks, s, key, Amount);
  }

  /** There are entries exactly when there are transactions. */
  lemma EntriesEmpty<K(!new)>(s: seq<Transaction>, key: Transaction -> K)
    ensures Entries(s, key) == [] <==> s == []
  {
    if s != [] {
      assert key(s[0]) in Map(s, key);
    }
  }
}
