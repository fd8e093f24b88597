/**
 The bounded selection of `src/selection.rs`, over any totally ordered keys. A ghost map
 remembers the first value inserted under every key; the entries are its `limit` smallest.
 */
module Selections {
  import opened Common

  ghost predicate StrictTotalOrder<K(!new)>(lt: (K, K) -> bool) {
    && (forall a :: !lt(a, a))
    && (forall a, b, c :: lt(a, b) && lt(b, c) ==> lt(a, c))
    && (forall a, b :: a == b || lt(a, b) || lt(b, a))
  }

  /** `best` is `all` restricted to its `limit` smallest keys, or all of it when there are fewer. */
  ghost predicate IsBest<K(!new), V>(lt: (K, K) -> bool, limit: nat, all: map<K, V>, best: map<K, V>) {
    && |best| == (if |all| < limit then |all| else limit)
    && (forall k :: k in best ==> k in all && best[k] == all[k])
    && (forall k, l :: k in best && l in all && l !in best ==> lt(k, l))
  }

  lemma Asymmetric<K(!new)>(lt: (K, K) -> bool, a: K, b: K)
    requires StrictTotalOrder(lt)
    ensures !(lt(a, b) && lt(b, a))
  {
  }

  /** A set that is no larger than another and has an element of its own lacks one of the other's. */
  lemma Missing<K>(a: set<K>, b: set<K>, x: K) returns (y: K)
    requires |a| <= |b| && x in a && x !in b
    ensures y in b && y !in a
  {
    if b <= a { SubsetSize(b + {x}, a); }
    y :| y in b && y !in a;
  }

  /** Only the keys and their first values matter, not the order in which they came. */
  lemma BestIsUnique<K(!new), V>(lt: (K, K) -> bool, limit: nat, all: map<K, V>, a: map<K, V>, b: map<K, V>)
    requires StrictTotalOrder(lt) && IsBest(lt, limit, all, a) && IsBest(lt, limit, all, b)
    ensures a == b
  {
    hide StrictTotalOrder;
    forall k ensures k in a <==> k in b {
      if k in a && k !in b {
        var l := Missing(a.Keys, b.Keys, k);
        Asymmetric(lt, k, l);
      }
      if k in b && k !in a {
        var l := Missing(b.Keys, a.Keys, k);
        Asymmetric(lt, k, l);
      }
    }
  }

  /** A key that is out of the selection stays out, whatever is inserted later. */
  lemma EvictedNeverReturns<K(!new), V>(lt: (K, K) -> bool, limit: nat, all: map<K, V>, best: map<K, V>,
                                        later: map<K, V>, laterBest: map<K, V>, k: K)
    requires StrictTotalOrder(lt) && IsBest(lt, limit, all, best) && IsBest(lt, limit, later, laterBest)
    requires all.Keys <= later.Keys && k in all && k !in best
    ensures k !in laterBest
  {
    hide StrictTotalOrder;
    if k in laterBest {
      OutIsLarger(lt, limit, all, best, k);
      var l := Missing(laterBest.Keys, best.Keys, k);
      Asymmetric(lt, k, l);
    }
  }

  lemma BestFacts<K(!new), V>(lt: (K, K) -> bool, limit: nat, all: map<K, V>, best: map<K, V>)
    requires IsBest(lt, limit, all, best)
    ensures |best| <= limit && forall k :: k in best ==> k in all
  {
  }

  /** A key that was inserted but is out of the selection is larger than all `limit` entries. */
  lemma OutIsLarger<K(!new), V>(lt: (K, K) -> bool, limit: nat, all: map<K, V>, best: map<K, V>, key: K)
    requires IsBest(lt, limit, all, best) && key in all && key !in best
    ensures |best| == limit && forall k :: k in best ==> lt(k, key)
  {
    assert |best.Keys| == |best| && |all.Keys| == |all|;
    SubsetSize(best.Keys + {key}, all.Keys);
  }

  /** Rejecting a new key larger than all `limit` entries is right. */
  lemma RejectKeepsBest<K(!new), V>(lt: (K, K) -> bool, limit: nat, all: map<K, V>, best: map<K, V>, key: K, value: V)
    requires StrictTotalOrder(lt) && IsBest(lt, limit, all, best)
    requires key !in all && |best| == limit && forall k :: k in best ==> lt(k, key)
    ensures IsBest(lt, limit, all[key := value], best)
  {
    assert |all[key := value].Keys| == |all.Keys + {key}|;
    assert |all.Keys| == |all|;
  }

  /** Inserting a new key while there is room is right. */
  lemma GrowKeepsBest<K(!new), V>(lt: (K, K) -> bool, limit: nat, all: map<K, V>, best: map<K, V>, key: K, value: V)
    requires IsBest(lt, limit, all, best) && key !in all && |best| < limit
    ensures IsBest(lt, limit, all[key := value], best[key := value])
  {
    assert all[key := value].Keys == all.Keys + {key} && best[key := value].Keys == best.Keys + {key};
    assert |all.Keys| == |all| && |best.Keys| == |best|;
    SubsetSize(best.Keys, all.Keys);
  }

  /** Inserting a new key in place of the largest entry is right, even if it is that largest. */
  lemma ReplaceKeepsBest<K(!new), V>(lt: (K, K) -> bool, limit: nat, all: map<K, V>, best: map<K, V>, key: K, value: V, last: K)
    requires StrictTotalOrder(lt) && IsBest(lt, limit, all, best) && key !in all && |best| == limit
    requires last in best[key := value] && forall k :: k in best[key := value] && k != last ==> lt(k, last)
    ensures IsBest(lt, limit, all[key := value], best[key := value] - {last})
  {
    ReplaceSizes(limit, all, best, key, value, last);
    forall k, l | k in best[key := value] && k != last && l in all[key := value] && (l !in best[key := value] || l == last)
      ensures lt(k, l)
    {
      if l != last && k == key { assert lt(k, last) && last in best && lt(last, l); }
    }
  }

  lemma ReplaceSizes<K, V>(limit: nat, all: map<K, V>, best: map<K, V>, key: K, value: V, last: K)
    requires key !in all && key !in best && |best| == limit <= |all| && last in best[key := value]
    ensures |all[key := value]| == |all| + 1 && |best[key := value] - {last}| == limit
  {
    var grown := best[key := value];
    assert all[key := value].Keys == all.Keys + {key} && grown.Keys == best.Keys + {key};
    assert (grown - {last}).Keys == grown.Keys - {last};
    assert |all.Keys| == |all| && |best.Keys| == |best| && |all[key := value].Keys| == |all[key := value]|;
    assert |(grown - {last}).Keys| == |grown - {last}|;
  }

  class Selection<K(!new, ==), V> {
    const lt: (K, K) -> bool
    const limit: nat
    var entries: map<K, V>
    var seen: set<K>
    /** The first value inserted under each key. */
    ghost var firsts: map<K, V>

    ghost predicate Valid()
      reads this
    {
      StrictTotalOrder(lt) && IsBest(lt, limit, firsts, entries) && firsts.Keys <= seen
    }

    constructor (lt: (K, K) -> bool, limit: nat)
      requires StrictTotalOrder(lt)
      ensures Valid() && this.lt == lt && this.limit == limit && firsts == map[] && seen == {}
    {
      this.lt, this.limit, entries, seen, firsts := lt, limit, map[], {}, map[];
    }

    /** The largest key of a map. */
    method Last(m: map<K, V>) returns (last: K)
      requires StrictTotalOrder(lt) && |m| > 0
      ensures last in m && forall k :: k in m && k != last ==> lt(k, last)
    {
      var rest := m.Keys;
      assert |rest| > 0;
      last :| last in rest;
      rest := rest - {last};
      while rest != {}
        invariant last in m && rest <= m.Keys
        invariant forall k :: k in m && k !in rest && k != last ==> lt(k, last)
        decreases rest
      {
        var k :| k in rest;
        rest := rest - {k};
        if lt(last, k) { last := k; }
      }
    }

    /** Whether an insertion would now change the entries; the key counts as seen either way. */
    method Accepts(key: K) returns (accepted: bool)
      requires Valid()
      modifies `seen
      ensures Valid() && seen == old(seen) + {key}
      ensures accepted <==> key !in entries && (|entries| < limit || entries == map[] || exists k :: k in entries && !lt(k, key))
    {
      seen := seen + {key};
      if key in entries { return false; }
      if |entries| >= limit && |entries| > 0 {
        var last := Last(entries);
        if lt(last, key) { return false; }
      }
      return true;
    }

    method Insert(key: K, unit: V)
      requires Valid()
      modifies this
      ensures Valid() && seen == old(seen) + {key}
      ensures firsts == if key in old(firsts) then old(firsts) else old(firsts)[key := unit]
    {
      hide IsBest;
      ghost var all, best := firsts, entries;
      BestFacts(lt, limit, all, best);
      if key in all && key !in best { OutIsLarger(lt, limit, all, best, key); }
      var accepted := Accepts(key);
      if !accepted {
        if key !in all {
          RejectKeepsBest(lt, limit, all, best, key, unit);
          firsts := all[key := unit];
        }
        return;
      }
      entries := entries[key := unit];
      assert |entries.Keys| == |best.Keys + {key}| && |best.Keys| == |best| && |entries.Keys| == |entries|;
      if |entries| > limit {
        var last := Last(entries);
        entries := entries - {last};
        if key !in all {
          ReplaceKeepsBest(lt, limit, all, best, key, unit, last);
        } else {
          assert entries == best;
        }
      } else {
        GrowKeepsBest(lt, limit, all, best, key, unit);
      }
      if key !in all { firsts := all[key := unit]; }
    }

    /** The best entries, and how many different keys were offered for the omission message. */
    method IntoParts() returns (best: map<K, V>, total: nat)
      requires Valid()
      ensures IsBest(lt, limit, firsts, best) && best == entries
      ensures total == |seen| && |best| <= total
    {
      SubsetSize(entries.Keys, seen);
      assert |entries.Keys| == |entries|;
      return entries, |seen|;
    }
  }
}
