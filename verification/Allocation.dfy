/**
 The budget that `Directory::write` in `src/navigation.rs` shares among subdirectories:
 integer water-filling over the costs in increasing order. Subdirectories are numbered in
 the order of their names.
 */
module Allocation {
  import opened Common

  /** The sum of a figure over the first `n` subdirectories that have one. */
  function Sum(f: map<nat, nat>, n: nat): nat {
    if n == 0 then 0 else Sum(f, n - 1) + (if n - 1 in f then f[n - 1] else 0)
  }

  function AsMap(costs: seq<nat>): map<nat, nat> {
    map k: nat | k < |costs| :: costs[k]
  }

  lemma {:induction false} SumUpdate(f: map<nat, nat>, t: nat, x: nat, n: nat)
    requires t !in f
    ensures Sum(f[t := x], n) == Sum(f, n) + (if t < n then x else 0)
  {
    if n > 0 { SumUpdate(f, t, x, n - 1); }
  }

  lemma {:induction false} SumCompare(f: map<nat, nat>, g: map<nat, nat>, n: nat)
    requires forall k :: 0 <= k < n ==> k in f && k in g && f[k] <= g[k]
    ensures Sum(f, n) <= Sum(g, n)
    ensures Sum(f, n) == Sum(g, n) ==> forall k :: 0 <= k < n ==> f[k] == g[k]
  {
    if n > 0 { SumCompare(f, g, n - 1); }
  }

  lemma {:induction false} SumEmpty(n: nat)
    ensures Sum(map[], n) == 0
  {
    if n > 0 { SumEmpty(n - 1); }
  }

  // ----- Sorting by cost, then by name -----

  predicate Cheaper(costs: seq<nat>, i: nat, j: nat)
    requires i < |costs| && j < |costs|
  {
    costs[i] < costs[j] || (costs[i] == costs[j] && i < j)
  }

  ghost predicate Sorted(costs: seq<nat>, order: seq<nat>) {
    && (forall k :: 0 <= k < |order| ==> order[k] < |costs|)
    && (forall k, l :: 0 <= k < l < |order| ==> Cheaper(costs, order[k], order[l]))
  }

  function Insert(costs: seq<nat>, order: seq<nat>, i: nat): (r: seq<nat>)
    requires i < |costs| && Sorted(costs, order) && i !in order
    ensures Sorted(costs, r) && |r| == |order| + 1
    ensures forall j :: j in r <==> j == i || j in order
  {
    if order == [] then [i]
    else if Cheaper(costs, i, order[0]) then [i] + order
    else
      assert forall k :: 1 <= k < |order| ==> order[k] == order[1..][k - 1];
      assert forall j :: j in order <==> j == order[0] || j in order[1..];
      assert forall j :: j in order[1..] ==> Cheaper(costs, order[0], j);
      var rest := Insert(costs, order[1..], i);
      assert Cheaper(costs, order[0], i);
      assert forall k :: 0 <= k < |rest| ==> rest[k] in rest;
      [order[0]] + rest
  }

  function SortedOrder(costs: seq<nat>, n: nat): (r: seq<nat>)
    requires n <= |costs|
    ensures Sorted(costs, r) && |r| == n
    ensures forall j :: j in r <==> 0 <= j < n
  {
    if n == 0 then [] else Insert(costs, SortedOrder(costs, n - 1), n - 1)
  }

  // ----- Water-filling -----

  /** Everybody gets at most its cost, and together they get as much as there is to give. */
  ghost predicate SpendsAll(costs: seq<nat>, budget: nat, a: map<nat, nat>) {
    && (forall k :: k in a <==> 0 <= k < |costs|)
    && (forall k :: 0 <= k < |costs| ==> a[k] <= costs[k])
    && Sum(a, |costs|) == Min(budget, Sum(AsMap(costs), |costs|))
  }

  /** Whoever is short of its cost has at least what anybody else has, minus one. */
  ghost predicate Fair(costs: seq<nat>, a: map<nat, nat>)
    requires forall k :: 0 <= k < |costs| ==> k in a
  {
    forall j, k :: 0 <= j < |costs| && 0 <= k < |costs| && a[k] < costs[k] ==> a[j] <= a[k] + 1
  }

  /** By cost, then by number, later ones get no less than earlier ones: odd units go to the end. */
  ghost predicate Rising(costs: seq<nat>, a: map<nat, nat>)
    requires forall k :: 0 <= k < |costs| ==> k in a
  {
    forall j, k :: 0 <= j < |costs| && 0 <= k < |costs| ==>
      costs[j] < costs[k] || (costs[j] == costs[k] && j < k) ==> a[j] <= a[k]
  }

  /** These three properties leave exactly one allocation. */
  lemma AllocationIsUnique(costs: seq<nat>, budget: nat, a: map<nat, nat>, b: map<nat, nat>)
    requires SpendsAll(costs, budget, a) && Fair(costs, a) && Rising(costs, a)
    requires SpendsAll(costs, budget, b) && Fair(costs, b) && Rising(costs, b)
    ensures a == b
  {
    hide Fair, Rising, Sum;
    if j: nat, k: nat :| j < |costs| && k < |costs| && a[j] < b[j] && b[k] < a[k] {
      NobodySwaps(costs, a, b, j, k);
    } else if forall k :: 0 <= k < |costs| ==> a[k] <= b[k] {
      SumCompare(a, b, |costs|);
    } else {
      SumCompare(b, a, |costs|);
    }
  }

  lemma NobodySwaps(costs: seq<nat>, a: map<nat, nat>, b: map<nat, nat>, j: nat, k: nat)
    requires forall i :: 0 <= i < |costs| ==> i in a && i in b && a[i] <= costs[i] && b[i] <= costs[i]
    requires Fair(costs, a) && Rising(costs, a) && Fair(costs, b) && Rising(costs, b)
    requires j < |costs| && k < |costs| && a[j] < b[j]
    ensures a[k] <= b[k]
  {
    hide Fair, Rising;
    Between(costs, a, j, k);
    Between(costs, b, k, j);
  }

  /** What fairness and order say about two of them. */
  lemma Between(costs: seq<nat>, a: map<nat, nat>, j: nat, k: nat)
    requires forall i :: 0 <= i < |costs| ==> i in a
    requires Fair(costs, a) && Rising(costs, a) && j < |costs| && k < |costs|
    ensures a[j] < costs[j] ==> a[k] <= a[j] + 1
    ensures a[k] < costs[k] ==> a[j] <= a[k] + 1
    ensures if costs[j] < costs[k] || (costs[j] == costs[k] && j < k) then a[j] <= a[k] else j == k || a[k] <= a[j]
  {
  }

  /**
   Max-min fairness: in any other affordable allocation, giving somebody more takes something
   from somebody who had at most one unit more.
   */
  lemma NobodyGainsForFree(costs: seq<nat>, budget: nat, a: map<nat, nat>, other: map<nat, nat>, k: nat)
    returns (j: nat)
    requires SpendsAll(costs, budget, a) && Fair(costs, a)
    requires forall i :: 0 <= i < |costs| ==> i in other && other[i] <= costs[i]
    requires Sum(other, |costs|) <= budget && k < |costs| && a[k] < other[k]
    ensures j < |costs| && other[j] < a[j] <= a[k] + 1
  {
    if forall i :: 0 <= i < |costs| ==> a[i] <= other[i] {
      SumCompare(other, AsMap(costs), |costs|);
      SumCompare(a, other, |costs|);
      assert false;
    }
    j :| 0 <= j < |costs| && other[j] < a[j];
  }

  /**
   What the loop keeps. While nobody is short, everyone has its cost, at most `level`, and
   the rest could all have that much. Then the rest gets `level` or `level + 1` each.
   */
  ghost predicate Filling(costs: seq<nat>, order: seq<nat>, i: nat, a: map<nat, nat>, remaining: nat, short: bool, level: nat)
    requires Sorted(costs, order) && i <= |order|
  {
    var left := |order| - i;
    && (forall k :: k in a <==> k in order[..i])
    && (forall k :: k in a ==> k < |costs| && a[k] <= costs[k] && a[k] <= if short then level + 1 else level)
    && (if short
        then level * left <= remaining <= (level + 1) * left
             && (forall k :: k in a && a[k] < costs[k] ==> level <= a[k])
             && (forall k :: i <= k < |order| ==> level + 1 <= costs[order[k]])
        else level * left <= remaining
             && (forall k :: k in a ==> a[k] == costs[k])
             && (forall k :: i <= k < |order| ==> level <= costs[order[k]]))
  }

  /** An equal share is the largest amount that all that are left can have. */
  lemma Share(remaining: nat, left: nat, level: nat)
    requires left > 0
    ensures var share := remaining / left;
            && share * left <= remaining < (share + 1) * left
            && (level * left <= remaining ==> level <= share)
            && (remaining <= (level + 1) * left ==> share <= level + 1)
  {
    var share := remaining / left;
    assert share * left <= remaining < (share + 1) * left;
    TimesLeft(share + 1, level, left);
    TimesLeft(level + 2, share, left);
  }

  lemma TimesLeft(x: nat, y: nat, left: nat)
    ensures x <= y ==> x * left <= y * left
  {
  }

  /** One turn of the loop; `level` changes only when the first one comes up short. */
  lemma Fill(costs: seq<nat>, order: seq<nat>, i: nat, a: map<nat, nat>, remaining: nat, short: bool, level: nat)
    returns (short': bool, level': nat)
    requires Sorted(costs, order) && i < |order| && Filling(costs, order, i, a, remaining, short, level)
    ensures var k, share := order[i], remaining / (|order| - i);
            var allocation := Min(costs[k], share);
            && k !in a && allocation <= remaining
            && Filling(costs, order, i + 1, a[k := allocation], remaining - allocation, short', level')
  {
    var k, left := order[i], |order| - i;
    var share := remaining / left;
    var allocation := Min(costs[k], share);
    Share(remaining, left, level);
    assert order[..i + 1] == order[..i] + [k];
    assert forall l :: i < l < |order| ==> Cheaper(costs, k, order[l]);
    assert k !in order[..i] by { assert forall l :: 0 <= l < i ==> Cheaper(costs, order[l], k); }
    short' := short || costs[k] > share;
    level' := if short then level else if costs[k] > share then share else costs[k];
    NextLevel(remaining, left, short, level, costs[k]);
  }

  /** The arithmetic of one turn. */
  lemma NextLevel(remaining: nat, left: nat, short: bool, level: nat, cost: nat)
    requires left > 0 && level * left <= remaining && level <= cost
    requires short ==> remaining <= (level + 1) * left && level + 1 <= cost
    ensures var share := remaining / left;
            var allocation := Min(cost, share);
            && allocation <= remaining
            && (short ==> level <= allocation <= level + 1
                          && level * (left - 1) <= remaining - allocation <= (level + 1) * (left - 1))
            && (!short && cost > share ==> share * (left - 1) <= remaining - allocation <= (share + 1) * (left - 1))
            && (!short && cost <= share ==> cost * (left - 1) <= remaining - allocation)
  {
    Share(remaining, left, level);
    var share := remaining / left;
    ShareFits(share, left);
    OneLess(share, left);
    OneLess(share + 1, left);
    OneLess(level, left);
    OneLess(level + 1, left);
    if !short && cost <= share {
      OneLess(cost, left);
      TimesLeft(cost, share, left);
    }
    if short && share == level + 1 { assert remaining == (level + 1) * left; }
  }

  lemma OneLess(x: nat, left: nat)
    requires left > 0
    ensures x * (left - 1) == x * left - x
  {
  }

  lemma ShareFits(share: nat, left: nat)
    requires left > 0
    ensures share <= share * left
  {
  }

  /** What the loop keeps about the order of the amounts: the last one given is one that all that are left can have. */
  ghost predicate Climbing(costs: seq<nat>, order: seq<nat>, i: nat, a: map<nat, nat>, remaining: nat)
    requires Sorted(costs, order) && i <= |order|
  {
    && (forall p :: 0 <= p < i ==> order[p] in a)
    && (forall p, q :: 0 <= p < q < i ==> a[order[p]] <= a[order[q]])
    && (forall p, q :: 0 <= p < i <= q < |order| ==> a[order[p]] <= costs[order[q]])
    && (forall p :: 0 <= p < i ==> a[order[p]] * (|order| - i) <= remaining)
  }

  lemma Climb(costs: seq<nat>, order: seq<nat>, i: nat, a: map<nat, nat>, remaining: nat)
    requires Sorted(costs, order) && i < |order| && Climbing(costs, order, i, a, remaining) && order[i] !in a
    ensures var allocation := Min(costs[order[i]], remaining / (|order| - i));
            allocation <= remaining && Climbing(costs, order, i + 1, a[order[i] := allocation], remaining - allocation)
  {
    var left := |order| - i;
    var allocation := Min(costs[order[i]], remaining / left);
    Given(remaining, left, allocation);
    forall p | 0 <= p < i ensures a[order[p]] <= allocation && a[order[p]] * (left - 1) <= remaining - allocation {
      Fits(remaining, left, a[order[p]], costs[order[i]]);
    }
    assert forall q :: i < q < |order| ==> Cheaper(costs, order[i], order[q]);
  }

  lemma Given(remaining: nat, left: nat, allocation: nat)
    requires left > 0 && allocation <= remaining / left
    ensures allocation <= remaining && allocation * (left - 1) <= remaining - allocation
  {
    Share(remaining, left, 0);
    TimesLeft(allocation, remaining / left, left);
    ShareFits(allocation, left);
    OneLess(allocation, left);
  }

  /** An amount that all that are left can have is no more than the next one given. */
  lemma Fits(remaining: nat, left: nat, amount: nat, cost: nat)
    requires left > 0 && amount * left <= remaining && amount <= cost
    ensures var allocation := Min(cost, remaining / left);
            amount <= allocation && allocation <= remaining && amount * (left - 1) <= remaining - allocation
  {
    var allocation := Min(cost, remaining / left);
    Share(remaining, left, amount);
    Given(remaining, left, allocation);
    TimesLeft(amount, allocation, left - 1);
  }

  lemma Climbed(costs: seq<nat>, order: seq<nat>, a: map<nat, nat>, remaining: nat)
    requires Sorted(costs, order) && (forall j :: j in order <==> 0 <= j < |costs|)
    requires Climbing(costs, order, |order|, a, remaining)
    ensures (forall k :: 0 <= k < |costs| ==> k in a) && Rising(costs, a)
  {
    forall k | 0 <= k < |costs| ensures k in a {
      assert k in order;
      var p :| 0 <= p < |order| && order[p] == k;
    }
    forall j, k | 0 <= j < |costs| && 0 <= k < |costs| && (costs[j] < costs[k] || (costs[j] == costs[k] && j < k))
      ensures a[j] <= a[k]
    {
      assert j in order && k in order;
      var p :| 0 <= p < |order| && order[p] == j;
      var q :| 0 <= q < |order| && order[q] == k;
      if q < p { assert false; }
    }
  }

  /** At the end nothing is left over unless everybody has its cost. */
  lemma Filled(costs: seq<nat>, order: seq<nat>, budget: nat, a: map<nat, nat>, remaining: nat, short: bool, level: nat)
    requires Sorted(costs, order) && (forall j :: j in order <==> 0 <= j < |costs|)
    requires Filling(costs, order, |order|, a, remaining, short, level)
    requires Sum(a, |costs|) + remaining == budget
    ensures SpendsAll(costs, budget, a) && Fair(costs, a)
  {
    assert order[..|order|] == order;
    SumCompare(a, AsMap(costs), |costs|);
    if !short { SumCompare(AsMap(costs), a, |costs|); }
  }

  method Allocate(costs: seq<nat>, budget: nat) returns (allocations: map<nat, nat>)
    ensures SpendsAll(costs, budget, allocations) && Fair(costs, allocations) && Rising(costs, allocations)
  {
    hide Filling, Climbing, Sum, SpendsAll, Fair, Rising;
    var order := SortedOrder(costs, |costs|);
    var remaining: nat := budget;
    allocations := map[];
    ghost var short, level := false, 0;
    Start(costs, order, budget);
    for i := 0 to |order|
      invariant Filling(costs, order, i, allocations, remaining, short, level)
      invariant Climbing(costs, order, i, allocations, remaining)
      invariant Sum(allocations, |costs|) + remaining == budget
    {
      short, level := Fill(costs, order, i, allocations, remaining, short, level);
      Climb(costs, order, i, allocations, remaining);
      var share := remaining / (|order| - i);
      var allocation := Min(costs[order[i]], share);
      SumUpdate(allocations, order[i], allocation, |costs|);
      allocations := allocations[order[i] := allocation];
      remaining := remaining - allocation;
    }
    Filled(costs, order, budget, allocations, remaining, short, level);
    Climbed(costs, order, allocations, remaining);
  }

  lemma Start(costs: seq<nat>, order: seq<nat>, budget: nat)
    requires Sorted(costs, order)
    ensures Filling(costs, order, 0, map[], budget, false, 0) && Climbing(costs, order, 0, map[], budget) && Sum(map[], |costs|) == 0
  {
    SumEmpty(|costs|);
  }
}
