/**
 The sweep of `src/search.rs` that finds the shortest enclosing declaration for
 nondecreasing positions: a sorted stack of declarations not reached yet, and a heap
 whose ended entries are only removed when they come to the top.
 */
module Sweep {
  import opened Common

  /** A declaration as the sweep sees it. Spans may nest, cross, be empty or be inverted. */
  datatype Declaration = Declaration(start: nat, end: nat, local: bool)

  /** The linear lookup filters on this. */
  predicate Candidate(ds: seq<Declaration>, i: nat, position: nat) {
    i < |ds| && !ds[i].local && ds[i].start <= position < ds[i].end
  }

  /** Shorter first, and among equally long ones the earlier declaration. */
  predicate Before(a: (int, nat), b: (int, nat)) {
    a.0 < b.0 || (a.0 == b.0 && a.1 <= b.1)
  }

  function Key(ds: seq<Declaration>, i: nat): (int, nat)
    requires i < |ds|
  {
    (ds[i].end - ds[i].start, i)
  }

  /** The reference answer: the first shortest non-local declaration around the position. */
  ghost predicate IsShortest(ds: seq<Declaration>, position: nat, answer: Option<nat>) {
    match answer
    case None => forall i :: !Candidate(ds, i, position)
    case Some(i) =>
      && Candidate(ds, i, position)
      && forall j :: Candidate(ds, j, position) ==> Before(Key(ds, i), Key(ds, j))
  }

  /** The same without any of the notions above. */
  lemma ShortestExactly(ds: seq<Declaration>, position: nat, answer: Option<nat>)
    ensures answer.None? ==>
              (IsShortest(ds, position, answer) <==> forall d :: d in ds ==> d.local || position < d.start || d.end <= position)
    ensures answer.Some? && answer.value < |ds| ==>
              var d := ds[answer.value];
              IsShortest(ds, position, answer) <==>
              && !d.local && d.start <= position < d.end
              && forall j :: 0 <= j < |ds| ==>
                   var e := ds[j];
                   !e.local && e.start <= position < e.end ==>
                     d.end - d.start < e.end - e.start || (d.end - d.start == e.end - e.start && answer.value <= j)
    ensures answer.Some? && answer.value >= |ds| ==> !IsShortest(ds, position, answer)
  {
    if answer.Some? && IsShortest(ds, position, answer) {
      forall j | 0 <= j < |ds| && !ds[j].local && ds[j].start <= position < ds[j].end
        ensures Before(Key(ds, answer.value), Key(ds, j))
      {
        assert Candidate(ds, j, position);
      }
    }
    if answer.None? && IsShortest(ds, position, answer) {
      forall d | d in ds ensures d.local || position < d.start || d.end <= position {
        var i :| 0 <= i < |ds| && ds[i] == d;
        assert !Candidate(ds, i, position);
      }
    }
  }

  lemma ShortestIsUnique(ds: seq<Declaration>, position: nat, a: Option<nat>, b: Option<nat>)
    requires IsShortest(ds, position, a) && IsShortest(ds, position, b)
    ensures a == b
  {
    if a.Some? { assert Candidate(ds, a.value, position); }
    if b.Some? { assert Candidate(ds, b.value, position); }
  }

  /** The linear lookup itself, a single minimum search. */
  method Linear(ds: seq<Declaration>, position: nat) returns (answer: Option<nat>)
    ensures IsShortest(ds, position, answer)
  {
    answer := None;
    for i := 0 to |ds|
      invariant answer.Some? ==> answer.value < i && Candidate(ds, answer.value, position)
      invariant forall j: nat :: j < i && Candidate(ds, j, position) ==>
                              answer.Some? && Before(Key(ds, answer.value), Key(ds, j))
    {
      if Candidate(ds, i, position) && (answer.None? || Key(ds, i).0 < Key(ds, answer.value).0) {
        answer := Some(i);
      }
    }
  }

  /** Whether `i` lies deeper in the stack than `j`: later start, or later index. */
  predicate Deeper(ds: seq<Declaration>, i: nat, j: nat)
    requires i < |ds| && j < |ds|
  {
    ds[i].start > ds[j].start || (ds[i].start == ds[j].start && i > j)
  }

  ghost predicate Stacked(ds: seq<Declaration>, pending: seq<nat>) {
    && (forall k :: 0 <= k < |pending| ==> pending[k] < |ds|)
    && (forall k, l :: 0 <= k < l < |pending| ==> Deeper(ds, pending[k], pending[l]))
  }

  /** Puts one more index where sorting would have put it. */
  function Place(ds: seq<Declaration>, pending: seq<nat>, i: nat): (r: seq<nat>)
    requires i < |ds| && Stacked(ds, pending) && i !in pending
    ensures Stacked(ds, r)
    ensures forall j :: j in r <==> j == i || j in pending
  {
    if pending == [] then [i]
    else if Deeper(ds, i, pending[0]) then [i] + pending
    else
      assert forall k :: 1 <= k < |pending| ==> pending[k] == pending[1..][k - 1];
      assert forall j :: j in pending <==> j == pending[0] || j in pending[1..];
      assert forall j :: j in pending[1..] ==> Deeper(ds, pending[0], j);
      var rest := Place(ds, pending[1..], i);
      assert Deeper(ds, pending[0], i);
      assert forall k :: 0 <= k < |rest| ==> rest[k] in rest;
      [pending[0]] + rest
  }

  class ContainingDeclarations {
    const declarations: seq<Declaration>
    var pending: seq<nat>
    var active: set<(int, nat)>
    /** The largest position asked about so far. */
    ghost var reached: nat

    /** Where every declaration is: not reached, active, or ended for good. */
    ghost predicate Places(position: nat)
      reads this
    {
      && Stacked(declarations, pending)
      && (forall i :: i in pending ==> i < |declarations| && !declarations[i].local)
      && (forall e :: e in active ==>
            e.1 < |declarations| && e == Key(declarations, e.1)
            && !declarations[e.1].local && declarations[e.1].start <= position)
      && (forall i :: 0 <= i < |declarations| && !declarations[i].local ==>
            i in pending || Key(declarations, i) in active || declarations[i].end <= position)
    }

    ghost predicate Valid()
      reads this
    {
      Places(reached)
    }

    constructor (ds: seq<Declaration>)
      ensures Valid() && declarations == ds && reached == 0 && active == {}
      ensures Stacked(ds, pending) && forall j :: j in pending <==> 0 <= j < |ds| && !ds[j].local
    {
      declarations, active, reached := ds, {}, 0;
      pending := [];
      new;
      for i := 0 to |declarations|
        invariant declarations == ds && Stacked(ds, pending) && active == {} && reached == 0
        invariant forall j :: j in pending <==> 0 <= j < i && !declarations[j].local
      {
        if !declarations[i].local { pending := Place(declarations, pending, i); }
      }
    }

    lemma TopIsShortest(position: nat, top: (int, nat))
      requires Places(position) && forall i :: i in pending ==> declarations[i].start > position
      requires top in active && declarations[top.1].end > position && forall e :: e in active ==> Before(top, e)
      ensures IsShortest(declarations, position, Some(top.1))
    {
      assert Key(declarations, top.1) == top;
    }

    lemma NoneIsShortest(position: nat)
      requires Places(position) && (forall i :: i in pending ==> declarations[i].start > position) && active == {}
      ensures IsShortest(declarations, position, None)
    {
    }

    /** The answer is the one of the linear lookup, ties and all. */
    method At(position: nat) returns (answer: Option<nat>)
      requires Valid() && reached <= position
      modifies this
      ensures Valid() && reached == position
      ensures IsShortest(declarations, position, answer)
      ensures answer.None? ==> forall d :: d in declarations ==> d.local || position < d.start || d.end <= position
      ensures answer.Some? ==>
                && answer.value < |declarations|
                && var d := declarations[answer.value];
                   && !d.local && d.start <= position < d.end
                   && forall j :: 0 <= j < |declarations| ==>
                        var e := declarations[j];
                        !e.local && e.start <= position < e.end ==>
                          d.end - d.start < e.end - e.start || (d.end - d.start == e.end - e.start && answer.value <= j)
    {
      hide IsShortest, Before;
      reached := position;
      Reach(position);
      while active != {}
        invariant Places(position) && reached == position
        invariant forall i :: i in pending ==> declarations[i].start > position
        decreases |active|
      {
        var top := Peek();
        if declarations[top.1].end > position {
          TopIsShortest(position, top);
          ShortestExactly(declarations, position, Some(top.1));
          return Some(top.1);
        }
        active := active - {top};
      }
      NoneIsShortest(position);
      ShortestExactly(declarations, position, None);
      return None;
    }

    /** Moves every declaration that has started from the stack to the heap, unless it has ended. */
    method Reach(position: nat)
      requires Places(position)
      modifies `pending, `active
      ensures Places(position)
      ensures forall i :: i in pending ==> declarations[i].start > position
    {
      while pending != []
        invariant Places(position)
        decreases |pending|
      {
        var i := pending[|pending| - 1];
        if declarations[i].start > position {
          assert forall k :: 0 <= k < |pending| - 1 ==> Deeper(declarations, pending[k], i);
          break;
        }
        assert forall j :: j in pending <==> j == i || j in pending[..|pending| - 1];
        pending := pending[..|pending| - 1];
        if declarations[i].end > position {
          active := active + {Key(declarations, i)};
        }
      }
    }

    /** The top of the heap. */
    method Peek() returns (top: (int, nat))
      requires active != {}
      ensures top in active && forall e :: e in active ==> Before(top, e)
    {
      var rest := active;
      top :| top in rest;
      rest := rest - {top};
      while rest != {}
        invariant top in active && rest <= active
        invariant forall e :: e in active && e !in rest ==> Before(top, e)
        decreases rest
      {
        var e :| e in rest;
        if !Before(top, e) { top := e; }
        rest := rest - {e};
      }
    }
  }
}
