/**
 The nested-name loop of `extract_bytes` in `src/metadata.rs`: passes over the nesting
 table rewrite names and scopes in place until a pass changes no name.
 */
module NestedNames {
  import opened Common

  /** One row: `key` is nested in `parent` and has a simple name. */
  datatype Entry = Entry(key: nat, parent: nat, name: string)

  datatype Tables = Tables(names: map<nat, string>, scopes: map<nat, string>)

  const PASS_LIMIT := 32

  function Qualify(ns: string, name: string): string {
    if ns == "" then name else ns + "." + name
  }

  // ----- What the loop does -----

  /** The two maps that the loop rewrites, and what a type gets from the one that encloses it. */
  datatype Which = Names | Scopes

  function Inherit(which: Which, above: string, name: string): string {
    if which.Names? then Qualify(above, name) else above
  }

  function Hand(which: Which, m: map<nat, string>, e: Entry): map<nat, string> {
    if e.parent in m then m[e.key := Inherit(which, m[e.parent], e.name)] else m
  }

  /** One map after the first `n` rows of a pass. */
  function Sweep(which: Which, m: map<nat, string>, entries: seq<Entry>, n: nat): map<nat, string>
    requires n <= |entries|
  {
    if n == 0 then m else Hand(which, Sweep(which, m, entries, n - 1), entries[n - 1])
  }

  function Pass(t: Tables, entries: seq<Entry>, n: nat): Tables
    requires n <= |entries|
  {
    Tables(Sweep(Names, t.names, entries, n), Sweep(Scopes, t.scopes, entries, n))
  }

  predicate PassChanges(names: map<nat, string>, entries: seq<Entry>, n: nat)
    requires n <= |entries|
  {
    n > 0 && (PassChanges(names, entries, n - 1) ||
              Hand(Names, Sweep(Names, names, entries, n - 1), entries[n - 1]) != Sweep(Names, names, entries, n - 1))
  }

  /** At most `n` passes, the last of which may change no name. */
  function Rounds(t: Tables, entries: seq<Entry>, n: nat): Tables
    decreases n
  {
    if n == 0 then t
    else if !PassChanges(t.names, entries, |entries|) then Pass(t, entries, |entries|)
    else Rounds(Pass(t, entries, |entries|), entries, n - 1)
  }

  function Limit(entries: seq<Entry>): nat {
    if |entries| < PASS_LIMIT then |entries| else PASS_LIMIT
  }

  method Resolve(entries: seq<Entry>, names0: map<nat, string>, scopes0: map<nat, string>)
    returns (names: map<nat, string>, scopes: map<nat, string>)
    ensures Tables(names, scopes) == Rounds(Tables(names0, scopes0), entries, Limit(entries))
  {
    names, scopes := names0, scopes0;
    var limit := Limit(entries);
    for round := 0 to limit
      invariant Rounds(Tables(names0, scopes0), entries, limit) == Rounds(Tables(names, scopes), entries, limit - round)
    {
      ghost var before := Tables(names, scopes);
      var changed := false;
      for i := 0 to |entries|
        invariant Tables(names, scopes) == Pass(before, entries, i)
        invariant changed == PassChanges(before.names, entries, i)
      {
        var e := entries[i];
        if e.parent in scopes { scopes := scopes[e.key := scopes[e.parent]]; }
        if e.parent in names {
          var full := Qualify(names[e.parent], e.name);
          if !(e.key in names && names[e.key] == full) {
            names := names[e.key := full];
            changed := true;
          }
        }
      }
      if !changed { break; }
    }
  }

  // ----- What it should compute -----

  function Look(m: map<nat, string>, k: nat): Option<string> {
    if k in m then Some(m[k]) else None
  }

  /** What the type above has decides; a type keeps its own only below one that has nothing. */
  function Choose(which: Which, above: Option<string>, own: Option<string>, name: string): Option<string> {
    if above.Some? then Some(Inherit(which, above.value, name)) else own
  }

  /** Every row agrees with its parent, and nothing but nested types has changed. */
  ghost predicate Solved(which: Which, entries: seq<Entry>, m0: map<nat, string>, m: map<nat, string>) {
    && (forall e :: e in entries ==> Look(m, e.key) == Choose(which, Look(m, e.parent), Look(m0, e.key), e.name))
    && Outside(entries, m0, m)
  }

  /** Two maps agree on everything that is not nested. */
  ghost predicate Outside(entries: seq<Entry>, a: map<nat, string>, b: map<nat, string>) {
    forall k :: (forall e :: e in entries ==> e.key != k) ==> Look(a, k) == Look(b, k)
  }

  /** One row per nested type, and `depth` counts the enclosing types. */
  ghost predicate WellNested(entries: seq<Entry>, depth: nat -> nat) {
    && (forall i, j :: 0 <= i < j < |entries| ==> entries[i].key != entries[j].key)
    && (forall i :: 0 <= i < |entries| ==> depth(entries[i].key) == depth(entries[i].parent) + 1)
    && (forall k :: depth(k) > 0 ==> exists e :: e in entries && e.key == k)
  }

  ghost predicate Named(entries: seq<Entry>, names: map<nat, string>) {
    forall e :: e in entries ==> e.parent in names
  }

  /** The row's name is its parent's full name qualified with its own. */
  predicate NameHolds(names: map<nat, string>, e: Entry) {
    && e.parent in names && e.key in names
    && names[e.key] == if names[e.parent] == "" then e.name else names[e.parent] + "." + e.name
  }

  // ----- Where a row's value comes from -----

  /** The row of a type, or the number of rows if it is not nested. */
  function Find(entries: seq<Entry>, k: nat): (r: nat)
    ensures r <= |entries|
    ensures r < |entries| ==> entries[r].key == k
    ensures forall i :: 0 <= i < r ==> entries[i].key != k
  {
    if entries == [] then 0 else if entries[0].key == k then 0 else 1 + Find(entries[1..], k)
  }

  function Above(entries: seq<Entry>, i: nat): (r: nat)
    requires i < |entries|
    ensures r <= |entries| && (r < |entries| ==> entries[r].key == entries[i].parent)
  {
    Find(entries, entries[i].parent)
  }

  /**
   The pass in which a row sees the outermost type: rows wait one pass more for each
   enclosing type whose own row stands behind the row it encloses.
   */
  ghost function Late(entries: seq<Entry>, depth: nat -> nat, i: nat): (r: nat)
    requires WellNested(entries, depth) && i < |entries|
    ensures 1 <= r <= depth(entries[i].key)
    decreases depth(entries[i].key)
  {
    var j := Above(entries, i);
    if j == |entries| then 1 else Late(entries, depth, j) + (if j < i then 0 else 1)
  }

  /** A row's value after `k` passes, told by the enclosing types and the table at the start alone. */
  ghost function Reached(which: Which, m: map<nat, string>, entries: seq<Entry>, depth: nat -> nat, i: nat, k: nat): Option<string>
    requires WellNested(entries, depth) && i < |entries|
    decreases depth(entries[i].key), 1
  {
    var own := Look(m, entries[i].key);
    if k == 0 then own else Choose(which, Seen(which, m, entries, depth, i, k), own, entries[i].name)
  }

  /** What a row sees above it in pass `k`. */
  ghost function Seen(which: Which, m: map<nat, string>, entries: seq<Entry>, depth: nat -> nat, i: nat, k: nat): Option<string>
    requires WellNested(entries, depth) && i < |entries| && k > 0
    decreases depth(entries[i].key), 0
  {
    var j := Above(entries, i);
    if j == |entries| then Look(m, entries[i].parent)
    else Reached(which, m, entries, depth, j, if j < i then k else k - 1)
  }

  ghost function Final(which: Which, m: map<nat, string>, entries: seq<Entry>, depth: nat -> nat, i: nat): Option<string>
    requires WellNested(entries, depth) && i < |entries|
  {
    Reached(which, m, entries, depth, i, Late(entries, depth, i))
  }

  lemma FinalStep(which: Which, m: map<nat, string>, entries: seq<Entry>, depth: nat -> nat, i: nat)
    requires WellNested(entries, depth) && i < |entries|
    ensures var j := Above(entries, i);
            var above := if j == |entries| then Look(m, entries[i].parent) else Final(which, m, entries, depth, j);
            Final(which, m, entries, depth, i) == Choose(which, above, Look(m, entries[i].key), entries[i].name)
  {
    hide Choose, Look, Find;
    assert Final(which, m, entries, depth, i) ==
           Choose(which, Seen(which, m, entries, depth, i, Late(entries, depth, i)), Look(m, entries[i].key), entries[i].name);
  }

  /** More passes than a row is late change nothing about it. */
  lemma {:induction false} ReachSettles(which: Which, m: map<nat, string>, entries: seq<Entry>, depth: nat -> nat, i: nat, k: nat)
    requires WellNested(entries, depth) && i < |entries| && Late(entries, depth, i) <= k
    ensures Reached(which, m, entries, depth, i, k) == Final(which, m, entries, depth, i)
    decreases depth(entries[i].key)
  {
    hide Choose, Look, Find;
    var j := Above(entries, i);
    if j < |entries| { ReachSettles(which, m, entries, depth, j, if j < i then k else k - 1); }
    FinalStep(which, m, entries, depth, i);
  }

  /** What is missing after a pass was missing before. */
  lemma {:induction false} ReachGrows(which: Which, m: map<nat, string>, entries: seq<Entry>, depth: nat -> nat, i: nat, k: nat)
    requires WellNested(entries, depth) && i < |entries| && Reached(which, m, entries, depth, i, k + 1) == None
    ensures Reached(which, m, entries, depth, i, k) == None
    decreases depth(entries[i].key), 1
  {
    hide Look, Seen, Inherit;
    if k > 0 { SeenGrows(which, m, entries, depth, i, k); }
  }

  lemma {:induction false} SeenGrows(which: Which, m: map<nat, string>, entries: seq<Entry>, depth: nat -> nat, i: nat, k: nat)
    requires WellNested(entries, depth) && i < |entries| && k > 0 && Seen(which, m, entries, depth, i, k + 1) == None
    ensures Seen(which, m, entries, depth, i, k) == None
    decreases depth(entries[i].key), 0
  {
    hide Look, Reached, Find;
    var j := Above(entries, i);
    if j < |entries| { ReachGrows(which, m, entries, depth, j, if j < i then k else k - 1); }
  }

  // ----- Solutions -----

  /** The final values are the only solution. */
  lemma SolvedMeansFinal(which: Which, m0: map<nat, string>, entries: seq<Entry>, depth: nat -> nat, m: map<nat, string>)
    requires WellNested(entries, depth) && Outside(entries, m0, m)
    ensures Solved(which, entries, m0, m) <==>
            forall i :: 0 <= i < |entries| ==> Look(m, entries[i].key) == Final(which, m0, entries, depth, i)
  {
    hide Choose, Look, Final, WellNested, Outside;
    if Solved(which, entries, m0, m) {
      forall i | 0 <= i < |entries| ensures Look(m, entries[i].key) == Final(which, m0, entries, depth, i) {
        SolutionAt(which, m0, entries, depth, m, i);
      }
    }
    if forall i :: 0 <= i < |entries| ==> Look(m, entries[i].key) == Final(which, m0, entries, depth, i) {
      forall e | e in entries ensures Look(m, e.key) == Choose(which, Look(m, e.parent), Look(m0, e.key), e.name) {
        var i :| 0 <= i < |entries| && entries[i] == e;
        FinalStep(which, m0, entries, depth, i);
        if Above(entries, i) == |entries| { RootStays(entries, m0, m, i); }
      }
    }
  }

  lemma RootStays(entries: seq<Entry>, a: map<nat, string>, b: map<nat, string>, i: nat)
    requires i < |entries| && Above(entries, i) == |entries| && Outside(entries, a, b)
    ensures Look(a, entries[i].parent) == Look(b, entries[i].parent)
  {
  }

  lemma {:induction false} SolutionAt(which: Which, m0: map<nat, string>, entries: seq<Entry>, depth: nat -> nat, m: map<nat, string>, i: nat)
    requires WellNested(entries, depth) && Solved(which, entries, m0, m) && i < |entries|
    ensures Look(m, entries[i].key) == Final(which, m0, entries, depth, i)
    decreases depth(entries[i].key)
  {
    hide Choose, Look, Final, Outside, Find;
    assert entries[i] in entries;
    FinalStep(which, m0, entries, depth, i);
    var j := Above(entries, i);
    if j < |entries| { SolutionAt(which, m0, entries, depth, m, j); } else { RootStays(entries, m0, m, i); }
  }

  lemma SolutionIsUnique(which: Which, m0: map<nat, string>, entries: seq<Entry>, depth: nat -> nat, a: map<nat, string>, b: map<nat, string>)
    requires WellNested(entries, depth) && Solved(which, entries, m0, a) && Solved(which, entries, m0, b)
    ensures a == b
  {
    hide Final, Choose, WellNested;
    SolvedMeansFinal(which, m0, entries, depth, a);
    SolvedMeansFinal(which, m0, entries, depth, b);
    forall k ensures Look(a, k) == Look(b, k) {
      if e :| e in entries && e.key == k { var i :| 0 <= i < |entries| && entries[i] == e; }
    }
    SameLooks(a, b);
  }

  lemma SameLooks(a: map<nat, string>, b: map<nat, string>)
    requires forall k :: Look(a, k) == Look(b, k)
    ensures a == b
  {
    assert forall k :: k in a <==> Look(a, k).Some?;
    assert forall k :: k in b <==> Look(b, k).Some?;
    assert forall k :: k in a ==> Look(a, k) == Some(a[k]);
    assert forall k :: k in b ==> Look(b, k) == Some(b[k]);
  }

  // ----- Passes -----

  /** A turn changes nothing but its own row. */
  lemma TurnChanges(which: Which, m: map<nat, string>, e: Entry)
    requires e.key != e.parent
    ensures forall k :: k != e.key ==> Look(Hand(which, m, e), k) == Look(m, k)
    ensures Look(Hand(which, m, e), e.key) == Choose(which, Look(m, e.parent), Look(m, e.key), e.name)
  {
  }

  lemma {:induction false} SweepLeaves(which: Which, m: map<nat, string>, entries: seq<Entry>, n: nat, k: nat)
    requires n <= |entries| && forall i :: 0 <= i < n ==> entries[i].key != k
    ensures Look(Sweep(which, m, entries, n), k) == Look(m, k)
  {
    if n > 0 { SweepLeaves(which, m, entries, n - 1, k); }
  }

  /** What a row sees in one pass: rows in front of it have had their turn already. */
  lemma {:induction false} SweepSees(which: Which, m: map<nat, string>, entries: seq<Entry>, depth: nat -> nat, i: nat, n: nat)
    requires i < n <= |entries| && WellNested(entries, depth)
    ensures Look(Sweep(which, m, entries, n), entries[i].key) ==
            Choose(which, Look(if Above(entries, i) < i then Sweep(which, m, entries, n) else m, entries[i].parent),
                   Look(m, entries[i].key), entries[i].name)
  {
    hide Hand, Choose, Look, WellNested, Above;
    RowIsItsOwn(entries, depth, n - 1);
    TurnChanges(which, Sweep(which, m, entries, n - 1), entries[n - 1]);
    if i < n - 1 {
      SweepSees(which, m, entries, depth, i, n - 1);
      AboveIsEarlier(entries, depth, i, n - 1);
    } else {
      SweepLeaves(which, m, entries, i, entries[i].key);
      if Above(entries, i) >= i {
        AboveIsLater(entries, i);
        SweepLeaves(which, m, entries, i, entries[i].parent);
      }
    }
  }

  lemma RowIsItsOwn(entries: seq<Entry>, depth: nat -> nat, n: nat)
    requires WellNested(entries, depth) && n < |entries|
    ensures entries[n].key != entries[n].parent
    ensures forall i :: 0 <= i < n ==> entries[i].key != entries[n].key
  {
  }

  lemma AboveIsEarlier(entries: seq<Entry>, depth: nat -> nat, i: nat, n: nat)
    requires WellNested(entries, depth) && i < n < |entries|
    ensures Above(entries, i) < i ==> entries[i].parent != entries[n].key
  {
  }

  lemma AboveIsLater(entries: seq<Entry>, i: nat)
    requires i < |entries| && Above(entries, i) >= i
    ensures forall j :: 0 <= j < i ==> entries[j].key != entries[i].parent
  {
  }

  function Passes(which: Which, m: map<nat, string>, entries: seq<Entry>, k: nat): map<nat, string> {
    if k == 0 then m else Sweep(which, Passes(which, m, entries, k - 1), entries, |entries|)
  }

  lemma {:induction false} PassesOutside(which: Which, m: map<nat, string>, entries: seq<Entry>, k: nat)
    ensures Outside(entries, m, Passes(which, m, entries, k))
  {
    hide Look, Sweep;
    if k > 0 {
      PassesOutside(which, m, entries, k - 1);
      forall c | forall e :: e in entries ==> e.key != c
        ensures Look(Passes(which, m, entries, k), c) == Look(m, c)
      {
        SweepLeaves(which, Passes(which, m, entries, k - 1), entries, |entries|, c);
      }
    }
  }

  /** After `k` passes every row has exactly the value that was told beforehand. */
  lemma {:induction false} PassesReach(which: Which, m: map<nat, string>, entries: seq<Entry>, depth: nat -> nat, i: nat, k: nat)
    requires WellNested(entries, depth) && i < |entries|
    ensures Look(Passes(which, m, entries, k), entries[i].key) == Reached(which, m, entries, depth, i, k)
    decreases k, depth(entries[i].key), 1
  {
    hide Look, Inherit, Above, Sweep, Seen, WellNested;
    if k > 0 {
      PassesStep(which, m, entries, depth, i, k);
      PassesReach(which, m, entries, depth, i, k - 1);
      PassesSeen(which, m, entries, depth, i, k);
      SeenNothing(which, m, entries, depth, i, k);
    }
  }

  lemma PassesStep(which: Which, m: map<nat, string>, entries: seq<Entry>, depth: nat -> nat, i: nat, k: nat)
    requires WellNested(entries, depth) && i < |entries| && k > 0
    ensures Look(Passes(which, m, entries, k), entries[i].key) ==
            Choose(which, Look(Passes(which, m, entries, if Above(entries, i) < i then k else k - 1), entries[i].parent),
                   Look(Passes(which, m, entries, k - 1), entries[i].key), entries[i].name)
  {
    hide Look, Choose, Above, Sweep, WellNested;
    SweepSees(which, Passes(which, m, entries, k - 1), entries, depth, i, |entries|);
  }

  lemma {:induction false} PassesSeen(which: Which, m: map<nat, string>, entries: seq<Entry>, depth: nat -> nat, i: nat, k: nat)
    requires WellNested(entries, depth) && i < |entries| && k > 0
    ensures Look(Passes(which, m, entries, if Above(entries, i) < i then k else k - 1), entries[i].parent) ==
            Seen(which, m, entries, depth, i, k)
    decreases k, depth(entries[i].key), 0
  {
    hide Look, Passes, Outside, Find, Reached;
    var j := Above(entries, i);
    if j == |entries| {
      PassesOutside(which, m, entries, k - 1);
      RootStays(entries, m, Passes(which, m, entries, k - 1), i);
    } else {
      PassesReach(which, m, entries, depth, j, if j < i then k else k - 1);
    }
  }

  /** A row that sees nothing still has its own value, as it saw nothing before. */
  lemma SeenNothing(which: Which, m: map<nat, string>, entries: seq<Entry>, depth: nat -> nat, i: nat, k: nat)
    requires WellNested(entries, depth) && i < |entries| && k > 0
    ensures Seen(which, m, entries, depth, i, k) == None ==>
              Reached(which, m, entries, depth, i, k - 1) == Look(m, entries[i].key)
  {
    hide Look, Seen, Inherit;
    if k > 1 && Seen(which, m, entries, depth, i, k) == None { SeenGrows(which, m, entries, depth, i, k - 1); }
  }

  /** So a map is solved after `k` passes exactly if each row has its final value by then. */
  lemma PassesSolveExactly(which: Which, m: map<nat, string>, entries: seq<Entry>, depth: nat -> nat, k: nat)
    requires WellNested(entries, depth)
    ensures Solved(which, entries, m, Passes(which, m, entries, k)) <==>
            forall i :: 0 <= i < |entries| ==> Reached(which, m, entries, depth, i, k) == Final(which, m, entries, depth, i)
  {
    hide Solved, Reached, Passes, Look, Final, Outside, WellNested;
    PassesOutside(which, m, entries, k);
    SolvedMeansFinal(which, m, entries, depth, Passes(which, m, entries, k));
    forall i | 0 <= i < |entries|
      ensures Look(Passes(which, m, entries, k), entries[i].key) == Reached(which, m, entries, depth, i, k)
    {
      PassesReach(which, m, entries, depth, i, k);
    }
  }

  // ----- How many passes take place -----

  /** Some row still has to change after `k` passes. */
  ghost predicate Pending(which: Which, m: map<nat, string>, entries: seq<Entry>, depth: nat -> nat, k: nat)
    requires WellNested(entries, depth)
  {
    exists i :: 0 <= i < |entries| && Reached(which, m, entries, depth, i, k) != Final(which, m, entries, depth, i)
  }

  predicate Busy(names: map<nat, string>, entries: seq<Entry>, k: nat) {
    PassChanges(Passes(Names, names, entries, k), entries, |entries|)
  }

  lemma {:induction false} QuietPass(names: map<nat, string>, entries: seq<Entry>, n: nat)
    requires n <= |entries| && !PassChanges(names, entries, n)
    ensures Sweep(Names, names, entries, n) == names
  {
    hide Hand;
    if n > 0 { QuietPass(names, entries, n - 1); }
  }

  lemma {:induction false} SolvedIsQuiet(names0: map<nat, string>, names: map<nat, string>, entries: seq<Entry>, n: nat)
    requires n <= |entries| && Solved(Names, entries, names0, names)
    ensures !PassChanges(names, entries, n) && Sweep(Names, names, entries, n) == names
  {
    hide Outside, Inherit;
    if n > 0 {
      SolvedIsQuiet(names0, names, entries, n - 1);
      var e := entries[n - 1];
      assert e in entries;
      assert Hand(Names, names, e) == names;
    }
  }

  lemma {:induction false} QuietForever(names: map<nat, string>, entries: seq<Entry>, k: nat, more: nat)
    requires !Busy(names, entries, k)
    ensures Passes(Names, names, entries, k + more) == Passes(Names, names, entries, k)
    ensures !Busy(names, entries, k + more)
  {
    hide Sweep, PassChanges;
    if more > 0 {
      QuietForever(names, entries, k, more - 1);
      QuietPass(Passes(Names, names, entries, k), entries, |entries|);
    }
  }

  /** A pass changes a name exactly if some row is not final before it. */
  lemma BusyExactly(names: map<nat, string>, entries: seq<Entry>, depth: nat -> nat, k: nat)
    requires WellNested(entries, depth)
    ensures Busy(names, entries, k) <==> Pending(Names, names, entries, depth, k)
  {
    hide Solved, Reached, Passes, Look, PassChanges, WellNested, Late;
    if !Busy(names, entries, k) {
      forall i | 0 <= i < |entries|
        ensures Reached(Names, names, entries, depth, i, k) == Final(Names, names, entries, depth, i)
      {
        var late := Late(entries, depth, i);
        PassesReach(Names, names, entries, depth, i, k);
        PassesReach(Names, names, entries, depth, i, k + late);
        ReachSettles(Names, names, entries, depth, i, k + late);
        QuietForever(names, entries, k, late);
      }
    }
    if !Pending(Names, names, entries, depth, k) {
      PassesSolveExactly(Names, names, entries, depth, k);
      SolvedIsQuiet(names, Passes(Names, names, entries, k), entries, |entries|);
    }
  }

  /** The number of passes the loop makes when at most `n` are allowed. */
  function Executed(names: map<nat, string>, entries: seq<Entry>, n: nat): (r: nat)
    ensures r <= n
    decreases n
  {
    if n == 0 then 0
    else if !PassChanges(names, entries, |entries|) then 1
    else 1 + Executed(Sweep(Names, names, entries, |entries|), entries, n - 1)
  }

  lemma {:induction false} PassesFront(which: Which, m: map<nat, string>, entries: seq<Entry>, k: nat)
    ensures Passes(which, Sweep(which, m, entries, |entries|), entries, k) == Passes(which, m, entries, k + 1)
  {
    hide Sweep;
    if k > 0 { PassesFront(which, m, entries, k - 1); }
  }

  lemma {:induction false} RoundsArePasses(t: Tables, entries: seq<Entry>, n: nat)
    ensures var k := Executed(t.names, entries, n);
            Rounds(t, entries, n) == Tables(Passes(Names, t.names, entries, k), Passes(Scopes, t.scopes, entries, k))
    decreases n
  {
    hide Sweep, PassChanges;
    if n > 0 {
      var p := Pass(t, entries, |entries|);
      if PassChanges(t.names, entries, |entries|) {
        RoundsArePasses(p, entries, n - 1);
        PassesFront(Names, t.names, entries, Executed(p.names, entries, n - 1));
        PassesFront(Scopes, t.scopes, entries, Executed(p.names, entries, n - 1));
      } else {
        PassesFront(Names, t.names, entries, 0);
        PassesFront(Scopes, t.scopes, entries, 0);
      }
    }
  }

  /** Names do not care that the loop stops early. */
  lemma {:induction false} RoundsName(t: Tables, entries: seq<Entry>, n: nat)
    ensures Rounds(t, entries, n).names == Passes(Names, t.names, entries, n)
    decreases n
  {
    hide Sweep, PassChanges;
    if n > 0 {
      if PassChanges(t.names, entries, |entries|) {
        RoundsName(Pass(t, entries, |entries|), entries, n - 1);
        PassesFront(Names, t.names, entries, n - 1);
      } else {
        QuietPass(t.names, entries, |entries|);
        QuietForever(t.names, entries, 0, n);
      }
    }
  }

  lemma {:induction false} ExecutedFrom(names: map<nat, string>, entries: seq<Entry>, j: nat, n: nat, k: nat)
    requires k < n
    ensures k < Executed(Passes(Names, names, entries, j), entries, n) <==> k == 0 || Busy(names, entries, j + k - 1)
    decreases n
  {
    hide Sweep, PassChanges;
    if k > 0 {
      if Busy(names, entries, j) {
        ExecutedFrom(names, entries, j + 1, n - 1, k - 1);
      } else {
        QuietForever(names, entries, j, k - 1);
      }
    }
  }

  /** The loop makes pass `k` (counted from 1): told from the table at the start. */
  ghost predicate TakesPlace(names: map<nat, string>, entries: seq<Entry>, depth: nat -> nat, k: nat)
    requires WellNested(entries, depth)
  {
    k <= |entries| && k <= 32 && (k >= 2 ==> Pending(Names, names, entries, depth, k - 2))
  }

  /** A pass takes place exactly if the one before it changed a name. */
  lemma PassTakesPlace(names: map<nat, string>, entries: seq<Entry>, depth: nat -> nat, k: nat)
    requires WellNested(entries, depth)
    ensures k <= Executed(names, entries, Limit(entries)) <==> TakesPlace(names, entries, depth, k)
  {
    hide Executed, Busy, Pending, WellNested;
    var n := Limit(entries);
    if 0 < k <= n {
      ExecutedFrom(names, entries, 0, n, k - 1);
      if k >= 2 { BusyExactly(names, entries, depth, k - 2); }
    }
  }

  // ----- Names -----

  /** Every row holds, and nothing but nested types was renamed. */
  ghost predicate NamesSolved(entries: seq<Entry>, names0: map<nat, string>, names: map<nat, string>) {
    (forall e :: e in entries ==> NameHolds(names, e)) && Outside(entries, names0, names)
  }

  lemma NamesSolvedMeansSolved(entries: seq<Entry>, names0: map<nat, string>, names: map<nat, string>)
    requires Named(entries, names0)
    ensures NamesSolved(entries, names0, names) <==> Solved(Names, entries, names0, names)
  {
    if Solved(Names, entries, names0, names) {
      forall e | e in entries ensures NameHolds(names, e) { assert Look(names0, e.parent).Some?; }
    }
  }

  /** The row that a row's name stems from after `k` passes, or the number of rows if that is the outermost type. */
  ghost function Origin(entries: seq<Entry>, depth: nat -> nat, i: nat, k: nat): (r: nat)
    requires WellNested(entries, depth) && i < |entries|
    ensures r <= |entries| && (r == |entries| <==> Late(entries, depth, i) <= k)
    decreases depth(entries[i].key)
  {
    var j := Above(entries, i);
    if k == 0 then i
    else if j == |entries| then |entries|
    else Origin(entries, depth, j, if j < i then k else k - 1)
  }

  /** The row's name stems from the outermost type, or from a row that had its final name at the start. */
  ghost predicate StemsFromFinal(names: map<nat, string>, entries: seq<Entry>, depth: nat -> nat, i: nat, k: nat)
    requires WellNested(entries, depth) && i < |entries|
  {
    var o := Origin(entries, depth, i, k);
    o == |entries| || Look(names, entries[o].key) == Final(Names, names, entries, depth, o)
  }

  lemma QualifyIsInjective(a: string, b: string, name: string)
    requires Qualify(a, name) == Qualify(b, name)
    ensures a == b
  {
    var qa, qb := Qualify(a, name), Qualify(b, name);
    if a != "" && b != "" {
      assert qa[..|a|] == a && qb[..|b|] == b;
    }
  }

  lemma ChoosesSame(a: Option<string>, b: Option<string>, own: Option<string>, name: string)
    requires a.Some? && b.Some?
    ensures Choose(Names, a, own, name) == Choose(Names, b, own, name) <==> a == b
  {
    hide Qualify;
    if Qualify(a.value, name) == Qualify(b.value, name) { QualifyIsInjective(a.value, b.value, name); }
  }

  lemma NamedIsReached(names: map<nat, string>, entries: seq<Entry>, depth: nat -> nat, i: nat, k: nat)
    requires WellNested(entries, depth) && i < |entries| && entries[i].key in names
    ensures Reached(Names, names, entries, depth, i, k).Some?
  {
    hide Inherit, Seen;
  }

  /** A name is final after `k` passes exactly if its origin is the outermost type or was final at the start. */
  lemma {:induction false} NameIsFinalExactly(names: map<nat, string>, entries: seq<Entry>, depth: nat -> nat, i: nat, k: nat)
    requires WellNested(entries, depth) && Named(entries, names) && i < |entries|
    ensures Reached(Names, names, entries, depth, i, k) == Final(Names, names, entries, depth, i) <==>
            StemsFromFinal(names, entries, depth, i, k)
    decreases depth(entries[i].key)
  {
    hide Look, Find, Choose, Named;
    var j := Above(entries, i);
    FinalStep(Names, names, entries, depth, i);
    if k > 0 && j < |entries| {
      var l := if j < i then k else k - 1;
      NameIsFinalExactly(names, entries, depth, j, l);
      ParentIsNamed(names, entries, i);
      NamedIsReached(names, entries, depth, j, l);
      NamedIsReached(names, entries, depth, j, Late(entries, depth, j));
      ChoosesSame(Reached(Names, names, entries, depth, j, l), Final(Names, names, entries, depth, j),
                  Look(names, entries[i].key), entries[i].name);
    }
  }

  lemma ParentIsNamed(names: map<nat, string>, entries: seq<Entry>, i: nat)
    requires i < |entries| && Named(entries, names)
    ensures entries[i].parent in names
  {
    assert entries[i] in entries;
  }

  /** Whether the loop names everything, told from the table at the start. */
  lemma NamesAreSolvedExactly(entries: seq<Entry>, t: Tables, depth: nat -> nat)
    requires WellNested(entries, depth) && Named(entries, t.names)
    ensures NamesSolved(entries, t.names, Rounds(t, entries, Limit(entries)).names) <==>
            forall i :: 0 <= i < |entries| ==> StemsFromFinal(t.names, entries, depth, i, Limit(entries))
  {
    hide NamesSolved, Solved, Reached, Final, Limit, Rounds, StemsFromFinal, WellNested, Named, Look;
    var n := Limit(entries);
    RoundsName(t, entries, n);
    NamesSolvedMeansSolved(entries, t.names, Passes(Names, t.names, entries, n));
    PassesSolveExactly(Names, t.names, entries, depth, n);
    forall i | 0 <= i < |entries|
      ensures Reached(Names, t.names, entries, depth, i, n) == Final(Names, t.names, entries, depth, i) <==>
              StemsFromFinal(t.names, entries, depth, i, n)
    {
      NameIsFinalExactly(t.names, entries, depth, i, n);
    }
  }

  /** Names are there and not empty, and those of nested types have no namespace. */
  ghost predicate Unqualified(entries: seq<Entry>, names: map<nat, string>) {
    (forall e :: e in entries ==> Look(names, e.key) == Some(e.name)) && (forall k :: k in names ==> names[k] != "")
  }

  lemma {:induction false} FinalIsLonger(names: map<nat, string>, entries: seq<Entry>, depth: nat -> nat, i: nat)
    requires WellNested(entries, depth) && Named(entries, names) && Unqualified(entries, names) && i < |entries|
    ensures var full := Final(Names, names, entries, depth, i);
            full.Some? && |full.value| > |entries[i].name| > 0
    decreases depth(entries[i].key)
  {
    hide Find, Final;
    assert entries[i] in entries;
    FinalStep(Names, names, entries, depth, i);
    var j := Above(entries, i);
    if j < |entries| { FinalIsLonger(names, entries, depth, j); }
  }

  /** Then no name is final at the start, so all of them have to come from an outermost type. */
  lemma UnqualifiedStems(names: map<nat, string>, entries: seq<Entry>, depth: nat -> nat, i: nat, k: nat)
    requires WellNested(entries, depth) && Named(entries, names) && Unqualified(entries, names) && i < |entries|
    ensures StemsFromFinal(names, entries, depth, i, k) <==> Late(entries, depth, i) <= k
  {
    hide Final, Late, WellNested, Named;
    var o := Origin(entries, depth, i, k);
    if o < |entries| {
      FinalIsLonger(names, entries, depth, o);
      assert entries[o] in entries;
    }
  }

  /** Without namespaces the names are complete exactly if no row is more than 32 passes late. */
  lemma UnqualifiedNamesAreSolvedExactly(entries: seq<Entry>, t: Tables, depth: nat -> nat)
    requires WellNested(entries, depth) && Named(entries, t.names) && Unqualified(entries, t.names)
    ensures NamesSolved(entries, t.names, Rounds(t, entries, Limit(entries)).names) <==>
            forall i :: 0 <= i < |entries| ==> Late(entries, depth, i) <= Limit(entries)
  {
    hide NamesSolved, Limit, Rounds, Late, WellNested, Named, Unqualified, StemsFromFinal;
    NamesAreSolvedExactly(entries, t, depth);
    if i: nat :| i < |entries| && Late(entries, depth, i) > Limit(entries) {
      UnqualifiedStems(t.names, entries, depth, i, Limit(entries));
    } else {
      forall i | 0 <= i < |entries| ensures StemsFromFinal(t.names, entries, depth, i, Limit(entries)) {
        UnqualifiedStems(t.names, entries, depth, i, Limit(entries));
      }
    }
  }

  /** What is nested at most `n` deep is final after `n` passes, and stays so in later ones. */
  lemma RoundsSettle(entries: seq<Entry>, t: Tables, depth: nat -> nat, n: nat)
    requires WellNested(entries, depth)
    ensures forall i :: 0 <= i < |entries| && depth(entries[i].key) <= n ==>
              Look(Rounds(t, entries, n).names, entries[i].key) == Final(Names, t.names, entries, depth, i)
  {
    hide Rounds, Passes, Look, Final, WellNested;
    RoundsName(t, entries, n);
    forall i | 0 <= i < |entries| && depth(entries[i].key) <= n
      ensures Look(Rounds(t, entries, n).names, entries[i].key) == Final(Names, t.names, entries, depth, i)
    {
      PassesReach(Names, t.names, entries, depth, i, n);
      ReachSettles(Names, t.names, entries, depth, i, n);
    }
  }

  // ----- The pass limit is enough -----

  function UpTo(d: nat): (r: set<nat>)
    ensures |r| == d && forall j :: j in r <==> 1 <= j <= d
  {
    if d == 0 then {} else UpTo(d - 1) + {d}
  }

  ghost function Depths(entries: seq<Entry>, depth: nat -> nat): (r: set<nat>)
    ensures |r| <= |entries| && forall e :: e in entries ==> depth(e.key) in r
  {
    if entries == [] then {}
    else
      assert entries == [entries[0]] + entries[1..];
      Depths(entries[1..], depth) + {depth(entries[0].key)}
  }

  /** Every depth down to one occurs among the types that enclose a type. */
  lemma {:induction false} DepthsOccur(entries: seq<Entry>, depth: nat -> nat, k: nat)
    requires WellNested(entries, depth)
    ensures UpTo(depth(k)) <= Depths(entries, depth)
    decreases depth(k)
  {
    if depth(k) > 0 {
      var e :| e in entries && e.key == k;
      DepthsOccur(entries, depth, e.parent);
    }
  }

  /** A type cannot be nested deeper than there are rows. */
  lemma DepthAtMostRows(entries: seq<Entry>, depth: nat -> nat, k: nat)
    requires WellNested(entries, depth)
    ensures depth(k) <= |entries|
  {
    DepthsOccur(entries, depth, k);
    SubsetSize(UpTo(depth(k)), Depths(entries, depth));
  }

  ghost predicate Shallow(entries: seq<Entry>, depth: nat -> nat) {
    forall e :: e in entries ==> depth(e.key) <= 32
  }

  lemma ShallowIsInTime(entries: seq<Entry>, depth: nat -> nat, i: nat)
    requires WellNested(entries, depth) && Shallow(entries, depth) && i < |entries|
    ensures Late(entries, depth, i) <= Limit(entries)
  {
    hide WellNested;
    assert entries[i] in entries;
    DepthAtMostRows(entries, depth, entries[i].key);
  }

  /** In any row order, nesting at most 32 deep is named completely, whatever the names are at the start. */
  lemma NamesAreSolved(entries: seq<Entry>, t: Tables, depth: nat -> nat)
    requires WellNested(entries, depth) && Named(entries, t.names) && Shallow(entries, depth)
    ensures NamesSolved(entries, t.names, Rounds(t, entries, Limit(entries)).names)
  {
    hide NamesSolved, Final, Limit, Rounds, WellNested, Named, Shallow, Late;
    NamesAreSolvedExactly(entries, t, depth);
    forall i | 0 <= i < |entries| ensures StemsFromFinal(t.names, entries, depth, i, Limit(entries)) {
      ShallowIsInTime(entries, depth, i);
    }
  }

  /** `m` types, each nested in the one before, with the innermost row first. */
  function Chain(m: nat): seq<Entry> {
    seq(m, i requires 0 <= i < m => Entry(m - i, m - i - 1, "A"))
  }

  ghost function ChainDepth(m: nat): nat -> nat {
    (k: nat) => if k <= m then k else 0
  }

  lemma ChainIsNested(m: nat)
    ensures WellNested(Chain(m), ChainDepth(m))
  {
    forall k | ChainDepth(m)(k) > 0 ensures exists e :: e in Chain(m) && e.key == k {
      assert Chain(m)[m - k].key == k;
    }
  }

  /** In such a chain every row but the last has to wait for the next one. */
  lemma {:induction false} ChainIsLate(m: nat, i: nat)
    requires i < m
    ensures WellNested(Chain(m), ChainDepth(m)) && Late(Chain(m), ChainDepth(m), i) == m - i
    decreases m - i
  {
    hide WellNested;
    ChainIsNested(m);
    var j := Above(Chain(m), i);
    assert j < m ==> Chain(m)[j].key == m - j;
    if i + 1 < m {
      assert Chain(m)[i + 1].key == m - i - 1;
      assert j == i + 1;
      ChainIsLate(m, i + 1);
    } else {
      assert j == m;
    }
  }

  /** So every chain deeper than 32, innermost row first, ends with a wrong name. */
  lemma DeeperChainsAreNotSolved(m: nat, names: map<nat, string>, scopes: map<nat, string>)
    requires m > 32 && (forall k :: 0 <= k <= m ==> Look(names, k) == Some("A"))
    requires forall k :: k in names ==> names[k] != ""
    ensures !NamesSolved(Chain(m), names, Rounds(Tables(names, scopes), Chain(m), Limit(Chain(m))).names)
  {
    hide NamesSolved, Rounds, WellNested, Late, Chain, Look, Named, Unqualified, ChainDepth;
    ChainIsNested(m);
    ChainIsLate(m, 0);
    ChainIsUnqualified(m, names);
    UnqualifiedNamesAreSolvedExactly(Chain(m), Tables(names, scopes), ChainDepth(m));
  }

  lemma ChainIsUnqualified(m: nat, names: map<nat, string>)
    requires (forall k :: 0 <= k <= m ==> Look(names, k) == Some("A")) && (forall k :: k in names ==> names[k] != "")
    ensures Named(Chain(m), names) && Unqualified(Chain(m), names) && |Chain(m)| == m
  {
    forall e | e in Chain(m) ensures e.parent in names && Look(names, e.key) == Some(e.name) {
      var i :| 0 <= i < m && Chain(m)[i] == e;
      assert Look(names, e.parent).Some?;
    }
  }

  // ----- Scopes -----

  /** Scopes are complete exactly if each row has its final scope after the passes that take place. */
  lemma ScopesAreSolvedExactly(entries: seq<Entry>, t: Tables, depth: nat -> nat)
    requires WellNested(entries, depth)
    ensures var k := Executed(t.names, entries, Limit(entries));
            Solved(Scopes, entries, t.scopes, Rounds(t, entries, Limit(entries)).scopes) <==>
            !Pending(Scopes, t.scopes, entries, depth, k)
  {
    hide Solved, Rounds, Executed, Limit, Reached, Final, WellNested;
    RoundsArePasses(t, entries, Limit(entries));
    PassesSolveExactly(Scopes, t.scopes, entries, depth, Executed(t.names, entries, Limit(entries)));
  }

  ghost function Outermost(entries: seq<Entry>, depth: nat -> nat, i: nat): nat
    requires WellNested(entries, depth) && i < |entries|
    decreases depth(entries[i].key)
  {
    var j := Above(entries, i);
    if j == |entries| then entries[i].parent else Outermost(entries, depth, j)
  }

  /**
   The two kinds of rows that metadata yields: a definition has a scope, the same as its parent;
   a reference has none, and neither has its parent if that is nested too.
   */
  ghost predicate Inherited(entries: seq<Entry>, scopes: map<nat, string>) {
    && (forall i :: 0 <= i < |entries| && entries[i].key in scopes ==>
          Look(scopes, entries[i].parent) == Look(scopes, entries[i].key))
    && (forall i :: 0 <= i < |entries| && entries[i].key !in scopes ==>
          Above(entries, i) == |entries| || entries[i].parent !in scopes)
  }

  /** Definitions keep their scope; a reference gets its outermost type's when it is as late as that. */
  lemma {:induction false} ScopeReached(scopes: map<nat, string>, entries: seq<Entry>, depth: nat -> nat, i: nat, k: nat)
    requires WellNested(entries, depth) && Inherited(entries, scopes) && i < |entries|
    ensures Reached(Scopes, scopes, entries, depth, i, k) ==
            if entries[i].key in scopes then Some(scopes[entries[i].key])
            else if Late(entries, depth, i) <= k then Look(scopes, Outermost(entries, depth, i)) else None
    decreases depth(entries[i].key)
  {
    hide Find;
    var j := Above(entries, i);
    if k > 0 && j < |entries| { ScopeReached(scopes, entries, depth, j, if j < i then k else k - 1); }
  }

  /**
   A scope is lost exactly if a nested reference below a type with a scope is so late that the
   names were complete two passes earlier, or that the limit is reached.
   */
  lemma ReferencesGetTheirScopesExactly(entries: seq<Entry>, t: Tables, depth: nat -> nat)
    requires WellNested(entries, depth) && Inherited(entries, t.scopes)
    ensures Solved(Scopes, entries, t.scopes, Rounds(t, entries, Limit(entries)).scopes) <==>
            forall i :: 0 <= i < |entries| && entries[i].key !in t.scopes && Outermost(entries, depth, i) in t.scopes ==>
              TakesPlace(t.names, entries, depth, Late(entries, depth, i))
  {
    hide Solved, Rounds, Executed, Limit, Reached, Outermost, Inherited, Late, TakesPlace, WellNested;
    ScopesAreSolvedExactly(entries, t, depth);
    var k := Executed(t.names, entries, Limit(entries));
    forall i | 0 <= i < |entries|
      ensures Reached(Scopes, t.scopes, entries, depth, i, k) == Final(Scopes, t.scopes, entries, depth, i) <==>
              (entries[i].key !in t.scopes && Outermost(entries, depth, i) in t.scopes ==>
                TakesPlace(t.names, entries, depth, Late(entries, depth, i)))
    {
      ScopeReached(t.scopes, entries, depth, i, k);
      ScopeReached(t.scopes, entries, depth, i, Late(entries, depth, i));
      PassTakesPlace(t.names, entries, depth, Late(entries, depth, i));
    }
  }

  /** Without namespaces no name is complete before its row's turn, so every pass that is needed takes place. */
  lemma UnqualifiedNeedsPasses(entries: seq<Entry>, names: map<nat, string>, depth: nat -> nat, i: nat)
    requires WellNested(entries, depth) && Named(entries, names) && Unqualified(entries, names)
    requires i < |entries| && Late(entries, depth, i) <= Limit(entries)
    ensures TakesPlace(names, entries, depth, Late(entries, depth, i))
  {
    hide Reached, Final, Late, WellNested, Named, Unqualified, StemsFromFinal;
    var k := Late(entries, depth, i) - 2;
    if k >= 0 {
      NameIsFinalExactly(names, entries, depth, i, k);
      UnqualifiedStems(names, entries, depth, i, k);
    }
  }

  /** That is so in well-formed metadata: nested types have a name but no namespace of their own. */
  lemma ScopesOfWellFormedTables(entries: seq<Entry>, t: Tables, depth: nat -> nat)
    requires WellNested(entries, depth) && Named(entries, t.names) && Shallow(entries, depth)
    requires Unqualified(entries, t.names)
    ensures Solved(Scopes, entries, t.scopes, Rounds(t, entries, Limit(entries)).scopes)
  {
    hide Solved, Rounds, Executed, Limit, Reached, Final, Late, WellNested, Named, Unqualified, Shallow, TakesPlace;
    ScopesAreSolvedExactly(entries, t, depth);
    var k := Executed(t.names, entries, Limit(entries));
    forall i | 0 <= i < |entries|
      ensures Reached(Scopes, t.scopes, entries, depth, i, k) == Final(Scopes, t.scopes, entries, depth, i)
    {
      ShallowIsInTime(entries, depth, i);
      UnqualifiedNeedsPasses(entries, t.names, depth, i);
      PassTakesPlace(t.names, entries, depth, Late(entries, depth, i));
      ReachSettles(Scopes, t.scopes, entries, depth, i, k);
    }
  }

  /**
   With namespaces a scope can be lost: both nested names are already complete, so the first pass
   changes no name and the loop stops before the inner type has seen its parent's scope.
   */
  lemma ScopeCanBeLost()
    ensures var entries := [Entry(2, 1, "B"), Entry(1, 0, "A")];
            var t := Tables(map[0 := "N", 1 := "N.A", 2 := "N.A.B"], map[0 := "lib"]);
            var r := Rounds(t, entries, Limit(entries));
            NamesSolved(entries, t.names, r.names) && !Solved(Scopes, entries, t.scopes, r.scopes)
  {
    var entries := [Entry(2, 1, "B"), Entry(1, 0, "A")];
    var t := Tables(map[0 := "N", 1 := "N.A", 2 := "N.A.B"], map[0 := "lib"]);
    assert Qualify("N.A", "B") == "N.A.B" && Qualify("N", "A") == "N.A";
    var t1 := Pass(t, entries, 1);
    assert t1.names == t.names && t1.scopes == t.scopes;
    var t2 := Pass(t, entries, 2);
    assert t2.names == t.names && 1 in t2.scopes && 2 !in t2.scopes;
    assert !PassChanges(t.names, entries, 1) && !PassChanges(t.names, entries, 2);
    assert Look(t2.scopes, 2) != Choose(Scopes, Look(t2.scopes, 1), Look(t.scopes, 2), "B");
  }
}
