/**
 Whole runs of the admission protocol: first-in first-out admission, and progress for
 every waiter as long as holders release and waiters recheck.
 */
module AdmissionRuns {
  import opened Common
  import opened Admission

  /** An unbounded run: at time `n` the event `ev(n)` takes state `st(n)` to `st(n + 1)`. */
  ghost predicate IsRun(c: Config, st: nat -> State, ev: nat -> Event) {
    && c.capacity > 0
    && st(0) == Initial(c)
    && forall n: nat :: Enabled(c, st(n), ev(n)) && st(n + 1) == Next(c, st(n), ev(n))
  }

  /** Safety: the invariant holds at every time of every run. */
  lemma {:induction false} RunInv(c: Config, st: nat -> State, ev: nat -> Event, n: nat)
    requires IsRun(c, st, ev)
    ensures Inv(c, st(n))
  {
    hide Inv;
    if n == 0 {
      InitialInv(c);
    } else {
      RunInv(c, st, ev, n - 1);
      assert Enabled(c, st(n - 1), ev(n - 1)) && st(n - 1 + 1) == Next(c, st(n - 1), ev(n - 1));
      StepInv(c, st(n - 1), ev(n - 1));
    }
  }

  /** Ticket `t` leaves the queue at time `n`, by its own recheck: cancelled or admitted. */
  ghost predicate Settles(st: nat -> State, ev: nat -> Event, t: nat, n: nat) {
    && t in st(n).waiting && t !in st(n + 1).waiting
    && ev(n).Poll? && ev(n).ticket == t
    && (!ev(n).cancelled ==> t in st(n + 1).held)
  }

  /** What one step can do to the queue: issue the next ticket, or settle the polled one. */
  lemma QueueStep(c: Config, s: State, e: Event, t: nat)
    requires Inv(c, s) && Enabled(c, s, e)
    ensures t in Next(c, s, e).waiting && t !in s.waiting ==> t == s.nextTicket
    ensures t in s.waiting && t !in Next(c, s, e).waiting ==>
              e.Poll? && e.ticket == t && (!e.cancelled ==> t in Next(c, s, e).held)
    ensures s.nextTicket <= Next(c, s, e).nextTicket
  {
    if e.Poll? { WithoutMembers(s.waiting, e.ticket); }
    if s.waiting != [] { HeadTail(s.waiting); }
  }

  /** Every ticket issued so far still waits or has settled. */
  lemma {:induction false} IssuedWaitsOrSettled(c: Config, st: nat -> State, ev: nat -> Event, t: nat, n: nat)
    requires IsRun(c, st, ev) && t < st(n).nextTicket
    ensures t in st(n).waiting || exists k :: 0 <= k < n && Settles(st, ev, t, k)
  {
    if n > 0 {
      var s, e := st(n - 1), ev(n - 1);
      RunInv(c, st, ev, n - 1);
      assert Enabled(c, s, e) && st(n - 1 + 1) == Next(c, s, e);
      QueueStep(c, s, e, t);
      if t < s.nextTicket {
        IssuedWaitsOrSettled(c, st, ev, t, n - 1);
        if t in s.waiting && t !in st(n).waiting { assert Settles(st, ev, t, n - 1); }
      }
    }
  }

  /** Admission is first-in first-out: every smaller ticket was admitted or cancelled before. */
  lemma AdmissionIsFifo(c: Config, st: nat -> State, ev: nat -> Event, t: nat, u: nat, n: nat)
    requires IsRun(c, st, ev)
    requires t in st(n + 1).held && t !in st(n).held && u < t
    ensures exists k :: 0 <= k < n && Settles(st, ev, u, k)
  {
    var s, e := st(n), ev(n);
    RunInv(c, st, ev, n);
    assert Enabled(c, s, e) && st(n + 1) == Next(c, s, e);
    assert e == Poll(t, false) && Admissible(s, t);
    HeadTail(s.waiting);
    IssuedWaitsOrSettled(c, st, ev, u, n);
  }

  // ----- Progress -----

  /** Every waiter rechecks again and again, as the bounded wait makes it do. */
  ghost predicate WaitersRecheck(st: nat -> State, ev: nat -> Event) {
    forall t: nat, n: nat :: t in st(n).waiting ==> exists m :: m >= n && RechecksOrLeft(st, ev, t, m)
  }

  ghost predicate RechecksOrLeft(st: nat -> State, ev: nat -> Event, t: nat, m: nat) {
    t !in st(m).waiting || (ev(m).Poll? && ev(m).ticket == t)
  }

  /** Every reservation is dropped at some time. */
  ghost predicate HoldersRelease(st: nat -> State) {
    forall t: nat, n: nat :: t in st(n).held ==> exists m :: m >= n && Released(st, t, m)
  }

  ghost predicate Released(st: nat -> State, t: nat, m: nat) { t !in st(m).held }

  ghost predicate IsHead(s: State, t: nat) { s.waiting != [] && s.waiting[0] == t }

  /** With nothing held the head of the queue is admissible, whatever it asked for. */
  lemma IdleAdmitsHead(c: Config, s: State, t: nat)
    requires Inv(c, s) && IsHead(s, t) && s.held == map[]
    ensures t in s.asked && Admissible(s, t)
  {
    LoadEmpty(s.held, s.nextTicket, Bytes);
    LoadEmpty(s.held, s.nextTicket, Workers);
  }

  /** While the head waits nobody else is admitted, so holders can only become fewer. */
  lemma HeadStep(c: Config, s: State, e: Event, t: nat)
    requires Inv(c, s) && Enabled(c, s, e) && IsHead(s, t) && t in Next(c, s, e).waiting
    ensures IsHead(Next(c, s, e), t) && Next(c, s, e).held.Keys <= s.held.Keys
    ensures !(e.Poll? && e.ticket == t && s.held == map[])
  {
    HeadTail(s.waiting);
    StepOrderly(c, s, e);
    if s.held == map[] { IdleAdmitsHead(c, s, t); }
    if e.Poll? && e.cancelled { WithoutMembers(s.waiting, e.ticket); }
  }

  lemma {:induction false} HeadStays(c: Config, st: nat -> State, ev: nat -> Event, t: nat, n: nat, m: nat)
    requires IsRun(c, st, ev) && n <= m && IsHead(st(n), t)
    ensures (IsHead(st(m), t) && st(m).held.Keys <= st(n).held.Keys)
            || exists k :: n <= k <= m && t !in st(k).waiting
    decreases m - n
  {
    hide Inv, Next, Enabled;
    if n < m {
      HeadStays(c, st, ev, t, n, m - 1);
      if forall k :: n <= k <= m - 1 ==> t in st(k).waiting {
        RunInv(c, st, ev, m - 1);
        assert Enabled(c, st(m - 1), ev(m - 1)) && st(m - 1 + 1) == Next(c, st(m - 1), ev(m - 1));
        if t in st(m).waiting { HeadStep(c, st(m - 1), ev(m - 1), t); }
      }
    }
  }

  /** The head leaves the queue: induction on the reservations that are still held. */
  lemma {:induction false} HeadLeaves(c: Config, st: nat -> State, ev: nat -> Event, t: nat, n: nat) returns (m: nat)
    requires IsRun(c, st, ev) && WaitersRecheck(st, ev) && HoldersRelease(st) && IsHead(st(n), t)
    ensures m >= n && t !in st(m).waiting
    decreases |st(n).held.Keys|
  {
    if h :| h in st(n).held.Keys {
      m :| m >= n && Released(st, h, m);
    } else {
      assert t in st(n).waiting;
      m :| m >= n && RechecksOrLeft(st, ev, t, m);
    }
    HeadStays(c, st, ev, t, n, m);
    if k :| n <= k <= m && t !in st(k).waiting {
      m := k;
    } else if st(n).held.Keys == {} {
      RunInv(c, st, ev, m);
      assert Enabled(c, st(m), ev(m)) && st(m + 1) == Next(c, st(m), ev(m));
      assert st(m).held == map[];
      if t in st(m + 1).waiting { HeadStep(c, st(m), ev(m), t); }
      m := m + 1;
    } else {
      assert st(m).held.Keys < st(n).held.Keys;
      SubsetSize(st(m).held.Keys, st(n).held.Keys);
      m := HeadLeaves(c, st, ev, t, m);
    }
  }

  /** The tickets that will be served before `t`. */
  ghost function Earlier(s: State, t: nat): set<nat> {
    set u | u in s.waiting && u < t
  }

  /** Nobody enters the queue in front of an issued ticket. */
  lemma {:induction false} NoOvertaking(c: Config, st: nat -> State, ev: nat -> Event, t: nat, n: nat, m: nat)
    requires IsRun(c, st, ev) && n <= m && t < st(n).nextTicket
    ensures Earlier(st(m), t) <= Earlier(st(n), t) && st(n).nextTicket <= st(m).nextTicket
    decreases m - n
  {
    hide Inv, Next, Enabled;
    if n < m {
      NoOvertaking(c, st, ev, t, n, m - 1);
      var s, e := st(m - 1), ev(m - 1);
      RunInv(c, st, ev, m - 1);
      assert Enabled(c, s, e) && st(m - 1 + 1) == Next(c, s, e);
      forall u | u in Earlier(st(m), t) ensures u in Earlier(st(m - 1), t) { QueueStep(c, s, e, u); }
      QueueStep(c, s, e, t);
    }
  }

  /** Every waiter leaves the queue: induction on the tickets in front of it. */
  lemma {:induction false} WaiterLeaves(c: Config, st: nat -> State, ev: nat -> Event, t: nat, n: nat) returns (m: nat)
    requires IsRun(c, st, ev) && WaitersRecheck(st, ev) && HoldersRelease(st) && t in st(n).waiting
    ensures m >= n && t !in st(m).waiting
    decreases |Earlier(st(n), t)|
  {
    hide IsRun, WaitersRecheck, HoldersRelease, Next, Conserved;
    RunInv(c, st, ev, n);
    var head := st(n).waiting[0];
    HeadTail(st(n).waiting);
    m := HeadLeaves(c, st, ev, head, n);
    if t in st(m).waiting {
      NoOvertaking(c, st, ev, t, n, m);
      assert head in Earlier(st(n), t) && head !in Earlier(st(m), t);
      SubsetSize(Earlier(st(m), t), Earlier(st(n), t));
      m := WaiterLeaves(c, st, ev, t, m);
    }
  }

  /** No deadlock and no starvation: a waiter that is never cancelled is admitted. */
  lemma EveryWaiterIsAdmitted(c: Config, st: nat -> State, ev: nat -> Event, t: nat, n: nat) returns (m: nat)
    requires IsRun(c, st, ev) && WaitersRecheck(st, ev) && HoldersRelease(st) && t in st(n).waiting
    requires forall k :: k >= n ==> ev(k) != Poll(t, true)
    ensures m >= n && t in st(m).waiting && ev(m) == Poll(t, false) && t in st(m + 1).held
  {
    var left := WaiterLeaves(c, st, ev, t, n);
    m := n;
    while t in st(m + 1).waiting
      invariant n <= m < left && t in st(m).waiting
      decreases left - m
    {
      m := m + 1;
    }
    RunInv(c, st, ev, m);
    assert Enabled(c, st(m), ev(m)) && st(m + 1) == Next(c, st(m), ev(m));
    QueueStep(c, st(m), ev(m), t);
  }
}
