/**
 The admission protocol of `src/memory.rs`: a first-in first-out queue of tickets that
 acquires bytes and a worker together. Every section under the mutex is one step, and so
 is the unlocked first half of `release_worker` and `shrink_to`.
 */
module Admission {
  /** The limits of a budget; `capacity` is positive. */
  datatype Config = Config(capacity: nat, workers: nat)

  /** What one call of `reserve` asks for, after clipping. */
  datatype Request = Request(bytes: nat, worker: bool)

  /**
   A live reservation. The owed part has left the reservation's own fields, but has not
   been added back under the mutex yet.
   */
  datatype Holding = Holding(bytes: nat, worker: bool, owedBytes: nat, owedWorker: bool)

  /** The mutex-protected fields, and what every client has, by ticket. */
  datatype State = State(available: int, workers: int, nextTicket: nat, waiting: seq<nat>,
                         asked: map<nat, Request>, held: map<nat, Holding>)

  datatype Event =
    | Enqueue(bytes: nat, worker: bool)
    | Poll(ticket: nat, cancelled: bool)
    | BeginReleaseWorker(ticket: nat)
    | BeginShrink(ticket: nat, to: nat)
    | GiveBack(ticket: nat)
    | Drop(ticket: nat)

  function Initial(c: Config): State {
    State(c.capacity, c.workers, 0, [], map[], map[])
  }

  /** An oversized request is clipped, so it can run alone. */
  function Clip(c: Config, bytes: nat): (r: nat)
    requires c.capacity > 0
    ensures 1 <= r <= c.capacity && (1 <= bytes <= c.capacity ==> r == bytes)
    ensures (bytes > c.capacity ==> r == c.capacity) && (bytes == 0 ==> r == 1)
  {
    var atLeastOne := if bytes < 1 then 1 else bytes;
    if atLeastOne < c.capacity then atLeastOne else c.capacity
  }

  function Without(waiting: seq<nat>, ticket: nat): seq<nat> {
    if waiting == [] then []
    else if waiting[0] == ticket then Without(waiting[1..], ticket)
    else [waiting[0]] + Without(waiting[1..], ticket)
  }

  predicate Admissible(s: State, ticket: nat)
    requires ticket in s.asked
  {
    && s.waiting != [] && s.waiting[0] == ticket
    && s.available >= s.asked[ticket].bytes
    && (s.asked[ticket].worker ==> s.workers > 0)
  }

  function Count(b: bool): nat { if b then 1 else 0 }

  /** Who may do what. A client in the middle of giving something back does that first. */
  predicate Enabled(c: Config, s: State, e: Event) {
    match e
    case Enqueue(_, worker) => worker ==> c.workers > 0
    case Poll(t, _) => t in s.asked
    case GiveBack(t) => t in s.held
    case _ => e.ticket in s.held && s.held[e.ticket].owedBytes == 0 && !s.held[e.ticket].owedWorker
  }

  function Next(c: Config, s: State, e: Event): State
    requires c.capacity > 0 && Enabled(c, s, e)
  {
    match e
    case Enqueue(bytes, worker) =>
      s.(nextTicket := s.nextTicket + 1, waiting := s.waiting + [s.nextTicket],
         asked := s.asked[s.nextTicket := Request(Clip(c, bytes), worker)])
    case Poll(t, cancelled) =>
      if cancelled then s.(waiting := Without(s.waiting, t), asked := s.asked - {t})
      else if Admissible(s, t) then
        var r := s.asked[t];
        s.(waiting := s.waiting[1..], asked := s.asked - {t},
           available := s.available - r.bytes, workers := s.workers - Count(r.worker),
           held := s.held[t := Holding(r.bytes, r.worker, 0, false)])
      else s
    case BeginReleaseWorker(t) =>
      var h := s.held[t];
      s.(held := s.held[t := h.(worker := false, owedWorker := h.worker)])
    case BeginShrink(t, to) =>
      var h := s.held[t];
      var retained := if to < h.bytes then to else h.bytes;
      s.(held := s.held[t := h.(bytes := retained, owedBytes := h.bytes - retained)])
    case GiveBack(t) =>
      var h := s.held[t];
      s.(available := s.available + h.owedBytes, workers := s.workers + Count(h.owedWorker),
         held := s.held[t := h.(owedBytes := 0, owedWorker := false)])
    case Drop(t) =>
      var h := s.held[t];
      s.(available := s.available + h.bytes, workers := s.workers + Count(h.worker), held := s.held - {t})
  }

  // ----- The safety invariant -----

  datatype Part = Bytes | Workers

  function Amount(h: Holding, part: Part): nat {
    match part
    case Bytes => h.bytes + h.owedBytes
    case Workers => Count(h.worker) + Count(h.owedWorker)
  }

  /** How much the holders with tickets below `n` have or still owe. */
  function Load(held: map<nat, Holding>, n: nat, part: Part): nat {
    if n == 0 then 0
    else Load(held, n - 1, part) + (if n - 1 in held then Amount(held[n - 1], part) else 0)
  }

  ghost predicate Increasing(waiting: seq<nat>) {
    waiting == [] || ((forall t :: t in waiting[1..] ==> waiting[0] < t) && Increasing(waiting[1..]))
  }

  /** Nothing is created or lost. */
  ghost predicate Conserved(c: Config, s: State) {
    && s.available + Load(s.held, s.nextTicket, Bytes) == c.capacity
    && s.workers + Load(s.held, s.nextTicket, Workers) == c.workers
  }

  /** Tickets are issued in order; a waiter has no reservation and asks for what exists; a holder has or owes a worker. */
  ghost predicate Orderly(c: Config, s: State) {
    && Increasing(s.waiting)
    && (forall t :: t in s.asked <==> t in s.waiting)
    && (forall t :: t in s.asked || t in s.held ==> t < s.nextTicket)
    && s.asked.Keys !! s.held.Keys
    && (forall t :: t in s.held ==> !(s.held[t].worker && s.held[t].owedWorker))
    && (forall t :: t in s.asked ==> 1 <= s.asked[t].bytes <= c.capacity && (s.asked[t].worker ==> c.workers > 0))
  }

  /** No counter under- or overflows. */
  ghost predicate InRange(c: Config, s: State) {
    0 <= s.available <= c.capacity && 0 <= s.workers <= c.workers
  }

  ghost predicate Inv(c: Config, s: State) {
    c.capacity > 0 && Conserved(c, s) && Orderly(c, s) && InRange(c, s)
  }

  lemma {:induction false} LoadOutside(held: map<nat, Holding>, held': map<nat, Holding>, n: nat, part: Part)
    requires forall t :: t < n ==> (t in held <==> t in held') && (t in held ==> held[t] == held'[t])
    ensures Load(held, n, part) == Load(held', n, part)
  {
    if n > 0 { LoadOutside(held, held', n - 1, part); }
  }

  /** Changing one holder changes the load by the difference. */
  lemma {:induction false} LoadUpdate(held: map<nat, Holding>, t: nat, h: Holding, n: nat, part: Part)
    requires t < n
    ensures Load(held[t := h], n, part) + (if t in held then Amount(held[t], part) else 0)
            == Load(held, n, part) + Amount(h, part)
  {
    if t == n - 1 {
      LoadOutside(held, held[t := h], n - 1, part);
    } else {
      LoadUpdate(held, t, h, n - 1, part);
    }
  }

  lemma {:induction false} LoadRemove(held: map<nat, Holding>, t: nat, n: nat, part: Part)
    requires t < n && t in held
    ensures Load(held - {t}, n, part) + Amount(held[t], part) == Load(held, n, part)
  {
    if t == n - 1 {
      LoadOutside(held, held - {t}, n - 1, part);
    } else {
      LoadRemove(held, t, n - 1, part);
    }
  }

  lemma {:induction false} LoadEmpty(held: map<nat, Holding>, n: nat, part: Part)
    requires held == map[]
    ensures Load(held, n, part) == 0
  {
    if n > 0 { LoadEmpty(held, n - 1, part); }
  }

  lemma HeadTail(waiting: seq<nat>)
    requires waiting != []
    ensures forall t :: t in waiting <==> t == waiting[0] || t in waiting[1..]
  {
    assert waiting == [waiting[0]] + waiting[1..];
  }

  lemma {:induction false} IncreasingSnoc(waiting: seq<nat>, last: nat)
    requires Increasing(waiting) && forall t :: t in waiting ==> t < last
    ensures Increasing(waiting + [last])
  {
    if waiting == [] {
      assert [last][1..] == [];
    } else {
      HeadTail(waiting);
      IncreasingSnoc(waiting[1..], last);
      assert (waiting + [last])[1..] == waiting[1..] + [last];
      assert waiting[0] in waiting;
    }
  }

  lemma {:induction false} WithoutMembers(waiting: seq<nat>, ticket: nat)
    ensures forall t :: t in Without(waiting, ticket) <==> t in waiting && t != ticket
    ensures Increasing(waiting) ==> Increasing(Without(waiting, ticket))
  {
    if waiting != [] {
      HeadTail(waiting);
      WithoutMembers(waiting[1..], ticket);
      if waiting[0] != ticket { assert Without(waiting, ticket)[1..] == Without(waiting[1..], ticket); }
    }
  }

  lemma InitialInv(c: Config)
    requires c.capacity > 0
    ensures Inv(c, Initial(c))
  {
  }

  lemma StepConserves(c: Config, s: State, e: Event)
    requires c.capacity > 0 && Enabled(c, s, e) && Conserved(c, s) && Orderly(c, s)
    ensures Conserved(c, Next(c, s, e))
  {
    var s' := Next(c, s, e);
    match e
    case Enqueue(_, _) =>
      assert s.nextTicket !in s.held;
    case Poll(t, cancelled) =>
      if !cancelled && Admissible(s, t) {
        assert t !in s.held;
        UpdateLoads(s, t, s'.held[t]);
      }
    case Drop(t) =>
      LoadRemove(s.held, t, s.nextTicket, Bytes);
      LoadRemove(s.held, t, s.nextTicket, Workers);
    case _ =>
      UpdateLoads(s, e.ticket, s'.held[e.ticket]);
  }

  lemma UpdateLoads(s: State, t: nat, h: Holding)
    requires t < s.nextTicket
    ensures var n, was := s.nextTicket, if t in s.held then s.held[t] else Holding(0, false, 0, false);
            && Load(s.held[t := h], n, Bytes) + Amount(was, Bytes) == Load(s.held, n, Bytes) + Amount(h, Bytes)
            && Load(s.held[t := h], n, Workers) + Amount(was, Workers) == Load(s.held, n, Workers) + Amount(h, Workers)
  {
    LoadUpdate(s.held, t, h, s.nextTicket, Bytes);
    LoadUpdate(s.held, t, h, s.nextTicket, Workers);
  }

  lemma PollOrderly(c: Config, s: State, t: nat, cancelled: bool)
    requires c.capacity > 0 && Orderly(c, s) && t in s.asked
    ensures Orderly(c, Next(c, s, Poll(t, cancelled)))
  {
    if cancelled {
      WithoutMembers(s.waiting, t);
    } else if Admissible(s, t) {
      HeadTail(s.waiting);
    }
  }

  lemma StepOrderly(c: Config, s: State, e: Event)
    requires c.capacity > 0 && Enabled(c, s, e) && Orderly(c, s)
    ensures Orderly(c, Next(c, s, e))
  {
    hide Increasing;
    match e
    case Enqueue(_, _) => IncreasingSnoc(s.waiting, s.nextTicket);
    case Poll(t, cancelled) => PollOrderly(c, s, t, cancelled);
    case _ =>
  }

  /** Every step keeps the invariant, so it holds over every interleaving. */
  lemma StepInv(c: Config, s: State, e: Event)
    requires Inv(c, s) && Enabled(c, s, e)
    ensures Inv(c, Next(c, s, e))
  {
    StepConserves(c, s, e);
    StepOrderly(c, s, e);
    StepInRange(c, s, e);
  }

  /** Admission takes no more than is there, and every return is covered by the holder's load. */
  lemma StepInRange(c: Config, s: State, e: Event)
    requires Inv(c, s) && Enabled(c, s, e)
    ensures InRange(c, Next(c, s, e))
  {
    StepConserves(c, s, e);
  }

  /** Whoever asks is in the queue. */
  lemma SomebodyWaits(c: Config, s: State, t: nat)
    requires Inv(c, s) && t in s.asked
    ensures t in s.waiting && (s.waiting[0] == t ==> t !in s.waiting[1..])
  {
  }

  ghost function WithWorkers(held: map<nat, Holding>, n: nat): set<nat> {
    set t | t in held && t < n && (held[t].worker || held[t].owedWorker)
  }

  lemma {:induction false} LoadCountsWorkers(held: map<nat, Holding>, n: nat)
    requires forall t :: t in held ==> !(held[t].worker && held[t].owedWorker)
    ensures Load(held, n, Workers) == |WithWorkers(held, n)|
  {
    if n > 0 {
      LoadCountsWorkers(held, n - 1);
      var last := if n - 1 in held && (held[n - 1].worker || held[n - 1].owedWorker) then {n - 1} else {};
      assert WithWorkers(held, n) == WithWorkers(held, n - 1) + last;
    } else {
      assert WithWorkers(held, n) == {};
    }
  }

  /** Free workers and the clients that have one or owe one add up to the limit. */
  lemma WorkersAreCounted(c: Config, s: State)
    requires Inv(c, s)
    ensures s.workers + |set t | t in s.held && (s.held[t].worker || s.held[t].owedWorker)| == c.workers
  {
    LoadCountsWorkers(s.held, s.nextTicket);
    assert WithWorkers(s.held, s.nextTicket) == set t | t in s.held && (s.held[t].worker || s.held[t].owedWorker);
  }
}
