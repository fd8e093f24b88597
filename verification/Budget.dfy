/**
 `Budget` and `Reservation` of `src/memory.rs` as the objects they are. Each method is one
 section under the mutex and is proved to be the matching step of the protocol. A blocked
 `Reserve` is one `Enqueue` followed by `Recheck` after every wake-up.
 */
module BudgetObjects {
  import opened Common
  import opened Admission

  datatype Outcome = Waiting | Cancelled | Admitted

  datatype Stats = Stats(capacityBytes: nat, reservedBytes: nat, workerLimit: nat, activeWorkers: nat, waiting: nat)

  class Budget {
    const config: Config
    var available: nat
    var workers: nat
    var nextTicket: nat
    var waiting: seq<nat>
    ghost var asked: map<nat, Request>
    ghost var held: map<nat, Holding>

    /** The protocol state this object is in. */
    ghost function Abstract(): State
      reads this
    {
      State(available, workers, nextTicket, waiting, asked, held)
    }

    ghost predicate Valid()
      reads this
    {
      Inv(config, Abstract())
    }

    constructor (capacity: nat, workers: nat)
      requires capacity > 0
      ensures Valid() && config == Config(capacity, workers) && Abstract() == Initial(config)
    {
      config := Config(capacity, workers);
      this.available, this.workers, this.nextTicket, this.waiting := capacity, workers, 0, [];
      asked, held := map[], map[];
      new;
      InitialInv(config);
    }

    /** The start of `reserve`: a call that is already cancelled takes no ticket. */
    method Enqueue(bytes: nat, worker: bool, cancelled: bool) returns (ticket: Option<nat>)
      requires Valid() && (worker ==> config.workers > 0)
      modifies this
      ensures Valid()
      ensures cancelled ==> ticket == None && Abstract() == old(Abstract())
      ensures !cancelled ==>
                && ticket == Some(old(nextTicket))
                && Abstract() == Next(config, old(Abstract()), Event.Enqueue(bytes, worker))
                && waiting == old(waiting) + [old(nextTicket)] && available == old(available) && workers == old(workers)
    {
      if cancelled { return None; }
      ghost var before := Abstract();
      ticket := Some(nextTicket);
      asked := asked[nextTicket := Request(Clip(config, bytes), worker)];
      nextTicket := nextTicket + 1;
      waiting := waiting + [ticket.value];
      StepInv(config, before, Event.Enqueue(bytes, worker));
    }

    /** One turn of the loop in `reserve`; cancellation is looked at first. */
    method Recheck(ticket: nat, bytes: nat, worker: bool, cancelled: bool) returns (outcome: Outcome)
      requires Valid() && ticket in asked && asked[ticket] == Request(bytes, worker)
      modifies this
      ensures Valid() && Abstract() == Next(config, old(Abstract()), Poll(ticket, cancelled))
      ensures outcome == Cancelled <==> cancelled
      ensures outcome == Admitted ==> ticket in held && held[ticket] == Holding(bytes, worker, 0, false)
      ensures outcome == Admitted ==> available == old(available) - bytes && workers == old(workers) - (if worker then 1 else 0)
      ensures outcome == Admitted <==>
                !cancelled && old(waiting)[0] == ticket && bytes <= old(available) && (worker ==> old(workers) > 0)
      ensures outcome == Cancelled ==> available == old(available) && workers == old(workers)
      ensures outcome != Waiting ==> ticket !in waiting && forall t :: t in old(waiting) && t != ticket ==> t in waiting
      ensures outcome == Waiting ==> Abstract() == old(Abstract())
    {
      hide Inv, Load, Without;
      ghost var before := Abstract();
      StepInv(config, before, Poll(ticket, cancelled));
      SomebodyWaits(config, before, ticket);
      HeadTail(waiting);
      WithoutMembers(waiting, ticket);
      if cancelled {
        waiting := Without(waiting, ticket);
        asked := asked - {ticket};
        return Cancelled;
      }
      if waiting != [] && waiting[0] == ticket && available >= bytes && (!worker || workers > 0) {
        waiting := waiting[1..];
        available := available - bytes;
        workers := workers - Count(worker);
        asked, held := asked - {ticket}, held[ticket := Holding(bytes, worker, 0, false)];
        return Admitted;
      }
      return Waiting;
    }

    /** The figures a reader sees are exactly what the holders have or still owe. */
    method Report() returns (stats: Stats)
      requires Valid()
      ensures stats.reservedBytes == Load(held, nextTicket, Bytes) <= stats.capacityBytes == config.capacity
      ensures stats.activeWorkers == Load(held, nextTicket, Workers) <= stats.workerLimit == config.workers
      ensures stats.waiting == |waiting|
    {
      stats := Stats(config.capacity, config.capacity - available, config.workers, config.workers - workers, |waiting|);
    }

    /** The locked half of a release: what the holder owes becomes available. */
    method AddBack(bytes: nat, worker: bool, ghost ticket: nat)
      requires Valid() && ticket in held
      requires held[ticket].owedBytes == bytes && held[ticket].owedWorker == worker
      modifies this
      ensures Valid() && Abstract() == Next(config, old(Abstract()), GiveBack(ticket))
      ensures available == old(available) + bytes && workers == old(workers) + (if worker then 1 else 0)
    {
      ghost var before := Abstract();
      StepInv(config, before, GiveBack(ticket));
      available := available + bytes;
      workers := workers + Count(worker);
      held := held[ticket := held[ticket].(owedBytes := 0, owedWorker := false)];
    }
  }

  class Reservation {
    const budget: Budget
    ghost const ticket: nat
    var bytes: nat
    var worker: bool

    /** The reservation's own fields are what the protocol says its ticket holds. */
    ghost predicate Valid()
      reads this, budget
    {
      budget.Valid() && ticket in budget.held && budget.held[ticket] == Holding(bytes, worker, 0, false)
    }

    /** Built only from an admission. */
    constructor (budget: Budget, bytes: nat, worker: bool, ghost ticket: nat)
      requires budget.Valid() && ticket in budget.held
      requires budget.held[ticket] == Holding(bytes, worker, 0, false)
      ensures Valid() && this.budget == budget && this.bytes == bytes && this.worker == worker
    {
      this.budget, this.bytes, this.worker, this.ticket := budget, bytes, worker, ticket;
    }

    method ReleaseWorker()
      requires Valid()
      modifies this, budget
      ensures Valid() && !worker && bytes == old(bytes)
      ensures budget.available == old(budget.available)
      ensures budget.workers == old(budget.workers) + (if old(worker) then 1 else 0)
      ensures budget.Abstract() ==
              Next(budget.config, Next(budget.config, old(budget.Abstract()), BeginReleaseWorker(ticket)), GiveBack(ticket))
    {
      if worker {
        ghost var before := budget.Abstract();
        StepInv(budget.config, before, BeginReleaseWorker(ticket));
        worker := false;
        budget.held := budget.held[ticket := Holding(bytes, false, 0, true)];
        budget.AddBack(0, true, ticket);
      }
    }

    /** Shrinking never acquires anything: a larger target keeps what is held. */
    method ShrinkTo(target: nat)
      requires Valid()
      modifies this, budget
      ensures Valid() && worker == old(worker)
      ensures bytes == if target < old(bytes) then target else old(bytes)
      ensures budget.available == old(budget.available) + (old(bytes) - bytes) && budget.workers == old(budget.workers)
      ensures budget.Abstract() ==
              Next(budget.config, Next(budget.config, old(budget.Abstract()), BeginShrink(ticket, target)), GiveBack(ticket))
    {
      var retained := if target < bytes then target else bytes;
      var released := bytes - retained;
      if released != 0 {
        ghost var before := budget.Abstract();
        StepInv(budget.config, before, BeginShrink(ticket, target));
        bytes := retained;
        budget.held := budget.held[ticket := Holding(bytes, worker, released, false)];
        budget.AddBack(released, false, ticket);
      }
    }

    /** The destructor: everything still held returns, and the ticket holds nothing. */
    method Discard()
      requires Valid()
      modifies budget
      ensures budget.Valid() && ticket !in budget.held
      ensures budget.available == old(budget.available) + bytes
      ensures budget.workers == old(budget.workers) + (if worker then 1 else 0)
      ensures budget.Abstract() == Next(budget.config, old(budget.Abstract()), Drop(ticket))
    {
      ghost var before := budget.Abstract();
      StepInv(budget.config, before, Drop(ticket));
      budget.available := budget.available + bytes;
      budget.workers := budget.workers + Count(worker);
      budget.held := budget.held - {ticket};
    }
  }
}
