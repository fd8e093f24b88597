/**
 The crash ordering of `src/cache_migration.rs`: a durable marker is written before anything
 is removed. The disk keeps what is durable apart from directory operations that are not
 synced yet, each of which a power loss may lose or keep.
 */
module CacheMigration {
  // ----- Disks and power losses -----

  /** Which entries there are. */
  datatype Directory = Directory(present: bool, data: bool, lock: bool, marker: bool)

  datatype Operation = CreateMarker | RemoveData | RemoveLock | RemoveMarker | RemoveDirectory

  /**
   Durable entries, the operations behind them that are not synced, and the contents of the
   marker file: whether all of it has been written, and whether that is synced.
   */
  datatype Disk = Disk(durable: Directory, pending: seq<Operation>, written: bool, synced: bool)

  datatype Marker = Absent | Partial | Complete

  /** What somebody sees who opens the directory. */
  datatype View = View(present: bool, data: bool, lock: bool, marker: Marker)

  function Do(d: Directory, op: Operation): Directory {
    match op
    case CreateMarker => d.(marker := true)
    case RemoveData => d.(data := false)
    case RemoveLock => d.(lock := false)
    case RemoveMarker => d.(marker := false)
    case RemoveDirectory => Directory(false, false, false, false)
  }

  /** The entries when some of the operations in front of which `kept` says so have happened. */
  function Persist(d: Directory, ops: seq<Operation>, kept: seq<bool>): Directory
    requires |kept| == |ops|
    decreases |ops|
  {
    if ops == [] then d else Persist(if kept[0] then Do(d, ops[0]) else d, ops[1..], kept[1..])
  }

  /** Unsynced contents may be there in part only. */
  function Seen(d: Directory, written: bool): View {
    View(d.present, d.data, d.lock, if !d.marker then Absent else if written then Complete else Partial)
  }

  function AfterLoss(disk: Disk, kept: seq<bool>, contents: bool): View
    requires |kept| == |disk.pending|
  {
    Seen(Persist(disk.durable, disk.pending, kept), disk.written && (disk.synced || contents))
  }

  /** What the running system sees: nothing is lost. */
  function Visible(disk: Disk): View {
    AfterLoss(disk, seq(|disk.pending|, _ => true), true)
  }

  /** The disk that a system finds when it starts again. */
  function Restarted(v: View): Disk {
    Disk(Directory(v.present, v.data, v.lock, v.marker != Absent), [], v.marker == Complete, true)
  }

  ghost predicate Settled(disk: Disk) {
    && disk.pending == [] && (disk.durable.marker ==> disk.synced)
    && (!disk.durable.present ==> disk.durable == Directory(false, false, false, false))
  }

  /** Both files are there, or a complete marker is, or both files are gone. */
  predicate Recoverable(v: View) {
    (v.data && v.lock) || v.marker == Complete || (!v.data && !v.lock)
  }

  /** Whatever a power loss does now, the result is recoverable. */
  ghost predicate Safe(disk: Disk) {
    forall kept: seq<bool>, contents: bool :: |kept| == |disk.pending| ==> Recoverable(AfterLoss(disk, kept, contents))
  }

  // ----- The states a run goes through -----

  function Issue(disk: Disk, op: Operation): Disk {
    disk.(pending := disk.pending + [op])
  }

  function SyncDirectory(disk: Disk): Disk {
    disk.(durable := Persist(disk.durable, disk.pending, seq(|disk.pending|, _ => true)), pending := [])
  }

  /** Removing files, then making that durable, then removing the marker and an empty directory. */
  function Removal(disk: Disk, others: bool): seq<Disk> {
    var a := if Visible(disk).data then Issue(disk, RemoveData) else disk;
    var b := if Visible(a).lock then Issue(a, RemoveLock) else a;
    var c := SyncDirectory(b);
    var d := Issue(c, RemoveMarker);
    [a, b, c, d, if others then d else Issue(d, RemoveDirectory)]
  }

  /** Writing the marker and making it durable. */
  function Marking(disk: Disk): seq<Disk> {
    var a := Issue(disk, CreateMarker).(written := false, synced := false);
    var b := a.(written := true);
    var c := b.(synced := true);
    [a, b, c, SyncDirectory(c)]
  }

  /** The states of a whole run, the first one included; an interrupted run goes through a prefix. */
  function Stages(disk: Disk, recognized: bool, others: bool): seq<Disk> {
    var v := Visible(disk);
    if !v.present || v.marker == Partial then [disk]
    else if v.marker == Complete then [disk] + Removal(disk, others)
    else if !v.data || !v.lock || !recognized then [disk]
    else [disk] + (Marking(disk) + Removal(Marking(disk)[3], others))
  }

  datatype Outcome = Done | Refused | Interrupted

  class Cache {
    var disk: Disk
    /** The states this run has gone through. */
    ghost var trace: seq<Disk>

    constructor (disk: Disk)
      ensures this.disk == disk && trace == [disk]
    {
      this.disk, trace := disk, [disk];
    }

    /** Goes on to the next planned state; any operation on the file system may fail instead. */
    method Change(to: Disk, ghost plan: seq<Disk>) returns (ok: bool)
      requires |trace| < |plan| && trace == plan[..|trace|] && plan[|trace|] == to
      modifies this
      ensures ok ==> disk == to && |trace| == |old(trace)| + 1
      ensures !ok ==> disk == old(disk) && |trace| == |old(trace)|
      ensures trace == plan[..|trace|]
    {
      ok := *;
      if ok {
        disk := to;
        trace := trace + [to];
      }
    }

    /** `others` says whether the directory has further entries. */
    method RemoveAnalysis(others: bool, ghost plan: seq<Disk>) returns (outcome: Outcome)
      requires |plan| == |trace| + 5 && trace == plan[..|trace|] && plan[|trace|..] == Removal(disk, others)
      modifies this
      ensures outcome != Refused
      ensures |old(trace)| <= |trace| <= |plan| && trace == plan[..|trace|]
      ensures outcome == Done ==> trace == plan && disk == plan[|plan| - 1]
    {
      hide Visible, SyncDirectory, Issue;
      ghost var n, stages := |trace|, Removal(disk, others);
      assert forall k :: 0 <= k < 5 ==> plan[n + k] == stages[k];
      var ok := Change(if Visible(disk).data then Issue(disk, RemoveData) else disk, plan);
      if !ok { return Interrupted; }
      ok := Change(if Visible(disk).lock then Issue(disk, RemoveLock) else disk, plan);
      if !ok { return Interrupted; }
      ok := Change(SyncDirectory(disk), plan);
      if !ok { return Interrupted; }
      ok := Change(Issue(disk, RemoveMarker), plan);
      if !ok { return Interrupted; }
      ok := Change(if others then disk else Issue(disk, RemoveDirectory), plan);
      return if ok then Done else Interrupted;
    }

    /** `recognized` is what the database says about its own format. */
    method LegacyAnalysis(recognized: bool, others: bool) returns (outcome: Outcome)
      requires trace == [disk]
      modifies this
      ensures 0 < |trace| <= |Stages(old(disk), recognized, others)|
      ensures trace == Stages(old(disk), recognized, others)[..|trace|]
      ensures outcome == Refused <==> Visible(old(disk)).present && Visible(old(disk)).marker == Partial
      ensures outcome == Done ==> trace == Stages(old(disk), recognized, others) && disk == trace[|trace| - 1]
    {
      hide Visible, Removal, SyncDirectory, Issue;
      ghost var plan := Stages(disk, recognized, others);
      RemovalLength(disk, others);
      var v := Visible(disk);
      if !v.present { return Done; }
      if v.marker == Partial { return Refused; }
      if v.marker == Complete {
        outcome := RemoveAnalysis(others, plan);
        return;
      }
      if !v.data { return Done; }
      if !v.lock { return Done; }
      if !recognized { return Done; }
      ghost var marking := Marking(disk);
      RemovalLength(marking[3], others);
      assert forall k :: 0 <= k < 4 ==> plan[1 + k] == marking[k];
      var ok := Change(Issue(disk, CreateMarker).(written := false, synced := false), plan);
      if !ok { return Interrupted; }
      ok := Change(disk.(written := true), plan);
      if !ok { return Interrupted; }
      ok := Change(disk.(synced := true), plan);
      if !ok { return Interrupted; }
      ok := Change(SyncDirectory(disk), plan);
      if !ok { return Interrupted; }
      assert plan[5..] == Removal(marking[3], others);
      outcome := RemoveAnalysis(others, plan);
    }
  }

  lemma RemovalLength(disk: Disk, others: bool)
    ensures |Removal(disk, others)| == 5
  {
  }

  // ----- Every state of every run is safe -----

  /** The view after a loss when at most two operations are pending. */
  function ShortLoss(disk: Disk, first: bool, second: bool, contents: bool): View {
    var one := if |disk.pending| > 0 && first then Do(disk.durable, disk.pending[0]) else disk.durable;
    var two := if |disk.pending| > 1 && second then Do(one, disk.pending[1]) else one;
    Seen(two, disk.written && (disk.synced || contents))
  }

  lemma PersistIsShort(d: Directory, ops: seq<Operation>, kept: seq<bool>)
    requires |kept| == |ops| <= 2
    ensures var one := if |ops| > 0 && kept[0] then Do(d, ops[0]) else d;
            Persist(d, ops, kept) == if |ops| > 1 && kept[1] then Do(one, ops[1]) else one
  {
    hide Do;
    if ops != [] {
      var one := if kept[0] then Do(d, ops[0]) else d;
      assert Persist(d, ops, kept) == Persist(one, ops[1..], kept[1..]);
      if |ops| == 2 {
        var two := if kept[1] then Do(one, ops[1]) else one;
        assert Persist(one, ops[1..], kept[1..]) == Persist(two, ops[1..][1..], kept[1..][1..]);
      }
    }
  }

  lemma LossIsShort(disk: Disk, kept: seq<bool>, contents: bool)
    requires |kept| == |disk.pending| <= 2
    ensures AfterLoss(disk, kept, contents) == ShortLoss(disk, |kept| > 0 && kept[0], |kept| > 1 && kept[1], contents)
  {
    hide Persist, Do;
    PersistIsShort(disk.durable, disk.pending, kept);
  }

  lemma VisibleIsShort(disk: Disk)
    requires |disk.pending| <= 2
    ensures Visible(disk) == ShortLoss(disk, true, true, true)
  {
    LossIsShort(disk, seq(|disk.pending|, _ => true), true);
  }

  lemma SyncIsShort(disk: Disk)
    requires |disk.pending| <= 2
    ensures var one := if |disk.pending| > 0 then Do(disk.durable, disk.pending[0]) else disk.durable;
            SyncDirectory(disk).durable == if |disk.pending| > 1 then Do(one, disk.pending[1]) else one
  {
    hide Persist, Do;
    PersistIsShort(disk.durable, disk.pending, seq(|disk.pending|, _ => true));
  }

  /** A disk with few pending operations is safe exactly if all of their combinations are. */
  lemma ShortIsSafe(disk: Disk)
    requires |disk.pending| <= 2
    ensures Safe(disk) <==> forall first, second, contents :: Recoverable(ShortLoss(disk, first, second, contents))
  {
    hide Persist, Recoverable, AfterLoss, ShortLoss;
    if Safe(disk) {
      forall first, second, contents ensures Recoverable(ShortLoss(disk, first, second, contents)) {
        var kept := [first, second][..|disk.pending|];
        LossIsShort(disk, kept, contents);
        OnlyPendingMatter(disk, first, second, contents);
        assert Recoverable(AfterLoss(disk, kept, contents));
      }
    }
    if forall first, second, contents :: Recoverable(ShortLoss(disk, first, second, contents)) {
      forall kept: seq<bool>, contents: bool | |kept| == |disk.pending| ensures Recoverable(AfterLoss(disk, kept, contents)) {
        LossIsShort(disk, kept, contents);
      }
    }
  }

  lemma OnlyPendingMatter(disk: Disk, first: bool, second: bool, contents: bool)
    ensures ShortLoss(disk, first, second, contents) ==
            ShortLoss(disk, |disk.pending| > 0 && first, |disk.pending| > 1 && second, contents)
  {
  }

  // ----- The disks a run may find -----

  /** The marker and its contents are durable, and nothing but the files is about to go. */
  predicate Anchored(disk: Disk) {
    && disk.durable.present && disk.durable.marker && disk.written && disk.synced
    && (disk.pending == [] || disk.pending == [RemoveData] || disk.pending == [RemoveData, RemoveLock]
        || (disk.pending == [RemoveLock] && !disk.durable.data))
  }

  /** The files are gone for good, and the marker is about to go. */
  predicate Emptied(disk: Disk) {
    && disk.durable.present && !disk.durable.data && !disk.durable.lock
    && (disk.pending == [RemoveMarker] || disk.pending == [RemoveMarker, RemoveDirectory])
  }

  /** The files are there, and a marker has been created that a power loss may take. */
  predicate Unanchored(disk: Disk) {
    disk.durable == Directory(true, true, true, false) && disk.pending == [CreateMarker]
  }

  /** Everything that power losses and killed processes leave, apart from a complete marker that is not durable. */
  ghost predicate Resumable(disk: Disk) {
    || (Settled(disk) && Recoverable(Visible(disk)))
    || Anchored(disk) || Emptied(disk) || (Unanchored(disk) && !disk.written)
  }

  /** The marker is there to see, and a power loss may still take it. */
  predicate Trusting(disk: Disk) {
    Visible(disk).marker == Complete && CreateMarker in disk.pending
  }

  /** A loss of operations does not leave entries in a directory that is gone. */
  ghost predicate Tidy(disk: Disk) {
    && (!disk.durable.present ==> disk.durable == Directory(false, false, false, false))
    && (CreateMarker in disk.pending ==> disk.durable.present && RemoveDirectory !in disk.pending)
  }

  lemma ResumableIsSafe(disk: Disk)
    requires Resumable(disk)
    ensures Safe(disk) && Tidy(disk) && !Trusting(disk)
  {
    hide Safe, AfterLoss, Persist;
    VisibleIsShort(disk);
    if Anchored(disk) { MarkedIsSafe(disk); } else if Emptied(disk) { EmptyIsSafe(disk); } else { ShortIsSafe(disk); }
  }

  /** With a durable marker files may go in any order. */
  lemma MarkedIsSafe(disk: Disk)
    requires Anchored(disk)
    ensures Safe(disk)
  {
    hide Safe;
    ShortIsSafe(disk);
  }

  /** Without files the marker may go, and so may the directory. */
  lemma EmptyIsSafe(disk: Disk)
    requires Emptied(disk)
    ensures Safe(disk)
  {
    hide Safe;
    ShortIsSafe(disk);
  }

  lemma UnanchoredIsSafe(disk: Disk)
    requires Unanchored(disk)
    ensures Safe(disk) && Tidy(disk) && (Trusting(disk) <==> disk.written)
  {
    hide Safe, Visible;
    ShortIsSafe(disk);
    VisibleIsShort(disk);
  }

  // ----- What a run makes of them -----

  /** What is left to see of an anchored disk, and what is durable after a sync. */
  lemma AnchoredView(disk: Disk)
    requires Anchored(disk)
    ensures Visible(disk) == View(true, disk.durable.data && RemoveData !in disk.pending,
                                  disk.durable.lock && RemoveLock !in disk.pending, Complete)
    ensures SyncDirectory(disk).durable == Directory(true, Visible(disk).data, Visible(disk).lock, true)
  {
    hide Visible, SyncDirectory;
    VisibleIsShort(disk);
    SyncIsShort(disk);
  }

  /** Removing behind an anchored marker never leaves the resumable disks, and removes everything. */
  lemma RemovalIsSafe(disk: Disk, others: bool)
    requires Anchored(disk)
    ensures forall h :: h in Removal(disk, others) ==> Resumable(h)
    ensures Visible(Removal(disk, others)[4]) == View(others, false, false, Absent)
  {
    hide Visible, SyncDirectory, Settled, Recoverable;
    var stages := Removal(disk, others);
    var a, b, c, d, e := stages[0], stages[1], stages[2], stages[3], stages[4];
    AnchoredView(disk);
    assert Anchored(a);
    AnchoredView(a);
    assert Anchored(b);
    AnchoredView(b);
    SyncKeeps(b);
    assert Anchored(c);
    assert Emptied(d);
    VisibleIsShort(e);
  }

  lemma SyncKeeps(disk: Disk)
    ensures SyncDirectory(disk) == Disk(SyncDirectory(disk).durable, [], disk.written, disk.synced)
  {
  }

  /** Until the marker is durable both files are untouched. */
  lemma MarkingIsSafe(disk: Disk)
    requires disk.pending == [] && disk.durable == Directory(true, true, true, false)
    ensures var stages := Marking(disk);
            && |stages| == 4 && Unanchored(stages[0]) && Unanchored(stages[1]) && Unanchored(stages[2])
            && !stages[0].written && stages[1].written && stages[2].written
            && Anchored(stages[3]) && stages[3].pending == []
            && forall h :: h in stages ==> Unanchored(h) || Anchored(h)
  {
    hide SyncDirectory;
    SyncIsShort(Marking(disk)[2]);
    SyncKeeps(Marking(disk)[2]);
  }

  /** The two kinds of runs that change anything, and all others. */
  lemma StagesByShape(disk: Disk, recognized: bool, others: bool)
    requires Resumable(disk)
    ensures var stages := Stages(disk, recognized, others);
            || stages == [disk]
            || (Anchored(disk) && stages == [disk] + Removal(disk, others))
            || (disk.pending == [] && disk.durable == Directory(true, true, true, false) && recognized
                && stages == [disk] + (Marking(disk) + Removal(Marking(disk)[3], others)))
  {
    hide Visible, Removal, Marking;
    VisibleIsShort(disk);
  }

  /**
   At every step of a run any loss leaves a recoverable cache, and a next run may find the disk
   as it is, unless it has a complete marker that is not durable.
   */
  lemma RunIsSafe(disk: Disk, recognized: bool, others: bool)
    requires Resumable(disk)
    ensures forall h :: h in Stages(disk, recognized, others) ==>
              Safe(h) && Tidy(h) && (Resumable(h) || (Unanchored(h) && h.written))
  {
    hide Safe, Tidy, Removal, Marking, Stages, Visible, Settled, Recoverable, Emptied, Anchored, Unanchored;
    StagesByShape(disk, recognized, others);
    if Anchored(disk) { RemovalIsSafe(disk, others); }
    if disk.pending == [] && disk.durable == Directory(true, true, true, false) {
      MarkingIsSafe(disk);
      RemovalIsSafe(Marking(disk)[3], others);
    }
    forall h | h in Stages(disk, recognized, others)
      ensures Safe(h) && Tidy(h) && (Resumable(h) || (Unanchored(h) && h.written))
    {
      assert Resumable(h) || Unanchored(h);
      if Resumable(h) { ResumableIsSafe(h); } else { UnanchoredIsSafe(h); DoubtfulIsResumable(h); }
    }
  }

  lemma DoubtfulIsResumable(disk: Disk)
    requires Unanchored(disk) && !Resumable(disk)
    ensures disk.written
  {
    hide Settled, Recoverable, Visible;
  }

  /**
   A process that is killed, rather than losing power, leaves its unsynced operations behind,
   and the next run trusts the marker it sees. That run is safe against power losses exactly if
   it does not see a complete marker that is not durable yet.
   */
  lemma ResumedRunIsSafeExactly(disk: Disk, recognized: bool, others: bool, left: Disk, recognizedNext: bool, othersNext: bool)
    requires Resumable(disk) && left in Stages(disk, recognized, others)
    ensures (forall h :: h in Stages(left, recognizedNext, othersNext) ==> Safe(h)) <==> !Trusting(left)
  {
    hide Safe, Tidy, Stages, Visible, Resumable, Unanchored, Trusting;
    RunIsSafe(disk, recognized, others);
    if Resumable(left) {
      ResumableIsSafe(left);
      RunIsSafe(left, recognizedNext, othersNext);
    } else {
      UnanchoredIsSafe(left);
      TrustingIsUnsafe(left, recognizedNext, othersNext);
    }
  }

  /** The removal of the first file may become durable while the marker does not. */
  lemma TrustingIsUnsafe(disk: Disk, recognized: bool, others: bool)
    requires Unanchored(disk) && disk.written
    ensures Removal(disk, others)[0] in Stages(disk, recognized, others) && !Safe(Removal(disk, others)[0])
  {
    hide Safe, Visible, SyncDirectory;
    VisibleIsShort(disk);
    var h := Removal(disk, others)[0];
    assert Stages(disk, recognized, others)[1] == h;
    ShortIsSafe(h);
    assert !Recoverable(ShortLoss(h, false, true, true));
  }

  /** Such a disk is left by a process that is killed before it has synced the directory. */
  lemma KilledRunsAreTrusted(disk: Disk, others: bool)
    requires Settled(disk) && Visible(disk) == View(true, true, true, Absent)
    ensures exists h :: h in Stages(disk, true, others) && Trusting(h)
                        && exists g :: g in Stages(h, true, others) && !Safe(g)
  {
    hide Safe, Visible, Removal, Marking;
    VisibleIsShort(disk);
    MarkingIsSafe(disk);
    var h := Marking(disk)[1];
    assert Stages(disk, true, others)[2] == h;
    UnanchoredIsSafe(h);
    TrustingIsUnsafe(h, true, others);
  }

  // ----- Any number of runs -----

  /** What a restarted system sees is what was left, and it is settled. */
  lemma RestartedIsSettled(v: View)
    requires !v.present ==> v == View(false, false, false, Absent)
    ensures Settled(Restarted(v)) && Visible(Restarted(v)) == v
  {
    VisibleIsShort(Restarted(v));
  }

  /** Losing operations never makes up files in a directory that is gone. */
  lemma {:induction false} GoneIsEmpty(d: Directory, ops: seq<Operation>, kept: seq<bool>)
    requires |kept| == |ops| && (!d.present ==> d == Directory(false, false, false, false))
    requires CreateMarker in ops ==> d.present && RemoveDirectory !in ops
    ensures var r := Persist(d, ops, kept); !r.present ==> r == Directory(false, false, false, false)
    decreases |ops|
  {
    if ops != [] {
      assert ops == [ops[0]] + ops[1..];
      GoneIsEmpty(if kept[0] then Do(d, ops[0]) else d, ops[1..], kept[1..]);
    }
  }

  /** A power loss now may leave that view. */
  ghost predicate MayLeave(disk: Disk, v: View) {
    exists kept: seq<bool>, contents: bool :: |kept| == |disk.pending| && v == AfterLoss(disk, kept, contents)
  }

  /** The next run starts behind a power loss, or on the disk as a killed process left it. */
  ghost predicate Continues(left: Disk, next: Disk) {
    (exists v :: MayLeave(left, v) && next == Restarted(v)) || (next == left && !Trusting(left))
  }

  /**
   However often and whenever the power fails or the process is killed, the cache stays
   recoverable: run `i` finds `starts[i]` and is cut off in `lefts[i]`, and so on. What the
   database says and what else is in the directory may differ from run to run.
   */
  lemma {:induction false} EveryRunIsSafe(starts: seq<Disk>, lefts: seq<Disk>, recognized: seq<bool>, others: seq<bool>, n: nat)
    requires n < |starts| == |lefts| == |recognized| == |others|
    requires Settled(starts[0]) && Recoverable(Visible(starts[0]))
    requires forall i :: 0 <= i < |starts| ==> lefts[i] in Stages(starts[i], recognized[i], others[i])
    requires forall i :: 0 <= i < |starts| - 1 ==> Continues(lefts[i], starts[i + 1])
    ensures Resumable(starts[n]) && Safe(lefts[n]) && Tidy(lefts[n])
  {
    hide Stages, Settled, Tidy, Safe, Recoverable, Visible, Anchored, Emptied, Unanchored, Continues;
    if n > 0 {
      EveryRunIsSafe(starts, lefts, recognized, others, n - 1);
      RunIsSafe(starts[n - 1], recognized[n - 1], others[n - 1]);
      NextIsResumable(lefts[n - 1], starts[n]);
    }
    RunIsSafe(starts[n], recognized[n], others[n]);
  }

  lemma NextIsResumable(left: Disk, next: Disk)
    requires Safe(left) && Tidy(left) && (Resumable(left) || (Unanchored(left) && left.written))
    requires Continues(left, next)
    ensures Resumable(next)
  {
    hide Tidy, Safe, Visible, Settled, Resumable, MayLeave, Recoverable, Unanchored, Trusting;
    if next == left && !Trusting(left) {
      if !Resumable(left) { UnanchoredIsSafe(left); }
    } else {
      var v :| MayLeave(left, v) && next == Restarted(v);
      TidyAfterLoss(left, v);
      RestartedIsSettled(v);
      SettledIsResumable(next);
    }
  }

  lemma SettledIsResumable(disk: Disk)
    requires Settled(disk) && Recoverable(Visible(disk))
    ensures Resumable(disk)
  {
  }

  lemma TidyAfterLoss(disk: Disk, v: View)
    requires Tidy(disk) && Safe(disk) && MayLeave(disk, v)
    ensures Recoverable(v) && (!v.present ==> v == View(false, false, false, Absent))
  {
    hide Persist, Recoverable;
    var kept: seq<bool>, contents: bool :| |kept| == |disk.pending| && v == AfterLoss(disk, kept, contents);
    GoneIsEmpty(disk.durable, disk.pending, kept);
  }

  // ----- What one uninterrupted run achieves -----

  predicate Cleared(v: View, others: bool) {
    !v.data && !v.lock && v.marker == Absent && v.present == others
  }

  /**
   A recognised cache is cleared by one uninterrupted run exactly if its marker is not
   partial. A partial one, which a power loss can leave behind, is refused for ever.
   */
  lemma ClearsExactly(disk: Disk, others: bool)
    requires Settled(disk) && Visible(disk).present
    requires Visible(disk).marker == Absent ==> Visible(disk).data && Visible(disk).lock
    requires Recoverable(Visible(disk))
    ensures var stages := Stages(disk, true, others);
            Cleared(Visible(stages[|stages| - 1]), others) <==> Visible(disk).marker != Partial
    ensures Visible(disk).marker == Partial ==> Stages(disk, true, others) == [disk]
  {
    hide Safe, AfterLoss, Removal, Marking, Persist;
    VisibleIsShort(disk);
    RemovalLength(disk, others);
    var v := Visible(disk);
    if v.marker == Complete { RemovalIsSafe(disk, others); }
    if v.marker == Absent {
      MarkingIsSafe(disk);
      RemovalLength(Marking(disk)[3], others);
      RemovalIsSafe(Marking(disk)[3], others);
    }
  }

  /** A power loss can leave a partial marker from when it is created until its contents are synced, and not later. */
  lemma PartialMarkersHappen(disk: Disk, others: bool)
    requires Settled(disk) && Visible(disk) == View(true, true, true, Absent)
    ensures var partial, stages := View(true, true, true, Partial), Stages(disk, true, others);
            && |stages| == 10
            && MayLeave(stages[1], partial) && MayLeave(stages[2], partial)
            && !MayLeave(stages[3], partial) && !MayLeave(stages[4], partial)
  {
    hide Visible, AfterLoss, Removal, Persist, SyncDirectory, MayLeave;
    VisibleIsShort(disk);
    DiskOf(disk);
    var m := Marking(disk);
    RemovalLength(m[3], others);
    MarkingIsSafe(disk);
    LossOfMarking(m[0], true, false);
    LossOfMarking(m[1], true, false);
    SyncedIsNotPartial(m[2]);
    SyncedIsNotPartial(m[3]);
  }

  lemma DiskOf(disk: Disk)
    requires Settled(disk) && ShortLoss(disk, true, true, true) == View(true, true, true, Absent)
    ensures disk.pending == [] && disk.durable == Directory(true, true, true, false)
  {
  }

  lemma LossOfMarking(disk: Disk, first: bool, contents: bool)
    requires Unanchored(disk)
    ensures MayLeave(disk, ShortLoss(disk, first, false, contents))
  {
    hide AfterLoss, ShortLoss;
    LossIsShort(disk, [first], contents);
    OnlyPendingMatter(disk, first, false, contents);
    assert |[first]| == |disk.pending| && ShortLoss(disk, first, false, contents) == AfterLoss(disk, [first], contents);
  }

  lemma SyncedIsNotPartial(disk: Disk)
    requires disk.written && disk.synced
    ensures forall v :: MayLeave(disk, v) ==> v.marker != Partial
  {
  }

  /**
   A run changes nothing exactly if there is no cache, if its marker is partial, or if without a
   marker a file is missing or the database is not recognised.
   */
  lemma KeptExactly(disk: Disk, recognized: bool, others: bool)
    ensures Stages(disk, recognized, others) == [disk] <==>
            var v := Visible(disk);
            || !v.present || v.marker == Partial
            || (v.marker == Absent && (!v.data || !v.lock || !recognized))
  {
    hide Visible;
    RemovalLength(disk, others);
  }

  /** A cache without marker that is not recognised is never changed. */
  lemma UnrecognizedIsKept(disk: Disk, others: bool)
    requires Visible(disk).marker == Absent
    ensures Stages(disk, false, others) == [disk]
  {
  }
}
