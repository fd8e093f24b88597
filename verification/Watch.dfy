/**
 The bounded event history of `src/watch.rs`. A ghost log keeps every event ever recorded,
 and every answer is compared with what that whole log would have answered.
 */
module Watch {
  import opened Common

  /** A path as its components; joining appends one. */
  type Path = seq<string>
  type Descriptor = nat

  const EVENT_LIMIT := 8192
  const BATCH_LIMIT := 8

  datatype Change = Change(directory: Path, path: Path, generation: nat, membership: bool, tree: bool)

  /** One kernel event: the masks the monitor looks at, and the name inside the directory. */
  datatype KernelEvent = KernelEvent(wd: Descriptor, name: Option<string>, overflow: bool,
                                     gone: bool, membership: bool, isDirectory: bool)

  /** One read of the kernel queue. */
  datatype Read = Events(events: seq<KernelEvent>) | WouldBlock | Failed

  /** The answer to a reader. */
  datatype Changes = Answer(full: bool, paths: set<Path>, trees: set<Path>) {
    predicate Affects(path: Path) {
      full || path in paths || exists tree | tree in trees :: tree <= path
    }

    predicate Any() {
      full || paths != {} || trees != {}
    }
  }

  /** An event says that a path may have changed. */
  predicate Touches(e: Change, path: Path) {
    e.path == path || (e.membership && e.directory == path) || (e.tree && e.path <= path)
  }

  /** What the unbounded log reports to a reader of some directories behind a generation. */
  ghost predicate Reported(log: seq<Change>, paths: set<Path>, previous: nat, path: Path) {
    exists k :: 0 <= k < |log| && log[k].generation > previous && log[k].directory in paths && Touches(log[k], path)
  }

  ghost predicate Ordered(log: seq<Change>) {
    forall k, l :: 0 <= k < l < |log| ==> log[k].generation <= log[l].generation
  }

  /** The retained events are the end of the log, and coverage is the newest evicted generation. */
  ghost predicate Retains(log: seq<Change>, events: seq<Change>, coverage: nat) {
    && |events| <= |log| && log[|log| - |events|..] == events
    && coverage == (if |events| == |log| then 0 else log[|log| - |events| - 1].generation)
    && forall k :: 0 <= k < |log| - |events| ==> log[k].generation <= coverage
  }

  /**
   When coverage reaches back far enough, the retained events report what the whole log
   reports, even if eviction has split a generation.
   */
  lemma RetainedSuffices(log: seq<Change>, events: seq<Change>, coverage: nat,
                         paths: set<Path>, previous: nat, path: Path)
    requires Retains(log, events, coverage) && coverage <= previous
    ensures Reported(log, paths, previous, path) <==> Reported(events, paths, previous, path)
  {
    var cut := |log| - |events|;
    assert forall k :: 0 <= k < |events| ==> events[k] == log[cut + k];
    assert forall k :: cut <= k < |log| ==> log[k] == events[k - cut];
  }

  /** And coverage forces full validation only on readers that miss an evicted event. */
  lemma CoverageIsNeeded(log: seq<Change>, events: seq<Change>, coverage: nat, previous: nat)
    requires Retains(log, events, coverage)
    ensures previous < coverage <==> exists k :: 0 <= k < |log| - |events| && log[k].generation > previous
  {
    if previous < coverage { assert log[|log| - |events| - 1].generation > previous; }
  }

  /** Everything the retained history satisfies, except how long it is. */
  ghost predicate Kept(log: seq<Change>, events: seq<Change>, coverage: nat, generation: nat) {
    && Ordered(log) && Retains(log, events, coverage) && coverage <= generation
    && forall k :: 0 <= k < |log| ==> log[k].generation <= generation
  }

  lemma Advance(log: seq<Change>, events: seq<Change>, coverage: nat, generation: nat, later: nat)
    requires Kept(log, events, coverage, generation) && generation <= later
    ensures Kept(log, events, coverage, later)
  {
  }

  /** A recorded event is no older than anything before it. */
  lemma RecordOne(log: seq<Change>, events: seq<Change>, coverage: nat, generation: nat, e: Change)
    requires Kept(log, events, coverage, generation) && e.generation == generation
    ensures Kept(log + [e], events + [e], coverage, generation) && |events| <= |log|
  {
    assert (log + [e])[|log| - |events|..] == events + [e];
  }

  /** Evicting the oldest retained event moves coverage up to it. */
  lemma EvictOne(log: seq<Change>, events: seq<Change>, coverage: nat, generation: nat)
    requires Kept(log, events, coverage, generation) && events != []
    ensures Kept(log, events[1..], if events[0].generation > coverage then events[0].generation else coverage, generation)
  {
    var cut := |log| - |events|;
    assert log[cut] == events[0] && (cut > 0 ==> log[cut - 1].generation <= log[cut].generation);
    assert log[cut + 1..] == log[cut..][1..];
  }

  lemma KeptIsTheEnd(log: seq<Change>, events: seq<Change>, coverage: nat, generation: nat)
    requires Kept(log, events, coverage, generation)
    ensures |events| <= |log| && events == log[|log| - |events|..]
  {
  }

  lemma KeptIsOrdered(log: seq<Change>, events: seq<Change>, coverage: nat, generation: nat)
    requires Kept(log, events, coverage, generation)
    ensures Ordered(events)
  {
    var cut := |log| - |events|;
    assert forall k :: 0 <= k < |events| ==> events[k] == log[cut + k];
  }

  /** How a monitor may move on: nothing recorded is forgotten, everything new is newer. */
  ghost predicate Extends(oldLog: seq<Change>, oldGeneration: nat, log: seq<Change>, generation: nat) {
    && oldLog <= log && oldGeneration <= generation
    && forall k :: |oldLog| <= k < |log| ==> oldGeneration < log[k].generation <= generation
  }

  lemma ExtendsItself(log: seq<Change>, generation: nat)
    ensures Extends(log, generation, log, generation)
  {
  }

  lemma ExtendsByOne(log: seq<Change>, generation: nat, e: Change)
    requires e.generation == generation + 1
    ensures Extends(log, generation, log + [e], generation + 1)
  {
  }

  lemma ExtendsIsTransitive(l0: seq<Change>, g0: nat, l1: seq<Change>, g1: nat, l2: seq<Change>, g2: nat)
    requires Extends(l0, g0, l1, g1) && Extends(l1, g1, l2, g2)
    ensures Extends(l0, g0, l2, g2)
  {
    assert forall k :: 0 <= k < |l1| ==> l2[k] == l1[k];
  }

  /**
   Readers are independent: a reader that holds the generation of an earlier fence is told
   exactly what was recorded since then, whoever else has read or recorded in between.
   */
  lemma FenceLosesNothing(before: seq<Change>, fence: nat, log: seq<Change>, generation: nat,
                          paths: set<Path>, path: Path)
    requires forall k :: 0 <= k < |before| ==> before[k].generation <= fence
    requires Extends(before, fence, log, generation)
    ensures Reported(log, paths, fence, path) <==>
            exists k :: |before| <= k < |log| && log[k].directory in paths && Touches(log[k], path)
  {
    assert forall k :: 0 <= k < |before| ==> log[k] == before[k];
  }

  /** An answer is right about a log: never too little, and exact unless it asks for full validation. */
  ghost predicate Truthful(changes: Changes, log: seq<Change>, paths: set<Path>, previous: nat) {
    && (forall p :: Reported(log, paths, previous, p) ==> changes.Affects(p))
    && (!changes.full ==> forall p :: changes.Affects(p) <==> Reported(log, paths, previous, p))
  }

  // ----- Any number of operations and readers -----

  /** The history after one operation of a monitor. */
  datatype Moment = Moment(log: seq<Change>, generation: nat)

  /** What any sequence of operations does to the history: each of them extends it. */
  ghost predicate Run(moments: seq<Moment>) {
    && (forall t, k :: 0 <= t < |moments| && 0 <= k < |moments[t].log| ==> moments[t].log[k].generation <= moments[t].generation)
    && (forall t :: 0 <= t < |moments| - 1 ==>
          Extends(moments[t].log, moments[t].generation, moments[t + 1].log, moments[t + 1].generation))
  }

  /** One of a reader's fences: when it was, and what the reader was told. */
  datatype Fence = Fence(at: nat, changes: Changes)

  /** A reader hands the generation of each fence to the next one; other readers do not matter. */
  ghost predicate Chains(moments: seq<Moment>, paths: set<Path>, fences: seq<Fence>) {
    && (forall f :: 0 <= f < |fences| ==> fences[f].at < |moments|)
    && (forall f :: 0 < f < |fences| ==>
          && fences[f - 1].at <= fences[f].at
          && Truthful(fences[f].changes, moments[fences[f].at].log, paths, moments[fences[f - 1].at].generation))
  }

  lemma {:induction false} RunExtends(moments: seq<Moment>, t: nat, u: nat)
    requires Run(moments) && t <= u < |moments|
    ensures Extends(moments[t].log, moments[t].generation, moments[u].log, moments[u].generation)
    decreases u - t
  {
    hide Extends;
    if t == u {
      ExtendsItself(moments[t].log, moments[t].generation);
    } else {
      RunExtends(moments, t, u - 1);
      assert Extends(moments[u - 1].log, moments[u - 1].generation, moments[u - 1 + 1].log, moments[u - 1 + 1].generation);
      ExtendsIsTransitive(moments[t].log, moments[t].generation, moments[u - 1].log, moments[u - 1].generation,
                          moments[u].log, moments[u].generation);
    }
  }

  /** The log has an event of a watched directory in that stretch that touches the path. */
  ghost predicate Happened(log: seq<Change>, from: nat, to: nat, paths: set<Path>, path: Path) {
    exists k :: from <= k < to && k < |log| && log[k].directory in paths && Touches(log[k], path)
  }

  /**
   In any run a fence tells its reader of everything recorded since the reader's fence before,
   and of nothing else unless it asks for full validation.
   */
  lemma OneFence(moments: seq<Moment>, paths: set<Path>, fences: seq<Fence>, f: nat, path: Path)
    requires Run(moments) && Chains(moments, paths, fences) && 0 < f < |fences|
    ensures var log, from := moments[fences[f].at].log, |moments[fences[f - 1].at].log|;
            && (Happened(log, from, |log|, paths, path) ==> fences[f].changes.Affects(path))
            && (!fences[f].changes.full ==> (fences[f].changes.Affects(path) <==> Happened(log, from, |log|, paths, path)))
  {
    hide Reported, Extends;
    var before, now := moments[fences[f - 1].at], moments[fences[f].at];
    RunExtends(moments, fences[f - 1].at, fences[f].at);
    FenceLosesNothing(before.log, before.generation, now.log, now.generation, paths, path);
  }

  lemma Logs(moments: seq<Moment>, t: nat, u: nat)
    requires Run(moments) && t <= u < |moments|
    ensures moments[t].log <= moments[u].log
  {
    RunExtends(moments, t, u);
  }

  /**
   So a reader that chains its fences is told, by one of them, of everything that happened in its
   directories between its first fence and its last. If none of them asks for full validation it
   is told of nothing else.
   */
  lemma {:induction false} ChainsLoseNothing(moments: seq<Moment>, paths: set<Path>, fences: seq<Fence>, path: Path)
    requires Run(moments) && Chains(moments, paths, fences) && fences != []
    ensures var log := moments[fences[|fences| - 1].at].log;
            var happened := Happened(log, |moments[fences[0].at].log|, |log|, paths, path);
            var told := exists f :: 0 < f < |fences| && fences[f].changes.Affects(path);
            && (happened ==> told)
            && ((forall f :: 0 < f < |fences| ==> !fences[f].changes.full) ==> (told <==> happened))
    decreases |fences|
  {
    hide Run, Extends, Truthful, Touches;
    if |fences| > 1 {
      var last := |fences| - 1;
      var fewer := fences[..last];
      ChainsLoseNothing(moments, paths, fewer, path);
      OneFence(moments, paths, fences, last, path);
      FenceIsLater(moments, paths, fences, last - 1);
      Logs(moments, fences[0].at, fences[last - 1].at);
      Logs(moments, fences[last - 1].at, fences[last].at);
      Together(moments[fences[last - 1].at].log, moments[fences[last].at].log, |moments[fences[0].at].log|, paths, path);
      assert forall f :: 0 <= f < last ==> fewer[f] == fences[f];
    }
  }

  lemma {:induction false} FenceIsLater(moments: seq<Moment>, paths: set<Path>, fences: seq<Fence>, f: nat)
    requires Chains(moments, paths, fences) && f < |fences|
    ensures fences[0].at <= fences[f].at
  {
    if f > 0 { FenceIsLater(moments, paths, fences, f - 1); }
  }

  /** Two stretches of a growing log make one. */
  lemma Together(before: seq<Change>, log: seq<Change>, from: nat, paths: set<Path>, path: Path)
    requires before <= log && from <= |before|
    ensures Happened(log, from, |log|, paths, path) <==>
            Happened(before, from, |before|, paths, path) || Happened(log, |before|, |log|, paths, path)
  {
    hide Touches;
    assert forall k :: 0 <= k < |before| ==> before[k] == log[k];
  }

  // ----- The kernel queue -----

  function Observed(watched: map<Descriptor, Path>, e: KernelEvent, generation: nat): Change
    requires e.wd in watched
  {
    var directory := watched[e.wd];
    Change(directory, if e.name.Some? then directory + [e.name.value] else directory,
           generation, e.membership, e.isDirectory)
  }

  /** The changes one batch of events amounts to; events of forgotten descriptors are dropped. */
  function Watchable(watched: map<Descriptor, Path>, events: seq<KernelEvent>, generation: nat): seq<Change> {
    if events == [] then []
    else
      var init, e := events[..|events| - 1], events[|events| - 1];
      Watchable(watched, init, generation) + (if e.wd in watched then [Observed(watched, e, generation)] else [])
  }

  lemma WatchableNil(watched: map<Descriptor, Path>, generation: nat)
    ensures Watchable(watched, [], generation) == [] && !Disrupted(watched, [])
  {
  }

  lemma WatchableSnoc(watched: map<Descriptor, Path>, events: seq<KernelEvent>, k: nat, generation: nat)
    requires k < |events|
    ensures Watchable(watched, events[..k + 1], generation) == Watchable(watched, events[..k], generation)
              + (if events[k].wd in watched then [Observed(watched, events[k], generation)] else [])
    ensures Disrupted(watched, events[..k + 1]) <==> Disrupted(watched, events[..k]) || Disrupts(watched, events[k])
  {
    assert events[..k + 1][..k] == events[..k];
  }

  lemma ExtendsByBatch(log: seq<Change>, watched: map<Descriptor, Path>, events: seq<KernelEvent>, generation: nat)
    ensures Extends(log, generation, log + Watchable(watched, events, generation + 1), generation + 1)
  {
    WatchableGeneration(watched, events, generation + 1);
    var changes := Watchable(watched, events, generation + 1);
    assert forall k :: 0 <= k < |changes| ==> changes[k] in changes;
  }

  predicate Disrupts(watched: map<Descriptor, Path>, e: KernelEvent) {
    e.overflow || (e.wd in watched && e.gone)
  }

  /** Some event of the batch means that events may have been lost. */
  predicate Disrupted(watched: map<Descriptor, Path>, events: seq<KernelEvent>) {
    events != [] && (Disrupts(watched, events[|events| - 1]) || Disrupted(watched, events[..|events| - 1]))
  }

  /** What draining the queue yields: new changes, the generation after them, and a fallback. */
  datatype Drained = Drained(changes: seq<Change>, generation: nat, fallback: bool)

  function Drain(watched: map<Descriptor, Path>, readable: bool, queue: nat -> Read, batch: nat, generation: nat): Drained
    requires batch <= BATCH_LIMIT
    decreases BATCH_LIMIT - batch
  {
    if batch == BATCH_LIMIT || (readable && queue(batch).WouldBlock?) then Drained([], generation, false)
    else if !readable || queue(batch).Failed? then Drained([], generation, true)
    else
      var events := queue(batch).events;
      if events == [] then Drained([], generation, false)
      else
        var rest := Drain(watched, readable, queue, batch + 1, generation + 1);
        Drained(Watchable(watched, events, generation + 1) + rest.changes, rest.generation,
                Disrupted(watched, events) || batch == BATCH_LIMIT - 1 || rest.fallback)
  }

  lemma DrainTurn(watched: map<Descriptor, Path>, readable: bool, queue: nat -> Read, batch: nat, generation: nat, log: seq<Change>)
    requires batch < BATCH_LIMIT && readable && queue(batch).Events? && queue(batch).events != []
    ensures var now, rest := Drain(watched, readable, queue, batch, generation), Drain(watched, readable, queue, batch + 1, generation + 1);
            && log + now.changes == log + Watchable(watched, queue(batch).events, generation + 1) + rest.changes
            && now.generation == rest.generation
            && now.fallback == (Disrupted(watched, queue(batch).events) || batch == BATCH_LIMIT - 1 || rest.fallback)
  {
  }

  lemma DrainEnd(watched: map<Descriptor, Path>, readable: bool, queue: nat -> Read, batch: nat, generation: nat)
    requires batch <= BATCH_LIMIT
    requires batch < BATCH_LIMIT && readable && queue(batch).Events? ==> queue(batch).events == []
    ensures Drain(watched, readable, queue, batch, generation) ==
            Drained([], generation, batch < BATCH_LIMIT && (!readable || queue(batch).Failed?))
  {
  }

  lemma {:induction false} WatchableGeneration(watched: map<Descriptor, Path>, events: seq<KernelEvent>, generation: nat)
    ensures forall c :: c in Watchable(watched, events, generation) ==> c.generation == generation
  {
    if events != [] { WatchableGeneration(watched, events[..|events| - 1], generation); }
  }

  // ----- What draining means, told from the queue alone -----

  /** Batch `k` is read: all batches before it were there and not empty. */
  ghost predicate IsRead(readable: bool, queue: nat -> Read, k: nat) {
    readable && k < 8 && forall j :: 0 <= j < k ==> queue(j).Events? && queue(j).events != []
  }

  /** An event after which the kernel may have dropped others, or stops watching a directory. */
  ghost predicate Alarming(watched: map<Descriptor, Path>, events: seq<KernelEvent>) {
    exists e :: e in events && (e.overflow || (e.gone && e.wd in watched))
  }

  /**
   When events may have been lost: the queue is unreadable, a read fails, the eighth batch still has
   events, or an event read says so.
   */
  ghost predicate MayHaveLost(watched: map<Descriptor, Path>, readable: bool, queue: nat -> Read) {
    || !readable
    || exists k :: IsRead(readable, queue, k)
         && (queue(k).Failed? || (queue(k).Events? && queue(k).events != [] && (k == 7 || Alarming(watched, queue(k).events))))
  }

  lemma {:induction false} DisruptedExactly(watched: map<Descriptor, Path>, events: seq<KernelEvent>)
    ensures Disrupted(watched, events) <==> Alarming(watched, events)
  {
    if events != [] {
      var init, e := events[..|events| - 1], events[|events| - 1];
      DisruptedExactly(watched, init);
      assert events == init + [e];
    }
  }

  /** Some batch from `batch` on that is read is one after which events may have been lost. */
  ghost predicate LosesFrom(watched: map<Descriptor, Path>, readable: bool, queue: nat -> Read, batch: nat) {
    exists k :: batch <= k && IsRead(readable, queue, k)
      && (queue(k).Failed? || (queue(k).Events? && queue(k).events != [] && (k == 7 || Alarming(watched, queue(k).events))))
  }

  lemma {:induction false} LosesFromBatch(watched: map<Descriptor, Path>, readable: bool, queue: nat -> Read, batch: nat, generation: nat)
    requires IsRead(readable, queue, batch) || batch == 8
    ensures batch <= BATCH_LIMIT
    ensures Drain(watched, readable, queue, batch, generation).fallback <==> LosesFrom(watched, readable, queue, batch)
    decreases 8 - batch
  {
    hide Watchable, Disrupted, Alarming;
    if batch < 8 && queue(batch).Events? && queue(batch).events != [] {
      DisruptedExactly(watched, queue(batch).events);
      LosesFromBatch(watched, readable, queue, batch + 1, generation + 1);
    }
  }

  /** Draining falls back exactly if events may have been lost. */
  lemma FallbackExactly(watched: map<Descriptor, Path>, readable: bool, queue: nat -> Read, generation: nat)
    ensures Drain(watched, readable, queue, 0, generation).fallback <==> MayHaveLost(watched, readable, queue)
  {
    hide Drain, Alarming;
    if readable { LosesFromBatch(watched, readable, queue, 0, generation); } else { DrainEnd(watched, readable, queue, 0, generation); }
  }

  /** Unless events may have been lost, the queue was read to its end and no event in it was alarming. */
  lemma DrainIsComplete(watched: map<Descriptor, Path>, readable: bool, queue: nat -> Read) returns (end: nat)
    requires !MayHaveLost(watched, readable, queue)
    ensures IsRead(readable, queue, end) && (queue(end) == WouldBlock || queue(end) == Events([]))
    ensures forall k, e :: 0 <= k < end && queue(k).Events? && e in queue(k).events ==>
              !e.overflow && (e.wd in watched ==> !e.gone)
  {
    end := 0;
    while end < 7 && queue(end).Events? && queue(end).events != []
      invariant end <= 7 && IsRead(readable, queue, end)
    {
      end := end + 1;
    }
    forall k, e | 0 <= k < end && queue(k).Events? && e in queue(k).events
      ensures !e.overflow && (e.wd in watched ==> !e.gone)
    {
      assert IsRead(readable, queue, k);
    }
  }

  /** The path a kernel event is about. */
  function Target(watched: map<Descriptor, Path>, e: KernelEvent): Path
    requires e.wd in watched
  {
    if e.name.Some? then watched[e.wd] + [e.name.value] else watched[e.wd]
  }

  /** A kernel event concerns its own path, its directory if entries came or went, and a directory's whole tree. */
  predicate Concerns(watched: map<Descriptor, Path>, e: KernelEvent, path: Path)
    requires e.wd in watched
  {
    || path == Target(watched, e) || (e.membership && path == watched[e.wd])
    || (e.isDirectory && Target(watched, e) <= path)
  }

  /** An event of a batch is in a directory of the reader and concerns the path. */
  ghost predicate Arrived(watched: map<Descriptor, Path>, events: seq<KernelEvent>, reader: set<Path>, path: Path) {
    exists e :: e in events && e.wd in watched && watched[e.wd] in reader && Concerns(watched, e, path)
  }

  lemma ArrivedSnoc(watched: map<Descriptor, Path>, events: seq<KernelEvent>, e: KernelEvent, reader: set<Path>, path: Path)
    ensures Arrived(watched, events + [e], reader, path) <==>
            Arrived(watched, events, reader, path)
            || (e.wd in watched && watched[e.wd] in reader && Concerns(watched, e, path))
  {
    hide Concerns;
    assert forall x :: x in events + [e] <==> x in events || x == e;
  }

  lemma {:induction false} BatchReports(watched: map<Descriptor, Path>, events: seq<KernelEvent>, generation: nat,
                                        reader: set<Path>, previous: nat, path: Path)
    requires previous < generation
    ensures Reported(Watchable(watched, events, generation), reader, previous, path) <==> Arrived(watched, events, reader, path)
  {
    hide Reported, Arrived;
    if events == [] {
      NothingReported(reader, previous);
      NothingArrives(watched, reader, path);
    }
    if events != [] {
      var init, e := events[..|events| - 1], events[|events| - 1];
      BatchReports(watched, init, generation, reader, previous, path);
      ArrivedSnoc(watched, init, e, reader, path);
      assert events == init + [e];
      if e.wd in watched {
        ReportedSnoc(Watchable(watched, init, generation), Observed(watched, e, generation), reader, previous, path);
      } else {
        assert Watchable(watched, init, generation) + [] == Watchable(watched, init, generation);
      }
    }
  }

  lemma ReportedSnoc(log: seq<Change>, e: Change, paths: set<Path>, previous: nat, path: Path)
    ensures Reported(log + [e], paths, previous, path) <==>
            Reported(log, paths, previous, path) || (e.generation > previous && e.directory in paths && Touches(e, path))
  {
    hide Touches;
    ReportedTogether(log, [e], paths, previous, path);
    assert [e][0] == e;
  }

  lemma ReportedTogether(a: seq<Change>, b: seq<Change>, paths: set<Path>, previous: nat, path: Path)
    ensures Reported(a + b, paths, previous, path) <==> Reported(a, paths, previous, path) || Reported(b, paths, previous, path)
  {
    hide Touches;
    assert forall k :: 0 <= k < |a| ==> (a + b)[k] == a[k];
    assert forall k :: 0 <= k < |b| ==> (a + b)[|a| + k] == b[k];
    assert forall k :: |a| <= k < |a| + |b| ==> (a + b)[k] == b[k - |a|];
  }

  ghost predicate ArrivedFrom(watched: map<Descriptor, Path>, readable: bool, queue: nat -> Read, batch: nat,
                              reader: set<Path>, path: Path) {
    exists k :: batch <= k && IsRead(readable, queue, k) && queue(k).Events? && Arrived(watched, queue(k).events, reader, path)
  }

  lemma {:induction false} DrainReports(watched: map<Descriptor, Path>, readable: bool, queue: nat -> Read, batch: nat, generation: nat,
                                        reader: set<Path>, previous: nat, path: Path)
    requires (IsRead(readable, queue, batch) || batch == 8) && previous <= generation
    ensures batch <= BATCH_LIMIT
    ensures Reported(Drain(watched, readable, queue, batch, generation).changes, reader, previous, path) <==>
            ArrivedFrom(watched, readable, queue, batch, reader, path)
    decreases 8 - batch
  {
    hide Watchable, Disrupted, Reported, Arrived;
    NothingReported(reader, previous);
    if batch < 8 && queue(batch).Events? && queue(batch).events != [] {
      var events := queue(batch).events;
      BatchReports(watched, events, generation + 1, reader, previous, path);
      DrainReports(watched, readable, queue, batch + 1, generation + 1, reader, previous, path);
      ReportedTogether(Watchable(watched, events, generation + 1),
                       Drain(watched, readable, queue, batch + 1, generation + 1).changes, reader, previous, path);
    } else if batch < 8 && queue(batch).Events? {
      NothingArrives(watched, reader, path);
    }
  }

  lemma NothingArrives(watched: map<Descriptor, Path>, reader: set<Path>, path: Path)
    ensures !Arrived(watched, [], reader, path)
  {
  }

  /**
   From the kernel to the reader: of what a drain adds to the log a reader that is not ahead is told
   exactly the paths that an event read in one of its directories concerns.
   */
  lemma KernelEventsAreReported(watched: map<Descriptor, Path>, readable: bool, queue: nat -> Read, generation: nat,
                                log: seq<Change>, reader: set<Path>, previous: nat, path: Path)
    requires previous <= generation
    ensures Reported(log + Drain(watched, readable, queue, 0, generation).changes, reader, previous, path) <==>
            || Reported(log, reader, previous, path)
            || exists k :: IsRead(readable, queue, k) && queue(k).Events? && Arrived(watched, queue(k).events, reader, path)
  {
    hide Drain, Reported, Arrived;
    ReportedTogether(log, Drain(watched, readable, queue, 0, generation).changes, reader, previous, path);
    if readable {
      DrainReports(watched, readable, queue, 0, generation, reader, previous, path);
    } else {
      DrainEnd(watched, readable, queue, 0, generation);
      NothingReported(reader, previous);
    }
  }

  class Monitor {
    var readable: bool                          // the kernel queue exists
    var directories: map<Path, (Descriptor, nat)>
    var paths: map<Descriptor, Path>
    var events: seq<Change>
    var coverage: nat
    var generation: nat
    var fallback: bool
    ghost var log: seq<Change>

    /** The history part of the state; `Record` touches nothing else. */
    ghost predicate History()
      reads `events, `coverage, `generation, `log
    {
      && |events| == Min(|log|, EVENT_LIMIT)
      && Kept(log, events, coverage, generation)
    }

    ghost predicate Valid()
      reads this
    {
      (!readable ==> fallback) && History() && Watched()
    }

    /** Descriptors and watched directories name each other, each with at least one user. */
    ghost predicate Watched()
      reads `directories, `paths
    {
      && (forall p :: p in directories ==>
            directories[p].1 > 0 && directories[p].0 in paths && paths[directories[p].0] == p)
      && (forall wd :: wd in paths ==> paths[wd] in directories && directories[paths[wd]].0 == wd)
    }

    constructor (readable: bool)
      ensures Valid() && log == [] && generation == 0 && directories == map[] && fallback == !readable
    {
      this.readable, fallback := readable, !readable;
      directories, paths, events, coverage, generation, log := map[], map[], [], 0, 0, [];
    }

    method Record(e: Change)
      requires History() && e.generation == generation
      modifies `events, `coverage, `log
      ensures History() && log == old(log) + [e]
      ensures |events| == (if |log| < 8192 then |log| else 8192) && events == log[|log| - |events|..]
    {
      hide Kept;
      RecordOne(log, events, coverage, generation, e);
      events := events + [e];
      log := log + [e];
      while |events| > EVENT_LIMIT
        invariant Kept(log, events, coverage, generation) && log == old(log) + [e]
        invariant |events| <= |log| && |events| >= Min(|log|, EVENT_LIMIT)
        decreases |events|
      {
        EvictOne(log, events, coverage, generation);
        var oldest := events[0].generation;
        events := events[1..];
        coverage := if oldest > coverage then oldest else coverage;
      }
      KeptIsTheEnd(log, events, coverage, generation);
    }

    /** The kernel gives a new watch a descriptor of its own, or refuses. */
    method Register(path: Path, added: Result<Descriptor, ()>)
      requires Valid() && (added.Ok? ==> added.value !in paths)
      modifies `directories, `paths, `fallback
      ensures Valid()
      ensures path in old(directories) ==>
                directories == old(directories)[path := (old(directories)[path].0, old(directories)[path].1 + 1)]
                && fallback == old(fallback)
      ensures path !in old(directories) ==>
                directories == (if old(fallback) || added.Err? then old(directories) else old(directories)[path := (added.value, 1)])
                && fallback == (old(fallback) || added.Err?)
    {
      if path in directories {
        var (wd, users) := directories[path];
        directories := directories[path := (wd, users + 1)];
        return;
      }
      if fallback { return; }
      match added
      case Ok(wd) =>
        paths := paths[wd := path];
        directories := directories[path := (wd, 1)];
      case Err(_) =>
        fallback := true;
    }

    /** The last user's leaving is itself a recorded change of the whole tree. */
    method Unregister(path: Path)
      requires Valid()
      modifies this
      ensures Valid() && fallback == old(fallback)
      ensures Extends(old(log), old(generation), log, generation)
      ensures path !in old(directories) ==> directories == old(directories) && log == old(log)
      ensures path in old(directories) && old(directories)[path].1 > 1 ==>
                directories == old(directories)[path := (old(directories)[path].0, old(directories)[path].1 - 1)] && log == old(log)
      ensures path in old(directories) && old(directories)[path].1 == 1 ==>
                && directories == old(directories) - {path}
                && log == old(log) + [Change(path, path, old(generation) + 1, false, true)]
    {
      hide Kept, Extends;
      ExtendsItself(log, generation);
      if path !in directories { return; }
      var (wd, users) := directories[path];
      if users > 1 {
        directories := directories[path := (wd, users - 1)];
        return;
      }
      directories := directories - {path};
      paths := paths - {wd};
      Advance(log, events, coverage, generation, generation + 1);
      generation := generation + 1;
      Record(Change(path, path, generation, false, true));
      ExtendsByOne(old(log), old(generation), Change(path, path, generation, false, true));
    }

    /** One batch of the read loop. */
    method Absorb(batch: seq<KernelEvent>)
      requires History() && Watched()
      modifies `generation, `fallback, `events, `coverage, `log
      ensures History() && Watched() && generation == old(generation) + 1
      ensures log == old(log) + Watchable(paths, batch, generation)
      ensures fallback == (old(fallback) || Disrupted(paths, batch))
    {
      hide Kept, Watchable, Disrupted, Watched;
      Advance(log, events, coverage, generation, generation + 1);
      generation := generation + 1;
      WatchableNil(paths, generation);
      assert batch[..0] == [];
      for k := 0 to |batch|
        invariant History() && Watched() && generation == old(generation) + 1
        invariant log == old(log) + Watchable(paths, batch[..k], generation)
        invariant fallback == (old(fallback) || Disrupted(paths, batch[..k]))
      {
        var e := batch[k];
        WatchableSnoc(paths, batch, k, generation);
        if e.overflow || (e.wd in paths && e.gone) {
          fallback := true;
        }
        if e.wd in paths {
          Record(Observed(paths, e, generation));
        }
      }
      assert batch[..|batch|] == batch;
    }

    /** Reads the kernel queue until it is empty, unreadable, or has filled eight buffers. */
    method ReadEvents(queue: nat -> Read)
      requires Valid()
      modifies `generation, `fallback, `events, `coverage, `log
      ensures Valid() && Extends(old(log), old(generation), log, generation)
      ensures var drained := Drain(paths, readable, queue, 0, old(generation));
              && log == old(log) + drained.changes && generation == drained.generation
              && fallback == (old(fallback) || drained.fallback)
      ensures fallback <==> old(fallback) || MayHaveLost(paths, readable, queue)
    {
      hide Kept, Watchable, Disrupted, Extends, Drain, History, Watched, MayHaveLost;
      FallbackExactly(paths, readable, queue, generation);
      var batch := 0;
      ghost var all := Drain(paths, readable, queue, 0, generation);
      ExtendsItself(log, generation);
      while batch < BATCH_LIMIT
        invariant 0 <= batch <= BATCH_LIMIT && (!readable ==> fallback) && History() && Watched()
        invariant Extends(old(log), old(generation), log, generation)
        invariant var rest := Drain(paths, readable, queue, batch, generation);
                  && log + rest.changes == old(log) + all.changes && rest.generation == all.generation
                  && (fallback || rest.fallback) == (old(fallback) || all.fallback)
      {
        if !readable || queue(batch).Failed? {
          fallback := true;
          break;
        }
        if queue(batch).WouldBlock? || queue(batch).events == [] { break; }
        ghost var before, g := log, generation;
        DrainTurn(paths, readable, queue, batch, generation, log);
        ExtendsByBatch(log, paths, queue(batch).events, generation);
        Absorb(queue(batch).events);
        ExtendsIsTransitive(old(log), old(generation), before, g, log, generation);
        if batch == BATCH_LIMIT - 1 { fallback := true; }
        batch := batch + 1;
      }
      DrainEnd(paths, readable, queue, batch, generation);
    }

    /**
     A reader is never told less than the whole log reports, and exactly that when full
     validation is not required. The returned generation covers everything recorded so far.
     */
    method Changes(watched: set<Path>, previous: nat, queue: nat -> Read) returns (changes: Changes, now: nat)
      requires Valid()
      modifies `generation, `fallback, `events, `coverage, `log
      ensures Valid() && Extends(old(log), old(generation), log, generation)
      ensures var drained := Drain(paths, readable, queue, 0, old(generation));
              log == old(log) + drained.changes
      ensures fallback <==> old(fallback) || MayHaveLost(paths, readable, queue)
      ensures now == generation && forall k :: 0 <= k < |log| ==> log[k].generation <= now
      ensures changes.full == (fallback || previous < coverage)
      ensures Truthful(changes, log, watched, previous)
    {
      ReadEvents(queue);
      changes := Answer(fallback || previous < coverage, {}, {});
      if !changes.full {
        var reported, trees := Collect(watched, previous);
        changes := Answer(false, reported, trees);
        forall p ensures changes.Affects(p) <==> Reported(log, watched, previous, p) {
          RetainedSuffices(log, events, coverage, watched, previous, p);
        }
      }
      now := generation;
    }

    /** Whether anything at all may have changed behind a fence, and the next fence. */
    method Fence(watched: set<Path>, previous: nat, queue: nat -> Read) returns (changed: bool, now: nat)
      requires Valid()
      modifies `generation, `fallback, `events, `coverage, `log
      ensures Valid() && Extends(old(log), old(generation), log, generation)
      ensures changed <==> fallback || previous < coverage || exists p :: Reported(log, watched, previous, p)
      ensures now == generation && forall k :: 0 <= k < |log| ==> log[k].generation <= now
    {
      var changes;
      changes, now := Changes(watched, previous, queue);
      AnyExactly(changes);
      changed := changes.Any();
    }

    /** Walks the retained events backwards until they are no newer than `previous`. */
    method Collect(watched: set<Path>, previous: nat) returns (reported: set<Path>, trees: set<Path>)
      requires Valid()
      ensures forall p :: Answer(false, reported, trees).Affects(p) <==> Reported(events, watched, previous, p)
    {
      hide Reported, Kept;
      KeptIsOrdered(log, events, coverage, generation);
      reported, trees := {}, {};
      var k := |events|;
      NothingReported(watched, previous);
      assert events[k..] == [];
      while k > 0 && events[k - 1].generation > previous
        invariant 0 <= k <= |events|
        invariant forall l :: k <= l < |events| ==> events[l].generation > previous
        invariant forall p :: Answer(false, reported, trees).Affects(p) <==> Reported(events[k..], watched, previous, p)
      {
        k := k - 1;
        var e := events[k];
        ghost var r0, t0 := reported, trees;
        if e.directory in watched {
          reported := reported + {e.path};
          if e.membership { reported := reported + {e.directory}; }
          if e.tree { trees := trees + {e.path}; }
        }
        assert events[k..] == [e] + events[k + 1..];
        forall p ensures Answer(false, reported, trees).Affects(p) <==> Reported(events[k..], watched, previous, p) {
          ReportedCons(e, events[k + 1..], watched, previous, p);
          assert Answer(false, r0, t0).Affects(p) <==> Reported(events[k + 1..], watched, previous, p);
        }
      }
      forall p ensures Reported(events[k..], watched, previous, p) <==> Reported(events, watched, previous, p) {
        OlderReportNothing(events, k, watched, previous, p);
      }
    }
  }

  lemma AnyExactly(c: Changes)
    ensures c.Any() <==> c.full || exists p :: c.Affects(p)
  {
    if p :| p in c.paths { assert c.Affects(p); }
    if t :| t in c.trees { assert c.Affects(t); }
  }

  lemma NothingReported(paths: set<Path>, previous: nat)
    ensures forall p :: !Reported([], paths, previous, p)
  {
  }

  lemma ReportedCons(e: Change, rest: seq<Change>, paths: set<Path>, previous: nat, path: Path)
    ensures Reported([e] + rest, paths, previous, path) <==>
            (e.generation > previous && e.directory in paths && Touches(e, path)) || Reported(rest, paths, previous, path)
  {
    var all := [e] + rest;
    assert forall k :: 0 <= k < |rest| ==> rest[k] == all[k + 1];
    assert forall k :: 1 <= k < |all| ==> all[k] == rest[k - 1];
    assert all[0] == e;
  }

  lemma OlderReportNothing(events: seq<Change>, cut: nat, paths: set<Path>, previous: nat, path: Path)
    requires cut <= |events| && forall k :: 0 <= k < cut ==> events[k].generation <= previous
    ensures Reported(events[cut..], paths, previous, path) <==> Reported(events, paths, previous, path)
  {
    var rest := events[cut..];
    assert forall k :: 0 <= k < |rest| ==> rest[k] == events[cut + k];
    assert forall k :: cut <= k < |events| ==> events[k] == rest[k - cut];
  }
}
