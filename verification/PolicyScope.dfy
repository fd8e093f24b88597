/**
 The memoised ancestor search for an SDK policy in `src/msbuild.rs`. The file system and the
 remote context are fixed while a session lives; what they answer is a `World`.
 */
module PolicyScope {
  import opened Common

  /** A path as its components; `[]` is the root. */
  type Path = seq<string>

  datatype Remote = Remote(workspace: Path, available: Path -> bool, escapes: Path -> bool)

  /** `read` is defined where a policy file exists; reading it may still fail. */
  datatype World = World(remote: Option<Remote>, isFile: Path -> bool, read: Path -> Option<string>)

  datatype Scope = Scope(policy: Option<Path>, contents: string)

  const NO_POLICY := Scope(None, "")

  function Policy(directory: Path): Path {
    directory + ["global.json"]
  }

  /** What looking into one directory says: stop with a result, fail, or go on. */
  datatype Look = Found(scope: Scope) | Fails | Nothing

  function LookInto(w: World, directory: Path): Look {
    var policy := Policy(directory);
    if w.remote.Some? && !w.remote.value.available(policy) then Fails
    else if w.isFile(policy) then
      if w.remote.Some? && w.remote.value.escapes(policy) then Fails
      else match w.read(policy)
           case None => Fails
           case Some(contents) => Found(Scope(Some(policy), contents))
    else if w.remote.Some? && directory == w.remote.value.workspace then Found(NO_POLICY)
    else Nothing
  }

  function Parent(path: Path): Path
    requires path != []
  {
    path[..|path| - 1]
  }

  /** The reference: a walk without any memory, from a directory up to the root. */
  function Walk(w: World, directory: Path): Result<Scope, ()> {
    match LookInto(w, directory)
    case Found(scope) => Ok(scope)
    case Fails => Err(())
    case Nothing => if directory == [] then Ok(NO_POLICY) else Walk(w, Parent(directory))
  }

  /** The policy paths that such a walk looks at, and so has to watch. */
  function Watched(w: World, directory: Path): set<Path> {
    {Policy(directory)} +
    if LookInto(w, directory).Nothing? && directory != [] then Watched(w, Parent(directory)) else {}
  }

  // ----- What a walk finds, told by the ancestors of its start -----

  predicate IsAvailable(w: World, d: Path) {
    w.remote.None? || w.remote.value.available(d + ["global.json"])
  }

  predicate HasPolicy(w: World, d: Path) { w.isFile(d + ["global.json"]) }

  predicate IsWorkspace(w: World, d: Path) { w.remote.Some? && d == w.remote.value.workspace }

  /** Ancestor `k` of the start (its first `k` components) is where a walk arrives. */
  ghost predicate Arrives(w: World, start: Path, k: nat)
    requires k <= |start|
  {
    forall j :: k < j <= |start| ==>
      IsAvailable(w, start[..j]) && !HasPolicy(w, start[..j]) && !IsWorkspace(w, start[..j])
  }

  /** The nearest policy file of all, with every policy path up to it available, itself in place and readable. */
  ghost predicate Selects(w: World, start: Path, k: nat, contents: string)
    requires k <= |start|
  {
    && Arrives(w, start, k) && IsAvailable(w, start[..k]) && HasPolicy(w, start[..k])
    && (w.remote.Some? ==> !w.remote.value.escapes(start[..k] + ["global.json"]))
    && w.read(start[..k] + ["global.json"]) == Some(contents)
  }

  /** No directory from the start up to the workspace, or up to the root, has a policy file. */
  ghost predicate SelectsNothing(w: World, start: Path) {
    exists k :: 0 <= k <= |start| && (k == 0 || IsWorkspace(w, start[..k]))
      && forall j :: k <= j <= |start| ==> IsAvailable(w, start[..j]) && !HasPolicy(w, start[..j])
  }

  lemma {:induction false} WalkFrom(w: World, start: Path, k: nat)
    requires k <= |start| && Arrives(w, start, k)
    ensures Walk(w, start) == Walk(w, start[..k])
    decreases |start| - k
  {
    hide LookInto;
    if k < |start| {
      WalkFrom(w, start, k + 1);
      StepsUp(w, start[..k + 1]);
      assert start[..k + 1][..k] == start[..k];
    } else {
      assert start[..k] == start;
    }
  }

  lemma StepsUp(w: World, d: Path)
    requires d != [] && IsAvailable(w, d) && !HasPolicy(w, d) && !IsWorkspace(w, d)
    ensures Walk(w, d) == Walk(w, Parent(d))
  {
  }

  /** What a walk does in the directory it arrives in, if it ends there. */
  lemma WalkEnds(w: World, d: Path)
    ensures !IsAvailable(w, d) ==> Walk(w, d) == Err(())
    ensures IsAvailable(w, d) && HasPolicy(w, d) ==>
              var policy := d + ["global.json"];
              Walk(w, d) == if (w.remote.Some? && w.remote.value.escapes(policy)) || w.read(policy) == None then Err(())
                            else Ok(Scope(Some(policy), w.read(policy).value))
    ensures IsAvailable(w, d) && !HasPolicy(w, d) && (d == [] || IsWorkspace(w, d)) ==> Walk(w, d) == Ok(Scope(None, ""))
  {
  }

  /** A walk arrives somewhere where it ends. */
  lemma {:induction false} EndExists(w: World, start: Path, k: nat) returns (end: nat)
    requires k <= |start| && Arrives(w, start, k)
    ensures end <= k && Arrives(w, start, end)
    ensures !IsAvailable(w, start[..end]) || HasPolicy(w, start[..end]) || IsWorkspace(w, start[..end]) || end == 0
  {
    end := k;
    if IsAvailable(w, start[..k]) && !HasPolicy(w, start[..k]) && !IsWorkspace(w, start[..k]) && k > 0 {
      end := EndExists(w, start, k - 1);
    }
  }

  /** What a walk selects, in every case; anything else is a failure. */
  ghost predicate Finds(w: World, start: Path, r: Result<Scope, ()>) {
    && (forall k, contents :: 0 <= k <= |start| && Selects(w, start, k, contents) ==>
          r == Ok(Scope(Some(start[..k] + ["global.json"]), contents)))
    && (SelectsNothing(w, start) ==> r == Ok(Scope(None, "")))
    && (r.Ok? ==>
          || (r.value == Scope(None, "") && SelectsNothing(w, start))
          || exists k, contents :: 0 <= k <= |start| && Selects(w, start, k, contents)
               && r.value == Scope(Some(start[..k] + ["global.json"]), contents))
  }

  lemma WalkFinds(w: World, start: Path)
    ensures Finds(w, start, Walk(w, start))
  {
    hide Walk, IsAvailable, HasPolicy, IsWorkspace;
    assert start[..|start|] == start;
    forall k, contents | 0 <= k <= |start| && Selects(w, start, k, contents)
      ensures Walk(w, start) == Ok(Scope(Some(start[..k] + ["global.json"]), contents))
    {
      WalkFrom(w, start, k);
      WalkEnds(w, start[..k]);
    }
    if SelectsNothing(w, start) { NothingIsFound(w, start); }
    var end := EndExists(w, start, |start|);
    WalkFrom(w, start, end);
    WalkEnds(w, start[..end]);
    if Walk(w, start).Ok? {
      if HasPolicy(w, start[..end]) {
        assert Selects(w, start, end, w.read(start[..end] + ["global.json"]).value);
      } else {
        assert SelectsNothing(w, start);
      }
    }
  }

  lemma NothingIsFound(w: World, start: Path)
    requires SelectsNothing(w, start)
    ensures Walk(w, start) == Ok(Scope(None, ""))
  {
    hide Walk, IsAvailable, HasPolicy, IsWorkspace;
    assert start[..|start|] == start;
    var end := EndExists(w, start, |start|);
    WalkFrom(w, start, end);
    WalkEnds(w, start[..end]);
  }

  /** A walk watches the policy of every directory it arrives in. */
  lemma {:induction false} WatchedExactly(w: World, start: Path, p: Path)
    ensures p in Watched(w, start) <==>
            exists k :: 0 <= k <= |start| && Arrives(w, start, k) && p == start[..k] + ["global.json"]
    decreases |start|
  {
    hide IsAvailable, HasPolicy, IsWorkspace, LookInto;
    WatchedStep(w, start);
    assert start[..|start|] == start;
    if start != [] {
      var up := Parent(start);
      WatchedExactly(w, up, p);
      assert forall j :: 0 <= j <= |up| ==> up[..j] == start[..j];
    }
  }

  lemma WatchedStep(w: World, start: Path)
    ensures Watched(w, start) == {start + ["global.json"]} +
            if start != [] && IsAvailable(w, start) && !HasPolicy(w, start) && !IsWorkspace(w, start)
            then Watched(w, Parent(start)) else {}
  {
  }

  function Policies(directories: seq<Path>): set<Path> {
    set d | d in directories :: Policy(d)
  }

  lemma PoliciesSnoc(directories: seq<Path>, d: Path)
    ensures Policies(directories + [d]) == Policies(directories) + {Policy(d)}
  {
  }

  /** A walk only looks upwards. */
  lemma {:induction false} WatchedIsAbove(w: World, directory: Path)
    ensures forall p :: p in Watched(w, directory) ==> |p| <= |directory| + 1
  {
    if directory != [] { WatchedIsAbove(w, Parent(directory)); }
  }

  ghost predicate Distinct(paths: seq<Path>) {
    forall i, j :: 0 <= i < j < |paths| ==> paths[i] != paths[j]
  }

  lemma DistinctTogether(a: seq<Path>, b: seq<Path>)
    requires Distinct(a) && Distinct(b) && forall d :: d in b ==> d !in a
    ensures Distinct(a + b)
  {
    var all := a + b;
    forall i, j | 0 <= i < j < |all| ensures all[i] != all[j] {
      if i < |a| <= j { assert all[i] in a && all[j] in b; }
    }
  }

  lemma DistinctSnoc(visited: seq<Path>, d: Path)
    requires Distinct(visited) && d !in visited
    ensures Distinct(visited + [d])
  {
  }

  /** The policies that the walk above a remembered directory has to watch. */
  function Above(w: World, hit: Option<Path>): set<Path> {
    if hit.Some? then Watched(w, hit.value) else {}
  }

  /** A search from `start` has passed `visited`, all unknown so far, and has come to `directory`. */
  ghost predicate Trail(w: World, known: map<Path, Scope>, start: Path, visited: seq<Path>, directory: Path) {
    && Walk(w, start) == Walk(w, directory)
    && Watched(w, start) == Policies(visited) + Watched(w, directory)
    && Distinct(visited)
    && forall v :: v in visited ==> v !in known && |v| > |directory| && Walk(w, v) == Walk(w, start) && Watched(w, v) <= Watched(w, start)
  }

  lemma TrailStarts(w: World, known: map<Path, Scope>, start: Path)
    ensures Trail(w, known, start, [], start)
  {
  }

  lemma OneUp(w: World, directory: Path)
    requires LookInto(w, directory).Nothing? && directory != []
    ensures Walk(w, directory) == Walk(w, Parent(directory))
    ensures Watched(w, directory) == {Policy(directory)} + Watched(w, Parent(directory))
  {
    hide LookInto;
  }

  lemma TrailGoesUp(w: World, known: map<Path, Scope>, start: Path, visited: seq<Path>, directory: Path)
    requires Trail(w, known, start, visited, directory) && directory !in known
    requires LookInto(w, directory).Nothing? && directory != []
    ensures Trail(w, known, start, visited + [directory], Parent(directory))
  {
    hide LookInto, Walk, Watched, Policies, Distinct;
    OneUp(w, directory);
    PoliciesSnoc(visited, directory);
    DistinctSnoc(visited, directory);
  }

  /** What is known when a search ends with `selected` after looking into every visited directory. */
  ghost predicate Ended(w: World, known: map<Path, Scope>, start: Path, visited: seq<Path>, hit: Option<Path>, selected: Scope) {
    && Walk(w, start) == Ok(selected)
    && Watched(w, start) == Policies(visited) + Above(w, hit)
    && (hit.Some? ==> hit.value in known && forall v :: v in visited ==> |v| > |hit.value|)
    && Distinct(visited)
    && forall v :: v in visited ==> v !in known && Walk(w, v) == Ok(selected) && Watched(w, v) <= Watched(w, start)
  }

  lemma TrailEndsHere(w: World, known: map<Path, Scope>, start: Path, visited: seq<Path>, directory: Path, selected: Scope)
    requires Trail(w, known, start, visited, directory) && directory !in known
    requires LookInto(w, directory) == Found(selected) || (LookInto(w, directory).Nothing? && directory == [] && selected == NO_POLICY)
    ensures Ended(w, known, start, visited + [directory], None, selected)
  {
    hide LookInto;
    PoliciesSnoc(visited, directory);
  }

  lemma TrailHits(w: World, known: map<Path, Scope>, start: Path, visited: seq<Path>, directory: Path)
    requires Trail(w, known, start, visited, directory)
    requires directory in known && Walk(w, directory) == Ok(known[directory])
    ensures Ended(w, known, start, visited, Some(directory), known[directory])
  {
    hide LookInto;
  }

  /** A search watches all that a fresh walk would exactly if the remembered part was watched before. */
  lemma WatchesEnough(w: World, known: map<Path, Scope>, start: Path, visited: seq<Path>, hit: Option<Path>, selected: Scope, metadata: set<Path>)
    requires Ended(w, known, start, visited, hit, selected)
    ensures Watched(w, start) <= metadata + Policies(visited) <==> Above(w, hit) <= metadata
  {
    if hit.Some? {
      WatchedIsAbove(w, hit.value);
      forall p | p in Above(w, hit) ensures p !in Policies(visited) {
        assert forall v :: v in visited ==> |Policy(v)| == |v| + 1;
      }
    }
  }

  class Session {
    ghost const world: World
    var scopes: map<Path, Scope>
    /** The directories looked into by successful searches, in order. */
    ghost var probes: seq<Path>

    /** Every remembered scope is what a fresh walk finds, and was looked up exactly once. */
    ghost predicate Valid()
      reads this
    {
      && (forall d :: d in scopes ==> Walk(world, d) == Ok(scopes[d]))
      && (forall d :: d in probes <==> d in scopes)
      && Distinct(probes)
    }

    constructor (ghost world: World)
      ensures Valid() && scopes == map[] && this.world == world
    {
      this.world, scopes, probes := world, map[], [];
    }

    /** Remembers one result for all directories a search has passed. */
    method Remember(visited: seq<Path>, selected: Scope)
      requires Valid() && Distinct(visited)
      requires forall d :: d in visited ==> d !in scopes && Walk(world, d) == Ok(selected)
      modifies this
      ensures Valid() && probes == old(probes) + visited
      ensures forall d :: d in scopes <==> d in old(scopes) || d in visited
      ensures forall d :: d in old(scopes) ==> scopes[d] == old(scopes)[d]
    {
      for i := 0 to |visited|
        invariant probes == old(probes)
        invariant forall d :: d in scopes <==> d in old(scopes) || d in visited[..i]
        invariant forall d :: d in scopes ==> scopes[d] == if d in old(scopes) then old(scopes)[d] else selected
      {
        scopes := scopes[visited[i] := selected];
      }
      assert visited[..|visited|] == visited;
      DistinctTogether(probes, visited);
      probes := probes + visited;
    }

    /**
     One search. It finds what a fresh walk finds, and fails when that fails, without
     touching the memory. `hit` is the remembered directory that ended it, if one did.
     */
    method Search(entry: Path, metadata: set<Path>, w: World)
      returns (r: Result<Scope, ()>, watched: set<Path>, ghost visited: seq<Path>, ghost hit: Option<Path>)
      requires Valid() && w == world
      modifies this
      ensures Valid()
      ensures entry == [] ==> r.Err? && watched == metadata
      ensures entry != [] ==> r == Walk(w, Parent(entry)) && Finds(w, Parent(entry), r)
      ensures r.Err? ==> scopes == old(scopes) && probes == old(probes)
      ensures entry != [] && r.Err? ==> watched == metadata + Watched(w, Parent(entry))
      ensures r.Ok? ==> probes == old(probes) + visited && watched == metadata + Policies(visited)
      ensures r.Ok? ==> forall d :: d in scopes <==> d in old(scopes) || d in visited
      ensures r.Ok? ==> hit.Some? ==> hit.value in old(scopes)
      ensures r.Ok? ==> Watched(w, Parent(entry)) == Policies(visited) + Above(w, hit)
      ensures r.Ok? ==> (Watched(w, Parent(entry)) <= watched <==> Above(w, hit) <= metadata)
      ensures r.Ok? && (forall d :: d in old(scopes) ==> Watched(w, d) <= metadata) ==>
                watched == metadata + Watched(w, Parent(entry)) && forall d :: d in scopes ==> Watched(w, d) <= watched
    {
      hide Trail, Ended, Watched, Walk, Policies, Distinct, Finds;
      r, watched, visited, hit := Err(()), metadata, [], None;
      if entry == [] { return; }
      var start := Parent(entry);
      var directory := start;
      var passed: seq<Path> := [];
      var selected := NO_POLICY;
      WalkFinds(w, start);
      TrailStarts(w, scopes, start);
      PoliciesOfNone();
      while true
        invariant Trail(w, scopes, start, passed, directory) && watched == metadata + Policies(passed)
        invariant Valid() && scopes == old(scopes) && probes == old(probes)
        invariant hit == None && selected == NO_POLICY && r == Err(())
        decreases |directory|
      {
        if directory in scopes {
          TrailHits(w, scopes, start, passed, directory);
          selected, hit := scopes[directory], Some(directory);
          break;
        }
        var policy := Policy(directory);
        ghost var before := passed;
        PoliciesSnoc(passed, directory);
        passed := passed + [directory];
        watched := watched + {policy};
        if w.remote.Some? && !w.remote.value.available(policy) {
          WalkFails(w, scopes, start, before, directory);
          return;
        }
        if w.isFile(policy) {
          if w.remote.Some? && w.remote.value.escapes(policy) {
            WalkFails(w, scopes, start, before, directory);
            return;
          }
          var contents := w.read(policy);
          if contents.None? {
            WalkFails(w, scopes, start, before, directory);
            return;
          }
          selected := Scope(Some(policy), contents.value);
          TrailEndsHere(w, scopes, start, before, directory, selected);
          break;
        }
        if (w.remote.Some? && directory == w.remote.value.workspace) || directory == [] {
          TrailEndsHere(w, scopes, start, before, directory, selected);
          break;
        }
        TrailGoesUp(w, scopes, start, before, directory);
        directory := Parent(directory);
      }
      WatchesEnough(w, scopes, start, passed, hit, selected, metadata);
      EndedFacts(w, scopes, start, passed, hit, selected);
      visited := passed;
      Remember(passed, selected);
      r := Ok(selected);
    }
  }

  lemma PoliciesOfNone()
    ensures Policies([]) == {}
  {
  }

  lemma WalkFails(w: World, known: map<Path, Scope>, start: Path, visited: seq<Path>, directory: Path)
    requires Trail(w, known, start, visited, directory) && LookInto(w, directory).Fails?
    ensures Walk(w, start) == Err(())
    ensures Policies(visited + [directory]) == Watched(w, start)
  {
    hide LookInto;
    PoliciesSnoc(visited, directory);
  }

  lemma EndedFacts(w: World, known: map<Path, Scope>, start: Path, visited: seq<Path>, hit: Option<Path>, selected: Scope)
    requires Ended(w, known, start, visited, hit, selected)
    ensures Walk(w, start) == Ok(selected) && Watched(w, start) == Policies(visited) + Above(w, hit)
    ensures hit.Some? ==> hit.value in known
    ensures Distinct(visited)
    ensures forall v :: v in visited ==> v !in known && Walk(w, v) == Ok(selected) && Watched(w, v) <= Watched(w, start)
  {
  }
}
