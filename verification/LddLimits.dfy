/**
  Inputs for which the search loses a library: the hypotheses of the closure theorems are
  needed.
 */
module LddLimits {
  import opened Counting
  import opened LddModel
  import opened LddClosure
  import opened LddReach
  import opened LddLone
  import opened LddProvenance
  import opened LddRpath
  import opened LddSteps
  import opened UnixPath
  import Substitute

  // ----- concrete inputs

  /** Without `$` and ':' a search path is one directory, itself. */
  lemma PlainPath(raw: string, origin: string)
    requires '$' !in raw && ':' !in raw
    ensures Substitute.Split(raw, ':') == [raw] && Substitute.Replace(raw, "$ORIGIN", origin) == raw
  {
    Substitute.SplitFree(raw, ':');
    forall i: nat ensures !Substitute.OccursAt(raw, "$ORIGIN", i) {
      assert i + 7 <= |raw| ==> raw[i..i + 7][0] == raw[i] && raw[i] in raw;
    }
    Substitute.ReplaceAbsent(raw, "$ORIGIN", origin);
  }

  lemma PlainPaths(path: string, elf: ElfFile)
    requires forall raw :: raw in elf.searchPaths ==> '$' !in raw && ':' !in raw
    ensures forall dir :: dir in OwnPaths(path, elf) <==> dir in elf.searchPaths
  {
    forall raw | raw in elf.searchPaths
      ensures Substitute.Split(raw, ':') == [raw] && Substitute.Replace(raw, "$ORIGIN", Origin(path)) == raw
    {
      PlainPath(raw, Origin(path));
    }
    forall raw | raw in elf.searchPaths ensures raw in OwnPaths(path, elf) {
      assert raw in Substitute.Split(raw, ':');
    }
  }

  /** The default directories that `ldd` passes. */
  const LIBDIRS := ["/lib64/dyninst", "/lib64"]

  function Filesystem(present: set<string>, installed: set<string>, elf: map<string, ElfFile>): (w: World) {
    World(present, installed, elf, None, LIBDIRS, (p: string) => p)
  }

  // ----- two files that search for the same name

  /**
    Two files need the same name, and neither the cache nor a default directory has it.
    The first file's RPATH is `x`, where the library is missing; the second file's RPATH
    is `x` and `y`, and `y` has it.
   */
  ghost predicate SharedRpath(w: World, a: string, b: string, dep: string, x: string, y: string) {
    && a != b && a in w.elf && b in w.elf && a in w.present && b in w.present
    && w.elf[a].needed == [dep] && w.elf[b].needed == [dep]
    && OwnPaths(a, w.elf[a]) == {x} && OwnPaths(b, w.elf[b]) == {x, y} && x != y
    && w.installed == {} && !Cached(w, dep)
    && (forall k: nat :: k < |w.libdirs| ==> DefaultKey(w, k, dep) !in w.present)
    && SearchKey(w, x, dep) !in w.present && SearchKey(w, y, dep) in w.present
    && SearchKey(w, y, dep) != a && SearchKey(w, y, dep) != b
  }

  /** A search that has nothing but missing candidates before it. */
  ghost predicate Barren(w: World, dep: string, wk: Worker) {
    && wk.Searching? && wk.deps == [dep] && wk.d == 0 && !Cached(w, dep) && !wk.at.InCache?
    && (forall dir :: dir in wk.order ==> SearchKey(w, dir, dep) !in w.present)
    && (forall k: nat :: k < |w.libdirs| ==> DefaultKey(w, k, dep) !in w.present)
    && (match wk.hand
        case Free => true
        case Claimed(c) => c !in w.present && Candidate(w, wk) == Some(c)
        case Wanted(_) => false)
  }

  /** How many candidates are left. */
  ghost function Ahead(w: World, wk: Worker): (n: nat)
    requires wk.Searching?
  {
    match wk.at
    case InLpaths(k) => (if k < |wk.order| then |wk.order| - k else 0) + |w.libdirs|
    case InCache(_) => 0
    case InDefault(k) => if k < |w.libdirs| then |w.libdirs| - k else 0
  }

  lemma BarrenCandidate(w: World, dep: string, wk: Worker)
    requires Barren(w, dep, wk) && Candidate(w, wk).Some?
    ensures Candidate(w, wk).value !in w.present && Ahead(w, wk) > 0
    ensures Barren(w, dep, wk.(hand := Claimed(Candidate(w, wk).value)))
  {
    if wk.at.InLpaths? {
      assert wk.order[wk.at.k] in wk.order;
    }
  }

  /** What a barren search leaves behind: more visited paths and a processed or failed file. */
  ghost predicate Ended(w: World, p: string, before: State, after: State) {
    && after.workers == [Idle] && after.queue == before.queue && after.skipped == before.skipped
    && after.out == before.out + multiset{p}
    && before.visited <= after.visited
  }

  /** The search ends: behind the last directory, or at a visited candidate. */
  lemma BarrenEnd(w: World, dep: string, s0: State, run: seq<Action>, s: State, wk: Worker)
    returns (r: seq<Action>, last: State)
    requires After(w, s0, run) == Some(s) && s.workers == [wk] && Barren(w, dep, wk) && wk.hand.Free?
    requires if Candidate(w, wk).Some? then Candidate(w, wk).value in s.visited else wk.at.InDefault?
    ensures After(w, s0, r) == Some(last) && Ended(w, wk.path, s, last)
  {
    if Candidate(w, wk).None? {
      r := FollowEnd(w, s0, run, s, wk.path, {}, {wk.path});
      last := State(s.visited, s.queue, [Idle], s.out + multiset{wk.path}, s.skipped,
                    s.resolved + {}, s.missing + {wk.path});
    } else {
      r := FollowOnly(w, s0, run, s, [], NextDep(wk));
      r := FollowEnd(w, s0, r, s.(workers := [NextDep(wk)]), wk.path, {wk.path}, {});
      last := State(s.visited, s.queue, [Idle], s.out + multiset{wk.path}, s.skipped,
                    s.resolved + {wk.path}, s.missing + {});
    }
  }

  lemma BarrenAdvances(w: World, dep: string, wk: Worker)
    requires Barren(w, dep, wk) && wk.hand.Claimed?
    ensures SearchStep(w, {}, wk) == Only(Advance(wk))
    ensures Barren(w, dep, Advance(wk)) && Ahead(w, Advance(wk)) < Ahead(w, wk)
  {
  }

  lemma {:induction false} BarrenEnds(w: World, dep: string, s0: State, run: seq<Action>, s: State, wk: Worker)
    returns (r: seq<Action>, last: State)
    requires After(w, s0, run) == Some(s) && s.workers == [wk] && Barren(w, dep, wk)
    ensures After(w, s0, r) == Some(last) && Ended(w, wk.path, s, last)
    decreases Ahead(w, wk), wk.at.InLpaths?, wk.hand.Free?
  {
    if wk.hand.Claimed? {
      BarrenAdvances(w, dep, wk);
      r := FollowOnly(w, s0, run, s, [], Advance(wk));
      r, last := BarrenEnds(w, dep, s0, r, s.(workers := [Advance(wk)]), Advance(wk));
    } else if Candidate(w, wk).None? && wk.at.InLpaths? {
      var next := wk.(at := InDefault(0));
      r := FollowOnly(w, s0, run, s, [], next);
      r, last := BarrenEnds(w, dep, s0, r, s.(workers := [next]), next);
    } else if Candidate(w, wk).Some? && Candidate(w, wk).value !in s.visited {
      var c := Candidate(w, wk).value;
      BarrenCandidate(w, dep, wk);
      r := FollowClaim(w, s0, run, s, wk, c);
      r, last := BarrenEnds(w, dep, s0, r, s.(visited := s.visited + {c}, workers := [wk.(hand := Claimed(c))]),
                            wk.(hand := Claimed(c)));
    } else {
      r, last := BarrenEnd(w, dep, s0, run, s, wk);
    }
  }

  lemma FirstFileOpens(w: World, a: string, b: string, x: string) returns (r: seq<Action>)
    requires a in w.elf && a !in w.installed && OwnPaths(a, w.elf[a]) == {x}
    ensures After(w, Initial([a, b], 1), r)
            == Some(One({a, b}, [Task(b, {})], Opened(w, Task(a, {}), [x]), multiset{}, {}, {}))
  {
    InitialPair(a, b);
    assert {} + OwnPaths(a, w.elf[a]) == {x} && Enumerates([x], {x});
    r := FollowOpen(w, Initial([a, b], 1), [], {a, b}, Task(a, {}), [Task(b, {})], multiset{}, {}, {}, [x]);
  }

  /** A search claims the key below `x`, misses it, and finds nothing else. */
  lemma FirstFileMisses(w: World, dep: string, x: string, s0: State, run: seq<Action>, s: State, wk: Worker)
    returns (r: seq<Action>, last: State)
    requires After(w, s0, run) == Some(s) && s.workers == [wk] && Barren(w, dep, wk)
    requires wk.order == [x] && wk.at == InLpaths(0) && wk.hand.Free? && SearchKey(w, x, dep) !in s.visited
    ensures After(w, s0, r) == Some(last) && Ended(w, wk.path, s, last) && SearchKey(w, x, dep) in last.visited
  {
    var key := SearchKey(w, x, dep);
    BarrenCandidate(w, dep, wk);
    r := FollowClaim(w, s0, run, s, wk, key);
    var claimed := wk.(hand := Claimed(key));
    r, last := BarrenEnds(w, dep, s0, r, s.(visited := s.visited + {key}, workers := [claimed]), claimed);
  }

  lemma FirstFile(w: World, a: string, b: string, dep: string, x: string, y: string)
    returns (r: seq<Action>, last: State)
    requires SharedRpath(w, a, b, dep, x, y)
    ensures After(w, Initial([a, b], 1), r) == Some(last)
    ensures last.workers == [Idle] && last.queue == [Task(b, {})] && last.skipped == multiset{}
    ensures last.out == multiset{a} && SearchKey(w, x, dep) in last.visited
  {
    var wk := Opened(w, Task(a, {}), [x]);
    r := FirstFileOpens(w, a, b, x);
    r, last := FirstFileMisses(w, dep, x, Initial([a, b], 1), r,
                               One({a, b}, [Task(b, {})], wk, multiset{}, {}, {}), wk);
    assert multiset{} + multiset{a} == multiset{a};
  }

  lemma EnumeratesPair(x: string, y: string)
    requires x != y
    ensures Enumerates([x, y], {x, y})
  {
  }

  /** The second file finds the key below `x` claimed, so `y` is never looked at. */
  lemma SecondFile(w: World, b: string, dep: string, x: string, y: string, s0: State, run: seq<Action>, s: State)
    returns (r: seq<Action>, last: State)
    requires b in w.elf && b !in w.installed && w.elf[b].needed == [dep]
    requires OwnPaths(b, w.elf[b]) == {x, y} && x != y
    requires After(w, s0, run) == Some(s) && s.workers == [Idle] && s.queue == [Task(b, {})] && s.skipped == multiset{}
    requires SearchKey(w, x, dep) in s.visited
    ensures After(w, s0, r) == Some(last) && Quiescent(last)
    ensures b in last.resolved && last.out == s.out + multiset{b}
  {
    EnumeratesPair(x, y);
    assert {} + OwnPaths(b, w.elf[b]) == {x, y};
    assert s == One(s.visited, [Task(b, {})] + [], Idle, s.out, s.resolved, s.missing);
    var wk := Opened(w, Task(b, {}), [x, y]);
    r := FollowOpen(w, s0, run, s.visited, Task(b, {}), [], s.out, s.resolved, s.missing, [x, y]);
    r := FollowLeave(w, s0, r, s.visited, [], wk, SearchKey(w, x, dep), s.out, s.resolved, s.missing);
    last := One(s.visited, [], Idle, s.out + multiset{b}, s.resolved + {b}, s.missing);
  }

  /** A seed's only chance is the key below `y`. */
  lemma OnlyChance(w: World, seeds: seq<string>, b: string, dep: string, x: string, y: string, c: string)
    requires b in seeds && b in w.elf && OwnPaths(b, w.elf[b]) == {x, y} && SearchKey(w, x, dep) !in w.present
    requires !InSystem(w, dep, c) && MayClaim(w, seeds, b, dep, c) && c in w.present
    ensures c == SearchKey(w, y, dep)
  {
    hide Searches, OwnPaths, InSystem;
    var dirs :| Searches(w, seeds, b, dirs) && CandidateIn(w, dirs, dep, c);
    SeedSearches(w, seeds, b, dirs);
    var dir :| dir in dirs && c == SearchKey(w, dir, dep);
    assert dir in {x, y};
  }

  lemma OwnDirAvailable(w: World, seeds: seq<string>, b: string, dep: string, y: string)
    requires b in seeds && b in w.elf && y in OwnPaths(b, w.elf[b]) && SearchKey(w, y, dep) in w.present
    ensures Available(w, seeds, b, dep)
  {
    hide Searches, OwnPaths;
    forall dirs | Searches(w, seeds, b, dirs) ensures AvailableIn(w, dirs, dep) {
      SeedSearches(w, seeds, b, dirs);
      assert InDirs(w, dirs, dep, SearchKey(w, y, dep));
    }
  }

  /**
    In this family of worlds there is a complete run in which the second file counts as
    processed, although the library that its own RPATH names exists and neither it nor any
    other place the file searches is returned or installed.
   */
  lemma RpathLosesLibrary(w: World, a: string, b: string, dep: string, x: string, y: string)
    requires SharedRpath(w, a, b, dep, x, y)
    ensures exists run, s ::
              && Reaches(w, [a, b], 1, run, s) && Quiescent(s) && b in s.resolved
              && Available(w, [a, b], b, dep) && !Supplied(w, [a, b], b, dep, s)
              && SearchKey(w, y, dep) !in s.out
  {
    var run, s := FirstFile(w, a, b, dep, x, y);
    run, s := SecondFile(w, b, dep, x, y, Initial([a, b], 1), run, s);
    assert Reaches(w, [a, b], 1, run, s);
    OwnDirAvailable(w, [a, b], b, dep, y);
    forall c | c in w.present && MayClaim(w, [a, b], b, dep, c) ensures c !in s.out && c !in w.installed {
      OnlyChance(w, [a, b], b, dep, x, y, c);
    }
  }

  function SharedWorld(): (w: World) {
    Filesystem({"/bin/a", "/bin/b", "/y/l"}, {},
               map["/bin/a" := ElfFile(["/x"], ["l"]), "/bin/b" := ElfFile(["/x", "/y"], ["l"])])
  }

  lemma OwnPathsOfTwo(path: string, elf: ElfFile, x: string, y: string)
    requires elf.searchPaths == [x, y] && '$' !in x && ':' !in x && '$' !in y && ':' !in y
    ensures OwnPaths(path, elf) == {x, y}
  {
    PlainPaths(path, elf);
  }

  lemma OwnPathsOfOne(path: string, elf: ElfFile, x: string)
    requires elf.searchPaths == [x] && '$' !in x && ':' !in x
    ensures OwnPaths(path, elf) == {x}
  {
    PlainPaths(path, elf);
  }

  lemma SharedWorldKeys(w: World, x: string, y: string, dep: string)
    requires w == SharedWorld() && x == "/x" && y == "/y" && dep == "l"
    ensures SearchKey(w, x, dep) == "/x/l" && SearchKey(w, y, dep) == "/y/l"
    ensures SearchKey(w, x, dep) !in w.present
    ensures forall k: nat :: k < |w.libdirs| ==> DefaultKey(w, k, dep) !in w.present
  {
    forall k: nat | k < |w.libdirs| ensures DefaultKey(w, k, dep) !in w.present {
      assert |Join(w.libdirs[k], dep)| == if k == 0 then 16 else 8;
    }
  }

  lemma SharedWorldFits(w: World, a: string, b: string, x: string, y: string, dep: string)
    requires w == SharedWorld() && a == "/bin/a" && b == "/bin/b" && x == "/x" && y == "/y" && dep == "l"
    ensures SharedRpath(w, a, b, dep, x, y)
    ensures SearchKey(w, y, dep) == "/y/l"
  {
    SharedWorldKeys(w, x, y, dep);
    assert a != b && x != y;
    OwnPathsOfOne(a, w.elf[a], x);
    OwnPathsOfTwo(b, w.elf[b], x, y);
  }

  /** Two programs that share one of their RPATHs. */
  lemma SharedWorldLoses()
    ensures exists run, s ::
              && Reaches(SharedWorld(), ["/bin/a", "/bin/b"], 1, run, s) && Quiescent(s) && "/bin/b" in s.resolved
              && "/y/l" in SharedWorld().present && "/y/l" !in s.out && "/y/l" !in SharedWorld().installed
  {
    hide Available, Supplied, SharedRpath;
    SharedWorldFits(SharedWorld(), "/bin/a", "/bin/b", "/x", "/y", "l");
    RpathLosesLibrary(SharedWorld(), "/bin/a", "/bin/b", "l", "/x", "/y");
  }

  // ----- one file whose RPATH names a default directory

  /** A file searches the first default directory by RPATH too; only the second one has the library. */
  ghost predicate DefaultDirAsRpath(w: World, a: string, dep: string) {
    && a in w.elf && w.elf[a].needed == [dep] && a in w.present && w.installed == {} && !Cached(w, dep)
    && |w.libdirs| == 2 && OwnPaths(a, w.elf[a]) == {w.libdirs[0]}
    && DefaultKey(w, 0, dep) !in w.present && DefaultKey(w, 1, dep) in w.present && DefaultKey(w, 1, dep) != a
  }

  /** Everything the search looks at lies in one of the two default directories. */
  lemma TwoPlaces(w: World, dirs: set<string>, dep: string, c: string)
    requires |w.libdirs| == 2 && dirs == {w.libdirs[0]} && !Cached(w, dep) && CandidateIn(w, dirs, dep, c)
    ensures c == DefaultKey(w, 0, dep) || c == DefaultKey(w, 1, dep)
  {
    hide SearchKey;
    if InDirs(w, dirs, dep, c) {
      var dir :| dir in dirs && c == SearchKey(w, dir, dep);
      assert dir == w.libdirs[0];
    } else {
      var k: nat :| k < |w.libdirs| && c == DefaultKey(w, k, dep);
      assert k == 0 || k == 1;
    }
  }

  lemma FirstPlaceTwice(w: World, dirs: set<string>, dep: string)
    requires |w.libdirs| > 0 && dirs == {w.libdirs[0]} && DefaultKey(w, 0, dep) !in w.present
    ensures !NewMiss(w, dirs, dep, 0)
    ensures forall c :: InDirs(w, dirs, dep, c) ==> c !in w.present
  {
    assert w.libdirs[0] in dirs;
    assert InDirs(w, dirs, dep, DefaultKey(w, 0, dep));
  }

  lemma DefaultDirTrap(w: World, a: string, dep: string)
    requires DefaultDirAsRpath(w, a, dep)
    ensures !TrapFreeIn(w, Own(w, a), dep) && !AlreadyThere(w, a, dep) && AvailableIn(w, Own(w, a), dep)
  {
    hide InDirs, NewMiss, DistinctMisses, OwnPaths;
    var dirs := Own(w, a);
    FirstPlaceTwice(w, dirs, dep);
    assert NoneBefore(w, dep, 0);
    assert InSystem(w, dep, DefaultKey(w, 1, dep));
    forall c | c in w.present && CandidateIn(w, dirs, dep, c) ensures c != a {
      TwoPlaces(w, dirs, dep, c);
    }
  }

  /** The library is not always found: the search comes to the first default directory twice. */
  lemma DefaultDirLoses(w: World, a: string, dep: string)
    requires DefaultDirAsRpath(w, a, dep)
    ensures !AlwaysSupplied(w, a, dep)
  {
    DefaultDirTrap(w, a, dep);
    LoneSearchExact(w, a, dep);
  }

  function DefaultDirWorld(): (w: World) {
    Filesystem({"/bin/a", "/lib64/l"}, {}, map["/bin/a" := ElfFile(["/lib64/dyninst"], ["l"])])
  }

  lemma DefaultDirKeys(w: World, dep: string)
    requires w == DefaultDirWorld() && dep == "l"
    ensures DefaultKey(w, 0, dep) !in w.present && DefaultKey(w, 1, dep) == "/lib64/l"
  {
    assert |Join(w.libdirs[0], dep)| == 16;
  }

  lemma DefaultDirWorldFits(w: World, a: string, dep: string)
    requires w == DefaultDirWorld() && a == "/bin/a" && dep == "l"
    ensures DefaultDirAsRpath(w, a, dep)
  {
    DefaultDirKeys(w, dep);
    OwnPathsOfOne(a, w.elf[a], w.libdirs[0]);
  }

  // ----- a dependency that is installed already

  /** The search of `f` for its first dependency, with the directories before the cursor claimed. */
  ghost predicate Underway(w: World, f: string, d1: string, visited: set<string>, wk: Worker) {
    match wk
    case Idle => false
    case Opening(path, lpaths) => path == f && lpaths == {} && NoneClaimed(w, d1, visited, 0)
    case Searching(path, lpaths, order, deps, d, at, hand) =>
      && path == f && lpaths == {} && order == [] && f in w.elf && deps == w.elf[f].needed && d == 0
      && (match at
          case InLpaths(_) => hand.Free? && NoneClaimed(w, d1, visited, 0)
          case InCache(_) => false
          case InDefault(k) =>
            && k <= |w.libdirs| && !hand.Wanted?
            && (hand.Claimed? ==> k < |w.libdirs| && hand.c == DefaultKey(w, k, d1))
            && NoneClaimed(w, d1, visited, if hand.Free? then k else k + 1))
  }

  ghost predicate NoneClaimed(w: World, d1: string, visited: set<string>, k: nat) {
    forall j: nat :: k <= j < |w.libdirs| ==> DefaultKey(w, j, d1) !in visited
  }

  /** All workers but the `t`-th are idle. */
  ghost predicate OthersIdle(s: State, t: int) {
    forall i :: 0 <= i < |s.workers| && i != t ==> s.workers[i].Idle?
  }

  /** The three phases of a run with `f` as its only seed. */
  ghost predicate Failing(w: World, f: string, d1: string, s: State) {
    || (s.queue == [Task(f, {})] && OthersIdle(s, -1) && s.out == multiset{} && s.missing == {}
        && NoneClaimed(w, d1, s.visited, 0))
    || (s.queue == [] && s.out == multiset{} && s.missing == {}
        && exists t :: 0 <= t < |s.workers| && OthersIdle(s, t) && Underway(w, f, d1, s.visited, s.workers[t]))
    || (s.queue == [] && OthersIdle(s, -1) && s.out == multiset{f} && s.missing == {f})
  }

  /**
    The first dependency of `f` is not in the cache, and its copies in default directories,
    if any, are all installed already.
   */
  ghost predicate FirstInstalled(w: World, f: string, d1: string) {
    && f in w.elf && f !in w.installed && w.elf[f].searchPaths == []
    && w.elf[f].needed != [] && w.elf[f].needed[0] == d1 && !Cached(w, d1)
    && (forall k: nat :: k < |w.libdirs| ==> !Stops(w, [f], DefaultKey(w, k, d1)))
    && (forall j: nat, k: nat :: j < k < |w.libdirs| ==> DefaultKey(w, j, d1) != DefaultKey(w, k, d1))
  }

  lemma UnderwayStep(w: World, f: string, d1: string, visited: set<string>, wk: Worker, order: seq<string>)
    requires FirstInstalled(w, f, d1) && Underway(w, f, d1, visited, wk)
    requires wk.Opening? ==> Enumerates(order, wk.lpaths + OwnPaths(wk.path, w.elf[f]))
    ensures var e := WorkerStep(w, visited, wk, order);
            && e.tasks == []
            && (if e.next.Idle? then e.done == multiset{f} && e.missing == {f}
                else e.done == multiset{} && e.missing == {} && Underway(w, f, d1, visited + e.claims, e.next))
  {
    if wk.Opening? {
      assert OwnPaths(wk.path, w.elf[f]) == {};
      assert order == [];
    }
  }

  lemma WorkFails(f: string, s: State, t: nat, e: Effect)
    requires t < |s.workers| && OthersIdle(s, t) && s.queue == [] && s.out == multiset{} && s.missing == {}
    requires e.tasks == [] && e.next.Idle? && e.done == multiset{f} && e.missing == {f}
    ensures var r := Apply(s, t, e);
            r.queue == [] && OthersIdle(r, -1) && r.out == multiset{f} && r.missing == {f}
  {
    assert s.out + e.done == e.done && s.missing + e.missing == e.missing;
  }

  lemma WorkGoesOn(s: State, t: nat, e: Effect)
    requires t < |s.workers| && OthersIdle(s, t) && s.queue == [] && s.out == multiset{} && s.missing == {}
    requires e.tasks == [] && e.done == multiset{} && e.missing == {}
    ensures var r := Apply(s, t, e);
            r.queue == [] && OthersIdle(r, t) && r.out == multiset{} && r.missing == {} && r.workers[t] == e.next
  {
    assert s.out + e.done == e.done && s.missing + e.missing == e.missing;
  }

  lemma FailingByWork(w: World, f: string, d1: string, s: State, t: nat, order: seq<string>)
    requires FirstInstalled(w, f, d1) && Failing(w, f, d1, s) && Enabled(w, s, Work(t, order))
    ensures Failing(w, f, d1, Next(w, s, Work(t, order)))
  {
    var e := WorkerStep(w, s.visited, s.workers[t], order);
    assert OthersIdle(s, t) && Underway(w, f, d1, s.visited, s.workers[t]);
    UnderwayStep(w, f, d1, s.visited, s.workers[t], order);
    if e.next.Idle? {
      WorkFails(f, s, t, e);
    } else {
      WorkGoesOn(s, t, e);
    }
  }

  lemma FailingByTake(w: World, f: string, d1: string, s: State, t: nat, q: nat)
    requires FirstInstalled(w, f, d1) && Failing(w, f, d1, s) && Enabled(w, s, Take(t, q))
    ensures Failing(w, f, d1, Next(w, s, Take(t, q)))
  {
    var r := Next(w, s, Take(t, q));
    assert r.queue == [] && OthersIdle(r, t) && r.workers[t] == Opening(f, {});
  }

  lemma FailingInitially(w: World, f: string, d1: string, threads: nat)
    requires FirstInstalled(w, f, d1)
    ensures Failing(w, f, d1, Initial([f], threads))
  {
    var s := Initial([f], threads);
    assert s.queue == [Task(f, {})];
    forall j: nat | j < |w.libdirs| ensures DefaultKey(w, j, d1) !in s.visited {
      assert !Stops(w, [f], DefaultKey(w, j, d1));
    }
  }

  lemma {:induction false} AlwaysFailing(w: World, f: string, d1: string, threads: nat, run: seq<Action>, s: State)
    requires FirstInstalled(w, f, d1) && Reaches(w, [f], threads, run, s)
    ensures Failing(w, f, d1, s)
    decreases |run|
  {
    if run == [] {
      FailingInitially(w, f, d1, threads);
    } else {
      var before := After(w, Initial([f], threads), run[..|run| - 1]).value;
      AlwaysFailing(w, f, d1, threads, run[..|run| - 1], before);
      match run[|run| - 1]
      case Take(t, q) => FailingByTake(w, f, d1, before, t, q);
      case Work(t, order) => FailingByWork(w, f, d1, before, t, order);
    }
  }

  /**
    If the first dependency is installed already, the file counts as missing it, and none of
    its other dependencies is returned, in any run with any number of workers.
   */
  lemma InstalledCopyFails(w: World, f: string, d1: string, threads: nat, run: seq<Action>, s: State)
    requires FirstInstalled(w, f, d1) && Reaches(w, [f], threads, run, s) && Quiescent(s)
    ensures s.out == multiset{f} && s.missing == {f}
  {
    AlwaysFailing(w, f, d1, threads, run, s);
  }

  function InstalledWorld(): (w: World) {
    Filesystem({"/bin/f", "/lib64/l", "/lib64/m"}, {"/lib64/l"}, map["/bin/f" := ElfFile([], ["l", "m"])])
  }

  lemma InstalledWorldKeys(w: World, f: string, d1: string, d2: string)
    requires w == InstalledWorld() && f == "/bin/f" && d1 == "l" && d2 == "m"
    ensures !Stops(w, [f], DefaultKey(w, 0, d1)) && !Stops(w, [f], DefaultKey(w, 1, d1))
    ensures DefaultKey(w, 0, d1) != DefaultKey(w, 1, d1)
    ensures !Stops(w, [f], DefaultKey(w, 0, d2))
    ensures DefaultKey(w, 1, d2) == "/lib64/m" && Wantable(w, DefaultKey(w, 1, d2))
  {
    assert |Join(w.libdirs[0], d1)| == 16 && |Join(w.libdirs[0], d2)| == 16;
    assert Join(w.libdirs[1], d1) == "/lib64/l" && Join(w.libdirs[1], d2) == "/lib64/m";
  }

  lemma InstalledWorldFits(w: World, f: string, d1: string, d2: string)
    requires w == InstalledWorld() && f == "/bin/f" && d1 == "l" && d2 == "m"
    ensures FirstInstalled(w, f, d1) && Chosen(w, [f], d2, DefaultKey(w, 1, d2)) && DefaultKey(w, 1, d2) == "/lib64/m"
  {
    hide Stops, DefaultKey, SearchKey, Wantable;
    InstalledWorldKeys(w, f, d1, d2);
    SecondDirChosen(w, [f], d2);
  }

  lemma SecondDirChosen(w: World, seeds: seq<string>, dep: string)
    requires |w.libdirs| == 2 && !Cached(w, dep) && !Stops(w, seeds, DefaultKey(w, 0, dep))
    requires Wantable(w, DefaultKey(w, 1, dep))
    ensures Chosen(w, seeds, dep, DefaultKey(w, 1, dep))
  {
    assert NoStopBefore(w, seeds, dep, 1);
  }

  /** A program needs `l`, which is installed, and `m`, which is not: no run returns `m`. */
  lemma InstalledWorldLoses(threads: nat, run: seq<Action>, s: State)
    requires Reaches(InstalledWorld(), ["/bin/f"], threads, run, s) && Quiescent(s)
    ensures Chosen(InstalledWorld(), ["/bin/f"], "m", "/lib64/m") && "/lib64/m" !in s.out
  {
    InstalledWorldFits(InstalledWorld(), "/bin/f", "l", "m");
    InstalledCopyFails(InstalledWorld(), "/bin/f", "l", threads, run, s);
  }
}
