/**
  Closure of the result under library dependencies, for a world without RPATH and
  RUNPATH: a dependency that a sequential resolver would find is returned or already
  installed, whichever worker claimed which candidate first.
 */
module LddClosure {
  import opened Counting
  import opened LddModel
  import opened LddConservation

  // ----- hypotheses on the world

  ghost predicate Needed(w: World, dep: string) {
    exists f :: f in w.elf && dep in w.elf[f].needed
  }

  ghost predicate SameDefault(w: World, j: nat, d: string, k: nat, e: string) {
    && j < |w.libdirs| && k < |w.libdirs|
    && DefaultKey(w, j, d) == DefaultKey(w, k, e)
  }

  ghost predicate SameAsCached(w: World, e: string, v: string, k: nat, d: string) {
    && v in CacheValues(w, e) && k < |w.libdirs|
    && w.canon(v) == DefaultKey(w, k, d)
  }

  /** Where a search ends: a library that is wanted, or a seed, which is visited from the start. */
  ghost predicate Stops(w: World, seeds: seq<string>, c: string) {
    Wantable(w, c) || c in seeds
  }

  /**
    No search paths, and the keys do not clash: a default candidate belongs to one
    dependency and one directory, and no cache value is a default candidate of a
    dependency that the cache does not list.
   */
  ghost predicate Plain(w: World) {
    && (forall f :: f in w.elf ==> w.elf[f].searchPaths == [])
    && (forall j: nat, d, k: nat, e {:trigger SameDefault(w, j, d, k, e)} ::
          Needed(w, d) && Needed(w, e) && SameDefault(w, j, d, k, e) ==> j == k && d == e)
    && (forall e, v, k: nat, d {:trigger SameAsCached(w, e, v, k, d)} ::
          Needed(w, d) && !Cached(w, d) && Cached(w, e) ==> !SameAsCached(w, e, v, k, d))
  }

  // ----- what a sequential resolver picks

  /** All existing cache values, or else the candidate in the first directory that has one. */
  ghost predicate Picked(w: World, dep: string, c: string) {
    && c in w.present
    && if Cached(w, dep) then exists v :: v in CacheValues(w, dep) && c == w.canon(v)
       else exists k: nat :: k < |w.libdirs| && c == DefaultKey(w, k, dep) && NoneBefore(w, dep, k)
  }

  ghost predicate NoneBefore(w: World, dep: string, k: nat)
    requires k <= |w.libdirs|
  {
    forall j: nat :: j < k ==> DefaultKey(w, j, dep) !in w.present
  }

  /** No directory before the `k`-th ends the search. */
  ghost predicate NoStopBefore(w: World, seeds: seq<string>, dep: string, k: nat)
    requires k <= |w.libdirs|
  {
    forall j: nat :: j < k ==> !Stops(w, seeds, DefaultKey(w, j, dep))
  }

  // ----- the invariant

  /** The search for `dep` has been taken up, by this or another worker. */
  ghost predicate Handled(w: World, visited: set<string>, dep: string) {
    if Cached(w, dep) then forall v :: v in CacheValues(w, dep) ==> w.canon(v) in visited
    else |w.libdirs| > 0 && DefaultKey(w, 0, dep) in visited
  }

  ghost predicate CursorPlaced(w: World, visited: set<string>, wk: Worker)
    requires wk.Searching? && wk.d < |wk.deps|
  {
    var dep := wk.deps[wk.d];
    && (!wk.hand.Free? ==> wk.hand.c in visited)
    && match wk.at
       case InLpaths(_) => true
       case InCache(k) =>
         && Cached(w, dep) && k <= |CacheValues(w, dep)|
         && forall j: nat :: j < k ==> w.canon(CacheValues(w, dep)[j]) in visited
       case InDefault(k) =>
         && !Cached(w, dep) && k <= |w.libdirs|
         && (k > 0 ==> DefaultKey(w, 0, dep) in visited)
  }

  ghost predicate Placed(w: World, visited: set<string>, wk: Worker) {
    match wk
    case Idle => true
    case Opening(_, lpaths) => lpaths == {}
    case Searching(path, lpaths, order, deps, d, _, _) =>
      && path in w.elf && deps == w.elf[path].needed
      && lpaths == {} && order == []
      && (forall j: nat :: j < d && j < |deps| ==> Handled(w, visited, deps[j]))
      && (d < |deps| ==> CursorPlaced(w, visited, wk))
  }

  /** The worker is between candidate `k` of `dep` and candidate `k + 1`. */
  ghost predicate Pursues(wk: Worker, k: nat, dep: string) {
    && wk.Searching? && wk.d < |wk.deps| && wk.deps[wk.d] == dep
    && if wk.hand.Free? then wk.at == InDefault(k + 1) else wk.at == InDefault(k)
  }

  /** Claiming candidate `k` in vain leads on to candidate `k + 1`, or to a failure behind the last one. */
  ghost predicate Followed(w: World, seeds: seq<string>, visited: set<string>, missing: set<string>, k: nat,
                           dep: string)
    requires k < |w.libdirs|
  {
    || Stops(w, seeds, DefaultKey(w, k, dep))
    || if k + 1 == |w.libdirs| then missing != {} else DefaultKey(w, k + 1, dep) in visited
  }

  ghost predicate Continued(w: World, seeds: seq<string>, s: State, k: nat, dep: string)
    requires k < |w.libdirs|
  {
    || Followed(w, seeds, s.visited, s.missing, k, dep)
    || exists t :: 0 <= t < |s.workers| && Pursues(s.workers[t], k, dep)
  }

  ghost predicate ChainKept(w: World, seeds: seq<string>, s: State) {
    forall k: nat, dep {:trigger Continued(w, seeds, s, k, dep)} ::
      k < |w.libdirs| && Needed(w, dep) && !Cached(w, dep) && DefaultKey(w, k, dep) in s.visited
      ==> Continued(w, seeds, s, k, dep)
  }

  ghost predicate FullyHandled(w: World, visited: set<string>, p: string) {
    p in w.elf && forall dep :: dep in w.elf[p].needed ==> Handled(w, visited, dep)
  }

  ghost predicate Kept(w: World, seeds: seq<string>, s: State) {
    && (forall i :: 0 <= i < |s.workers| ==> WorkerSane(w, s.workers[i]) && Placed(w, s.visited, s.workers[i]))
    && (forall i :: 0 <= i < |s.queue| ==> s.queue[i].lpaths == {})
    && (forall p :: p in s.resolved ==> FullyHandled(w, s.visited, p))
    && ChainKept(w, seeds, s)
  }

  // ----- one worker step

  lemma PlacedMonotone(w: World, visited: set<string>, more: set<string>, wk: Worker)
    requires Placed(w, visited, wk) && visited <= more
    ensures Placed(w, more, wk)
  {
  }

  lemma ClaimPlaced(w: World, visited: set<string>, wk: Worker)
    requires Placed(w, visited, wk) && WorkerSane(w, wk)
    requires wk.Searching? && wk.hand.Free? && wk.d < |wk.deps| && Candidate(w, wk).Some?
    ensures var e := Claim(visited, wk, Candidate(w, wk).value);
            Placed(w, visited + e.claims, e.next)
  {
    var c := Candidate(w, wk).value;
    var e := Claim(visited, wk, c);
    PlacedMonotone(w, visited, visited + e.claims, wk);
    if c in visited {
      assert visited + e.claims == visited;
      if wk.at.InCache? {
        AdvancePlaced(w, visited, wk);
      } else {
        CandidateHandles(w, visited, wk);
        NextDepPlaced(w, visited, wk);
      }
    }
  }

  lemma ExhaustedPlaced(w: World, visited: set<string>, wk: Worker)
    requires Placed(w, visited, wk) && wk.Searching? && wk.hand.Free? && wk.d < |wk.deps|
    requires Candidate(w, wk).None?
    ensures Placed(w, visited, Exhausted(w, wk).next)
  {
  }

  lemma AdvancePlaced(w: World, visited: set<string>, wk: Worker)
    requires Placed(w, visited, wk) && wk.Searching? && wk.d < |wk.deps|
    requires Candidate(w, wk).Some? && Candidate(w, wk).value in visited
    ensures Placed(w, visited, Advance(wk))
  {
  }

  /** Leaving the search for one dependency: it is handled. */
  lemma NextDepPlaced(w: World, visited: set<string>, wk: Worker)
    requires Placed(w, visited, wk) && wk.Searching? && wk.d < |wk.deps|
    requires Handled(w, visited, wk.deps[wk.d])
    ensures Placed(w, visited, NextDep(wk))
  {
  }

  lemma CandidateHandles(w: World, visited: set<string>, wk: Worker)
    requires Placed(w, visited, wk) && wk.Searching? && wk.d < |wk.deps| && !wk.at.InCache?
    requires Candidate(w, wk).Some? && Candidate(w, wk).value in visited
    ensures Handled(w, visited, wk.deps[wk.d])
  {
  }

  lemma HandPlaced(w: World, visited: set<string>, wk: Worker)
    requires Placed(w, visited, wk) && WorkerSane(w, wk) && wk.Searching? && !wk.hand.Free?
    ensures Placed(w, visited, SearchStep(w, visited, wk).next)
    ensures forall task :: task in SearchStep(w, visited, wk).tasks ==> task.lpaths == {}
  {
    AdvancePlaced(w, visited, wk);
    if !wk.at.InCache? {
      CandidateHandles(w, visited, wk);
      NextDepPlaced(w, visited, wk);
    }
  }

  lemma OpenPlaced(w: World, visited: set<string>, wk: Worker, order: seq<string>)
    requires Plain(w) && wk.Opening? && Placed(w, visited, wk)
    requires wk.path in w.elf ==> Enumerates(order, wk.lpaths + OwnPaths(wk.path, w.elf[wk.path]))
    ensures Placed(w, visited, StartSearch(w, wk, order).next)
  {
  }

  lemma StepPlaced(w: World, visited: set<string>, wk: Worker, order: seq<string>)
    requires Plain(w) && !wk.Idle? && Placed(w, visited, wk) && WorkerSane(w, wk)
    requires wk.Opening? && wk.path in w.elf ==>
               Enumerates(order, wk.lpaths + OwnPaths(wk.path, w.elf[wk.path]))
    ensures var e := WorkerStep(w, visited, wk, order);
            && Placed(w, visited + e.claims, e.next)
            && (forall task :: task in e.tasks ==> task.lpaths == {})
            && (forall p :: p in e.resolved ==> FullyHandled(w, visited, p))
  {
    var e := WorkerStep(w, visited, wk, order);
    if e.claims == {} {
      assert visited + e.claims == visited;
    }
    if wk.Opening? {
      OpenPlaced(w, visited, wk, order);
    } else if !wk.hand.Free? {
      HandPlaced(w, visited, wk);
    } else if wk.d >= |wk.deps| {
      forall dep | dep in wk.deps ensures Handled(w, visited, dep) {
        var j: nat :| j < |wk.deps| && wk.deps[j] == dep;
      }
    } else if Candidate(w, wk).None? {
      ExhaustedPlaced(w, visited, wk);
    } else {
      ClaimPlaced(w, visited, wk);
    }
  }

  /** A worker does not give up between two candidates. */
  lemma PursuitStep(w: World, seeds: seq<string>, visited: set<string>, wk: Worker, k: nat, dep: string)
    requires Pursues(wk, k, dep) && k < |w.libdirs| && WorkerSane(w, wk) && Placed(w, visited, wk)
    ensures var e := SearchStep(w, visited, wk);
            Followed(w, seeds, visited + e.claims, e.missing, k, dep) || Pursues(e.next, k, dep)
  {
  }

  /** Whoever claims a default candidate pursues it. */
  lemma ClaimPursues(w: World, visited: set<string>, wk: Worker, k: nat, dep: string)
    requires Plain(w) && wk.Searching? && WorkerSane(w, wk) && Placed(w, visited, wk)
    requires k < |w.libdirs| && Needed(w, dep) && !Cached(w, dep)
    requires DefaultKey(w, k, dep) in SearchStep(w, visited, wk).claims
    ensures Pursues(SearchStep(w, visited, wk).next, k, dep)
  {
    var own := wk.deps[wk.d];
    assert Needed(w, own);
    assert wk.at.InCache? ==> !SameAsCached(w, own, CacheValues(w, own)[wk.at.k], k, dep);
    assert wk.at.InDefault? ==> SameDefault(w, wk.at.k, own, k, dep);
  }

  // ----- the invariant holds in every run

  lemma FollowedMonotone(w: World, seeds: seq<string>, s: State, t: nat, e: Effect, k: nat, dep: string)
    requires t < |s.workers| && k < |w.libdirs|
    ensures Followed(w, seeds, s.visited, s.missing, k, dep)
            || Followed(w, seeds, s.visited + e.claims, e.missing, k, dep)
            ==> Followed(w, seeds, Apply(s, t, e).visited, Apply(s, t, e).missing, k, dep)
  {
  }

  lemma ChainKeptByWork(w: World, seeds: seq<string>, s: State, t: nat, order: seq<string>, k: nat, dep: string)
    requires Plain(w) && Kept(w, seeds, s) && Enabled(w, s, Work(t, order))
    requires k < |w.libdirs| && Needed(w, dep) && !Cached(w, dep)
    requires DefaultKey(w, k, dep) in Next(w, s, Work(t, order)).visited
    ensures Continued(w, seeds, Next(w, s, Work(t, order)), k, dep)
  {
    var r, wk := Next(w, s, Work(t, order)), s.workers[t];
    FollowedMonotone(w, seeds, s, t, WorkerStep(w, s.visited, wk, order), k, dep);
    if DefaultKey(w, k, dep) in s.visited {
      assert Continued(w, seeds, s, k, dep);
      if !Followed(w, seeds, s.visited, s.missing, k, dep) {
        var i :| 0 <= i < |s.workers| && Pursues(s.workers[i], k, dep);
        if i == t {
          PursuitStep(w, seeds, s.visited, wk, k, dep);
          assert Followed(w, seeds, r.visited, r.missing, k, dep) || Pursues(r.workers[t], k, dep);
        } else {
          assert r.workers[i] == s.workers[i];
        }
      }
    } else {
      ClaimPursues(w, s.visited, wk, k, dep);
      assert Pursues(r.workers[t], k, dep);
    }
  }

  lemma KeptByWork(w: World, seeds: seq<string>, s: State, t: nat, order: seq<string>)
    requires Plain(w) && Kept(w, seeds, s) && Enabled(w, s, Work(t, order))
    ensures Kept(w, seeds, Next(w, s, Work(t, order)))
  {
    var r := Next(w, s, Work(t, order));
    StepPlaced(w, s.visited, s.workers[t], order);
    StepBalance(w, s.visited, s.workers[t], order, "");
    forall i | 0 <= i < |r.workers|
      ensures WorkerSane(w, r.workers[i]) && Placed(w, r.visited, r.workers[i])
    {
      if i != t {
        PlacedMonotone(w, s.visited, r.visited, s.workers[i]);
      }
    }
    forall k: nat, dep | k < |w.libdirs| && Needed(w, dep) && !Cached(w, dep) && DefaultKey(w, k, dep) in r.visited
      ensures Continued(w, seeds, r, k, dep)
    {
      ChainKeptByWork(w, seeds, s, t, order, k, dep);
    }
  }

  lemma KeptByTake(w: World, seeds: seq<string>, s: State, t: nat, q: nat)
    requires Kept(w, seeds, s) && Enabled(w, s, Take(t, q))
    ensures Kept(w, seeds, Next(w, s, Take(t, q)))
  {
    var r := Next(w, s, Take(t, q));
    forall k: nat, dep | k < |w.libdirs| && Needed(w, dep) && !Cached(w, dep) && DefaultKey(w, k, dep) in r.visited
      ensures Continued(w, seeds, r, k, dep)
    {
      assert Continued(w, seeds, s, k, dep);
      if !Followed(w, seeds, s.visited, s.missing, k, dep) {
        var i :| 0 <= i < |s.workers| && Pursues(s.workers[i], k, dep);
        assert r.workers[i] == s.workers[i];
      }
    }
  }

  lemma {:induction false} KeptAlways(w: World, seeds: seq<string>, threads: nat, run: seq<Action>, s: State)
    requires Plain(w) && Reaches(w, seeds, threads, run, s)
    ensures Kept(w, seeds, s)
    decreases |run|
  {
    if run != [] {
      var before := After(w, Initial(seeds, threads), run[..|run| - 1]).value;
      KeptAlways(w, seeds, threads, run[..|run| - 1], before);
      match run[|run| - 1]
      case Take(t, q) => KeptByTake(w, seeds, before, t, q);
      case Work(t, order) => KeptByWork(w, seeds, before, t, order);
    }
  }

  // ----- the theorem

  lemma NextCandidateVisited(w: World, seeds: seq<string>, s: State, dep: string, k: nat)
    requires ChainKept(w, seeds, s) && Quiescent(s) && Needed(w, dep) && !Cached(w, dep)
    requires k < |w.libdirs| && DefaultKey(w, k, dep) in s.visited && !Stops(w, seeds, DefaultKey(w, k, dep))
    ensures if k + 1 == |w.libdirs| then s.missing != {} else DefaultKey(w, k + 1, dep) in s.visited
  {
    assert Continued(w, seeds, s, k, dep);
  }

  /** At the end, all directories up to the first one that ends the search have been claimed. */
  lemma {:induction false} ChainReaches(w: World, seeds: seq<string>, s: State, dep: string, k: nat)
    requires ChainKept(w, seeds, s) && Quiescent(s) && Needed(w, dep) && !Cached(w, dep)
    requires k < |w.libdirs| && DefaultKey(w, 0, dep) in s.visited && NoStopBefore(w, seeds, dep, k)
    ensures DefaultKey(w, k, dep) in s.visited
    decreases k
  {
    if k > 0 {
      ChainReaches(w, seeds, s, dep, k - 1);
      NextCandidateVisited(w, seeds, s, dep, k - 1);
    }
  }

  /** If none of them ends the search, some file has failed. */
  lemma ChainFails(w: World, seeds: seq<string>, s: State, dep: string)
    requires ChainKept(w, seeds, s) && Quiescent(s) && Needed(w, dep) && !Cached(w, dep)
    requires |w.libdirs| > 0 && DefaultKey(w, 0, dep) in s.visited && NoStopBefore(w, seeds, dep, |w.libdirs|)
    ensures s.missing != {}
  {
    ChainReaches(w, seeds, s, dep, |w.libdirs| - 1);
    NextCandidateVisited(w, seeds, s, dep, |w.libdirs| - 1);
  }

  /**
    In a quiescent state, everything a sequential resolver picks for a dependency of a
    successfully processed file is returned or was installed before.
   */
  lemma Closure(w: World, seeds: seq<string>, threads: nat, run: seq<Action>, s: State,
                p: string, dep: string, c: string)
    requires Plain(w) && Reaches(w, seeds, threads, run, s) && Quiescent(s)
    requires forall f :: f in seeds ==> f in w.present
    requires p in s.resolved && p in w.elf && dep in w.elf[p].needed && Picked(w, dep, c)
    ensures c in s.out || c in w.installed
  {
    KeptAlways(w, seeds, threads, run, s);
    NothingLostNothingExtra(w, seeds, threads, run, s);
    assert FullyHandled(w, s.visited, p) && Needed(w, dep);
    if !Cached(w, dep) {
      var k: nat :| k < |w.libdirs| && c == DefaultKey(w, k, dep) && NoneBefore(w, dep, k);
      ChainReaches(w, seeds, s, dep, k);
    }
  }
}
