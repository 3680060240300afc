/**
  What a run returns, for any destination: only files reachable from the seeds through what
  the search picks, and all of them unless a file fails. Whether a file fails is a property
  of the world, so the result does not depend on the number of workers or on their
  interleaving.
 */
module LddReach {
  import opened LddModel
  import opened LddConservation
  import opened LddClosure

  /**
    What the search for `dep` returns: all wanted cache values, or else the candidate in the
    first directory that ends the search, unless that one is installed already.
   */
  ghost predicate Chosen(w: World, seeds: seq<string>, dep: string, c: string) {
    && Wantable(w, c)
    && if Cached(w, dep) then exists v :: v in CacheValues(w, dep) && c == w.canon(v)
       else exists k: nat :: k < |w.libdirs| && c == DefaultKey(w, k, dep) && NoStopBefore(w, seeds, dep, k)
  }

  /** Into an empty destination that is what the sequential resolver picks. */
  lemma ChosenIsPicked(w: World, seeds: seq<string>, dep: string, c: string)
    requires w.installed == {} && forall p :: p in seeds ==> p in w.present
    ensures Chosen(w, seeds, dep, c) <==> Picked(w, dep, c)
  {
    if !Cached(w, dep) {
      forall k: nat | k < |w.libdirs| ensures NoStopBefore(w, seeds, dep, k) <==> NoneBefore(w, dep, k) {
        forall j: nat | j < k ensures Stops(w, seeds, DefaultKey(w, j, dep)) <==> DefaultKey(w, j, dep) in w.present {
        }
      }
    }
  }

  ghost predicate ChosenBy(w: World, seeds: seq<string>, q: string, p: string) {
    q in w.elf && exists dep :: dep in w.elf[q].needed && Chosen(w, seeds, dep, p)
  }

  ghost predicate ReachableIn(w: World, seeds: seq<string>, p: string, n: nat)
    decreases n
  {
    if n == 0 then p in seeds && p !in w.installed
    else exists q :: ReachableIn(w, seeds, q, n - 1) && ChosenBy(w, seeds, q, p)
  }

  /** Reachable from an uninstalled seed in some number of dependency steps. */
  ghost predicate Reachable(w: World, seeds: seq<string>, p: string) {
    exists n: nat :: ReachableIn(w, seeds, p, n)
  }

  ghost predicate Findable(w: World, seeds: seq<string>, dep: string) {
    Cached(w, dep) || exists k: nat :: k < |w.libdirs| && Stops(w, seeds, DefaultKey(w, k, dep))
  }

  /** No reachable file has a dependency that is nowhere to be found. */
  ghost predicate Resolvable(w: World, seeds: seq<string>) {
    forall q, dep :: Reachable(w, seeds, q) && q in w.elf && dep in w.elf[q].needed ==> Findable(w, seeds, dep)
  }

  // ----- the invariant

  /** The directories before the cursor do not end the search, and no seed is claimed. */
  ghost predicate FirstSoFar(w: World, seeds: seq<string>, wk: Worker) {
    wk.Searching? && wk.d < |wk.deps| ==>
      && (!wk.hand.Free? ==> wk.hand.c !in seeds)
      && (wk.at.InDefault? ==> wk.at.k <= |w.libdirs| && NoStopBefore(w, seeds, wk.deps[wk.d], wk.at.k))
  }

  ghost predicate AllReachable(w: World, seeds: seq<string>, visited: set<string>) {
    && (forall p :: p in seeds ==> p in visited)
    && (forall p :: p in visited && Wantable(w, p) ==> Reachable(w, seeds, p))
  }

  ghost predicate WorkerSound(w: World, seeds: seq<string>, wk: Worker) {
    (!wk.Idle? ==> Reachable(w, seeds, wk.path)) && FirstSoFar(w, seeds, wk)
  }

  ghost predicate Sound(w: World, seeds: seq<string>, s: State) {
    && AllReachable(w, seeds, s.visited)
    && (forall i :: 0 <= i < |s.queue| && s.queue[i].path !in w.installed ==> Reachable(w, seeds, s.queue[i].path))
    && (forall i :: 0 <= i < |s.workers| ==> WorkerSound(w, seeds, s.workers[i]))
    && (forall p :: p in s.out ==> Reachable(w, seeds, p))
    && (forall p :: p in s.out && p in w.elf ==> p in s.resolved || p in s.missing)
    && (Resolvable(w, seeds) ==> s.missing == {})
  }

  // ----- one worker step

  lemma ReachStep(w: World, seeds: seq<string>, q: string, dep: string, p: string)
    requires Reachable(w, seeds, q) && q in w.elf && dep in w.elf[q].needed && Chosen(w, seeds, dep, p)
    ensures Reachable(w, seeds, p)
  {
    var n: nat :| ReachableIn(w, seeds, q, n);
    assert ChosenBy(w, seeds, q, p);
    assert ReachableIn(w, seeds, p, n + 1);
  }

  /** A claimed candidate that is wanted is one the search picks. */
  lemma CandidateChosen(w: World, seeds: seq<string>, visited: set<string>, wk: Worker)
    requires wk.Searching? && Placed(w, visited, wk) && FirstSoFar(w, seeds, wk)
    requires wk.d < |wk.deps| && Candidate(w, wk).Some? && Wantable(w, Candidate(w, wk).value)
    ensures Chosen(w, seeds, wk.deps[wk.d], Candidate(w, wk).value)
  {
  }

  lemma NoStopExtends(w: World, seeds: seq<string>, dep: string, k: nat)
    requires k < |w.libdirs| && NoStopBefore(w, seeds, dep, k) && !Stops(w, seeds, DefaultKey(w, k, dep))
    ensures NoStopBefore(w, seeds, dep, k + 1)
  {
  }

  /** A claimed candidate that is not wanted does not end the search. */
  lemma AdvanceSound(w: World, seeds: seq<string>, visited: set<string>, wk: Worker)
    requires wk.Searching? && wk.hand.Claimed? && !Wantable(w, wk.hand.c)
    requires WorkerSane(w, wk) && Placed(w, visited, wk) && WorkerSound(w, seeds, wk)
    ensures WorkerSound(w, seeds, Advance(wk))
  {
    assert !Stops(w, seeds, wk.hand.c);
    if wk.at.InDefault? {
      NoStopExtends(w, seeds, wk.deps[wk.d], wk.at.k);
    }
    assert FirstSoFar(w, seeds, Advance(wk));
  }

  lemma HandSound(w: World, seeds: seq<string>, visited: set<string>, wk: Worker)
    requires AllReachable(w, seeds, visited)
    requires wk.Searching? && !wk.hand.Free? && WorkerSane(w, wk) && Placed(w, visited, wk) && WorkerSound(w, seeds, wk)
    ensures var e := SearchStep(w, visited, wk);
            && WorkerSound(w, seeds, e.next)
            && (forall task :: task in e.tasks ==> Reachable(w, seeds, task.path))
  {
    if wk.hand.Claimed? {
      if !Wantable(w, wk.hand.c) {
        AdvanceSound(w, seeds, visited, wk);
      }
    } else if wk.at.InCache? {
      assert WorkerSound(w, seeds, Advance(wk));
    } else {
      assert WorkerSound(w, seeds, NextDep(wk));
    }
  }

  lemma ClaimSound(w: World, seeds: seq<string>, visited: set<string>, wk: Worker)
    requires AllReachable(w, seeds, visited)
    requires wk.Searching? && wk.hand.Free? && Placed(w, visited, wk) && WorkerSound(w, seeds, wk)
    requires wk.d < |wk.deps| && Candidate(w, wk).Some?
    ensures var e := Claim(visited, wk, Candidate(w, wk).value);
            && WorkerSound(w, seeds, e.next)
            && AllReachable(w, seeds, visited + e.claims)
  {
    var c := Candidate(w, wk).value;
    if Wantable(w, c) {
      CandidateChosen(w, seeds, visited, wk);
      ReachStep(w, seeds, wk.path, wk.deps[wk.d], c);
    }
  }

  /** A search fails only for a dependency that is nowhere to be found. */
  lemma ExhaustedSound(w: World, seeds: seq<string>, visited: set<string>, wk: Worker)
    requires wk.Searching? && wk.hand.Free? && Placed(w, visited, wk) && WorkerSound(w, seeds, wk)
    requires wk.d < |wk.deps| && Candidate(w, wk).None?
    ensures wk.at.InDefault? ==> !Resolvable(w, seeds)
    ensures WorkerSound(w, seeds, Exhausted(w, wk).next)
  {
    if wk.at.InDefault? {
      assert !Findable(w, seeds, wk.deps[wk.d]);
    }
  }

  lemma StepSound(w: World, seeds: seq<string>, visited: set<string>, wk: Worker, order: seq<string>)
    requires AllReachable(w, seeds, visited)
    requires !wk.Idle? && WorkerSane(w, wk) && Placed(w, visited, wk) && WorkerSound(w, seeds, wk)
    ensures var e := WorkerStep(w, visited, wk, order);
            && WorkerSound(w, seeds, e.next)
            && AllReachable(w, seeds, visited + e.claims)
            && (forall task :: task in e.tasks ==> Reachable(w, seeds, task.path))
            && (forall p :: p in e.done ==> Reachable(w, seeds, p))
            && (forall p :: p in e.done && p in w.elf ==> p in e.resolved || p in e.missing)
            && (Resolvable(w, seeds) ==> e.missing == {})
  {
    var e := WorkerStep(w, visited, wk, order);
    if e.claims == {} {
      assert visited + e.claims == visited;
    }
    if wk.Searching? {
      if !wk.hand.Free? {
        HandSound(w, seeds, visited, wk);
      } else if wk.d < |wk.deps| {
        if Candidate(w, wk).Some? {
          ClaimSound(w, seeds, visited, wk);
        } else {
          ExhaustedSound(w, seeds, visited, wk);
        }
      }
    }
  }

  // ----- the invariant holds in every run

  lemma SoundByWork(w: World, seeds: seq<string>, s: State, t: nat, order: seq<string>)
    requires Kept(w, seeds, s) && Sound(w, seeds, s)
    requires Enabled(w, s, Work(t, order))
    ensures Sound(w, seeds, Next(w, s, Work(t, order)))
  {
    StepSound(w, seeds, s.visited, s.workers[t], order);
  }

  lemma SoundByTake(w: World, seeds: seq<string>, s: State, t: nat, q: nat)
    requires Sound(w, seeds, s) && Enabled(w, s, Take(t, q))
    ensures Sound(w, seeds, Next(w, s, Take(t, q)))
  {
  }

  lemma SeedReachable(w: World, seeds: seq<string>, p: string)
    requires p in seeds && p !in w.installed
    ensures Reachable(w, seeds, p)
  {
    assert ReachableIn(w, seeds, p, 0);
  }

  lemma SoundInitially(w: World, seeds: seq<string>, threads: nat)
    ensures Sound(w, seeds, Initial(seeds, threads))
  {
    forall p | p in seeds && p !in w.installed ensures Reachable(w, seeds, p) {
      SeedReachable(w, seeds, p);
    }
  }

  lemma {:induction false} SoundAlways(w: World, seeds: seq<string>, threads: nat, run: seq<Action>, s: State)
    requires Plain(w) && Reaches(w, seeds, threads, run, s)
    ensures Sound(w, seeds, s)
    decreases |run|
  {
    if run == [] {
      SoundInitially(w, seeds, threads);
    } else {
      var front := run[..|run| - 1];
      var before := After(w, Initial(seeds, threads), front).value;
      SoundAlways(w, seeds, threads, front, before);
      KeptAlways(w, seeds, threads, front, before);
      match run[|run| - 1]
      case Take(t, q) => SoundByTake(w, seeds, before, t, q);
      case Work(t, order) => SoundByWork(w, seeds, before, t, order);
    }
  }

  // ----- if no file fails, everything reachable is returned

  lemma WantableReturned(w: World, seeds: seq<string>, threads: nat, run: seq<Action>, s: State, p: string)
    requires Reaches(w, seeds, threads, run, s) && Quiescent(s)
    requires p in s.visited && (Wantable(w, p) || (p in seeds && p !in w.installed))
    ensures p in s.out
  {
    OutputExact(w, seeds, threads, run, s, p);
    assert p in seeds <==> multiset(seeds)[p] > 0;
  }

  lemma SeedReturned(w: World, seeds: seq<string>, threads: nat, run: seq<Action>, s: State, p: string)
    requires Reaches(w, seeds, threads, run, s) && Quiescent(s)
    requires p in seeds && p !in w.installed
    ensures p in s.out
  {
    ConservedAlways(w, seeds, threads, run, s);
    WantableReturned(w, seeds, threads, run, s, p);
  }

  lemma ChosenReturned(w: World, seeds: seq<string>, threads: nat, run: seq<Action>, s: State, q: string, p: string)
    requires Plain(w) && Reaches(w, seeds, threads, run, s) && Quiescent(s)
    requires s.missing == {} && q in s.out && ChosenBy(w, seeds, q, p)
    ensures p in s.out
  {
    SoundAlways(w, seeds, threads, run, s);
    KeptAlways(w, seeds, threads, run, s);
    var dep :| dep in w.elf[q].needed && Chosen(w, seeds, dep, p);
    assert FullyHandled(w, s.visited, q) && Needed(w, dep);
    if !Cached(w, dep) {
      var k: nat :| k < |w.libdirs| && p == DefaultKey(w, k, dep) && NoStopBefore(w, seeds, dep, k);
      ChainReaches(w, seeds, s, dep, k);
    }
    WantableReturned(w, seeds, threads, run, s, p);
  }

  /** Contains the uninstalled seeds and, with a file, everything chosen for its dependencies. */
  ghost predicate ClosedUnderChoice(w: World, seeds: seq<string>, out: multiset<string>) {
    && (forall p :: p in seeds && p !in w.installed ==> p in out)
    && (forall q, p :: q in out && ChosenBy(w, seeds, q, p) ==> p in out)
  }

  lemma {:induction false} ClosedContainsReachable(w: World, seeds: seq<string>, out: multiset<string>, p: string,
                                                   n: nat)
    requires ClosedUnderChoice(w, seeds, out) && ReachableIn(w, seeds, p, n)
    ensures p in out
    decreases n
  {
    if n > 0 {
      var q :| ReachableIn(w, seeds, q, n - 1) && ChosenBy(w, seeds, q, p);
      ClosedContainsReachable(w, seeds, out, q, n - 1);
    }
  }

  lemma OutputClosed(w: World, seeds: seq<string>, threads: nat, run: seq<Action>, s: State)
    requires Plain(w) && Reaches(w, seeds, threads, run, s) && Quiescent(s) && s.missing == {}
    ensures ClosedUnderChoice(w, seeds, s.out)
    ensures forall p :: Reachable(w, seeds, p) ==> p in s.out
  {
    forall p | p in seeds && p !in w.installed ensures p in s.out {
      SeedReturned(w, seeds, threads, run, s, p);
    }
    forall q, p | q in s.out && ChosenBy(w, seeds, q, p) ensures p in s.out {
      ChosenReturned(w, seeds, threads, run, s, q, p);
    }
    forall p | Reachable(w, seeds, p) ensures p in s.out {
      var n: nat :| ReachableIn(w, seeds, p, n);
      ClosedContainsReachable(w, seeds, s.out, p, n);
    }
  }

  /** Whether some file misses a dependency is decided by the world, not by the schedule. */
  lemma NoFailureExact(w: World, seeds: seq<string>, threads: nat, run: seq<Action>, s: State)
    requires Plain(w) && Reaches(w, seeds, threads, run, s) && Quiescent(s)
    ensures s.missing == {} <==> Resolvable(w, seeds)
  {
    SoundAlways(w, seeds, threads, run, s);
    KeptAlways(w, seeds, threads, run, s);
    if s.missing == {} {
      OutputClosed(w, seeds, threads, run, s);
      forall q, dep | Reachable(w, seeds, q) && q in w.elf && dep in w.elf[q].needed
        ensures Findable(w, seeds, dep)
      {
        assert FullyHandled(w, s.visited, q) && Needed(w, dep);
        if !Findable(w, seeds, dep) {
          ChainFails(w, seeds, s, dep);
        }
      }
    }
  }

  /** Only reachable files are returned, and all of them if no file fails. */
  lemma OutputIsReachable(w: World, seeds: seq<string>, threads: nat, run: seq<Action>, s: State, p: string)
    requires Plain(w) && Reaches(w, seeds, threads, run, s) && Quiescent(s)
    ensures p in s.out ==> Reachable(w, seeds, p)
    ensures Resolvable(w, seeds) ==> (p in s.out <==> Reachable(w, seeds, p))
  {
    SoundAlways(w, seeds, threads, run, s);
    if Resolvable(w, seeds) {
      NoFailureExact(w, seeds, threads, run, s);
      OutputClosed(w, seeds, threads, run, s);
    }
  }

  /** Two complete runs return the same paths equally often. */
  lemma ScheduleIndependent(w: World, seeds: seq<string>,
                            threads1: nat, run1: seq<Action>, s1: State,
                            threads2: nat, run2: seq<Action>, s2: State)
    requires Plain(w) && Resolvable(w, seeds)
    requires Reaches(w, seeds, threads1, run1, s1) && Quiescent(s1)
    requires Reaches(w, seeds, threads2, run2, s2) && Quiescent(s2)
    ensures s1.out == s2.out
  {
    forall p ensures s1.out[p] == s2.out[p] {
      OutputExact(w, seeds, threads1, run1, s1, p);
      OutputExact(w, seeds, threads2, run2, s2, p);
      OutputIsReachable(w, seeds, threads1, run1, s1, p);
      OutputIsReachable(w, seeds, threads2, run2, s2, p);
    }
  }
}
