/** Every interleaving stops, and it can only stop by returning. */
module LddTermination {
  import opened Counting
  import opened LddModel
  import opened LddConservation

  // ----- the measure

  ghost function Held(w: World): (f: Worker -> nat) {
    (wk: Worker) => Bit(wk.Searching? && !wk.hand.Free? && Wantable(w, wk.hand.c))
  }

  /** Tasks that may still be started: unclaimed existing files, held claims, queued tasks. */
  ghost function Budget(w: World, s: State): (n: nat) {
    |w.present - s.visited| + Sum(Held(w), s.workers) + |s.queue|
  }

  ghost function OpeningBit(): (f: Worker -> nat) {
    (wk: Worker) => Bit(wk.Opening?)
  }

  /** An upper bound on the steps one dependency takes. */
  ghost function DepWork(w: World, order: seq<string>, dep: string): (n: nat) {
    4 * (|order| + |CacheValues(w, dep)| + |w.libdirs| + 2) + 3
  }

  ghost function Pending(w: World, order: seq<string>, deps: seq<string>, d: nat): (n: nat)
    decreases |deps| - d
  {
    if d >= |deps| then 0 else DepWork(w, order, deps[d]) + Pending(w, order, deps, d + 1)
  }

  ghost function From(len: nat, k: nat): (n: nat) { if k < len then len - k else 0 }

  ghost function CursorWork(w: World, wk: Worker): (n: nat)
    requires wk.Searching? && wk.d < |wk.deps|
  {
    var values, dirs := |CacheValues(w, wk.deps[wk.d])|, |w.libdirs|;
    4 * match wk.at
        case InLpaths(k) => From(|wk.order|, k) + values + dirs + 2
        case InCache(k) => From(values, k) + 1
        case InDefault(k) => From(dirs, k) + 1
  }

  ghost function HandWork(h: Hand): (n: nat) {
    match h case Free => 3 case Claimed(_) => 2 case Wanted(_) => 1
  }

  ghost function Remaining(w: World, wk: Worker): (n: nat) {
    if !wk.Searching? then 0
    else if wk.d >= |wk.deps| then 1
    else 1 + CursorWork(w, wk) + HandWork(wk.hand) + Pending(w, wk.order, wk.deps, wk.d + 1)
  }

  ghost function RemainingWork(w: World): (f: Worker -> nat) {
    (wk: Worker) => Remaining(w, wk)
  }

  /** The lexicographic order on (budget, files being opened, search steps left). */
  ghost predicate Smaller(w: World, r: State, s: State) {
    || Budget(w, r) < Budget(w, s)
    || (Budget(w, r) == Budget(w, s) && Sum(OpeningBit(), r.workers) < Sum(OpeningBit(), s.workers))
    || (Budget(w, r) == Budget(w, s) && Sum(OpeningBit(), r.workers) == Sum(OpeningBit(), s.workers)
        && Sum(RemainingWork(w), r.workers) < Sum(RemainingWork(w), s.workers))
  }

  ghost predicate AllSane(w: World, s: State) {
    forall i :: 0 <= i < |s.workers| ==> WorkerSane(w, s.workers[i])
  }

  // ----- each step decreases it

  lemma AdvanceShrinks(w: World, wk: Worker)
    requires wk.Searching? && wk.d < |wk.deps| && Candidate(w, wk).Some?
    ensures CursorWork(w, Advance(wk)) + 4 <= CursorWork(w, wk)
    ensures Remaining(w, Advance(wk)) < Remaining(w, wk)
  {
  }

  lemma NextDepShrinks(w: World, wk: Worker)
    requires wk.Searching? && wk.d < |wk.deps|
    ensures Remaining(w, NextDep(wk)) < Remaining(w, wk)
  {
  }

  lemma ClaimingShrinks(w: World, wk: Worker, c: string)
    requires wk.Searching? && wk.d < |wk.deps| && wk.hand.Free?
    ensures Remaining(w, wk.(hand := Claimed(c))) < Remaining(w, wk)
  {
  }

  lemma ClaimShrinks(w: World, visited: set<string>, wk: Worker)
    requires wk.Searching? && wk.d < |wk.deps| && wk.hand.Free? && Candidate(w, wk).Some?
    ensures Remaining(w, Claim(visited, wk, Candidate(w, wk).value).next) < Remaining(w, wk)
  {
    var c := Candidate(w, wk).value;
    if c !in visited {
      ClaimingShrinks(w, wk, c);
    } else if wk.at.InCache? {
      AdvanceShrinks(w, wk);
    } else {
      NextDepShrinks(w, wk);
    }
  }

  lemma ExhaustedShrinks(w: World, wk: Worker)
    requires wk.Searching? && wk.d < |wk.deps| && wk.hand.Free? && Candidate(w, wk).None?
    ensures Remaining(w, Exhausted(w, wk).next) < Remaining(w, wk)
  {
  }

  lemma HandShrinks(w: World, visited: set<string>, wk: Worker)
    requires wk.Searching? && !wk.hand.Free? && WorkerSane(w, wk)
    ensures Remaining(w, SearchStep(w, visited, wk).next) < Remaining(w, wk)
  {
    hide Pending;
    NextDepShrinks(w, wk);
    AdvanceShrinks(w, wk);
    if wk.hand.Claimed? {
      assert CursorWork(w, wk.(hand := Wanted(wk.hand.c))) == CursorWork(w, wk);
    }
  }

  lemma SearchStepShrinks(w: World, visited: set<string>, wk: Worker)
    requires wk.Searching? && WorkerSane(w, wk)
    ensures Remaining(w, SearchStep(w, visited, wk).next) < Remaining(w, wk)
    ensures !SearchStep(w, visited, wk).next.Opening?
  {
    if wk.d < |wk.deps| {
      if !wk.hand.Free? {
        HandShrinks(w, visited, wk);
      } else if Candidate(w, wk).Some? {
        ClaimShrinks(w, visited, wk);
      } else {
        ExhaustedShrinks(w, wk);
      }
    }
  }

  /** A worker step trades claims of existing files against held claims and tasks. */
  lemma StepTrade(w: World, visited: set<string>, wk: Worker, order: seq<string>)
    requires !wk.Idle? && WorkerSane(w, wk)
    ensures var e := WorkerStep(w, visited, wk, order);
            && e.claims !! visited
            && Held(w)(e.next) + |e.tasks| <= Held(w)(wk) + |e.claims * w.present|
  {
  }

  lemma ClaimsLeave(present: set<string>, visited: set<string>, claims: set<string>)
    requires claims !! visited
    ensures |present - (visited + claims)| + |claims * present| == |present - visited|
  {
    assert present - visited == (present - (visited + claims)) + (claims * present);
  }

  lemma ApplyBudget(w: World, s: State, t: nat, e: Effect)
    requires t < |s.workers| && e.claims !! s.visited
    requires Held(w)(e.next) + |e.tasks| <= Held(w)(s.workers[t]) + |e.claims * w.present|
    ensures Budget(w, Apply(s, t, e)) <= Budget(w, s)
  {
    ClaimsLeave(w.present, s.visited, e.claims);
    SumUpdate(Held(w), s.workers, t, e.next);
  }

  lemma ApplyShrinks(w: World, s: State, t: nat, e: Effect)
    requires t < |s.workers| && !e.next.Opening?
    requires Budget(w, Apply(s, t, e)) <= Budget(w, s)
    requires s.workers[t].Opening? || Remaining(w, e.next) < Remaining(w, s.workers[t])
    ensures Smaller(w, Apply(s, t, e), s)
  {
    SumUpdate(OpeningBit(), s.workers, t, e.next);
    SumUpdate(RemainingWork(w), s.workers, t, e.next);
  }

  lemma WorkShrinks(w: World, s: State, t: nat, order: seq<string>)
    requires AllSane(w, s) && Enabled(w, s, Work(t, order))
    ensures Budget(w, Next(w, s, Work(t, order))) <= Budget(w, s)
    ensures Smaller(w, Next(w, s, Work(t, order)), s)
  {
    var wk := s.workers[t];
    StepTrade(w, s.visited, wk, order);
    if wk.Searching? {
      SearchStepShrinks(w, s.visited, wk);
    }
    ApplyBudget(w, s, t, WorkerStep(w, s.visited, wk, order));
    ApplyShrinks(w, s, t, WorkerStep(w, s.visited, wk, order));
  }

  lemma TakeShrinks(w: World, s: State, t: nat, q: nat)
    requires Enabled(w, s, Take(t, q))
    ensures Budget(w, Next(w, s, Take(t, q))) < Budget(w, s)
  {
    SumUpdate(Held(w), s.workers, t, Opening(s.queue[q].path, s.queue[q].lpaths));
  }

  /** Every step of every worker makes progress, cyclic library dependencies included. */
  lemma StepShrinks(w: World, s: State, a: Action)
    requires AllSane(w, s) && Enabled(w, s, a)
    ensures Smaller(w, Next(w, s, a), s) && AllSane(w, Next(w, s, a))
  {
    hide Budget, Remaining, Held;
    match a
    case Take(t, q) => TakeShrinks(w, s, t, q);
    case Work(t, order) =>
      WorkShrinks(w, s, t, order);
      StepBalance(w, s.visited, s.workers[t], order, "");
  }

  // ----- consequences for whole runs

  /** One more step of a run. */
  lemma ExtendRun(w: World, s0: State, run: seq<Action>, s: State, a: Action) returns (r: State)
    requires After(w, s0, run) == Some(s)
    requires AllSane(w, s) && Enabled(w, s, a)
    ensures r == Next(w, s, a) && After(w, s0, run + [a]) == Some(r)
    ensures AllSane(w, r) && Smaller(w, r, s) && |r.workers| == |s.workers|
  {
    r := Next(w, s, a);
    assert (run + [a])[..|run|] == run;
    StepShrinks(w, s, a);
  }

  function Prefix(f: nat -> Action, n: nat): (run: seq<Action>) {
    seq(n, i requires 0 <= i => f(i))
  }

  lemma {:induction false} StopsEventually(w: World, s0: State, f: nat -> Action, n: nat, s: State)
    requires After(w, s0, Prefix(f, n)) == Some(s) && AllSane(w, s)
    ensures exists m: nat :: After(w, s0, Prefix(f, m)).None?
    decreases Budget(w, s), Sum(OpeningBit(), s.workers), Sum(RemainingWork(w), s.workers)
  {
    hide Budget, Remaining, Held, Enabled, Next;
    assert Prefix(f, n + 1) == Prefix(f, n) + [f(n)];
    if Enabled(w, s, f(n)) {
      var r := ExtendRun(w, s0, Prefix(f, n), s, f(n));
      StopsEventually(w, s0, f, n + 1, r);
    } else {
      assert Prefix(f, n + 1)[..n] == Prefix(f, n);
      assert After(w, s0, Prefix(f, n + 1)).None?;
    }
  }

  /** No schedule keeps the workers busy forever. */
  lemma EveryScheduleStops(w: World, seeds: seq<string>, threads: nat, f: nat -> Action)
    ensures exists m: nat :: After(w, Initial(seeds, threads), Prefix(f, m)).None?
  {
    assert Prefix(f, 0) == [];
    StopsEventually(w, Initial(seeds, threads), f, 0, Initial(seeds, threads));
  }

  /** While something is queued or in work, some worker can take a step. */
  lemma NeverStuck(w: World, s: State) returns (a: Action)
    requires |s.workers| > 0 && !Quiescent(s)
    ensures Enabled(w, s, a)
  {
    if i :| 0 <= i < |s.workers| && !s.workers[i].Idle? {
      if s.workers[i].Opening? && s.workers[i].path in w.elf {
        var wk := s.workers[i];
        var order := Enumerable(wk.lpaths + OwnPaths(wk.path, w.elf[wk.path]));
        a := Work(i, order);
      } else {
        a := Work(i, []);
      }
    } else {
      a := Take(0, 0);
    }
  }

  ghost function Takes(run: seq<Action>): (n: nat) {
    Sum((a: Action) => Bit(a.Take?), run)
  }

  lemma {:induction false} TakesWithinBudget(w: World, seeds: seq<string>, threads: nat, run: seq<Action>, s: State)
    requires Reaches(w, seeds, threads, run, s)
    ensures AllSane(w, s)
    ensures Takes(run) + Budget(w, s) <= Budget(w, Initial(seeds, threads))
    decreases |run|
  {
    if run != [] {
      var front := run[..|run| - 1];
      var before := After(w, Initial(seeds, threads), front).value;
      TakesWithinBudget(w, seeds, threads, front, before);
      StepShrinks(w, before, run[|run| - 1]);
      match run[|run| - 1]
      case Take(t, q) => TakeShrinks(w, before, t, q);
      case Work(t, order) => WorkShrinks(w, before, t, order);
    }
  }

  /** No run starts more tasks than there are seeds and existing files that are not seeds. */
  lemma TaskBound(w: World, seeds: seq<string>, threads: nat, run: seq<Action>, s: State)
    requires Reaches(w, seeds, threads, run, s)
    ensures Takes(run) <= |seeds| + |w.present - set p | p in seeds|
  {
    TakesWithinBudget(w, seeds, threads, run, s);
    SumZero(Held(w), Initial(seeds, threads).workers);
  }

  /**
    `ldd` under an arbitrary scheduler: the loop ends, and it ends in a quiescent state
    that some interleaving reaches.
   */
  method Run(w: World, seeds: seq<string>, threads: nat, pick: State -> Action)
    returns (s: State, ghost run: seq<Action>)
    requires threads > 0
    requires forall s: State :: |s.workers| == threads && !Quiescent(s) ==> Enabled(w, s, pick(s))
    ensures Quiescent(s)
    ensures Reaches(w, seeds, threads, run, s)
    ensures forall p :: s.out[p] == if p in w.installed then 0
                                    else if p in seeds then multiset(seeds)[p]
                                    else Bit(p in s.visited && p in w.present)
  {
    s := Initial(seeds, threads);
    run := [];
    while !Quiescent(s)
      invariant |s.workers| == threads && AllSane(w, s)
      invariant Reaches(w, seeds, threads, run, s)
      decreases Budget(w, s), Sum(OpeningBit(), s.workers), Sum(RemainingWork(w), s.workers)
    {
      var a := pick(s);
      ghost var r := ExtendRun(w, Initial(seeds, threads), run, s, a);
      s := Next(w, s, a);
      run := run + [a];
    }
    forall p ensures s.out[p] == if p in w.installed then 0
                                 else if p in seeds then multiset(seeds)[p]
                                 else Bit(p in s.visited && p in w.present) {
      OutputExact(w, seeds, threads, run, s, p);
    }
  }
}
