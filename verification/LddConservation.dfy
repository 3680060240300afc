/**
  No path is lost and none is made up: for every path, the number of places where it is
  queued, being processed, held between claim and enqueue, returned or skipped is always
  exactly what the seeds and the claims made so far account for.
 */
module LddConservation {
  import opened Counting
  import opened LddModel

  function TaskTokens(p: string): (f: Task -> nat) {
    (task: Task) => Bit(task.path == p)
  }

  ghost predicate Holds(w: World, wk: Worker, p: string) {
    && wk.Searching? && !wk.hand.Free?
    && wk.hand.c == p && Wantable(w, p)
  }

  ghost function Tokens(w: World, p: string, wk: Worker): (n: nat) {
    Bit(!wk.Idle? && wk.path == p) + Bit(Holds(w, wk, p))
  }

  ghost function WorkerTokens(w: World, p: string): (f: Worker -> nat) {
    (wk: Worker) => Tokens(w, p, wk)
  }

  /** How often `p` is queued, in work, held, returned or skipped. */
  ghost function Ledger(w: World, s: State, p: string): (n: nat) {
    Sum(TaskTokens(p), s.queue) + Sum(WorkerTokens(w, p), s.workers) + s.out[p] + s.skipped[p]
  }

  /** How often `p` has to be handled. */
  ghost function Due(w: World, seeds: seq<string>, visited: set<string>, p: string): (n: nat) {
    if p in seeds then multiset(seeds)[p]
    else Bit(p in visited && Wantable(w, p))
  }

  /**
    A task in work is not installed; what a worker holds is the candidate its cursor points
    at, and it is wanted once the existence test has passed.
   */
  ghost predicate WorkerSane(w: World, wk: Worker) {
    && (!wk.Idle? ==> wk.path !in w.installed)
    && (wk.Searching? && !wk.hand.Free? ==> wk.d < |wk.deps| && Candidate(w, wk) == Some(wk.hand.c))
    && (wk.Searching? && wk.hand.Wanted? ==> Wantable(w, wk.hand.c))
  }

  ghost predicate Conserved(w: World, seeds: seq<string>, s: State) {
    && (forall p :: p in seeds ==> p in s.visited)
    && (forall i :: 0 <= i < |s.workers| ==> WorkerSane(w, s.workers[i]))
    && (forall p :: p in s.out ==> p !in w.installed)
    && (forall p :: p in s.skipped ==> p in w.installed)
    && (forall p :: Ledger(w, s, p) == Due(w, seeds, s.visited, p))
  }

  lemma SearchBalance(w: World, visited: set<string>, wk: Worker, p: string)
    requires wk.Searching? && WorkerSane(w, wk)
    ensures var e := SearchStep(w, visited, wk);
            && WorkerSane(w, e.next)
            && e.claims !! visited
            && Tokens(w, p, e.next) + Sum(TaskTokens(p), e.tasks) + e.done[p]
               == Tokens(w, p, wk) + Bit(p in e.claims && Wantable(w, p))
  {
    var e := SearchStep(w, visited, wk);
    if wk.hand.Wanted? {
      assert e.tasks[..0] == [];
      assert Sum(TaskTokens(p), e.tasks) == TaskTokens(p)(e.tasks[0]);
    } else {
      assert e.tasks == [];
    }
  }

  /** The balance of a single worker step. */
  lemma StepBalance(w: World, visited: set<string>, wk: Worker, order: seq<string>, p: string)
    requires !wk.Idle? && WorkerSane(w, wk)
    ensures var e := WorkerStep(w, visited, wk, order);
            && WorkerSane(w, e.next)
            && e.claims !! visited
            && (forall q :: q in e.done ==> q !in w.installed)
            && Tokens(w, p, e.next) + Sum(TaskTokens(p), e.tasks) + e.done[p]
               == Tokens(w, p, wk) + Bit(p in e.claims && Wantable(w, p))
  {
    if wk.Searching? {
      SearchBalance(w, visited, wk, p);
    }
  }

  lemma ConservedByWork(w: World, seeds: seq<string>, s: State, t: nat, order: seq<string>)
    requires Conserved(w, seeds, s) && Enabled(w, s, Work(t, order))
    ensures Conserved(w, seeds, Next(w, s, Work(t, order)))
  {
    hide WorkerStep, Candidate;
    var r := Next(w, s, Work(t, order));
    var e := WorkerStep(w, s.visited, s.workers[t], order);
    forall p ensures Ledger(w, r, p) == Due(w, seeds, r.visited, p) {
      StepBalance(w, s.visited, s.workers[t], order, p);
      SumConcat(TaskTokens(p), s.queue, e.tasks);
      SumUpdate(WorkerTokens(w, p), s.workers, t, e.next);
      assert Ledger(w, s, p) == Due(w, seeds, s.visited, p);
    }
    StepBalance(w, s.visited, s.workers[t], order, "");
  }

  lemma ConservedByTake(w: World, seeds: seq<string>, s: State, t: nat, q: nat)
    requires Conserved(w, seeds, s) && Enabled(w, s, Take(t, q))
    ensures Conserved(w, seeds, Next(w, s, Take(t, q)))
  {
    var r := Next(w, s, Take(t, q));
    var task := s.queue[q];
    forall p ensures Ledger(w, r, p) == Due(w, seeds, r.visited, p) {
      SumRemoveAt(TaskTokens(p), s.queue, q);
      SumUpdate(WorkerTokens(w, p), s.workers, t, Opening(task.path, task.lpaths));
      assert Ledger(w, s, p) == Due(w, seeds, s.visited, p);
    }
  }

  lemma {:induction false} SeedTokens(seeds: seq<string>, p: string)
    ensures Sum(TaskTokens(p), Initial(seeds, 0).queue) == multiset(seeds)[p]
  {
    var queue := Initial(seeds, 0).queue;
    if seeds == [] {
      assert queue == [];
    } else {
      var front := seeds[..|seeds| - 1];
      assert seeds == front + [seeds[|seeds| - 1]];
      assert queue[..|queue| - 1] == Initial(front, 0).queue;
      SeedTokens(front, p);
    }
  }

  lemma ConservedInitially(w: World, seeds: seq<string>, threads: nat)
    ensures Conserved(w, seeds, Initial(seeds, threads))
  {
    var s := Initial(seeds, threads);
    forall p ensures Ledger(w, s, p) == Due(w, seeds, s.visited, p) {
      SeedTokens(seeds, p);
      assert s.queue == Initial(seeds, 0).queue;
      SumZero(WorkerTokens(w, p), s.workers);
      assert p in seeds <==> multiset(seeds)[p] > 0;
    }
  }

  /** The conservation law holds after every interleaving. */
  lemma {:induction false} ConservedAlways(w: World, seeds: seq<string>, threads: nat, run: seq<Action>, s: State)
    requires Reaches(w, seeds, threads, run, s)
    ensures Conserved(w, seeds, s)
    decreases |run|
  {
    if run == [] {
      ConservedInitially(w, seeds, threads);
    } else {
      var before := After(w, Initial(seeds, threads), run[..|run| - 1]).value;
      ConservedAlways(w, seeds, threads, run[..|run| - 1], before);
      match run[|run| - 1]
      case Take(t, q) => ConservedByTake(w, seeds, before, t, q);
      case Work(t, order) => ConservedByWork(w, seeds, before, t, order);
    }
  }

  /**
    What `ldd` returns, path by path: a seed as often as it was given, any other path once
    if it was visited and exists, and nothing that is in the destination already.
   */
  lemma OutputExact(w: World, seeds: seq<string>, threads: nat, run: seq<Action>, s: State, p: string)
    requires Reaches(w, seeds, threads, run, s) && Quiescent(s)
    ensures s.out[p] == if p in w.installed then 0
                        else if p in seeds then multiset(seeds)[p]
                        else Bit(p in s.visited && p in w.present)
  {
    ConservedAlways(w, seeds, threads, run, s);
    SumZero(WorkerTokens(w, p), s.workers);
    assert Ledger(w, s, p) == Due(w, seeds, s.visited, p);
    assert p in s.out || s.out[p] == 0;
    assert p in s.skipped || s.skipped[p] == 0;
  }

  /** With existing seeds the returned set is the visited, existing, not yet installed paths. */
  lemma NothingLostNothingExtra(w: World, seeds: seq<string>, threads: nat, run: seq<Action>, s: State)
    requires Reaches(w, seeds, threads, run, s) && Quiescent(s)
    requires forall p :: p in seeds ==> p in w.present
    ensures forall p :: p in s.out <==> p in s.visited && p in w.present && p !in w.installed
  {
    ConservedAlways(w, seeds, threads, run, s);
    forall p ensures p in s.out <==> p in s.visited && p in w.present && p !in w.installed {
      OutputExact(w, seeds, threads, run, s, p);
      assert p in seeds <==> multiset(seeds)[p] > 0;
    }
  }

  /** A path is returned twice in some run only if a seed outside the destination is given twice. */
  lemma ExactlyOnce(w: World, seeds: seq<string>, threads: nat, run: seq<Action>, s: State)
    requires Reaches(w, seeds, threads, run, s) && Quiescent(s)
    ensures (forall p :: s.out[p] <= 1) <==> (forall p :: p !in w.installed ==> multiset(seeds)[p] <= 1)
  {
    forall p ensures s.out[p] <= 1 <==> (p !in w.installed ==> multiset(seeds)[p] <= 1) {
      OutputExact(w, seeds, threads, run, s, p);
      assert p in seeds <==> multiset(seeds)[p] > 0;
    }
  }

  /** At no moment of a run with distinct seeds is a path in two places. */
  lemma NeverTwice(w: World, seeds: seq<string>, threads: nat, run: seq<Action>, s: State, p: string)
    requires Reaches(w, seeds, threads, run, s)
    requires multiset(seeds)[p] <= 1
    ensures Ledger(w, s, p) <= 1
  {
    ConservedAlways(w, seeds, threads, run, s);
    assert Ledger(w, s, p) == Due(w, seeds, s.visited, p);
  }
}
