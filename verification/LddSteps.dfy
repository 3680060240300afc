/** Building runs of a single worker step by step. */
module LddSteps {
  import opened Counting
  import opened LddModel

  /** A state with one worker and nothing dropped. */
  function One(visited: set<string>, queue: seq<Task>, wk: Worker, out: multiset<string>,
               resolved: set<string>, missing: set<string>): (s: State)
  {
    State(visited, queue, [wk], out, multiset{}, resolved, missing)
  }

  lemma Follow(w: World, s0: State, run: seq<Action>, s: State, a: Action)
    requires After(w, s0, run) == Some(s) && Enabled(w, s, a)
    ensures After(w, s0, run + [a]) == Some(Next(w, s, a))
  {
    assert (run + [a])[..|run|] == run;
  }

  /** The worker fetches the first task. */
  lemma FollowTake(w: World, s0: State, run: seq<Action>, s: State, task: Task, rest: seq<Task>)
    returns (r: seq<Action>)
    requires After(w, s0, run) == Some(s) && s.workers == [Idle] && s.queue == [task] + rest
    requires task.path !in w.installed
    ensures After(w, s0, r) == Some(s.(queue := rest, workers := [Opening(task.path, task.lpaths)]))
  {
    assert s.queue[0] == task && RemoveAt(s.queue, 0) == rest;
    assert s.workers[0 := Opening(task.path, task.lpaths)] == [Opening(task.path, task.lpaths)];
    Follow(w, s0, run, s, Take(0, 0));
    r := run + [Take(0, 0)];
  }

  /** A step that only moves the worker. */
  lemma FollowOnly(w: World, s0: State, run: seq<Action>, s: State, order: seq<string>, next: Worker)
    returns (r: seq<Action>)
    requires After(w, s0, run) == Some(s) && |s.workers| == 1 && Enabled(w, s, Work(0, order))
    requires WorkerStep(w, s.visited, s.workers[0], order) == Only(next)
    ensures After(w, s0, r) == Some(s.(workers := [next]))
  {
    Follow(w, s0, run, s, Work(0, order));
    assert s.workers[0 := next] == [next];
    assert s.visited + {} == s.visited && s.resolved + {} == s.resolved && s.missing + {} == s.missing;
    assert s.queue + [] == s.queue && s.out + multiset{} == s.out;
    r := run + [Work(0, order)];
  }

  /** The worker's last step, with the set `missing` or `resolved` that it ends in. */
  lemma FollowEnd(w: World, s0: State, run: seq<Action>, s: State, path: string,
                  resolved: set<string>, missing: set<string>) returns (r: seq<Action>)
    requires After(w, s0, run) == Some(s) && |s.workers| == 1 && s.workers[0].Searching?
    requires SearchStep(w, s.visited, s.workers[0]) == Effect(Idle, {}, [], multiset{path}, resolved, missing)
    ensures After(w, s0, r)
            == Some(State(s.visited, s.queue, [Idle], s.out + multiset{path}, s.skipped,
                          s.resolved + resolved, s.missing + missing))
  {
    Follow(w, s0, run, s, Work(0, []));
    assert s.workers[0 := Idle] == [Idle];
    assert s.visited + {} == s.visited && s.queue + [] == s.queue;
    r := run + [Work(0, [])];
  }

  lemma FollowClaim(w: World, s0: State, run: seq<Action>, s: State, wk: Worker, c: string)
    returns (r: seq<Action>)
    requires After(w, s0, run) == Some(s) && s.workers == [wk] && wk.Searching?
    requires wk.hand.Free? && wk.d < |wk.deps| && Candidate(w, wk) == Some(c) && c !in s.visited
    ensures After(w, s0, r) == Some(s.(visited := s.visited + {c}, workers := [wk.(hand := Claimed(c))]))
  {
    Follow(w, s0, run, s, Work(0, []));
    assert s.workers[0 := wk.(hand := Claimed(c))] == [wk.(hand := Claimed(c))];
    assert s.resolved + {} == s.resolved && s.missing + {} == s.missing;
    assert s.queue + [] == s.queue && s.out + multiset{} == s.out;
    r := run + [Work(0, [])];
  }

  lemma InitialOne(seed: string)
    ensures Initial([seed], 1) == One({seed}, [Task(seed, {})] + [], Idle, multiset{}, {}, {})
    ensures forall w :: After(w, Initial([seed], 1), []) == Some(Initial([seed], 1))
  {
  }

  lemma InitialPair(a: string, b: string)
    ensures Initial([a, b], 1) == One({a, b}, [Task(a, {})] + [Task(b, {})], Idle, multiset{}, {}, {})
    ensures forall w :: After(w, Initial([a, b], 1), []) == Some(Initial([a, b], 1))
  {
  }

  /** The worker fetches the first task and opens its file. */
  lemma FollowOpen(w: World, s0: State, run: seq<Action>, visited: set<string>, task: Task, rest: seq<Task>,
                   out: multiset<string>, resolved: set<string>, missing: set<string>, order: seq<string>)
    returns (r: seq<Action>)
    requires After(w, s0, run) == Some(One(visited, [task] + rest, Idle, out, resolved, missing))
    requires task.path !in w.installed && task.path in w.elf
    requires Enumerates(order, task.lpaths + OwnPaths(task.path, w.elf[task.path]))
    ensures After(w, s0, r)
            == Some(One(visited, rest, Opened(w, task, order), out, resolved, missing))
  {
    r := FollowTake(w, s0, run, One(visited, [task] + rest, Idle, out, resolved, missing), task, rest);
    r := FollowOnly(w, s0, r, One(visited, rest, Opening(task.path, task.lpaths), out, resolved, missing), order,
                    Opened(w, task, order));
  }

  /** A worker at the start of its search. */
  function Opened(w: World, task: Task, order: seq<string>): (wk: Worker)
    requires task.path in w.elf
  {
    var elf := w.elf[task.path];
    Searching(task.path, task.lpaths + OwnPaths(task.path, elf), order, elf.needed, 0, InLpaths(0), Free)
  }

  /** The worker finds a candidate of its last dependency visited: the file counts as processed. */
  lemma FollowLeave(w: World, s0: State, run: seq<Action>, visited: set<string>, queue: seq<Task>, wk: Worker,
                    c: string,
                    out: multiset<string>, resolved: set<string>, missing: set<string>) returns (r: seq<Action>)
    requires After(w, s0, run) == Some(One(visited, queue, wk, out, resolved, missing))
    requires wk.Searching? && wk.d + 1 == |wk.deps| && wk.hand.Free? && !wk.at.InCache?
    requires Candidate(w, wk) == Some(c) && c in visited
    ensures After(w, s0, r)
            == Some(One(visited, queue, Idle, out + multiset{wk.path}, resolved + {wk.path}, missing))
  {
    r := FollowOnly(w, s0, run, One(visited, queue, wk, out, resolved, missing), [], NextDep(wk));
    r := FollowEnd(w, s0, r, One(visited, queue, NextDep(wk), out, resolved, missing), wk.path, {wk.path}, {});
    assert missing + {} == missing;
  }
}
