/**
  A file with one dependency as the only seed: the exact condition under which every
  complete run finds the library, for any RPATH, cache and default directories.
 */
module LddLone {
  import opened Counting
  import opened LddModel
  import opened LddConservation
  import opened LddClosure
  import opened LddProvenance
  import opened LddRpath
  import opened LddSteps
  import opened LddSupply

  /** The library counts as supplied in every complete run in which the file counts as processed. */
  ghost predicate AlwaysSupplied(w: World, p: string, dep: string) {
    forall threads, run, s :: Reaches(w, [p], threads, run, s) && Quiescent(s) && p in s.resolved
      ==> Supplied(w, [p], p, dep, s)
  }

  /** A library that the search may find is installed already, or is the file itself. */
  ghost predicate AlreadyThere(w: World, p: string, dep: string) {
    exists c :: c in w.present && CandidateIn(w, Own(w, p), dep, c) && (c == p || c in w.installed)
  }

  /** A lone file searches its own directories. */
  lemma LoneMayClaim(w: World, p: string, dep: string, c: string)
    ensures MayClaim(w, [p], p, dep, c) <==> CandidateIn(w, Own(w, p), dep, c)
  {
    hide Searches, CandidateIn, Own;
    SeedSearches(w, [p], p, Own(w, p));
    if MayClaim(w, [p], p, dep, c) {
      var dirs :| Searches(w, [p], p, dirs) && CandidateIn(w, dirs, dep, c);
      SeedSearches(w, [p], p, dirs);
    }
  }

  // ----- a trap loses the library

  /** The search comes to a missing path for the second time, having found nothing before. */
  ghost predicate TrapAt(w: World, looked: seq<string>, n: nat) {
    && n < |looked|
    && (forall i :: 0 <= i < n ==> looked[i] !in w.present)
    && Before(looked, n, looked[n])
  }

  /** A worker on its way into the trap. */
  ghost predicate Doomed(w: World, p: string, dep: string, order: seq<string>, n: nat, visited: set<string>,
                         wk: Worker)
  {
    && wk.Searching? && wk.path == p && wk.order == order && wk.deps == [dep] && wk.d == 0
    && TrapAt(w, Looked(w, order, dep), n) && Passes(wk) <= n
    && (match wk.at
        case InLpaths(k) => k <= |order|
        case InCache(_) => false
        case InDefault(k) => !Cached(w, dep) && k <= |w.libdirs|)
    && SweptTo(w, dep, visited, order, Passes(wk))
    && (match wk.hand
        case Free => true
        case Claimed(c) => Passes(wk) < n && Candidate(w, wk) == Some(c) && c in visited
        case Wanted(_) => false)
    && OnlyMisses(w, p, visited)
  }

  ghost predicate OnlyMisses(w: World, p: string, visited: set<string>) {
    forall c :: c in visited ==> c == p || c !in w.present
  }

  lemma DoomedAdvance(w: World, p: string, dep: string, order: seq<string>, n: nat, visited: set<string>, wk: Worker)
    requires Doomed(w, p, dep, order, n, visited, wk) && wk.hand.Claimed?
    ensures SearchStep(w, visited, wk) == Only(Advance(wk))
    ensures Doomed(w, p, dep, order, n, visited, Advance(wk)) && Passes(Advance(wk)) == Passes(wk) + 1
  {
    LookedIsCandidate(w, wk);
    assert wk.hand.c == Looked(w, order, dep)[Passes(wk)];
    SweptFurther(w, dep, visited, order, Passes(wk));
  }

  /** Below the end of the list there is a candidate, unless the default directories are yet to come. */
  lemma CandidateAt(w: World, dep: string, wk: Worker)
    requires wk.Searching? && wk.deps == [dep] && wk.d == 0 && !wk.at.InCache? && CursorFits(w, wk)
    requires wk.at.InLpaths? ==> wk.at.k <= |wk.order|
    requires Passes(wk) < |wk.order| + if Cached(w, dep) then 0 else |w.libdirs|
    ensures if wk.at == InLpaths(|wk.order|) then !Cached(w, dep) && Candidate(w, wk).None? else Candidate(w, wk).Some?
  {
  }

  lemma DoomedCandidate(w: World, p: string, dep: string, order: seq<string>, n: nat, visited: set<string>, wk: Worker)
    requires Doomed(w, p, dep, order, n, visited, wk) && wk.hand.Free?
    ensures wk.at == InLpaths(|order|) ==> !Cached(w, dep) && Candidate(w, wk).None?
    ensures wk.at != InLpaths(|order|) ==> Candidate(w, wk) == Some(Looked(w, order, dep)[Passes(wk)])
  {
    CandidateAt(w, dep, wk);
    if wk.at != InLpaths(|order|) {
      LookedIsCandidate(w, wk);
    }
  }

  lemma VisitedAtTrap(w: World, dep: string, order: seq<string>, n: nat, visited: set<string>)
    requires TrapAt(w, Looked(w, order, dep), n) && SweptTo(w, dep, visited, order, n)
    ensures Looked(w, order, dep)[n] in visited
  {
  }

  lemma DoomedClaim(w: World, p: string, dep: string, order: seq<string>, n: nat, visited: set<string>, wk: Worker,
                    c: string)
    requires Doomed(w, p, dep, order, n, visited, wk) && wk.hand.Free? && c !in visited
    requires Candidate(w, wk) == Some(c) && c == Looked(w, order, dep)[Passes(wk)]
    ensures Doomed(w, p, dep, order, n, visited + {c}, wk.(hand := Claimed(c)))
  {
    if Passes(wk) == n {
      VisitedAtTrap(w, dep, order, n, visited);
    }
  }

  lemma {:induction false} IntoTheTrap(w: World, p: string, dep: string, order: seq<string>, n: nat,
                                       s0: State, run: seq<Action>, visited: set<string>, wk: Worker)
    returns (r: seq<Action>, last: set<string>)
    requires Doomed(w, p, dep, order, n, visited, wk)
    requires After(w, s0, run) == Some(One(visited, [], wk, multiset{}, {}, {}))
    ensures After(w, s0, r) == Some(One(last, [], Idle, multiset{p}, {p}, {})) && OnlyMisses(w, p, last)
    decreases n - Passes(wk), wk.at.InLpaths?, wk.hand.Free?
  {
    var s := One(visited, [], wk, multiset{}, {}, {});
    if wk.hand.Claimed? {
      DoomedAdvance(w, p, dep, order, n, visited, wk);
      r := FollowOnly(w, s0, run, s, [], Advance(wk));
      r, last := IntoTheTrap(w, p, dep, order, n, s0, r, visited, Advance(wk));
    } else {
      DoomedCandidate(w, p, dep, order, n, visited, wk);
      if wk.at == InLpaths(|order|) {
        var next := wk.(at := InDefault(0));
        r := FollowOnly(w, s0, run, s, [], next);
        r, last := IntoTheTrap(w, p, dep, order, n, s0, r, visited, next);
      } else {
        var c := Looked(w, order, dep)[Passes(wk)];
        if c in visited {
          r := FollowLeave(w, s0, run, visited, [], wk, c, multiset{}, {}, {});
          assert multiset{} + multiset{p} == multiset{p} && {} + {p} == {p};
          last := visited;
        } else {
          DoomedClaim(w, p, dep, order, n, visited, wk, c);
          r := FollowClaim(w, s0, run, s, wk, c);
          r, last := IntoTheTrap(w, p, dep, order, n, s0, r, visited + {c}, wk.(hand := Claimed(c)));
        }
      }
    }
  }

  /** A file without competitors is opened. */
  lemma LoneOpens(w: World, p: string, order: seq<string>) returns (r: seq<Action>)
    requires p in w.elf && p !in w.installed && Enumerates(order, OwnPaths(p, w.elf[p]))
    ensures After(w, Initial([p], 1), r)
            == Some(One({p}, [], Opened(w, Task(p, {}), order), multiset{}, {}, {}))
    ensures Opened(w, Task(p, {}), order).lpaths == OwnPaths(p, w.elf[p])
  {
    var s0 := Initial([p], 1);
    assert {} + OwnPaths(p, w.elf[p]) == OwnPaths(p, w.elf[p]);
    InitialOne(p);
    r := FollowOpen(w, s0, [], {p}, Task(p, {}), [], multiset{}, {}, {}, order);
  }

  lemma OpenedIsDoomed(w: World, p: string, dep: string, order: seq<string>, n: nat)
    requires p in w.elf && w.elf[p].needed == [dep] && TrapAt(w, Looked(w, order, dep), n)
    ensures Doomed(w, p, dep, order, n, {p}, Opened(w, Task(p, {}), order))
  {
  }

  /** A complete run in which the file counts as processed and only the file itself is returned. */
  lemma TrapLoses(w: World, p: string, dep: string, order: seq<string>, n: nat) returns (r: seq<Action>, s: State)
    requires p in w.elf && p !in w.installed && w.elf[p].needed == [dep]
    requires Enumerates(order, OwnPaths(p, w.elf[p])) && TrapAt(w, Looked(w, order, dep), n)
    ensures Reaches(w, [p], 1, r, s) && Quiescent(s) && p in s.resolved && s.out == multiset{p}
  {
    r := LoneOpens(w, p, order);
    OpenedIsDoomed(w, p, dep, order, n);
    var last;
    r, last := IntoTheTrap(w, p, dep, order, n, Initial([p], 1), r, {p}, Opened(w, Task(p, {}), order));
    s := One(last, [], Idle, multiset{p}, {p}, {});
  }

  // ----- without the condition there is a trap

  /** Two search directories lead to the same missing path: look there first. */
  lemma TrapInPaths(w: World, p: string, dep: string) returns (order: seq<string>, n: nat)
    requires !DistinctMisses(w, Own(w, p), dep)
    ensures Enumerates(order, Own(w, p)) && TrapAt(w, Looked(w, order, dep), n)
  {
    hide Own;
    var d, e :| d in Own(w, p) && e in Own(w, p) && d != e
                && SearchKey(w, d, dep) == SearchKey(w, e, dep) && SearchKey(w, d, dep) !in w.present;
    order := StartingWith(Own(w, p), d, e);
    var looked := Looked(w, order, dep);
    assert looked[0] == SearchKey(w, d, dep) && looked[1] == SearchKey(w, e, dep);
    assert Before(looked, 1, looked[1]);
    n := 1;
  }

  lemma StartingWith(xs: set<string>, d: string, e: string) returns (order: seq<string>)
    requires d in xs && e in xs && d != e
    ensures Enumerates(order, xs) && |order| >= 2 && order[0] == d && order[1] == e
  {
    var rest := Enumerable(xs - {d, e});
    order := [d, e] + rest;
    assert xs == (xs - {d, e}) + {d, e};
  }

  lemma NothingBeforeDefault(w: World, dirs: set<string>, dep: string, order: seq<string>, k: nat, i: nat)
    requires !Cached(w, dep) && k < |w.libdirs| && NoneBefore(w, dep, k)
    requires forall c :: InDirs(w, dirs, dep, c) ==> c !in w.present
    requires Enumerates(order, dirs) && i < |order| + k
    ensures Looked(w, order, dep)[i] !in w.present
  {
    if i < |order| {
      assert order[i] in order;
      assert InDirs(w, dirs, dep, SearchKey(w, order[i], dep));
    } else {
      assert Looked(w, order, dep)[i] == DefaultKey(w, i - |order|, dep);
    }
  }

  /** A missing default candidate was looked at before: any order of the directories will do. */
  lemma TrapInDefaults(w: World, dirs: set<string>, dep: string, k: nat) returns (order: seq<string>, n: nat)
    requires !Cached(w, dep) && k < |w.libdirs| && NoneBefore(w, dep, k)
    requires forall c :: InDirs(w, dirs, dep, c) ==> c !in w.present
    requires DefaultKey(w, k, dep) !in w.present && !NewMiss(w, dirs, dep, k)
    ensures Enumerates(order, dirs) && TrapAt(w, Looked(w, order, dep), n)
  {
    hide InDirs, NewMiss, Looked, Before, NoneBefore, Enumerates;
    order := Enumerable(dirs);
    n := |order| + k;
    forall i | 0 <= i < n ensures Looked(w, order, dep)[i] !in w.present {
      NothingBeforeDefault(w, dirs, dep, order, k, i);
    }
    MissSeenBefore(w, dirs, dep, order, k);
  }

  lemma MissSeenBefore(w: World, dirs: set<string>, dep: string, order: seq<string>, k: nat)
    requires !Cached(w, dep) && k < |w.libdirs| && Enumerates(order, dirs)
    requires !NewMiss(w, dirs, dep, k)
    ensures Before(Looked(w, order, dep), |order| + k, Looked(w, order, dep)[|order| + k])
  {
    hide Looked;
    var looked, c := Looked(w, order, dep), DefaultKey(w, k, dep);
    assert looked[|order| + k] == c;
    if InDirs(w, dirs, dep, c) {
      var dir :| dir in dirs && c == SearchKey(w, dir, dep);
      var i: nat :| i < |order| && order[i] == dir;
      assert looked[i] == c;
    } else {
      var j: nat :| j < k && DefaultKey(w, j, dep) == c;
      assert looked[|order| + j] == c;
    }
  }

  lemma TrapExists(w: World, p: string, dep: string) returns (order: seq<string>, n: nat)
    requires !TrapFreeIn(w, Own(w, p), dep)
    ensures Enumerates(order, Own(w, p)) && TrapAt(w, Looked(w, order, dep), n)
  {
    hide Own, DistinctMisses, NewMiss, InDirs, Looked, TrapAt;
    if !DistinctMisses(w, Own(w, p), dep) {
      order, n := TrapInPaths(w, p, dep);
    } else {
      var k: nat :| k < |w.libdirs| && NoneBefore(w, dep, k) && DefaultKey(w, k, dep) !in w.present
                    && !NewMiss(w, Own(w, p), dep, k);
      order, n := TrapInDefaults(w, Own(w, p), dep, k);
    }
  }

  // ----- the theorem

  lemma LoneIsAsked(w: World, p: string, dep: string)
    requires p in w.elf && w.elf[p].needed == [dep]
    requires TrapFreeIn(w, Own(w, p), dep) && AvailableIn(w, Own(w, p), dep)
    ensures Asked(w, [p], {p}, p, dep, 0)
  {
    hide Searches, Own, MayClaim, TrapFreeIn, AvailableIn;
    forall dirs | Searches(w, [p], p, dirs) ensures TrapFreeIn(w, dirs, dep) && AvailableIn(w, dirs, dep) {
      SeedSearches(w, [p], p, dirs);
    }
  }

  lemma ReturnedByAny(w: World, p: string, threads: nat, run: seq<Action>, s: State)
    requires Reaches(w, [p], threads, run, s) && Quiescent(s) && p !in w.installed
    ensures p in s.out
  {
    OutputExact(w, [p], threads, run, s, p);
  }

  /**
    Exactly when a lone file's library is found for certain, for any RPATH, cache and default
    directories: the search comes to no missing path twice before it comes to an existing
    one, or a library that it may find is installed already.
   */
  lemma LoneSearchExact(w: World, p: string, dep: string)
    requires p in w.elf && w.elf[p].needed == [dep] && p in w.present && p !in w.installed
    requires AvailableIn(w, Own(w, p), dep)
    ensures AlwaysSupplied(w, p, dep) <==> TrapFreeIn(w, Own(w, p), dep) || AlreadyThere(w, p, dep)
  {
    hide TrapFreeIn, AvailableIn, AlreadyThere, Own, Supplied;
    forall threads, run, s | Reaches(w, [p], threads, run, s) && Quiescent(s) && p in s.resolved
      && (TrapFreeIn(w, Own(w, p), dep) || AlreadyThere(w, p, dep))
      ensures Supplied(w, [p], p, dep, s)
    {
      if AlreadyThere(w, p, dep) {
        SuppliedAlready(w, p, dep, threads, run, s);
      } else {
        LoneIsAsked(w, p, dep);
        RpathClosure(w, [p], threads, run, s, {p}, p, dep, 0);
      }
    }
    if !TrapFreeIn(w, Own(w, p), dep) && !AlreadyThere(w, p, dep) {
      var run, s := TrapIsFatal(w, p, dep);
    }
  }

  lemma SuppliedAlready(w: World, p: string, dep: string, threads: nat, run: seq<Action>, s: State)
    requires Reaches(w, [p], threads, run, s) && Quiescent(s) && p !in w.installed && AlreadyThere(w, p, dep)
    ensures Supplied(w, [p], p, dep, s)
  {
    hide CandidateIn, MayClaim, Own;
    ReturnedByAny(w, p, threads, run, s);
    var c :| c in w.present && CandidateIn(w, Own(w, p), dep, c) && (c == p || c in w.installed);
    LoneMayClaim(w, p, dep, c);
  }

  lemma TrapIsFatal(w: World, p: string, dep: string) returns (run: seq<Action>, s: State)
    requires p in w.elf && w.elf[p].needed == [dep] && p !in w.installed
    requires !TrapFreeIn(w, Own(w, p), dep) && !AlreadyThere(w, p, dep)
    ensures Reaches(w, [p], 1, run, s) && Quiescent(s) && p in s.resolved && !Supplied(w, [p], p, dep, s)
  {
    hide CandidateIn, MayClaim, TrapFreeIn, OwnPaths, TrapAt, Looked;
    var order, n := TrapExists(w, p, dep);
    run, s := TrapLoses(w, p, dep, order, n);
    forall c | c in w.present && MayClaim(w, [p], p, dep, c) ensures c != p && c !in w.installed {
      LoneMayClaim(w, p, dep, c);
    }
  }
}
