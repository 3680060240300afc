/**
  With RPATH and RUNPATH, and any number of files and workers: a file that counts as
  processed has its library returned or installed, if the places where the library is
  missing are looked at by this file only, and by this file only once.
 */
module LddSupply {
  import opened Counting
  import opened LddModel
  import opened LddConservation
  import opened LddProvenance
  import opened LddRpath

  /** How many of the candidates in `Looked` the search has passed. */
  function Passes(wk: Worker): (n: nat)
    requires wk.Searching?
  {
    match wk.at
    case InLpaths(k) => k
    case InCache(_) => |wk.order|
    case InDefault(k) => |wk.order| + k
  }

  ghost predicate SweptTo(w: World, dep: string, visited: set<string>, order: seq<string>, n: nat)
    requires n <= |Looked(w, order, dep)|
  {
    forall j :: 0 <= j < n ==> Looked(w, order, dep)[j] in visited
  }

  /** What the search for `dep` has looked at was claimed. */
  ghost predicate Swept(w: World, dep: string, visited: set<string>, wk: Worker)
    requires wk.Searching?
  {
    && (match wk.at
        case InLpaths(k) => k <= |wk.order|
        case InCache(k) =>
          && Cached(w, dep) && k <= |CacheValues(w, dep)|
          && (forall j: nat :: j < k ==> w.canon(CacheValues(w, dep)[j]) in visited)
        case InDefault(k) => !Cached(w, dep) && k <= |w.libdirs|)
    && (!wk.hand.Free? ==> wk.hand.c in visited)
    && SweptTo(w, dep, visited, wk.order, Passes(wk))
  }

  /** A worker on the file has not left its search for the `i`-th dependency. */
  ghost predicate NotPast(w: World, dep: string, i: nat, visited: set<string>, wk: Worker) {
    || wk.Opening?
    || (wk.Searching? && wk.d <= i && CursorFits(w, wk) && (wk.d == i ==> Swept(w, dep, visited, wk)))
  }

  /** The search for the `i`-th dependency has looked at `c`, or has come to the cache. */
  ghost predicate HasPassed(w: World, dep: string, i: nat, wk: Worker, c: string) {
    && wk.Searching? && wk.d == i
    && (wk.at.InCache? || (!wk.hand.Free? && wk.hand.c == c) || Before(Looked(w, wk.order, dep), Passes(wk), c))
  }

  ghost predicate Before(looked: seq<string>, n: nat, c: string) {
    exists j :: 0 <= j < n && j < |looked| && looked[j] == c
  }

  /** What the theorem assumes of a file and one of its dependencies. */
  ghost predicate Asked(w: World, seeds: seq<string>, company: set<string>, p: string, dep: string, i: nat) {
    && p in company && p in w.elf && i < |w.elf[p].needed| && w.elf[p].needed[i] == dep
    && (forall j :: 0 <= j < |w.elf[p].needed| && w.elf[p].needed[j] == dep ==> j == i)
    && Company(w, seeds, p, dep, company) && Private(w, seeds, p, dep, company)
    && TrapFree(w, seeds, p, dep) && Available(w, seeds, p, dep)
  }

  ghost predicate WorksOn(s: State, t: int, p: string) {
    0 <= t < |s.workers| && !s.workers[t].Idle? && s.workers[t].path == p
  }

  /** Everything queued or in work belongs to the files that can be processed so far. */
  ghost predicate InCompany(company: set<string>, s: State) {
    && (forall j :: 0 <= j < |s.queue| ==> s.queue[j].path in company)
    && (forall t :: 0 <= t < |s.workers| && !s.workers[t].Idle? ==> s.workers[t].path in company)
  }

  ghost predicate Accounted(w: World, seeds: seq<string>, company: set<string>, p: string, dep: string, i: nat,
                            s: State)
    requires p in w.elf
  {
    && InCompany(company, s) && p !in s.resolved
    && (forall t :: WorksOn(s, t, p) ==> NotPast(w, dep, i, s.visited, s.workers[t]))
    && (forall c :: c in s.visited && c !in w.present && MayClaim(w, seeds, p, dep, c) ==>
          PassedBySome(w, p, dep, i, s, c))
  }

  ghost predicate PassedBySome(w: World, p: string, dep: string, i: nat, s: State, c: string) {
    exists t :: WorksOn(s, t, p) && HasPassed(w, dep, i, s.workers[t], c)
  }

  /** The invariant: the library was seen, or the file failed, or its search still goes on. */
  ghost predicate OnTrack(w: World, seeds: seq<string>, company: set<string>, p: string, dep: string, i: nat, s: State)
    requires p in w.elf
  {
    Seen(w, seeds, p, dep, s.visited) || p in s.missing || Accounted(w, seeds, company, p, dep, i, s)
  }

  // ----- steps of the file's own worker

  ghost predicate Ready(w: World, seeds: seq<string>, p: string, dep: string, i: nat, visited: set<string>,
                        wk: Worker)
  {
    && p in w.elf && i < |w.elf[p].needed| && w.elf[p].needed[i] == dep && !wk.Idle? && wk.path == p
    && WorkerSane(w, wk) && Equipped(w, seeds, wk) && NotPast(w, dep, i, visited, wk)
    && !Seen(w, seeds, p, dep, visited)
    && (forall c :: c in visited && c !in w.present && MayClaim(w, seeds, p, dep, c) ==> HasPassed(w, dep, i, wk, c))
  }

  /** What a step of the file's own worker establishes. */
  ghost predicate StillReady(w: World, seeds: seq<string>, company: set<string>, p: string, dep: string, i: nat,
                             visited: set<string>, e: Effect)
    requires p in w.elf
  {
    || Seen(w, seeds, p, dep, visited + e.claims)
    || p in e.missing
    || (&& e.resolved == {} && !e.next.Idle? && (forall task :: task in e.tasks ==> task.path in company)
        && NotPast(w, dep, i, visited + e.claims, e.next)
        && forall c :: c in visited + e.claims && c !in w.present && MayClaim(w, seeds, p, dep, c)
             ==> HasPassed(w, dep, i, e.next, c))
  }

  lemma LookedIsCandidate(w: World, wk: Worker)
    requires wk.Searching? && wk.d < |wk.deps| && Candidate(w, wk).Some? && !wk.at.InCache? && CursorFits(w, wk)
    requires wk.at.InDefault? ==> wk.at.k <= |w.libdirs|
    ensures Passes(wk) < |Looked(w, wk.order, wk.deps[wk.d])|
    ensures Looked(w, wk.order, wk.deps[wk.d])[Passes(wk)] == Candidate(w, wk).value
  {
  }

  lemma LookedMayBeClaimed(w: World, seeds: seq<string>, wk: Worker, dep: string, j: nat)
    requires wk.Searching? && Equipped(w, seeds, wk)
    requires j < |Looked(w, wk.order, dep)|
    ensures MayClaim(w, seeds, wk.path, dep, Looked(w, wk.order, dep)[j])
  {
    hide Searches;
    if j < |wk.order| {
      assert wk.order[j] in wk.order;
      assert InDirs(w, wk.lpaths, dep, Looked(w, wk.order, dep)[j]);
    } else {
      assert Looked(w, wk.order, dep)[j] == DefaultKey(w, j - |wk.order|, dep);
      assert InSystem(w, dep, Looked(w, wk.order, dep)[j]);
    }
    assert CandidateIn(w, wk.lpaths, dep, Looked(w, wk.order, dep)[j]);
  }

  /** Everything the search has passed is missing, or the library would have been seen. */
  lemma PassedMissing(w: World, seeds: seq<string>, p: string, dep: string, i: nat, visited: set<string>, wk: Worker,
                      j: nat)
    requires Ready(w, seeds, p, dep, i, visited, wk) && wk.Searching? && wk.d == i && j < Passes(wk)
    ensures j < |Looked(w, wk.order, dep)| && Looked(w, wk.order, dep)[j] !in w.present
  {
    assert Looked(w, wk.order, dep)[j] in visited;
    LookedMayBeClaimed(w, seeds, wk, dep, j);
  }

  lemma NotLookedAt(w: World, dirs: set<string>, dep: string, order: seq<string>, n: nat)
    requires TrapFreeIn(w, dirs, dep) && InVain(w, dirs, dep, order, n)
    ensures !Before(Looked(w, order, dep), n, Looked(w, order, dep)[n])
  {
    forall j | 0 <= j < n ensures Looked(w, order, dep)[j] != Looked(w, order, dep)[n] {
      NoTrap(w, dirs, dep, order, n, j);
    }
  }

  lemma VisitedMeansLookedAt(w: World, seeds: seq<string>, p: string, dep: string, i: nat, visited: set<string>,
                             wk: Worker)
    requires Ready(w, seeds, p, dep, i, visited, wk)
    requires wk.Searching? && wk.d == i && wk.hand.Free? && !wk.at.InCache? && Candidate(w, wk).Some?
    requires Candidate(w, wk).value in visited
    ensures Candidate(w, wk).value !in w.present
    ensures Before(Looked(w, wk.order, dep), Passes(wk), Candidate(w, wk).value)
  {
    CandidateMayBeClaimed(w, seeds, wk);
    assert HasPassed(w, dep, i, wk, Candidate(w, wk).value);
  }

  lemma SearchInVain(w: World, seeds: seq<string>, p: string, dep: string, i: nat, visited: set<string>, wk: Worker)
    requires Ready(w, seeds, p, dep, i, visited, wk)
    requires wk.Searching? && wk.d == i && wk.hand.Free? && !wk.at.InCache? && Candidate(w, wk).Some?
    requires Candidate(w, wk).value !in w.present
    ensures InVain(w, wk.lpaths, dep, wk.order, Passes(wk))
    ensures Looked(w, wk.order, dep)[Passes(wk)] == Candidate(w, wk).value
  {
    hide Searches, MayClaim, Looked, SweptTo;
    LookedIsCandidate(w, wk);
    forall m | 0 <= m < Passes(wk) ensures Looked(w, wk.order, dep)[m] !in w.present {
      PassedMissing(w, seeds, p, dep, i, visited, wk, m);
    }
  }

  /** The search never comes to a visited missing path. */
  lemma NeverVisited(w: World, seeds: seq<string>, p: string, dep: string, i: nat, visited: set<string>, wk: Worker)
    requires Ready(w, seeds, p, dep, i, visited, wk) && TrapFree(w, seeds, p, dep)
    requires wk.Searching? && wk.d == i && wk.hand.Free? && !wk.at.InCache? && Candidate(w, wk).Some?
    ensures Candidate(w, wk).value !in visited
  {
    if Candidate(w, wk).value in visited {
      VisitedMeansLookedAt(w, seeds, p, dep, i, visited, wk);
      SearchInVain(w, seeds, p, dep, i, visited, wk);
      NotLookedAt(w, wk.lpaths, dep, wk.order, Passes(wk));
    }
  }

  /** Whatever is passed stays passed when the search moves on within the dependency. */
  ghost predicate PassedKept(w: World, dep: string, i: nat, a: Worker, b: Worker) {
    forall c :: HasPassed(w, dep, i, a, c) ==> HasPassed(w, dep, i, b, c)
  }

  lemma ClaimNew(w: World, seeds: seq<string>, company: set<string>, p: string, dep: string, i: nat,
                 visited: set<string>, wk: Worker, c: string)
    requires Ready(w, seeds, p, dep, i, visited, wk)
    requires wk.Searching? && wk.d == i && wk.hand.Free? && Candidate(w, wk) == Some(c) && c !in visited
    ensures StillReady(w, seeds, company, p, dep, i, visited, Claim(visited, wk, c))
  {
    hide Searches, MayClaim, Before;
    var next := wk.(hand := Claimed(c));
    assert PassedKept(w, dep, i, wk, next) && HasPassed(w, dep, i, next, c);
    assert Swept(w, dep, visited + {c}, next);
  }

  lemma SweptFurther(w: World, dep: string, visited: set<string>, order: seq<string>, n: nat)
    requires n < |Looked(w, order, dep)| && SweptTo(w, dep, visited, order, n) && Looked(w, order, dep)[n] in visited
    ensures SweptTo(w, dep, visited, order, n + 1)
  {
  }

  lemma AdvanceSwept(w: World, dep: string, visited: set<string>, wk: Worker)
    requires wk.Searching? && wk.d < |wk.deps| && wk.deps[wk.d] == dep && Swept(w, dep, visited, wk)
    requires Candidate(w, wk).Some? && Candidate(w, wk).value in visited
    ensures Swept(w, dep, visited, Advance(wk))
  {
    if !wk.at.InCache? {
      LookedIsCandidate(w, wk);
      SweptFurther(w, dep, visited, wk.order, Passes(wk));
    }
  }

  lemma AdvanceKeepsPassed(w: World, dep: string, i: nat, wk: Worker)
    requires wk.Searching? && wk.d == i && i < |wk.deps| && wk.deps[i] == dep && CursorFits(w, wk)
    requires Candidate(w, wk).Some? && (!wk.hand.Free? ==> Candidate(w, wk).value == wk.hand.c)
    requires wk.at.InDefault? ==> wk.at.k <= |w.libdirs|
    ensures PassedKept(w, dep, i, wk, Advance(wk))
  {
    if !wk.at.InCache? {
      LookedIsCandidate(w, wk);
    }
  }

  lemma AdvanceReady(w: World, seeds: seq<string>, company: set<string>, p: string, dep: string, i: nat,
                     visited: set<string>, wk: Worker)
    requires Ready(w, seeds, p, dep, i, visited, wk) && wk.Searching? && wk.d == i
    requires Candidate(w, wk).Some? && Candidate(w, wk).value in visited
    ensures StillReady(w, seeds, company, p, dep, i, visited, Only(Advance(wk)))
  {
    assert visited + {} == visited;
    AdvanceSwept(w, dep, visited, wk);
    AdvanceKeepsPassed(w, dep, i, wk);
  }

  lemma OwnClaim(w: World, seeds: seq<string>, company: set<string>, p: string, dep: string, i: nat,
                 visited: set<string>, wk: Worker)
    requires Ready(w, seeds, p, dep, i, visited, wk) && TrapFree(w, seeds, p, dep)
    requires wk.Searching? && wk.d == i && wk.hand.Free? && Candidate(w, wk).Some?
    ensures StillReady(w, seeds, company, p, dep, i, visited, Claim(visited, wk, Candidate(w, wk).value))
  {
    var c := Candidate(w, wk).value;
    if !wk.at.InCache? {
      NeverVisited(w, seeds, p, dep, i, visited, wk);
    }
    if c in visited {
      AdvanceReady(w, seeds, company, p, dep, i, visited, wk);
    } else {
      ClaimNew(w, seeds, company, p, dep, i, visited, wk, c);
    }
  }

  /** A claim in hand is a missing path. */
  lemma HandMissing(w: World, seeds: seq<string>, p: string, dep: string, i: nat, visited: set<string>, wk: Worker)
    requires Ready(w, seeds, p, dep, i, visited, wk) && wk.Searching? && wk.d == i && !wk.hand.Free?
    ensures wk.hand.Claimed? && wk.hand.c !in w.present
  {
    CandidateMayBeClaimed(w, seeds, wk);
  }

  lemma OwnHand(w: World, seeds: seq<string>, company: set<string>, p: string, dep: string, i: nat,
                visited: set<string>, wk: Worker)
    requires Ready(w, seeds, p, dep, i, visited, wk) && wk.Searching? && wk.d == i && !wk.hand.Free?
    ensures StillReady(w, seeds, company, p, dep, i, visited, SearchStep(w, visited, wk))
  {
    HandMissing(w, seeds, p, dep, i, visited, wk);
    AdvanceReady(w, seeds, company, p, dep, i, visited, wk);
  }

  /** Behind the search paths: they do not have the library. */
  lemma NothingInDirs(w: World, seeds: seq<string>, p: string, dep: string, i: nat, visited: set<string>, wk: Worker,
                      c: string)
    requires Ready(w, seeds, p, dep, i, visited, wk)
    requires wk.Searching? && wk.d == i && Passes(wk) >= |wk.order| && InDirs(w, wk.lpaths, dep, c)
    ensures c !in w.present
  {
    hide Searches, MayClaim, Looked, SweptTo;
    var dir :| dir in wk.lpaths && c == SearchKey(w, dir, dep);
    var j: nat :| j < |wk.order| && wk.order[j] == dir;
    PassedMissing(w, seeds, p, dep, i, visited, wk, j);
  }

  lemma NothingCached(w: World, seeds: seq<string>, p: string, dep: string, i: nat, visited: set<string>, wk: Worker,
                      v: string)
    requires Ready(w, seeds, p, dep, i, visited, wk) && wk.Searching? && wk.d == i
    requires wk.at.InCache? && wk.at.k >= |CacheValues(w, dep)| && v in CacheValues(w, dep)
    ensures w.canon(v) !in w.present
  {
    var j: nat :| j < |CacheValues(w, dep)| && CacheValues(w, dep)[j] == v;
    assert w.canon(v) in visited;
    assert CandidateIn(w, wk.lpaths, dep, w.canon(v));
    assert MayClaim(w, seeds, p, dep, w.canon(v));
  }

  /** The loop over the cache values does not end in vain. */
  lemma CacheHasIt(w: World, seeds: seq<string>, p: string, dep: string, i: nat, visited: set<string>, wk: Worker)
    requires Ready(w, seeds, p, dep, i, visited, wk) && Available(w, seeds, p, dep)
    requires wk.Searching? && wk.d == i && wk.at.InCache?
    ensures wk.at.k < |CacheValues(w, dep)|
  {
    assert AvailableIn(w, wk.lpaths, dep);
    var c :| c in w.present && CandidateIn(w, wk.lpaths, dep, c);
    if InDirs(w, wk.lpaths, dep, c) {
      NothingInDirs(w, seeds, p, dep, i, visited, wk, c);
    } else if wk.at.k >= |CacheValues(w, dep)| {
      var v :| v in CacheValues(w, dep) && c == w.canon(v);
      NothingCached(w, seeds, p, dep, i, visited, wk, v);
    }
  }

  lemma PathsEnd(w: World, seeds: seq<string>, company: set<string>, p: string, dep: string, i: nat,
                 visited: set<string>, wk: Worker)
    requires Ready(w, seeds, p, dep, i, visited, wk)
    requires wk.Searching? && wk.d == i && wk.hand.Free? && wk.at == InLpaths(|wk.order|)
    ensures StillReady(w, seeds, company, p, dep, i, visited, Exhausted(w, wk))
  {
    var next := Exhausted(w, wk).next;
    assert visited + {} == visited && Passes(next) == Passes(wk);
    assert Swept(w, dep, visited, next) && PassedKept(w, dep, i, wk, next);
  }

  lemma OwnExhausted(w: World, seeds: seq<string>, company: set<string>, p: string, dep: string, i: nat,
                     visited: set<string>, wk: Worker)
    requires Ready(w, seeds, p, dep, i, visited, wk) && Available(w, seeds, p, dep)
    requires wk.Searching? && wk.d == i && wk.hand.Free? && Candidate(w, wk).None?
    ensures StillReady(w, seeds, company, p, dep, i, visited, Exhausted(w, wk))
  {
    match wk.at
    case InLpaths(_) => PathsEnd(w, seeds, company, p, dep, i, visited, wk);
    case InCache(_) => CacheHasIt(w, seeds, p, dep, i, visited, wk);
    case InDefault(_) =>
  }

  /** Nobody else, and not this file for another name, claims a missing candidate. */
  lemma OtherClaim(w: World, seeds: seq<string>, company: set<string>, p: string, dep: string, visited: set<string>,
                   wk: Worker, c: string)
    requires p in w.elf && Private(w, seeds, p, dep, company) && wk.Searching? && wk.path in company
    requires MayClaim(w, seeds, p, dep, c)
    requires Equipped(w, seeds, wk) && wk.d < |wk.deps| && CursorFits(w, wk)
    requires wk.path != p || wk.deps[wk.d] != dep
    requires Candidate(w, wk) == Some(c)
    ensures c in w.present
  {
    CandidateMayBeClaimed(w, seeds, wk);
    assert wk.deps[wk.d] in w.elf[wk.path].needed;
  }

  lemma OtherClaims(w: World, seeds: seq<string>, company: set<string>, p: string, dep: string, visited: set<string>,
                    wk: Worker)
    requires p in w.elf && Private(w, seeds, p, dep, company) && wk.Searching? && wk.path in company
    requires Equipped(w, seeds, wk) && CursorFits(w, wk)
    requires wk.path != p || (wk.d < |wk.deps| ==> wk.deps[wk.d] != dep)
    ensures forall c :: c in SearchStep(w, visited, wk).claims && MayClaim(w, seeds, p, dep, c) ==> c in w.present
  {
    forall c | c in SearchStep(w, visited, wk).claims && MayClaim(w, seeds, p, dep, c) ensures c in w.present {
      OtherClaim(w, seeds, company, p, dep, visited, wk, c);
    }
  }

  /** What a file enqueues belongs to those files, unless it is the library. */
  lemma TasksInCompany(w: World, seeds: seq<string>, company: set<string>, p: string, dep: string, visited: set<string>,
                       wk: Worker)
    requires p in w.elf && Company(w, seeds, p, dep, company) && wk.Searching? && wk.path in company
    requires Equipped(w, seeds, wk) && WorkerSane(w, wk) && CursorFits(w, wk)
    requires wk.hand.Wanted? ==> wk.hand.c in visited
    requires !Seen(w, seeds, p, dep, visited)
    ensures forall task :: task in SearchStep(w, visited, wk).tasks ==> task.path in company
  {
    hide Searches, CandidateIn, Private;
    if wk.hand.Wanted? {
      CandidateMayBeClaimed(w, seeds, wk);
      assert wk.deps[wk.d] in w.elf[wk.path].needed;
    }
  }

  lemma EarlierNotPast(w: World, dep: string, i: nat, visited: set<string>, more: set<string>, wk: Worker)
    requires wk.Searching? && wk.d < i < |wk.deps| && CursorFits(w, wk) && WorkerSane(w, wk)
    ensures var e := SearchStep(w, visited, wk);
            e.resolved == {} && if e.next.Idle? then e.missing == {wk.path} else NotPast(w, dep, i, more, e.next)
  {
    assert NotPast(w, dep, i, more, NextDep(wk));
  }

  /** The search for an earlier dependency. */
  lemma EarlierStep(w: World, seeds: seq<string>, company: set<string>, p: string, dep: string, i: nat,
                    visited: set<string>, wk: Worker)
    requires Ready(w, seeds, p, dep, i, visited, wk) && Asked(w, seeds, company, p, dep, i)
    requires wk.Searching? && wk.d < i && (wk.hand.Wanted? ==> wk.hand.c in visited)
    ensures StillReady(w, seeds, company, p, dep, i, visited, SearchStep(w, visited, wk))
  {
    TasksInCompany(w, seeds, company, p, dep, visited, wk);
    OtherClaims(w, seeds, company, p, dep, visited, wk);
    EarlierNotPast(w, dep, i, visited, visited + SearchStep(w, visited, wk).claims, wk);
  }

  lemma OpeningStep(w: World, seeds: seq<string>, company: set<string>, p: string, dep: string, i: nat,
                    visited: set<string>, wk: Worker,
                    order: seq<string>)
    requires Ready(w, seeds, p, dep, i, visited, wk) && wk.Opening?
    ensures StillReady(w, seeds, company, p, dep, i, visited, StartSearch(w, wk, order))
  {
    assert visited + {} == visited;
    assert NotPast(w, dep, i, visited, StartSearch(w, wk, order).next);
  }

  lemma OwnStep(w: World, seeds: seq<string>, company: set<string>, p: string, dep: string, i: nat,
                visited: set<string>, wk: Worker,
                order: seq<string>)
    requires Ready(w, seeds, p, dep, i, visited, wk) && Asked(w, seeds, company, p, dep, i)
    requires wk.Searching? && wk.hand.Wanted? ==> wk.hand.c in visited
    ensures StillReady(w, seeds, company, p, dep, i, visited, WorkerStep(w, visited, wk, order))
  {
    if wk.Opening? {
      OpeningStep(w, seeds, company, p, dep, i, visited, wk, order);
    } else if wk.d < i {
      EarlierStep(w, seeds, company, p, dep, i, visited, wk);
    } else if !wk.hand.Free? {
      OwnHand(w, seeds, company, p, dep, i, visited, wk);
    } else if Candidate(w, wk).None? {
      OwnExhausted(w, seeds, company, p, dep, i, visited, wk);
    } else {
      OwnClaim(w, seeds, company, p, dep, i, visited, wk);
    }
  }

  // ----- the invariant holds in every run

  ghost predicate Orderly(visited: set<string>, wk: Worker) {
    wk.Searching? && !wk.hand.Free? ==> wk.hand.c in visited
  }

  /** Everything else that is known of a state. */
  ghost predicate Regular(w: World, seeds: seq<string>, p: string, s: State) {
    && WellFounded(w, seeds, s) && Ledger(w, s, p) <= 1
    && (forall t :: 0 <= t < |s.workers| ==> WorkerSane(w, s.workers[t]) && Orderly(s.visited, s.workers[t]))
  }

  lemma OnlyWorker(w: World, s: State, p: string, t: nat, u: nat)
    requires Ledger(w, s, p) <= 1 && WorksOn(s, t, p) && WorksOn(s, u, p)
    ensures t == u
  {
    if t < u {
      SumTwo(WorkerTokens(w, p), s.workers, t, u);
    } else if u < t {
      SumTwo(WorkerTokens(w, p), s.workers, u, t);
    }
  }

  lemma OwnWorkerReady(w: World, seeds: seq<string>, company: set<string>, p: string, dep: string, i: nat, s: State,
                       t: nat)
    requires Asked(w, seeds, company, p, dep, i) && Regular(w, seeds, p, s)
    requires Accounted(w, seeds, company, p, dep, i, s)
    requires WorksOn(s, t, p) && !Seen(w, seeds, p, dep, s.visited)
    ensures Ready(w, seeds, p, dep, i, s.visited, s.workers[t])
  {
    forall c | c in s.visited && c !in w.present && MayClaim(w, seeds, p, dep, c)
      ensures HasPassed(w, dep, i, s.workers[t], c)
    {
      assert PassedBySome(w, p, dep, i, s, c);
      var u :| WorksOn(s, u, p) && HasPassed(w, dep, i, s.workers[u], c);
      OnlyWorker(w, s, p, t, u);
    }
  }

  lemma StepKeepsPath(w: World, visited: set<string>, wk: Worker, order: seq<string>)
    requires !wk.Idle?
    ensures var e := WorkerStep(w, visited, wk, order);
            && (e.next.Idle? || e.next.path == wk.path)
            && e.resolved <= {wk.path}
  {
  }

  lemma NotPastMonotone(w: World, dep: string, i: nat, visited: set<string>, more: set<string>, wk: Worker)
    requires NotPast(w, dep, i, visited, wk) && visited <= more
    ensures NotPast(w, dep, i, more, wk)
  {
  }

  /** The other workers on the file, if any, are where they were. */
  lemma OthersNotPast(w: World, p: string, dep: string, i: nat, s: State, t: nat, e: Effect, u: nat)
    requires forall v :: WorksOn(s, v, p) ==> NotPast(w, dep, i, s.visited, s.workers[v])
    requires t < |s.workers| && u != t && WorksOn(Apply(s, t, e), u, p)
    ensures NotPast(w, dep, i, s.visited + e.claims, Apply(s, t, e).workers[u])
  {
    assert Apply(s, t, e).workers[u] == s.workers[u] && WorksOn(s, u, p);
    NotPastMonotone(w, dep, i, s.visited, s.visited + e.claims, s.workers[u]);
  }

  lemma StillPassed(w: World, p: string, dep: string, i: nat, s: State, t: nat, e: Effect, c: string)
    requires PassedBySome(w, p, dep, i, s, c) && t < |s.workers| && !WorksOn(s, t, p)
    ensures PassedBySome(w, p, dep, i, Apply(s, t, e), c)
  {
    var u :| WorksOn(s, u, p) && HasPassed(w, dep, i, s.workers[u], c);
    assert WorksOn(Apply(s, t, e), u, p) && Apply(s, t, e).workers[u] == s.workers[u];
  }

  lemma TrackByOwn(w: World, seeds: seq<string>, company: set<string>, p: string, dep: string, i: nat, s: State,
                   t: nat, e: Effect)
    requires Asked(w, seeds, company, p, dep, i) && Accounted(w, seeds, company, p, dep, i, s)
    requires WorksOn(s, t, p) && StillReady(w, seeds, company, p, dep, i, s.visited, e)
    requires (e.next.Idle? || e.next.path == p)
    ensures OnTrack(w, seeds, company, p, dep, i, Apply(s, t, e))
  {
    var r := Apply(s, t, e);
    if !Seen(w, seeds, p, dep, r.visited) && p !in e.missing {
      assert WorksOn(r, t, p) && p !in r.resolved;
      forall u | WorksOn(r, u, p) ensures NotPast(w, dep, i, r.visited, r.workers[u]) {
        if u != t {
          OthersNotPast(w, p, dep, i, s, t, e, u);
        }
      }
      forall c | c in r.visited && c !in w.present && MayClaim(w, seeds, p, dep, c)
        ensures PassedBySome(w, p, dep, i, r, c)
      {
        assert HasPassed(w, dep, i, r.workers[t], c);
      }
    }
  }

  lemma TrackByOther(w: World, seeds: seq<string>, company: set<string>, p: string, dep: string, i: nat, s: State,
                     t: nat, e: Effect)
    requires Asked(w, seeds, company, p, dep, i) && Accounted(w, seeds, company, p, dep, i, s)
    requires t < |s.workers| && !WorksOn(s, t, p) && (e.next.Idle? || e.next.path != p) && p !in e.resolved
    requires forall c :: c in e.claims && MayClaim(w, seeds, p, dep, c) ==> c in w.present
    requires (forall task :: task in e.tasks ==> task.path in company) && (e.next.Idle? || e.next.path in company)
    ensures OnTrack(w, seeds, company, p, dep, i, Apply(s, t, e))
  {
    var r := Apply(s, t, e);
    if !Seen(w, seeds, p, dep, r.visited) {
      forall u | WorksOn(r, u, p) ensures NotPast(w, dep, i, r.visited, r.workers[u]) {
        OthersNotPast(w, p, dep, i, s, t, e, u);
      }
      forall c | c in r.visited && c !in w.present && MayClaim(w, seeds, p, dep, c)
        ensures PassedBySome(w, p, dep, i, r, c)
      {
        assert c in s.visited;
        StillPassed(w, p, dep, i, s, t, e, c);
      }
    }
  }

  lemma TrackByWork(w: World, seeds: seq<string>, company: set<string>, p: string, dep: string, i: nat, s: State,
                    t: nat, order: seq<string>)
    requires Asked(w, seeds, company, p, dep, i) && Regular(w, seeds, p, s) && OnTrack(w, seeds, company, p, dep, i, s)
    requires Enabled(w, s, Work(t, order))
    ensures OnTrack(w, seeds, company, p, dep, i, Next(w, s, Work(t, order)))
  {
    var wk := s.workers[t];
    var e := WorkerStep(w, s.visited, wk, order);
    if Accounted(w, seeds, company, p, dep, i, s) && !Seen(w, seeds, p, dep, s.visited) {
      StepKeepsPath(w, s.visited, wk, order);
      if WorksOn(s, t, p) {
        OwnWorkerReady(w, seeds, company, p, dep, i, s, t);
        OwnStep(w, seeds, company, p, dep, i, s.visited, wk, order);
        TrackByOwn(w, seeds, company, p, dep, i, s, t, e);
      } else {
        if wk.Searching? {
          OtherClaims(w, seeds, company, p, dep, s.visited, wk);
          TasksInCompany(w, seeds, company, p, dep, s.visited, wk);
        }
        TrackByOther(w, seeds, company, p, dep, i, s, t, e);
      }
    }
  }

  lemma TrackByTake(w: World, seeds: seq<string>, company: set<string>, p: string, dep: string, i: nat, s: State,
                    t: nat, q: nat)
    requires Asked(w, seeds, company, p, dep, i) && OnTrack(w, seeds, company, p, dep, i, s)
    requires Enabled(w, s, Take(t, q))
    ensures OnTrack(w, seeds, company, p, dep, i, Next(w, s, Take(t, q)))
  {
    hide Searches, MayClaim, HasPassed;
    var r := Next(w, s, Take(t, q));
    if Accounted(w, seeds, company, p, dep, i, s) {
      forall c | c in r.visited && c !in w.present && MayClaim(w, seeds, p, dep, c)
        ensures PassedBySome(w, p, dep, i, r, c)
      {
        assert PassedBySome(w, p, dep, i, s, c);
        var u :| WorksOn(s, u, p) && HasPassed(w, dep, i, s.workers[u], c);
        assert WorksOn(r, u, p) && r.workers[u] == s.workers[u];
      }
    }
  }

  // ----- what else is known of every state

  lemma StaysOrderly(w: World, visited: set<string>, wk: Worker, order: seq<string>)
    requires !wk.Idle? && Orderly(visited, wk)
    ensures var e := WorkerStep(w, visited, wk, order); Orderly(visited + e.claims, e.next)
  {
    if wk.Searching? {
      assert Orderly(visited, NextDep(wk)) && Orderly(visited, Advance(wk));
    }
  }

  /** A file is returned for each outcome it has. */
  ghost predicate OutcomesReturned(s: State) {
    forall p :: Bit(p in s.resolved) + Bit(p in s.missing) <= s.out[p]
  }

  lemma OutcomesByWork(w: World, s: State, t: nat, order: seq<string>)
    requires OutcomesReturned(s) && Enabled(w, s, Work(t, order))
    ensures OutcomesReturned(Next(w, s, Work(t, order)))
  {
    var e := WorkerStep(w, s.visited, s.workers[t], order);
    forall p ensures Bit(p in e.resolved) + Bit(p in e.missing) <= e.done[p] {
    }
  }

  lemma {:induction false} AlwaysOrderly(w: World, seeds: seq<string>, threads: nat, run: seq<Action>, s: State)
    requires Reaches(w, seeds, threads, run, s)
    ensures OutcomesReturned(s)
    ensures forall t :: 0 <= t < |s.workers| ==> Orderly(s.visited, s.workers[t])
    decreases |run|
  {
    hide WorkerStep, Candidate, OwnPaths;
    if run != [] {
      var before := After(w, Initial(seeds, threads), run[..|run| - 1]).value;
      AlwaysOrderly(w, seeds, threads, run[..|run| - 1], before);
      match run[|run| - 1]
      case Take(t, q) =>
      case Work(t, order) =>
        OutcomesByWork(w, before, t, order);
        StaysOrderly(w, before.visited, before.workers[t], order);
    }
  }

  lemma AlwaysRegular(w: World, seeds: seq<string>, threads: nat, run: seq<Action>, s: State, p: string)
    requires Reaches(w, seeds, threads, run, s) && multiset(seeds)[p] <= 1
    ensures Regular(w, seeds, p, s)
  {
    AlwaysOrderly(w, seeds, threads, run, s);
    EverythingExplained(w, seeds, threads, run, s);
    ConservedAlways(w, seeds, threads, run, s);
    NeverTwice(w, seeds, threads, run, s, p);
  }

  lemma {:induction false} AlwaysOnTrack(w: World, seeds: seq<string>, threads: nat, run: seq<Action>, s: State,
                                         company: set<string>, p: string, dep: string, i: nat)
    requires Asked(w, seeds, company, p, dep, i) && Reaches(w, seeds, threads, run, s)
    requires (forall f :: f in seeds ==> f in w.present) && multiset(seeds)[p] <= 1
    ensures OnTrack(w, seeds, company, p, dep, i, s)
    decreases |run|
  {
    if run != [] {
      var front := run[..|run| - 1];
      var before := After(w, Initial(seeds, threads), front).value;
      AlwaysOnTrack(w, seeds, threads, front, before, company, p, dep, i);
      AlwaysRegular(w, seeds, threads, front, before, p);
      match run[|run| - 1]
      case Take(t, q) => TrackByTake(w, seeds, company, p, dep, i, before, t, q);
      case Work(t, order) => TrackByWork(w, seeds, company, p, dep, i, before, t, order);
    }
  }

  // ----- the theorem

  lemma ResolvedDidNotFail(w: World, seeds: seq<string>, threads: nat, run: seq<Action>, s: State, p: string)
    requires Reaches(w, seeds, threads, run, s) && multiset(seeds)[p] <= 1 && p in s.resolved
    ensures p !in s.missing
  {
    AlwaysOrderly(w, seeds, threads, run, s);
    NeverTwice(w, seeds, threads, run, s, p);
    assert Bit(p in s.resolved) + Bit(p in s.missing) <= s.out[p] <= Ledger(w, s, p);
  }

  /**
    Any RPATHs, any number of other files and workers: if nobody else looks where the library
    is missing, and the search does not come to such a place twice, then a file that counts
    as processed has its library returned or installed.
   */
  lemma RpathClosure(w: World, seeds: seq<string>, threads: nat, run: seq<Action>, s: State,
                     company: set<string>, p: string, dep: string, i: nat)
    requires Asked(w, seeds, company, p, dep, i) && Reaches(w, seeds, threads, run, s) && Quiescent(s)
    requires (forall f :: f in seeds ==> f in w.present) && multiset(seeds)[p] <= 1
    requires p in s.resolved
    ensures Supplied(w, seeds, p, dep, s)
  {
    AlwaysOnTrack(w, seeds, threads, run, s, company, p, dep, i);
    ResolvedDidNotFail(w, seeds, threads, run, s, p);
    NothingLostNothingExtra(w, seeds, threads, run, s);
    var c :| c in s.visited && c in w.present && MayClaim(w, seeds, p, dep, c);
    assert c in s.out || c in w.installed;
  }

  // ----- without reference to the files that can be processed first

  /** All files together are closed in the sense of `Company`. */
  function Everyone(w: World, seeds: seq<string>): (r: set<string>) {
    (set f | f in seeds) + w.present
  }

  lemma EveryoneIsCompany(w: World, seeds: seq<string>, p: string, dep: string)
    ensures Company(w, seeds, p, dep, Everyone(w, seeds))
  {
    hide MayClaim;
  }

  lemma ResolvedIsFile(w: World, seeds: seq<string>, threads: nat, run: seq<Action>, s: State, p: string)
    requires Reaches(w, seeds, threads, run, s) && Quiescent(s) && p in s.resolved
    ensures p in Everyone(w, seeds)
  {
    AlwaysOrderly(w, seeds, threads, run, s);
    OutputExact(w, seeds, threads, run, s, p);
    assert Bit(p in s.resolved) + Bit(p in s.missing) <= s.out[p];
  }

  /** No file whatever looks, on any line from the seeds, where the library is missing. */
  lemma RpathClosureAmongAll(w: World, seeds: seq<string>, threads: nat, run: seq<Action>, s: State,
                             p: string, dep: string, i: nat)
    requires p in w.elf && i < |w.elf[p].needed| && w.elf[p].needed[i] == dep
    requires forall j :: 0 <= j < |w.elf[p].needed| && w.elf[p].needed[j] == dep ==> j == i
    requires Private(w, seeds, p, dep, Everyone(w, seeds))
    requires TrapFree(w, seeds, p, dep) && Available(w, seeds, p, dep)
    requires Reaches(w, seeds, threads, run, s) && Quiescent(s)
    requires (forall f :: f in seeds ==> f in w.present) && multiset(seeds)[p] <= 1
    requires p in s.resolved
    ensures Supplied(w, seeds, p, dep, s)
  {
    hide Private, TrapFree, Available, Supplied, Company, Everyone;
    EveryoneIsCompany(w, seeds, p, dep);
    ResolvedIsFile(w, seeds, threads, run, s, p);
    RpathClosure(w, seeds, threads, run, s, Everyone(w, seeds), p, dep, i);
  }
}
