/**
  Where claimed paths come from, for any RPATH and RUNPATH: a worker searches its file's
  own directories besides the inherited ones, and nothing is claimed that is not a seed or
  a candidate for a needed library.
 */
module LddProvenance {
  import opened Counting
  import opened LddModel
  import opened LddConservation
  import opened UnixPath
  import Substitute

  /** What stands for `$ORIGIN`: the directory of the file. */
  lemma OriginOfJoin(dir: string, name: string)
    requires Clean(dir) && ProperName(name)
    ensures Origin(Join(dir, name)) == dir
  {
    hide Parent, Join;
    ParentOfJoin(dir, name);
  }

  /** `dir` is an element of a search path string with `$ORIGIN` replaced in the whole string. */
  ghost predicate NamedByWhole(path: string, elf: ElfFile, dir: string) {
    exists raw :: raw in elf.searchPaths
                  && dir in Substitute.Split(Substitute.Replace(raw, "$ORIGIN", Origin(path)), ':')
  }

  lemma PiecesOfWhole(raw: string, origin: string, dir: string)
    requires ':' !in origin
    ensures dir in Substitute.Split(Substitute.Replace(raw, "$ORIGIN", origin), ':')
            <==> exists n :: n in Substitute.Split(raw, ':') && dir == Substitute.Replace(n, "$ORIGIN", origin)
  {
    Substitute.SplitOfReplace(raw, ':', "$ORIGIN", origin);
    var parts := Substitute.Split(raw, ':');
    var each := Substitute.ReplaceEach(parts, "$ORIGIN", origin);
    if dir in each {
      var i :| 0 <= i < |each| && each[i] == dir;
      assert parts[i] in parts;
    }
    if n :| n in parts && dir == Substitute.Replace(n, "$ORIGIN", origin) {
      var i :| 0 <= i < |parts| && parts[i] == n;
      assert each[i] == dir;
    }
  }

  /** A file whose RPATH is `$ORIGIN` searches its own directory. */
  lemma OriginAlone(path: string)
    ensures Origin(path) in OwnPaths(path, ElfFile(["$ORIGIN"], []))
  {
    var raw := "$ORIGIN";
    Substitute.SplitFree(raw, ':');
    assert raw in Substitute.Split(raw, ':');
    Substitute.ReplaceLeftmost(raw, raw, Origin(path), 0);
    assert raw[7..] == "" && raw[..0] == "";
    assert "" + Origin(path) + Substitute.Replace("", raw, Origin(path)) == Origin(path);
  }

  /**
    Splitting first and replacing `$ORIGIN` in each element, as the source does, names the
    directories that the replaced strings list, for all files with this path, exactly if
    the file's own directory has no ':' in its name.
   */
  lemma OwnPathsMeaning(path: string)
    ensures ':' !in Origin(path)
            <==> forall elf, dir :: dir in OwnPaths(path, elf) <==> NamedByWhole(path, elf, dir)
  {
    if ':' !in Origin(path) {
      forall elf, dir ensures dir in OwnPaths(path, elf) <==> NamedByWhole(path, elf, dir) {
        forall raw | raw in elf.searchPaths
          ensures dir in Substitute.Split(Substitute.Replace(raw, "$ORIGIN", Origin(path)), ':')
                  <==> exists n :: n in Substitute.Split(raw, ':')
                                   && dir == Substitute.Replace(n, "$ORIGIN", Origin(path))
        {
          PiecesOfWhole(raw, Origin(path), dir);
        }
      }
    } else {
      var elf := ElfFile(["$ORIGIN"], []);
      OriginAlone(path);
      Substitute.SplitRejoin(Substitute.Replace("$ORIGIN", "$ORIGIN", Origin(path)), ':');
      assert !NamedByWhole(path, elf, Origin(path));
    }
  }

  // ----- where a search looks

  /** Where a search without search paths looks. */
  ghost predicate InSystem(w: World, dep: string, c: string) {
    if Cached(w, dep) then exists v :: v in CacheValues(w, dep) && c == w.canon(v)
    else exists k: nat :: k < |w.libdirs| && c == DefaultKey(w, k, dep)
  }

  ghost predicate InDirs(w: World, dirs: set<string>, dep: string, c: string) {
    exists dir :: dir in dirs && c == SearchKey(w, dir, dep)
  }

  /** `c` is a place where a search in the directories `dirs` looks for `dep`. */
  ghost predicate CandidateIn(w: World, dirs: set<string>, dep: string, c: string) {
    InDirs(w, dirs, dep, c) || InSystem(w, dep, c)
  }

  // ----- lines of inheritance

  function Own(w: World, p: string): (r: set<string>) {
    if p in w.elf then OwnPaths(p, w.elf[p]) else {}
  }

  /** The directories of all files of a line together. */
  ghost function LinePaths(w: World, line: seq<string>): (r: set<string>) {
    if line == [] then {} else LinePaths(w, line[..|line| - 1]) + Own(w, line[|line| - 1])
  }

  /** The search of `f` in `dirs` may find `c` and enqueue it. */
  ghost predicate Finds(w: World, seeds: seq<string>, dirs: set<string>, f: string, c: string) {
    && f in w.elf && Wantable(w, c) && c !in seeds
    && exists dep :: dep in w.elf[f].needed && CandidateIn(w, dirs, dep, c)
  }

  /** From a seed on, each file may find the next one in the directories of the line so far. */
  ghost predicate Line(w: World, seeds: seq<string>, line: seq<string>): (r: bool)
    ensures r ==> line != []
  {
    && line != []
    && if |line| == 1 then line[0] in seeds
       else
         var front := line[..|line| - 1];
         Line(w, seeds, front) && Finds(w, seeds, LinePaths(w, front), front[|front| - 1], line[|line| - 1])
  }

  /** `dirs` are the directories inherited along a line that ends in `p`. */
  ghost predicate Inherits(w: World, seeds: seq<string>, p: string, dirs: set<string>) {
    exists line :: Line(w, seeds, line) && line[|line| - 1] == p && dirs == LinePaths(w, line[..|line| - 1])
  }

  /** `dirs` are the directories of a line that ends in `p`, its own included. */
  ghost predicate Searches(w: World, seeds: seq<string>, p: string, dirs: set<string>) {
    exists line :: Line(w, seeds, line) && line[|line| - 1] == p && dirs == LinePaths(w, line)
  }

  lemma SeedInherits(w: World, seeds: seq<string>, p: string)
    requires p in seeds
    ensures Inherits(w, seeds, p, {})
  {
    assert Line(w, seeds, [p]) && [p][..0] == [];
  }

  lemma InheritsSearches(w: World, seeds: seq<string>, p: string, dirs: set<string>)
    requires Inherits(w, seeds, p, dirs)
    ensures Searches(w, seeds, p, dirs + Own(w, p))
  {
    hide Line, Own;
    var line :| Line(w, seeds, line) && line[|line| - 1] == p && dirs == LinePaths(w, line[..|line| - 1]);
    assert LinePaths(w, line) == dirs + Own(w, p);
  }

  lemma FoundInherits(w: World, seeds: seq<string>, f: string, dirs: set<string>, c: string)
    requires Searches(w, seeds, f, dirs) && Finds(w, seeds, dirs, f, c)
    ensures Inherits(w, seeds, c, dirs)
  {
    hide LinePaths, Finds;
    var front :| Line(w, seeds, front) && front[|front| - 1] == f && dirs == LinePaths(w, front);
    var line := front + [c];
    assert line[..|line| - 1] == front;
    assert Line(w, seeds, line);
  }

  /** A seed inherits nothing. */
  lemma SeedSearches(w: World, seeds: seq<string>, p: string, dirs: set<string>)
    requires p in seeds
    ensures Searches(w, seeds, p, dirs) <==> dirs == Own(w, p)
  {
    hide Own, Finds;
    if dirs == Own(w, p) {
      SeedInherits(w, seeds, p);
      InheritsSearches(w, seeds, p, {});
      assert {} + Own(w, p) == Own(w, p);
    }
    if Searches(w, seeds, p, dirs) {
      var line :| Line(w, seeds, line) && line[|line| - 1] == p && dirs == LinePaths(w, line);
      SeedBeginsLine(w, seeds, line);
      assert LinePaths(w, line[..0]) == {} && {} + Own(w, p) == Own(w, p);
    }
  }

  lemma SeedBeginsLine(w: World, seeds: seq<string>, line: seq<string>)
    requires Line(w, seeds, line) && line[|line| - 1] in seeds
    ensures |line| == 1
  {
  }

  // ----- the invariant

  /** `p` is a seed, or a place where a file at the end of a line looks for a needed name. */
  ghost predicate Explained(w: World, seeds: seq<string>, p: string) {
    p in seeds || exists f, dirs, dep :: SearchesFor(w, seeds, f, dirs, dep) && CandidateIn(w, dirs, dep, p)
  }

  ghost predicate SearchesFor(w: World, seeds: seq<string>, f: string, dirs: set<string>, dep: string) {
    Searches(w, seeds, f, dirs) && f in w.elf && dep in w.elf[f].needed
  }

  ghost predicate CursorFits(w: World, wk: Worker)
    requires wk.Searching?
  {
    wk.d < |wk.deps| ==>
      && (wk.at.InCache? ==> Cached(w, wk.deps[wk.d]))
      && (wk.at.InDefault? ==> !Cached(w, wk.deps[wk.d]))
  }

  /** A worker has its file's needed names and searches exactly the directories of a line. */
  ghost predicate Equipped(w: World, seeds: seq<string>, wk: Worker) {
    match wk
    case Idle => true
    case Opening(path, lpaths) => Inherits(w, seeds, path, lpaths)
    case Searching(path, lpaths, order, deps, _, _, hand) =>
      && path in w.elf && deps == w.elf[path].needed
      && Searches(w, seeds, path, lpaths) && Enumerates(order, lpaths)
      && CursorFits(w, wk) && (!hand.Free? ==> hand.c !in seeds)
  }

  ghost predicate WellFounded(w: World, seeds: seq<string>, s: State) {
    && (forall p :: p in seeds ==> p in s.visited)
    && (forall i :: 0 <= i < |s.workers| ==> Equipped(w, seeds, s.workers[i]))
    && (forall i :: 0 <= i < |s.queue| ==> Inherits(w, seeds, s.queue[i].path, s.queue[i].lpaths))
    && (forall p :: p in s.visited ==> Explained(w, seeds, p))
  }

  lemma OpenEquips(w: World, seeds: seq<string>, wk: Worker, order: seq<string>)
    requires wk.Opening? && Equipped(w, seeds, wk)
    requires wk.path in w.elf ==> Enumerates(order, wk.lpaths + OwnPaths(wk.path, w.elf[wk.path]))
    ensures Equipped(w, seeds, StartSearch(w, wk, order).next)
  {
    hide Inherits, Searches, OwnPaths;
    InheritsSearches(w, seeds, wk.path, wk.lpaths);
  }

  /** A candidate is one of the places where the worker's file looks for the current name. */
  lemma CandidatePlace(w: World, seeds: seq<string>, wk: Worker)
    requires wk.Searching? && Equipped(w, seeds, wk) && wk.d < |wk.deps| && Candidate(w, wk).Some?
    ensures CandidateIn(w, wk.lpaths, wk.deps[wk.d], Candidate(w, wk).value)
    ensures SearchesFor(w, seeds, wk.path, wk.lpaths, wk.deps[wk.d])
  {
    hide Searches;
    var dep := wk.deps[wk.d];
    match wk.at
    case InLpaths(k) => assert wk.order[k] in wk.order;
    case InCache(k) => assert CacheValues(w, dep)[k] in CacheValues(w, dep);
    case InDefault(k) =>
  }

  /** Moving the cursor changes nothing else. */
  ghost predicate SameGear(a: Worker, b: Worker) {
    && a.Searching?
    && (b.Idle? || (b.Searching? && b.path == a.path && b.lpaths == a.lpaths && b.order == a.order && b.deps == a.deps))
  }

  lemma SearchKeepsGear(w: World, seeds: seq<string>, visited: set<string>, wk: Worker)
    requires wk.Searching? && CursorFits(w, wk) && (!wk.hand.Free? ==> wk.hand.c !in seeds)
    requires forall p :: p in seeds ==> p in visited
    ensures var next := SearchStep(w, visited, wk).next;
            && SameGear(wk, next)
            && (next.Searching? ==> CursorFits(w, next) && (!next.hand.Free? ==> next.hand.c !in seeds))
  {
    assert CursorFits(w, NextDep(wk)) && CursorFits(w, Advance(wk));
  }

  lemma TaskInherits(w: World, seeds: seq<string>, visited: set<string>, wk: Worker)
    requires wk.Searching? && Equipped(w, seeds, wk) && WorkerSane(w, wk)
    ensures forall task :: task in SearchStep(w, visited, wk).tasks ==> Inherits(w, seeds, task.path, task.lpaths)
  {
    hide Inherits, Searches;
    if wk.hand.Wanted? {
      CandidatePlace(w, seeds, wk);
      assert Finds(w, seeds, wk.lpaths, wk.path, wk.hand.c);
      FoundInherits(w, seeds, wk.path, wk.lpaths, wk.hand.c);
    }
  }

  lemma ClaimExplained(w: World, seeds: seq<string>, visited: set<string>, wk: Worker)
    requires wk.Searching? && Equipped(w, seeds, wk)
    ensures forall p :: p in SearchStep(w, visited, wk).claims ==> Explained(w, seeds, p)
  {
    hide SearchesFor, CandidateIn, Searches;
    if wk.hand.Free? && wk.d < |wk.deps| && Candidate(w, wk).Some? {
      CandidatePlace(w, seeds, wk);
    }
  }

  lemma StepEquipped(w: World, seeds: seq<string>, visited: set<string>, wk: Worker, order: seq<string>)
    requires !wk.Idle? && Equipped(w, seeds, wk) && WorkerSane(w, wk)
    requires forall p :: p in seeds ==> p in visited
    requires wk.Opening? && wk.path in w.elf ==>
               Enumerates(order, wk.lpaths + OwnPaths(wk.path, w.elf[wk.path]))
    ensures var e := WorkerStep(w, visited, wk, order);
            && Equipped(w, seeds, e.next)
            && (forall task :: task in e.tasks ==> Inherits(w, seeds, task.path, task.lpaths))
            && (forall p :: p in e.claims ==> Explained(w, seeds, p))
  {
    hide Inherits, Searches, Explained, SearchStep, OwnPaths;
    if wk.Opening? {
      OpenEquips(w, seeds, wk, order);
    } else {
      SearchKeepsGear(w, seeds, visited, wk);
      TaskInherits(w, seeds, visited, wk);
      ClaimExplained(w, seeds, visited, wk);
    }
  }

  lemma WellFoundedByWork(w: World, seeds: seq<string>, s: State, t: nat, order: seq<string>)
    requires WellFounded(w, seeds, s) && Enabled(w, s, Work(t, order)) && WorkerSane(w, s.workers[t])
    ensures WellFounded(w, seeds, Next(w, s, Work(t, order)))
  {
    hide Inherits, Equipped, Explained, WorkerStep, OwnPaths;
    StepEquipped(w, seeds, s.visited, s.workers[t], order);
  }

  lemma WellFoundedInitially(w: World, seeds: seq<string>, threads: nat)
    ensures WellFounded(w, seeds, Initial(seeds, threads))
  {
    hide Inherits;
    forall p | p in seeds ensures Inherits(w, seeds, p, {}) {
      SeedInherits(w, seeds, p);
    }
  }

  /** Holds in every run. */
  lemma {:induction false} EverythingExplained(w: World, seeds: seq<string>, threads: nat, run: seq<Action>, s: State)
    requires Reaches(w, seeds, threads, run, s)
    ensures WellFounded(w, seeds, s)
    decreases |run|
  {
    hide Inherits, Searches, Explained, WorkerStep, OwnPaths;
    if run == [] {
      WellFoundedInitially(w, seeds, threads);
    } else {
      var front := run[..|run| - 1];
      var before := After(w, Initial(seeds, threads), front).value;
      EverythingExplained(w, seeds, threads, front, before);
      ConservedAlways(w, seeds, threads, front, before);
      match run[|run| - 1]
      case Take(t, q) =>
      case Work(t, order) => WellFoundedByWork(w, seeds, before, t, order);
    }
  }
}
