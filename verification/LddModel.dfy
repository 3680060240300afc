/**
  The parallel dependency closure of `ldd` and `Ldd::recurse` as a transition system.

  The source filesystem, the destination and the ld.so cache are fixed during a run;
  installation only starts afterwards. Any number of workers take tasks from one queue,
  race on one `visited` set and put newly claimed libraries back on the queue. Each
  `visited.write().unwrap().insert(..)`, each existence test and each `enqueue` is a step
  of its own, so a run is an arbitrary interleaving of such steps.
 */
module LddModel {
  import opened Counting
  import opened UnixPath
  import Substitute

  /** What `recurse` learns from one readable ELF file. */
  datatype ElfFile = ElfFile(
    searchPaths: seq<string>,   // the RPATH and RUNPATH strings
    needed: seq<string>)        // the NEEDED names, in order

  datatype World = World(
    present: set<string>,                      // `joined.exists()`
    installed: set<string>,                    // `dest.exists()` below the destination root
    elf: map<string, ElfFile>,                 // the files that can be opened and parsed
    cache: Option<map<string, seq<string>>>,   // ld.so.cache
    libdirs: seq<string>,                      // the default library directories
    canon: string -> string)                   // `canonicalize_dir(&joined).unwrap_or(joined)`

  datatype Task = Task(path: string, lpaths: set<string>)

  /** Where a worker is in the candidate search for one dependency. */
  datatype Cursor = InLpaths(k: nat) | InCache(k: nat) | InDefault(k: nat)

  /** What a worker holds between `insert`, the existence test and `enqueue`. */
  datatype Hand = Free | Claimed(c: string) | Wanted(c: string)

  datatype Worker =
    | Idle
    | Opening(path: string, lpaths: set<string>)
    | Searching(path: string, lpaths: set<string>, order: seq<string>, deps: seq<string>,
                d: nat, at: Cursor, hand: Hand)

  datatype State = State(
    visited: set<string>,
    queue: seq<Task>,
    workers: seq<Worker>,
    out: multiset<string>,        // the paths `ldd` collects
    skipped: multiset<string>,    // tasks whose path was in the destination already
    resolved: set<string>,        // files for which `recurse` returned Ok
    missing: set<string>)         // files for which a dependency was not found

  /** A scheduling decision. `order` is the iteration order of a worker's `lpaths` set. */
  datatype Action =
    | Take(t: nat, q: nat)
    | Work(t: nat, order: seq<string>)

  /** Everything one worker step changes. */
  datatype Effect = Effect(
    next: Worker,
    claims: set<string>,
    tasks: seq<Task>,
    done: multiset<string>,
    resolved: set<string>,
    missing: set<string>)

  // ----- candidate paths

  /** The key under which a candidate is claimed. */
  function SearchKey(w: World, dir: string, dep: string): (r: string) {
    w.canon(Join(dir, dep))
  }

  function DefaultKey(w: World, k: nat, dep: string): (r: string)
    requires k < |w.libdirs|
  {
    SearchKey(w, w.libdirs[k], dep)
  }

  predicate Cached(w: World, dep: string) {
    w.cache.Some? && dep in w.cache.value
  }

  function CacheValues(w: World, dep: string): (r: seq<string>) {
    if Cached(w, dep) then w.cache.value[dep] else []
  }

  /** Exists in the source and is not in the destination yet. */
  predicate Wantable(w: World, p: string) {
    p in w.present && p !in w.installed
  }

  /** The directory of a file. */
  function Origin(path: string): (dir: string) {
    match Parent(path) case Some(dir) => dir case None => ""
  }

  /** The directories that one file's RPATH and RUNPATH strings name. */
  function OwnPaths(path: string, elf: ElfFile): (r: set<string>) {
    set raw, n | raw in elf.searchPaths && n in Substitute.Split(raw, ':')
      :: Substitute.Replace(n, "$ORIGIN", Origin(path))
  }

  // ----- one worker

  function Candidate(w: World, wk: Worker): (r: Option<string>)
    requires wk.Searching? && wk.d < |wk.deps|
  {
    var dep := wk.deps[wk.d];
    match wk.at
    case InLpaths(k) => if k < |wk.order| then Some(SearchKey(w, wk.order[k], dep)) else None
    case InCache(k) => if k < |CacheValues(w, dep)| then Some(w.canon(CacheValues(w, dep)[k])) else None
    case InDefault(k) => if k < |w.libdirs| then Some(DefaultKey(w, k, dep)) else None
  }

  /** `continue 'outer`. */
  function NextDep(wk: Worker): (r: Worker)
    requires wk.Searching?
  {
    wk.(d := wk.d + 1, at := InLpaths(0), hand := Free)
  }

  /** On to the next candidate of the same loop. */
  function Advance(wk: Worker): (r: Worker)
    requires wk.Searching?
  {
    wk.(hand := Free,
        at := match wk.at
              case InLpaths(k) => InLpaths(k + 1)
              case InCache(k) => InCache(k + 1)
              case InDefault(k) => InDefault(k + 1))
  }

  function Only(next: Worker): (e: Effect) {
    Effect(next, {}, [], multiset{}, {}, {})
  }

  function StartSearch(w: World, wk: Worker, order: seq<string>): (e: Effect)
    requires wk.Opening?
  {
    if wk.path in w.elf then
      var elf := w.elf[wk.path];
      Only(Searching(wk.path, wk.lpaths + OwnPaths(wk.path, elf), order, elf.needed, 0, InLpaths(0), Free))
    else
      Effect(Idle, {}, [], multiset{wk.path}, {}, {})
  }

  /** The loops ran out of candidates for the current dependency. */
  function Exhausted(w: World, wk: Worker): (e: Effect)
    requires wk.Searching? && wk.d < |wk.deps|
  {
    match wk.at
    case InLpaths(_) => Only(wk.(at := if Cached(w, wk.deps[wk.d]) then InCache(0) else InDefault(0)))
    case InCache(_) => Only(NextDep(wk))
    case InDefault(_) => Effect(Idle, {}, [], multiset{wk.path}, {}, {wk.path})
  }

  /** The atomic test-and-insert on `visited`. */
  function Claim(visited: set<string>, wk: Worker, c: string): (e: Effect)
    requires wk.Searching?
  {
    if c !in visited then Effect(wk.(hand := Claimed(c)), {c}, [], multiset{}, {}, {})
    else if wk.at.InCache? then Only(Advance(wk))
    else Only(NextDep(wk))
  }

  function SearchStep(w: World, visited: set<string>, wk: Worker): (e: Effect)
    requires wk.Searching?
  {
    match wk.hand
    case Claimed(c) => Only(if Wantable(w, c) then wk.(hand := Wanted(c)) else Advance(wk))
    case Wanted(c) =>
      Effect(if wk.at.InCache? then Advance(wk) else NextDep(wk), {}, [Task(c, wk.lpaths)], multiset{}, {}, {})
    case Free =>
      if wk.d >= |wk.deps| then Effect(Idle, {}, [], multiset{wk.path}, {wk.path}, {})
      else
        match Candidate(w, wk)
        case None => Exhausted(w, wk)
        case Some(c) => Claim(visited, wk, c)
  }

  function WorkerStep(w: World, visited: set<string>, wk: Worker, order: seq<string>): (e: Effect)
    requires !wk.Idle?
  {
    if wk.Opening? then StartSearch(w, wk, order) else SearchStep(w, visited, wk)
  }

  // ----- the whole system

  function Initial(seeds: seq<string>, threads: nat): (s: State) {
    State(set p | p in seeds,
          seq(|seeds|, i requires 0 <= i < |seeds| => Task(seeds[i], {})),
          seq(threads, i => Idle), multiset{}, multiset{}, {}, {})
  }

  predicate Enabled(w: World, s: State, a: Action) {
    && a.t < |s.workers|
    && match a
       case Take(t, q) => s.workers[t].Idle? && q < |s.queue|
       case Work(t, order) =>
         && !s.workers[t].Idle?
         && (s.workers[t].Opening? && s.workers[t].path in w.elf ==>
               Enumerates(order, s.workers[t].lpaths + OwnPaths(s.workers[t].path, w.elf[s.workers[t].path])))
  }

  /** A worker fetches a task; a path that is in the destination already is dropped. */
  function TakeTask(w: World, s: State, t: nat, q: nat): (r: State)
    requires t < |s.workers| && q < |s.queue|
  {
    var task := s.queue[q];
    if task.path in w.installed then
      s.(queue := RemoveAt(s.queue, q), skipped := s.skipped + multiset{task.path})
    else
      s.(queue := RemoveAt(s.queue, q), workers := s.workers[t := Opening(task.path, task.lpaths)])
  }

  function Apply(s: State, t: nat, e: Effect): (r: State)
    requires t < |s.workers|
  {
    s.(visited := s.visited + e.claims,
       queue := s.queue + e.tasks,
       workers := s.workers[t := e.next],
       out := s.out + e.done,
       resolved := s.resolved + e.resolved,
       missing := s.missing + e.missing)
  }

  function Next(w: World, s: State, a: Action): (r: State)
    requires Enabled(w, s, a)
  {
    match a
    case Take(t, q) => TakeTask(w, s, t, q)
    case Work(t, order) => Apply(s, t, WorkerStep(w, s.visited, s.workers[t], order))
  }

  /** The state after an interleaving, if every one of its steps was enabled in turn. */
  ghost function After(w: World, s: State, run: seq<Action>): (r: Option<State>) {
    if run == [] then Some(s)
    else
      match After(w, s, run[..|run| - 1])
      case None => None
      case Some(before) =>
        var a := run[|run| - 1];
        if Enabled(w, before, a) then Some(Next(w, before, a)) else None
  }

  ghost predicate Reaches(w: World, seeds: seq<string>, threads: nat, run: seq<Action>, s: State) {
    After(w, Initial(seeds, threads), run) == Some(s)
  }

  /** Nothing queued and nobody working: `ldd` returns `out`. */
  predicate Quiescent(s: State) {
    s.queue == [] && forall i :: 0 <= i < |s.workers| ==> s.workers[i].Idle?
  }
}
