/**
  Under which names libraries are claimed and returned: in the canonical form of the
  directory in which they were found, so no library comes back under two spellings of one
  directory.
 */
module LddKeys {
  import opened Counting
  import opened UnixPath
  import opened CanonCache
  import opened LddModel
  import opened LddConservation
  import opened LddProvenance

  /** The world canonicalises as `canonicalize_dir(&joined).unwrap_or(joined)` does. */
  ghost predicate CanonBy(w: World, realpath: string -> Option<string>) {
    forall p :: w.canon(p) == Key(realpath, p)
  }

  ghost predicate ProperNames(w: World) {
    forall f, dep :: f in w.elf && dep in w.elf[f].needed ==> ProperName(dep)
  }

  /** A candidate is claimed below the canonical form of its directory. */
  lemma SearchKeyIs(w: World, realpath: string -> Option<string>, dir: string, dep: string)
    requires CanonBy(w, realpath) && ProperName(dep)
    ensures SearchKey(w, dir, dep) == Join(CanonDir(realpath, dir), dep)
  {
    hide Key, CanonDir, Join;
    KeyShape(realpath, dir, dep);
  }

  /** Two candidates are one if and only if name and canonical directory agree. */
  lemma SameCandidate(w: World, realpath: string -> Option<string>, d1: string, n1: string, d2: string, n2: string)
    requires CanonBy(w, realpath) && ProperName(n1) && ProperName(n2)
    ensures SearchKey(w, d1, n1) == SearchKey(w, d2, n2)
            <==> n1 == n2 && Prefix(CanonDir(realpath, d1)) == Prefix(CanonDir(realpath, d2))
  {
    hide Key, CanonDir, Join, Prefix, SearchKey;
    SearchKeyIs(w, realpath, d1, n1);
    SearchKeyIs(w, realpath, d2, n2);
    KeyShape(realpath, d1, n1);
    KeyShape(realpath, d2, n2);
    SameKey(realpath, d1, n1, d2, n2);
  }

  /** A place in the canonical form of a searched directory, or a cache value with its directory canonicalised. */
  ghost predicate CanonicalPlace(w: World, realpath: string -> Option<string>, dirs: set<string>, dep: string,
                                 p: string) {
    || (exists dir :: (dir in dirs || (!Cached(w, dep) && dir in w.libdirs)) && p == Join(CanonDir(realpath, dir), dep))
    || (exists v :: v in CacheValues(w, dep) && p == Key(realpath, v))
  }

  lemma CandidateIsCanonical(w: World, realpath: string -> Option<string>, dirs: set<string>, dep: string, p: string)
    requires CanonBy(w, realpath) && ProperName(dep) && CandidateIn(w, dirs, dep, p)
    ensures CanonicalPlace(w, realpath, dirs, dep, p)
  {
    hide Key, CanonDir, Join;
    if InDirs(w, dirs, dep, p) {
      var dir :| dir in dirs && p == SearchKey(w, dir, dep);
      SearchKeyIs(w, realpath, dir, dep);
    } else if !Cached(w, dep) {
      var k: nat :| k < |w.libdirs| && p == DefaultKey(w, k, dep);
      assert w.libdirs[k] in w.libdirs;
      SearchKeyIs(w, realpath, w.libdirs[k], dep);
    }
  }

  /**
    In every run a visited path is a seed, or such a place for a needed name of a file, in
    the directories of a line that leads to the file.
   */
  lemma ClaimsAreCanonical(w: World, realpath: string -> Option<string>, seeds: seq<string>, threads: nat,
                           run: seq<Action>, s: State, p: string)
    requires CanonBy(w, realpath) && ProperNames(w) && Reaches(w, seeds, threads, run, s)
    requires p in s.visited && p !in seeds
    ensures exists f, dirs, dep ::
              SearchesFor(w, seeds, f, dirs, dep) && CanonicalPlace(w, realpath, dirs, dep, p)
  {
    hide CandidateIn, CanonicalPlace, Searches;
    EverythingExplained(w, seeds, threads, run, s);
    assert Explained(w, seeds, p);
    var f, dirs, dep :| SearchesFor(w, seeds, f, dirs, dep) && CandidateIn(w, dirs, dep, p);
    CandidateIsCanonical(w, realpath, dirs, dep, p);
  }

  /** Every visited path is its own key, if the seeds are. */
  lemma VisitedSettled(w: World, realpath: string -> Option<string>, seeds: seq<string>, threads: nat,
                       run: seq<Action>, s: State, p: string)
    requires CanonBy(w, realpath) && RealpathLaws(realpath) && Reaches(w, seeds, threads, run, s)
    requires forall f :: f in seeds ==> Key(realpath, f) == f
    requires p in s.visited
    ensures Key(realpath, p) == p
  {
    hide Key, Searches, Join, RealpathLaws;
    EverythingExplained(w, seeds, threads, run, s);
    assert Explained(w, seeds, p);
    if p !in seeds {
      var f, dirs, dep :| SearchesFor(w, seeds, f, dirs, dep) && CandidateIn(w, dirs, dep, p);
      var q := CandidateOrigin(w, dirs, dep, p);
      KeyIdempotent(realpath, q);
    }
  }

  /** A candidate is the canonical form of some path. */
  lemma CandidateOrigin(w: World, dirs: set<string>, dep: string, p: string) returns (q: string)
    requires CandidateIn(w, dirs, dep, p)
    ensures p == w.canon(q)
  {
    if InDirs(w, dirs, dep, p) {
      var dir :| dir in dirs && p == SearchKey(w, dir, dep);
      q := Join(dir, dep);
    } else if Cached(w, dep) {
      var v :| v in CacheValues(w, dep) && p == w.canon(v);
      q := v;
    } else {
      var k: nat :| k < |w.libdirs| && p == DefaultKey(w, k, dep);
      q := Join(w.libdirs[k], dep);
    }
  }

  /** No file is returned under two spellings of its directory. */
  lemma NoTwoSpellings(w: World, realpath: string -> Option<string>, seeds: seq<string>, threads: nat,
                       run: seq<Action>, s: State, p: string, q: string)
    requires CanonBy(w, realpath) && RealpathLaws(realpath) && Reaches(w, seeds, threads, run, s) && Quiescent(s)
    requires forall f :: f in seeds ==> Key(realpath, f) == f
    requires p in s.out && q in s.out && SameFile(realpath, p, q)
    ensures p == q
  {
    hide Key, SameFile, RealpathLaws;
    ReturnedIsVisited(w, seeds, threads, run, s, p);
    ReturnedIsVisited(w, seeds, threads, run, s, q);
    VisitedSettled(w, realpath, seeds, threads, run, s, p);
    VisitedSettled(w, realpath, seeds, threads, run, s, q);
    SameFileSameKey(realpath, p, q);
  }

  lemma ReturnedIsVisited(w: World, seeds: seq<string>, threads: nat, run: seq<Action>, s: State, p: string)
    requires Reaches(w, seeds, threads, run, s) && Quiescent(s) && p in s.out
    ensures p in s.visited
  {
    ConservedAlways(w, seeds, threads, run, s);
    OutputExact(w, seeds, threads, run, s, p);
  }
}
