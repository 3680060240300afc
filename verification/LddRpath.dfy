/**
  The dependency search with RPATH and RUNPATH. A search looks at the file's own and
  inherited directories first, in any order, and a path that somebody visited before ends
  it, whether it exists or not. A library is found for certain if nobody else claims the
  places where it is missing and the search does not come to one of them twice.
 */
module LddRpath {
  import opened Counting
  import opened LddModel
  import opened LddClosure
  import opened LddProvenance

  // ----- where a file looks for a name

  /** `c` is a path that the search of `p` for `dep` may claim, along some line. */
  ghost predicate MayClaim(w: World, seeds: seq<string>, p: string, dep: string, c: string) {
    exists dirs :: Searches(w, seeds, p, dirs) && CandidateIn(w, dirs, dep, c)
  }

  ghost predicate AvailableIn(w: World, dirs: set<string>, dep: string) {
    exists c :: c in w.present && CandidateIn(w, dirs, dep, c)
  }

  /** Whatever the file inherits, the library is in one of the places where it looks. */
  ghost predicate Available(w: World, seeds: seq<string>, p: string, dep: string) {
    forall dirs :: Searches(w, seeds, p, dirs) ==> AvailableIn(w, dirs, dep)
  }

  ghost predicate Seen(w: World, seeds: seq<string>, p: string, dep: string, visited: set<string>) {
    exists c :: c in visited && c in w.present && MayClaim(w, seeds, p, dep, c)
  }

  /** A library that the file's search may find is returned or was installed before. */
  ghost predicate Supplied(w: World, seeds: seq<string>, p: string, dep: string, s: State) {
    exists c :: c in w.present && MayClaim(w, seeds, p, dep, c) && (c in s.out || c in w.installed)
  }

  // ----- the conditions

  /**
    The files that can be processed before the library is found: the seeds and, with a file,
    whatever else it may find.
   */
  ghost predicate Company(w: World, seeds: seq<string>, p: string, dep: string, company: set<string>) {
    && (forall f :: f in seeds ==> f in company)
    && (forall f, e, c :: f in company && f in w.elf && e in w.elf[f].needed && MayClaim(w, seeds, f, e, c) ==>
          !Wantable(w, c) || c in company || MayClaim(w, seeds, p, dep, c))
  }

  /** Nobody else of them looks at the places where the library is missing. */
  ghost predicate Private(w: World, seeds: seq<string>, p: string, dep: string, company: set<string>) {
    forall f, e, c :: f in company && f in w.elf && e in w.elf[f].needed && (f != p || e != dep) ==>
      (MayClaim(w, seeds, f, e, c) && MayClaim(w, seeds, p, dep, c) ==> c in w.present)
  }

  /** No two directories lead to the same missing path. */
  ghost predicate DistinctMisses(w: World, dirs: set<string>, dep: string) {
    forall d, e :: d in dirs && e in dirs && d != e ==>
      SearchKey(w, d, dep) != SearchKey(w, e, dep) || SearchKey(w, d, dep) in w.present
  }

  /** The missing default candidate `k` was not looked at before, in a search path or a default directory. */
  ghost predicate NewMiss(w: World, dirs: set<string>, dep: string, k: nat)
    requires k < |w.libdirs|
  {
    && (forall j: nat :: j < k ==> DefaultKey(w, j, dep) != DefaultKey(w, k, dep))
    && !InDirs(w, dirs, dep, DefaultKey(w, k, dep))
  }

  ghost predicate NewMisses(w: World, dirs: set<string>, dep: string) {
    forall k: nat :: k < |w.libdirs| && NoneBefore(w, dep, k) && DefaultKey(w, k, dep) !in w.present
      ==> NewMiss(w, dirs, dep, k)
  }

  /** A search in `dirs` does not come to a missing path twice before it comes to an existing one. */
  ghost predicate TrapFreeIn(w: World, dirs: set<string>, dep: string) {
    && DistinctMisses(w, dirs, dep)
    && (!Cached(w, dep) && (forall c :: InDirs(w, dirs, dep, c) ==> c !in w.present) ==> NewMisses(w, dirs, dep))
  }

  ghost predicate TrapFree(w: World, seeds: seq<string>, p: string, dep: string) {
    forall dirs :: Searches(w, seeds, p, dirs) ==> TrapFreeIn(w, dirs, dep)
  }

  // ----- the candidates at which a visited path ends the search

  function Looked(w: World, order: seq<string>, dep: string): (r: seq<string>)
    ensures |r| == |order| + if Cached(w, dep) then 0 else |w.libdirs|
    ensures forall i :: 0 <= i < |order| ==> r[i] == SearchKey(w, order[i], dep)
    ensures forall i :: |order| <= i < |r| ==> r[i] == DefaultKey(w, i - |order|, dep)
  {
    seq(|order|, i requires 0 <= i < |order| => SearchKey(w, order[i], dep))
    + if Cached(w, dep) then []
      else seq(|w.libdirs|, k requires 0 <= k < |w.libdirs| => DefaultKey(w, k, dep))
  }

  /** What is known when a search has come to candidate `n` in vain. */
  ghost predicate InVain(w: World, dirs: set<string>, dep: string, order: seq<string>, n: nat) {
    && Enumerates(order, dirs) && n < |Looked(w, order, dep)|
    && (forall i :: 0 <= i <= n ==> Looked(w, order, dep)[i] !in w.present)
  }

  lemma DirsInVain(w: World, dirs: set<string>, dep: string, order: seq<string>, n: nat, c: string)
    requires InVain(w, dirs, dep, order, n) && |order| <= n && InDirs(w, dirs, dep, c)
    ensures c !in w.present
  {
    var dir :| dir in dirs && c == SearchKey(w, dir, dep);
    var i :| 0 <= i < |order| && order[i] == dir;
    assert Looked(w, order, dep)[i] == c;
  }

  lemma DefaultsInVain(w: World, dirs: set<string>, dep: string, order: seq<string>, n: nat)
    requires InVain(w, dirs, dep, order, n) && |order| <= n
    ensures !Cached(w, dep) && n - |order| < |w.libdirs| && NoneBefore(w, dep, n - |order|)
    ensures Looked(w, order, dep)[n] == DefaultKey(w, n - |order|, dep)
    ensures DefaultKey(w, n - |order|, dep) !in w.present
  {
    forall i: nat | i < n - |order| ensures DefaultKey(w, i, dep) !in w.present {
      assert Looked(w, order, dep)[|order| + i] == DefaultKey(w, i, dep);
    }
  }

  lemma NewMissDiffers(w: World, dirs: set<string>, dep: string, order: seq<string>, k: nat, j: nat)
    requires k < |w.libdirs| && NewMiss(w, dirs, dep, k) && !Cached(w, dep)
    requires Enumerates(order, dirs) && j < |order| + k
    ensures Looked(w, order, dep)[j] != DefaultKey(w, k, dep)
  {
    if j < |order| {
      assert order[j] in order;
    }
  }

  lemma NewPathDiffers(w: World, dirs: set<string>, dep: string, order: seq<string>, n: nat, j: nat)
    requires DistinctMisses(w, dirs, dep) && InVain(w, dirs, dep, order, n)
    requires j < n < |order|
    ensures Looked(w, order, dep)[j] != Looked(w, order, dep)[n]
  {
    EnumeratesDistinct(order, dirs, j, n);
    var d, e := order[j], order[n];
    assert d in order && e in order;
    assert Looked(w, order, dep)[j] == SearchKey(w, d, dep) && Looked(w, order, dep)[n] == SearchKey(w, e, dep);
  }

  /** Having found nothing, the search does not come to a path that it has looked at. */
  lemma NoTrap(w: World, dirs: set<string>, dep: string, order: seq<string>, n: nat, j: nat)
    requires TrapFreeIn(w, dirs, dep) && InVain(w, dirs, dep, order, n) && j < n
    ensures Looked(w, order, dep)[j] != Looked(w, order, dep)[n]
  {
    hide Looked, InDirs, DistinctMisses, NewMiss, SearchKey, DefaultKey, Enumerates;
    if n < |order| {
      NewPathDiffers(w, dirs, dep, order, n, j);
    } else {
      var k := n - |order|;
      forall c | InDirs(w, dirs, dep, c) ensures c !in w.present {
        DirsInVain(w, dirs, dep, order, n, c);
      }
      DefaultsInVain(w, dirs, dep, order, n);
      assert NewMiss(w, dirs, dep, k);
      NewMissDiffers(w, dirs, dep, order, k, j);
    }
  }

  lemma CandidateMayBeClaimed(w: World, seeds: seq<string>, wk: Worker)
    requires wk.Searching? && Equipped(w, seeds, wk) && wk.d < |wk.deps| && Candidate(w, wk).Some?
    ensures MayClaim(w, seeds, wk.path, wk.deps[wk.d], Candidate(w, wk).value)
    ensures wk.path in w.elf && wk.deps[wk.d] in w.elf[wk.path].needed
  {
    hide Searches, CandidateIn;
    CandidatePlace(w, seeds, wk);
  }
}
