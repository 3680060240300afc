/**
  `Ldd::canonicalize` and `canonicalize_dir`: directory canonicalisation behind a memo
  cache that several workers share. The filesystem is fixed, so `path.canonicalize()` is a
  function `realpath` of the path text.
 */
module CanonCache {
  import opened Counting
  import opened UnixPath

  /** `canonicalize_dir`, with the directory looked up by `realpath`. */
  function CanonicalizeDir(realpath: string -> Option<string>, path: string): (r: Option<string>) {
    match (FileName(path), Parent(path))
    case (Some(name), Some(dir)) =>
      (match realpath(dir)
       case Some(c) => Some(Join(c, name))
       case None => None)
    case _ => None
  }

  /** `canonicalize_dir(&joined).unwrap_or(joined)`. */
  function Key(realpath: string -> Option<string>, joined: string): (r: string) {
    match CanonicalizeDir(realpath, joined)
    case Some(c) => c
    case None => joined
  }

  ghost predicate Coherent(realpath: string -> Option<string>, cache: map<string, string>) {
    forall p :: p in cache ==> realpath(p) == Some(cache[p])
  }

  // ----- one caller

  class Cache {
    const realpath: string -> Option<string>
    var entries: map<string, string>

    constructor (realpath: string -> Option<string>)
      ensures this.realpath == realpath && entries == map[]
    {
      this.realpath := realpath;
      entries := map[];
    }

    ghost predicate Valid()
      reads this
    {
      Coherent(realpath, entries)
    }

    method Canonicalize(path: string) returns (r: Option<string>)
      requires Valid()
      modifies this
      ensures Valid()
      ensures r == realpath(path)
      ensures entries == if r.Some? then old(entries)[path := r.value] else old(entries)
    {
      if path in entries {
        assert entries == entries[path := entries[path]];
        return Some(entries[path]);
      }
      r := realpath(path);
      if r.Some? {
        entries := entries[path := r.value];
      }
    }

    method CanonicalizePath(path: string) returns (r: Option<string>)
      requires Valid()
      modifies this
      ensures Valid()
      ensures r == CanonicalizeDir(realpath, path)
    {
      if FileName(path).None? || Parent(path).None? {
        return None;
      }
      var dir := Canonicalize(Parent(path).value);
      match dir
      case Some(c) => r := Some(Join(c, FileName(path).value));
      case None => r := None;
    }
  }

  // ----- many callers, each lock held for one step

  datatype Caller =
    | Ready
    | Missed(path: string)                   // the read lock was released without a hit
    | Computed(path: string, val: string)    // before taking the write lock

  datatype Call = Lookup(t: nat, path: string) | Resolve(t: nat) | Insert(t: nat)

  datatype Shared = Shared(
    cache: map<string, string>,
    callers: seq<Caller>,
    answers: set<(string, Option<string>)>)  // every (argument, result) returned so far

  predicate Possible(s: Shared, a: Call) {
    && a.t < |s.callers|
    && match a
       case Lookup(t, _) => s.callers[t].Ready?
       case Resolve(t) => s.callers[t].Missed?
       case Insert(t) => s.callers[t].Computed?
  }

  function Perform(realpath: string -> Option<string>, s: Shared, a: Call): (r: Shared)
    requires Possible(s, a)
  {
    match a
    case Lookup(t, path) =>
      if path in s.cache then s.(answers := s.answers + {(path, Some(s.cache[path]))})
      else s.(callers := s.callers[t := Missed(path)])
    case Resolve(t) =>
      var path := s.callers[t].path;
      (match realpath(path)
       case Some(v) => s.(callers := s.callers[t := Computed(path, v)])
       case None => s.(callers := s.callers[t := Ready], answers := s.answers + {(path, None)}))
    case Insert(t) =>
      var Computed(path, v) := s.callers[t];
      s.(cache := s.cache[path := v], callers := s.callers[t := Ready], answers := s.answers + {(path, Some(v))})
  }

  ghost function AfterCalls(realpath: string -> Option<string>, s: Shared, run: seq<Call>): (r: Option<Shared>) {
    if run == [] then Some(s)
    else
      match AfterCalls(realpath, s, run[..|run| - 1])
      case Some(before) =>
        if Possible(before, run[|run| - 1]) then Some(Perform(realpath, before, run[|run| - 1])) else None
      case None => None
  }

  ghost predicate Truthful(realpath: string -> Option<string>, s: Shared) {
    && Coherent(realpath, s.cache)
    && (forall i :: 0 <= i < |s.callers| && s.callers[i].Computed? ==>
          realpath(s.callers[i].path) == Some(s.callers[i].val))
    && (forall a :: a in s.answers ==> a.1 == realpath(a.0))
  }

  /** Whatever the interleaving, every answer is the one an uncached lookup would give. */
  lemma {:induction false} CacheRefinesRealpath(realpath: string -> Option<string>, n: nat, run: seq<Call>, s: Shared)
    requires AfterCalls(realpath, Shared(map[], seq(n, i => Ready), {}), run) == Some(s)
    ensures Truthful(realpath, s)
    decreases |run|
  {
    if run != [] {
      var before := AfterCalls(realpath, Shared(map[], seq(n, i => Ready), {}), run[..|run| - 1]).value;
      CacheRefinesRealpath(realpath, n, run[..|run| - 1], before);
    }
  }

  // ----- equal keys

  /** The canonical form of a directory, or the directory itself if it has none. */
  function CanonDir(realpath: string -> Option<string>, dir: string): (r: string) {
    match realpath(Trim(Prefix(dir)))
    case Some(c) => c
    case None => dir
  }

  lemma KeyShape(realpath: string -> Option<string>, dir: string, name: string)
    requires ProperName(name)
    ensures Key(realpath, Join(dir, name)) == Join(CanonDir(realpath, dir), name)
    ensures FileName(Key(realpath, Join(dir, name))) == Some(name)
  {
    hide FileName, Parent, Join;
    SplitJoin(dir, name);
    SplitJoin(CanonDir(realpath, dir), name);
  }

  /** What `canonicalize` returns: absolute, without a trailing separator or `.` component. */
  ghost predicate Canonical(c: string) {
    Clean(c) && c[0] == SEP
  }

  lemma PrefixInjective(c: string, d: string)
    requires Canonical(c) && Canonical(d) && Prefix(c) == Prefix(d)
    ensures c == d
  {
    assert Prefix(c)[..|Prefix(c)| - 1] == if c == "/" then "" else c;
    assert Prefix(d)[..|Prefix(d)| - 1] == if d == "/" then "" else d;
  }

  /**
    Two spellings of a library path claim the same key exactly when they name the same file
    in the same directory, as far as directories can be canonicalised.
   */
  lemma SameKey(realpath: string -> Option<string>, d1: string, n1: string, d2: string, n2: string)
    requires ProperName(n1) && ProperName(n2)
    ensures Key(realpath, Join(d1, n1)) == Key(realpath, Join(d2, n2))
            <==> n1 == n2 && Prefix(CanonDir(realpath, d1)) == Prefix(CanonDir(realpath, d2))
  {
    hide Key, CanonDir, Prefix;
    var c1, c2 := CanonDir(realpath, d1), CanonDir(realpath, d2);
    KeyShape(realpath, d1, n1);
    KeyShape(realpath, d2, n2);
    SplitJoin(c1, n1);
    SplitJoin(c2, n2);
    if Join(c1, n1) == Join(c2, n2) {
      JoinInjective(c1, n1, c2, n2);
    }
  }

  /** If both can be canonicalised: the same file in the same canonical directory. */
  lemma SameCanonicalKey(realpath: string -> Option<string>, d1: string, n1: string, d2: string, n2: string)
    requires ProperName(n1) && ProperName(n2)
    requires Canonical(CanonDir(realpath, d1)) && Canonical(CanonDir(realpath, d2))
    ensures Key(realpath, Join(d1, n1)) == Key(realpath, Join(d2, n2))
            <==> n1 == n2 && CanonDir(realpath, d1) == CanonDir(realpath, d2)
  {
    hide Key, CanonDir;
    SameKey(realpath, d1, n1, d2, n2);
    if Prefix(CanonDir(realpath, d1)) == Prefix(CanonDir(realpath, d2)) {
      PrefixInjective(CanonDir(realpath, d1), CanonDir(realpath, d2));
    }
  }

  /** What `path.canonicalize()` returns is canonical and its own canonical form. */
  ghost predicate RealpathLaws(realpath: string -> Option<string>) {
    forall dir, c :: realpath(dir) == Some(c) ==> Canonical(c) && realpath(c) == Some(c)
  }

  /** A key is its own key. */
  lemma KeyIdempotent(realpath: string -> Option<string>, p: string)
    requires RealpathLaws(realpath)
    ensures Key(realpath, Key(realpath, p)) == Key(realpath, p)
  {
    hide FileName, Parent, Join;
    if CanonicalizeDir(realpath, p).Some? {
      ParentOfJoin(realpath(Parent(p).value).value, FileName(p).value);
    }
  }

  /** Both paths name the same file in directories with the same canonical form. */
  ghost predicate SameFile(realpath: string -> Option<string>, p: string, q: string) {
    && FileName(p).Some? && FileName(p) == FileName(q)
    && Parent(p).Some? && Parent(q).Some?
    && realpath(Parent(p).value).Some? && realpath(Parent(p).value) == realpath(Parent(q).value)
  }

  lemma SameFileSameKey(realpath: string -> Option<string>, p: string, q: string)
    requires SameFile(realpath, p, q)
    ensures Key(realpath, p) == Key(realpath, q)
  {
    hide FileName, Parent, Join;
  }
}
