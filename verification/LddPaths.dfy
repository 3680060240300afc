/** The key hypotheses of the closure theorem, derived from facts about path names. */
module LddPaths {
  import opened Counting
  import opened UnixPath
  import opened LddModel
  import opened LddClosure
  import opened CanonCache

  /**
    No search paths, slash-free dependency names, library directories with distinct
    canonical forms, and cache values whose file name is their key.
   */
  ghost predicate PlainNames(w: World, realpath: string -> Option<string>) {
    && (forall p :: w.canon(p) == Key(realpath, p))
    && (forall f :: f in w.elf ==> w.elf[f].searchPaths == [])
    && (forall dep :: Needed(w, dep) ==> ProperName(dep))
    && (forall i, j :: 0 <= i < |w.libdirs| && 0 <= j < |w.libdirs| && i != j ==>
          Prefix(CanonDir(realpath, w.libdirs[i])) != Prefix(CanonDir(realpath, w.libdirs[j])))
    && (w.cache.Some? ==>
          forall e, v :: e in w.cache.value && v in w.cache.value[e] ==> FileName(v) == Some(e))
  }

  lemma KeyFileName(realpath: string -> Option<string>, v: string)
    ensures FileName(Key(realpath, v)) == FileName(v)
  {
    if FileName(v).Some? && Parent(v).Some? {
      match realpath(Parent(v).value)
      case Some(c) => SplitJoin(c, FileName(v).value);
      case None =>
    }
  }

  lemma DefaultKeysDistinct(w: World, realpath: string -> Option<string>, j: nat, d: string, k: nat, e: string)
    requires PlainNames(w, realpath) && Needed(w, d) && Needed(w, e) && SameDefault(w, j, d, k, e)
    ensures j == k && d == e
  {
    KeyShape(realpath, w.libdirs[j], d);
    KeyShape(realpath, w.libdirs[k], e);
    JoinInjective(CanonDir(realpath, w.libdirs[j]), d, CanonDir(realpath, w.libdirs[k]), e);
  }

  lemma CacheKeyName(w: World, realpath: string -> Option<string>, e: string, v: string)
    requires PlainNames(w, realpath) && Cached(w, e) && v in CacheValues(w, e)
    ensures FileName(w.canon(v)) == Some(e)
  {
    KeyFileName(realpath, v);
    assert w.canon(v) == Key(realpath, v);
  }

  lemma DefaultKeyName(w: World, realpath: string -> Option<string>, k: nat, d: string)
    requires PlainNames(w, realpath) && Needed(w, d) && k < |w.libdirs|
    ensures FileName(DefaultKey(w, k, d)) == Some(d)
  {
    KeyShape(realpath, w.libdirs[k], d);
  }

  lemma CacheKeysApart(w: World, realpath: string -> Option<string>, e: string, v: string, k: nat, d: string)
    requires PlainNames(w, realpath) && Needed(w, d) && !Cached(w, d) && Cached(w, e)
    ensures !SameAsCached(w, e, v, k, d)
  {
    if v in CacheValues(w, e) && k < |w.libdirs| {
      CacheKeyName(w, realpath, e, v);
      DefaultKeyName(w, realpath, k, d);
    }
  }

  lemma NamesArePlain(w: World, realpath: string -> Option<string>)
    requires PlainNames(w, realpath)
    ensures Plain(w)
  {
    forall j: nat, d, k: nat, e | Needed(w, d) && Needed(w, e) && SameDefault(w, j, d, k, e)
      ensures j == k && d == e
    {
      DefaultKeysDistinct(w, realpath, j, d, k, e);
    }
    forall e, v, k: nat, d | Needed(w, d) && !Cached(w, d) && Cached(w, e)
      ensures !SameAsCached(w, e, v, k, d)
    {
      CacheKeysApart(w, realpath, e, v, k, d);
    }
  }

  /** The closure theorem with its hypotheses on names. */
  lemma ClosureForPlainNames(w: World, realpath: string -> Option<string>,
                             seeds: seq<string>, threads: nat, run: seq<Action>, s: State,
                             p: string, dep: string, c: string)
    requires PlainNames(w, realpath) && Reaches(w, seeds, threads, run, s) && Quiescent(s)
    requires forall f :: f in seeds ==> f in w.present
    requires p in s.resolved && p in w.elf && dep in w.elf[p].needed && Picked(w, dep, c)
    ensures c in s.out || c in w.installed
  {
    NamesArePlain(w, realpath);
    Closure(w, seeds, threads, run, s, p, dep, c);
  }
}
