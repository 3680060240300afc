/**
  `install_files_ldd`: the dependency closure followed by the installation of everything it
  returned.
 */
module LddInstall {
  import opened UnixPath
  import opened LddModel
  import opened LddConservation
  import opened LddClosure
  import opened LddReach
  import LddTermination
  import CP = ClonePath
  import Substitute

  /** The names of a path: what lies between its separators. */
  function PathNames(p: string): (r: CP.Names) {
    NonEmpty(Substitute.Split(p, '/'))
  }

  function NonEmpty(parts: seq<string>): (r: CP.Names) {
    if parts == [] then []
    else NonEmpty(parts[..|parts| - 1]) + if parts[|parts| - 1] == "" then [] else [parts[|parts| - 1]]
  }

  lemma NonEmptyOneMore(parts: seq<string>, last: string)
    ensures NonEmpty(parts + [last]) == NonEmpty(parts) + if last == "" then [] else [last]
  {
    assert (parts + [last])[..|parts|] == parts;
  }

  lemma NothingOfNothing()
    ensures NonEmpty([]) == []
  {
  }

  /** A name behind a separator. */
  lemma NameBehind(a: string, name: string)
    requires '/' !in name
    ensures PathNames(a + ['/'] + name) == PathNames(a) + if name == "" then [] else [name]
  {
    hide NonEmpty, Substitute.Split;
    Substitute.SplitAtLast(a, '/', name);
    NonEmptyOneMore(Substitute.Split(a, '/'), name);
  }

  lemma NameAlone(name: string)
    requires '/' !in name
    ensures PathNames(name) == if name == "" then [] else [name]
  {
    hide NonEmpty, Substitute.Split;
    Substitute.SplitFree(name, '/');
    NonEmptyOneMore([], name);
    NothingOfNothing();
    assert [] + [name] == [name];
  }

  /** The names of a path below a directory: those of the directory, then the last one. */
  lemma PathNamesJoin(dir: string, name: string)
    requires ProperName(name)
    ensures PathNames(Join(dir, name)) == PathNames(dir) + [name]
  {
    hide PathNames, FileName, Parent;
    if dir == "" {
      NameAlone("");
      NameAlone(name);
      JoinShape("", name);
      assert Join("", name) == name && [] + [name] == [name];
    } else if dir[|dir| - 1] == '/' {
      var a := dir[..|dir| - 1];
      JoinShape(dir, name);
      NameBehind(a, name);
      NameBehind(a, "");
      assert dir == a + ['/'] + "" && Join(dir, name) == a + ['/'] + name;
    } else {
      JoinShape(dir, name);
      NameBehind(dir, name);
      assert Join(dir, name) == dir + ['/'] + name;
    }
  }

  lemma JoinShape(dir: string, name: string)
    requires ProperName(name)
    ensures Join(dir, name) == (if dir == "" || dir[|dir| - 1] == '/' then dir else dir + ['/']) + name
  {
    hide FileName, Parent;
    SplitJoin(dir, name);
  }

  /** The absolute path with the given names. */
  function AbsolutePath(names: CP.Names): (r: string) {
    if names == [] then "/" else Join(AbsolutePath(names[..|names| - 1]), names[|names| - 1])
  }

  lemma RootHasNoNames()
    ensures PathNames("/") == []
  {
    hide PathNames;
    NameAlone("");
    NameBehind("", "");
    assert "/" == "" + ['/'] + "";
  }

  /** A path has exactly the names it was put together from, in order. */
  lemma {:induction false} PathNamesExact(names: CP.Names)
    requires forall i :: 0 <= i < |names| ==> ProperName(names[i])
    ensures PathNames(AbsolutePath(names)) == names
    decreases |names|
  {
    hide PathNames, ProperName;
    if names == [] {
      RootHasNoNames();
    } else {
      PathNamesExact(names[..|names| - 1]);
      PathNamesJoin(AbsolutePath(names[..|names| - 1]), names[|names| - 1]);
    }
  }

  function NamesOf(files: seq<string>): (r: seq<CP.Names>)
    ensures |r| == |files| && forall i :: 0 <= i < |r| ==> r[i] == PathNames(files[i])
  {
    seq(|files|, i requires 0 <= i < |files| => PathNames(files[i]))
  }

  /** The returned paths, in whatever order they were collected. */
  method Listed(m: multiset<string>) returns (files: seq<string>)
    ensures multiset(files) == m
  {
    files := [];
    var left := m;
    while left != multiset{}
      invariant multiset(files) + left == m
      decreases |left|
    {
      var x :| x in left;
      files := files + [x];
      left := left - multiset{x};
    }
  }

  lemma ListedMembers(files: seq<string>, m: multiset<string>)
    requires multiset(files) == m
    ensures forall p :: p in files <==> p in m
  {
    forall p ensures p in files <==> p in m {
      assert p in files <==> p in multiset(files);
    }
  }

  lemma NeededByReturned(src: CP.Tree, files: seq<string>, q: CP.Names)
    ensures CP.NeededBy(src, NamesOf(files), q) <==> exists p :: p in files && CP.Needs(src, PathNames(p), q)
  {
    hide CP.Needs, PathNames;
    if CP.NeededBy(src, NamesOf(files), q) {
      var n :| n in NamesOf(files) && CP.Needs(src, n, q);
      var i :| 0 <= i < |files| && NamesOf(files)[i] == n;
      assert files[i] in files;
    }
    if p :| p in files && CP.Needs(src, PathNames(p), q) {
      var i :| 0 <= i < |files| && files[i] == p;
      assert NamesOf(files)[i] in NamesOf(files);
    }
  }

  /** `q` is a path that some reachable file needs: itself, an ancestor, or a symlink target. */
  ghost predicate NeededByReachable(w: World, seeds: seq<string>, src: CP.Tree, q: CP.Names) {
    exists p :: Reachable(w, seeds, p) && CP.Needs(src, PathNames(p), q)
  }

  /** A sequential resolver picks `lib` for a dependency of a reachable file. */
  ghost predicate PickedForReachable(w: World, seeds: seq<string>, lib: string) {
    exists f, dep :: Reachable(w, seeds, f) && f in w.elf && dep in w.elf[f].needed && Picked(w, dep, lib)
  }

  /** The scheduler picks a possible step as long as there is one. */
  ghost predicate Schedules(w: World, threads: nat, pick: State -> Action) {
    forall s: State :: |s.workers| == threads && !Quiescent(s) ==> Enabled(w, s, pick(s))
  }

  /** The filesystem is the same for the search and for the installation. */
  ghost predicate SameFilesystem(w: World, seeds: seq<string>, src: CP.Tree, dst: CP.Dest) {
    && (forall p :: p in seeds || p in w.present ==> CP.RealAncestors(src, PathNames(p)))
    && (forall p :: p in w.installed ==> PathNames(p) in dst)
  }

  /** The returned files and what the sequential resolver picks for their dependencies. */
  lemma ReturnedFiles(w: World, seeds: seq<string>, threads: nat, run: seq<Action>, s: State)
    requires Plain(w) && Resolvable(w, seeds) && Reaches(w, seeds, threads, run, s) && Quiescent(s)
    requires forall p :: p in seeds ==> p in w.present
    ensures forall p :: p in s.out <==> Reachable(w, seeds, p)
    ensures forall p :: p in s.out ==> p in w.present
    ensures forall lib :: PickedForReachable(w, seeds, lib) ==> lib in s.out || lib in w.installed
  {
    hide Reachable, Picked;
    forall p ensures p in s.out <==> Reachable(w, seeds, p) {
      OutputIsReachable(w, seeds, threads, run, s, p);
    }
    NothingLostNothingExtra(w, seeds, threads, run, s);
    SoundAlways(w, seeds, threads, run, s);
    NoFailureExact(w, seeds, threads, run, s);
    forall lib | PickedForReachable(w, seeds, lib) ensures lib in s.out || lib in w.installed {
      var f, dep :| Reachable(w, seeds, f) && f in w.elf && dep in w.elf[f].needed && Picked(w, dep, lib);
      Closure(w, seeds, threads, run, s, f, dep, lib);
    }
  }

  /**
    The whole operation, under any scheduler. On success the destination holds what was
    there and exactly the reachable files with their ancestors and symlink targets, and
    everything that a sequential resolver picks for a dependency of a reachable file.
   */
  method InstallFilesLdd(w: World, seeds: seq<string>, threads: nat, pick: State -> Action,
                         c: CP.Cloner, ghost rank: CP.Names -> nat) returns (ok: bool)
    requires threads > 0 && Schedules(w, threads, pick)
    requires Plain(w) && Resolvable(w, seeds) && forall p :: p in seeds ==> p in w.present
    requires CP.SourceTree(c.src) && CP.AcyclicLinks(c.src, rank)
    requires CP.DestTree(c.src, c.dst) && CP.Complete(c.src, c.dst)
    requires SameFilesystem(w, seeds, c.src, c.dst)
    modifies c`dst
    ensures CP.NothingLost(old(c.dst), c.dst)
    ensures ok ==> CP.Unchanged(old(c.dst), c.dst)
    ensures ok ==> forall q :: q in c.dst <==> q in old(c.dst) || NeededByReachable(w, seeds, c.src, q)
    ensures ok ==> forall lib :: PickedForReachable(w, seeds, lib) ==> PathNames(lib) in c.dst
    ensures ok <==> forall p :: Reachable(w, seeds, p) ==>
                      CP.Clonable(c.src, c.copies, old(c.dst), PathNames(p))
    ensures (forall p :: Reachable(w, seeds, p) ==> !CP.Halts(c.src, c.copies, old(c.dst), PathNames(p))) ==>
              CP.Unchanged(old(c.dst), c.dst)
  {
    hide Reachable, PickedForReachable, PathNames, Plain, Resolvable;
    hide CP.Needs, CP.NothingLost, CP.SourceTree, CP.AcyclicLinks, CP.DestTree, CP.Complete, CP.Clonable,
         CP.RealAncestors, CP.Halts, CP.Unchanged;
    ghost var start := c.dst;
    var s;
    ghost var run;
    s, run := LddTermination.Run(w, seeds, threads, pick);
    var files := Listed(s.out);
    ListedMembers(files, s.out);
    ReturnedFiles(w, seeds, threads, run, s);
    ok := CP.InstallFiles(c, NamesOf(files), rank);
    if ok {
      forall q ensures q in c.dst <==> q in start || NeededByReachable(w, seeds, c.src, q) {
        NeededByReturned(c.src, files, q);
      }
      forall lib | lib in s.out || lib in w.installed ensures PathNames(lib) in c.dst {
        if lib in s.out {
          CP.NeedsSelf(c.src, PathNames(lib));
          NeededByReturned(c.src, files, PathNames(lib));
        }
      }
    }
  }
}
