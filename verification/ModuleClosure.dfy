/**
  `install_modules` and `install_module`: the depth-first closure of kernel modules under
  dependencies and pre soft-dependencies, with a shared `visited` set and a filter that is
  applied to the roots only.
 */
module ModuleClosure {
  import opened Counting

  /** A module handle of libkmod. */
  type Module = nat

  /** What libkmod answers. The module graph may be cyclic; there are finitely many paths. */
  datatype Kmod = Kmod(
    name: Module -> Option<string>,
    path: Module -> Option<string>,
    dependencies: Module -> seq<Module>,
    softPre: Module -> Option<seq<Module>>,       // None: the query failed, which is ignored
    lookup: string -> Option<seq<Module>>,        // None: the lookup failed
    symbols: Module -> Option<seq<string>>)       // None: the query failed

  /** The compiled `--mod-filter-*` expressions. */
  datatype Filters = Filters(
    noname: Option<string -> bool>,
    nopath: Option<string -> bool>,
    path: Option<string -> bool>,
    nosymbol: Option<string -> bool>,
    symbol: Option<string -> bool>)

  predicate Matches(r: Option<string -> bool>, s: string) {
    r.Some? && r.value(s)
  }

  // ----- the filter

  /** Some symbol is wanted, and no symbol up to and including it is unwanted. */
  ghost predicate SymbolsAccepted(f: Filters, symbols: seq<string>) {
    exists i :: 0 <= i < |symbols| && Matches(f.symbol, symbols[i])
                && forall j :: 0 <= j <= i ==> !Matches(f.nosymbol, symbols[j])
  }

  ghost predicate Accepted(k: Kmod, f: Filters, m: Module, path: string) {
    && !(k.name(m).Some? && Matches(f.noname, k.name(m).value))
    && !Matches(f.nopath, path)
    && (f.path.Some? ==> Matches(f.path, path))
    && (f.nosymbol.Some? || f.symbol.Some? ==> k.symbols(m).None? || SymbolsAccepted(f, k.symbols(m).value))
  }

  method FilterModule(k: Kmod, f: Filters, m: Module, path: string) returns (accepted: bool)
    ensures accepted == Accepted(k, f, m, path)
  {
    if k.name(m).Some? && f.noname.Some? && f.noname.value(k.name(m).value) {
      return false;
    }
    if f.nopath.Some? && f.nopath.value(path) {
      return false;
    }
    if f.path.Some? && !f.path.value(path) {
      return false;
    }
    if f.nosymbol.None? && f.symbol.None? {
      return true;
    }
    if k.symbols(m).None? {
      return true;
    }
    var symbols := k.symbols(m).value;
    for i := 0 to |symbols|
      invariant forall j :: 0 <= j < i ==> !Matches(f.nosymbol, symbols[j]) && !Matches(f.symbol, symbols[j])
    {
      if f.nosymbol.Some? && f.nosymbol.value(symbols[i]) {
        assert Matches(f.nosymbol, symbols[i]);
        return false;
      }
      if f.symbol.Some? && f.symbol.value(symbols[i]) {
        assert Matches(f.symbol, symbols[i]);
        return true;
      }
    }
    return false;
  }

  // ----- the graph

  /** `n` is among the modules found under the name of `pre`. */
  ghost predicate LookedUp(k: Kmod, pre: Module, n: Module) {
    && k.name(pre).Some? && k.lookup(k.name(pre).value).Some?
    && n in k.lookup(k.name(pre).value).value
  }

  ghost predicate SoftSuccessor(k: Kmod, m: Module, n: Module) {
    k.softPre(m).Some? && exists pre :: pre in k.softPre(m).value && LookedUp(k, pre, n)
  }

  /** `n` is a dependency of `m`, or is looked up for one of its pre soft-dependencies. */
  ghost predicate Successor(k: Kmod, m: Module, n: Module) {
    n in k.dependencies(m) || SoftSuccessor(k, m, n)
  }

  /** From `m` to `n` in `steps` steps, each through a module that has a path. */
  ghost predicate Chain(k: Kmod, m: Module, n: Module, steps: nat)
    decreases steps
  {
    if steps == 0 then m == n
    else exists q :: Chain(k, m, q, steps - 1) && k.path(q).Some? && Successor(k, q, n)
  }

  ghost predicate Leads(k: Kmod, m: Module, p: string) {
    exists n, steps: nat :: Chain(k, m, n, steps) && k.path(n) == Some(p)
  }

  ghost predicate Root(k: Kmod, f: Filters, roots: seq<Module>, m: Module) {
    m in roots && k.path(m).Some? && Accepted(k, f, m, k.path(m).value)
  }

  /** A pre soft-dependency has no name, or looking it up fails. */
  ghost predicate Broken(k: Kmod, m: Module) {
    && k.softPre(m).Some?
    && exists pre :: pre in k.softPre(m).value && (k.name(pre).None? || k.lookup(k.name(pre).value).None?)
  }

  ghost predicate LeadsToBroken(k: Kmod, m: Module) {
    exists n, steps: nat :: Chain(k, m, n, steps) && k.path(n).Some? && Broken(k, n)
  }

  /** Reachable from a root that the filter accepts. */
  ghost predicate Reachable(k: Kmod, f: Filters, roots: seq<Module>, p: string) {
    exists m :: Root(k, f, roots, m) && Leads(k, m, p)
  }

  /** libkmod's handles for one path describe one module. */
  ghost predicate OnePathOneModule(k: Kmod) {
    forall m, n :: k.path(m).Some? && k.path(m) == k.path(n) ==>
      k.dependencies(m) == k.dependencies(n) && k.softPre(m) == k.softPre(n)
  }

  ghost predicate PathsWithin(k: Kmod, paths: set<string>) {
    forall m :: k.path(m).Some? ==> k.path(m).value in paths
  }

  /** The module is settled: it has no path, or its path was visited. */
  ghost predicate Settled(k: Kmod, visited: set<string>, m: Module) {
    k.path(m).Some? ==> k.path(m).value in visited
  }

  /** The module's soft-dependencies can be looked up and all its successors are settled. */
  ghost predicate Complete(k: Kmod, visited: set<string>, m: Module) {
    !Broken(k, m) && forall n :: Successor(k, m, n) ==> Settled(k, visited, n)
  }

  /** Every path added since `before` is complete in `visited`. */
  ghost predicate NewClosed(k: Kmod, before: set<string>, visited: set<string>) {
    && before <= visited
    && forall m :: k.path(m).Some? && k.path(m).value in visited && k.path(m).value !in before
                   ==> Complete(k, visited, m)
  }

  ghost predicate NewFrom(k: Kmod, before: set<string>, visited: set<string>, m: Module) {
    forall p :: p in visited && p !in before ==> Leads(k, m, p)
  }

  lemma {:induction false} ChainPrepend(k: Kmod, m: Module, n: Module, q: Module, steps: nat)
    requires k.path(m).Some? && Successor(k, m, n) && Chain(k, n, q, steps)
    ensures Chain(k, m, q, steps + 1)
    decreases steps
  {
    if steps == 0 {
      assert Chain(k, m, m, 0);
    } else {
      var r :| Chain(k, n, r, steps - 1) && k.path(r).Some? && Successor(k, r, q);
      ChainPrepend(k, m, n, r, steps - 1);
    }
  }

  lemma LeadsThrough(k: Kmod, m: Module, n: Module, p: string)
    requires k.path(m).Some? && Successor(k, m, n) && Leads(k, n, p)
    ensures Leads(k, m, p)
  {
    var q, steps: nat :| Chain(k, n, q, steps) && k.path(q) == Some(p);
    ChainPrepend(k, m, n, q, steps);
  }

  lemma BrokenThrough(k: Kmod, m: Module, n: Module)
    requires k.path(m).Some? && Successor(k, m, n) && LeadsToBroken(k, n)
    ensures LeadsToBroken(k, m)
  {
    var q, steps: nat :| Chain(k, n, q, steps) && k.path(q).Some? && Broken(k, q);
    ChainPrepend(k, m, n, q, steps);
  }

  lemma NewClosedTransitive(k: Kmod, a: set<string>, b: set<string>, c: set<string>)
    requires NewClosed(k, a, b) && NewClosed(k, b, c)
    ensures NewClosed(k, a, c)
  {
  }

  /** The bookkeeping of one recursive call on a successor `n` of `m`. */
  lemma AfterSuccessor(k: Kmod, base: set<string>, before: set<string>, visited: set<string>, m: Module, n: Module)
    requires k.path(m).Some? && Successor(k, m, n)
    requires NewFrom(k, base, before, m) && before <= visited && NewFrom(k, before, visited, n)
    ensures NewFrom(k, base, visited, m)
  {
    forall p | p in visited && p !in base ensures Leads(k, m, p) {
      if p !in before {
        LeadsThrough(k, m, n, p);
      }
    }
  }

  /** Once all successors of `m` are settled, `m` may be added to what is closed. */
  lemma CloseModule(k: Kmod, before: set<string>, visited: set<string>, m: Module)
    requires OnePathOneModule(k) && k.path(m).Some?
    requires NewClosed(k, before + {k.path(m).value}, visited) && Complete(k, visited, m)
    ensures NewClosed(k, before, visited)
  {
  }

  lemma SelfAdded(k: Kmod, before: set<string>, visited: set<string>, m: Module)
    requires k.path(m).Some? && NewFrom(k, before + {k.path(m).value}, visited, m)
    ensures NewFrom(k, before, visited, m)
  {
    assert Chain(k, m, m, 0);
  }

  lemma NewFromTransitive(k: Kmod, a: set<string>, b: set<string>, c: set<string>, m: Module)
    requires NewFrom(k, a, b, m) && NewFrom(k, b, c, m)
    ensures NewFrom(k, a, c, m)
  {
  }

  /** Along a chain from a settled module every module is settled. */
  lemma {:induction false} ChainSettled(k: Kmod, visited: set<string>, m: Module, n: Module, steps: nat)
    requires NewClosed(k, {}, visited) && Settled(k, visited, m) && Chain(k, m, n, steps)
    ensures Settled(k, visited, n)
    decreases steps
  {
    if steps > 0 {
      var q :| Chain(k, m, q, steps - 1) && k.path(q).Some? && Successor(k, q, n);
      ChainSettled(k, visited, m, q, steps - 1);
      assert Complete(k, visited, q);
    }
  }

  lemma ClosedNotBroken(k: Kmod, visited: set<string>, m: Module)
    requires NewClosed(k, {}, visited) && Settled(k, visited, m)
    ensures !LeadsToBroken(k, m)
  {
    forall n, steps: nat | Chain(k, m, n, steps) && k.path(n).Some? ensures !Broken(k, n) {
      ChainSettled(k, visited, m, n, steps);
      assert Complete(k, visited, n);
    }
  }

  lemma VisitedContainsReachable(k: Kmod, f: Filters, roots: seq<Module>, visited: set<string>, p: string)
    requires NewClosed(k, {}, visited) && Reachable(k, f, roots, p)
    requires forall m :: Root(k, f, roots, m) ==> Settled(k, visited, m)
    ensures p in visited
  {
    var m :| Root(k, f, roots, m) && Leads(k, m, p);
    var n, steps: nat :| Chain(k, m, n, steps) && k.path(n) == Some(p);
    ChainSettled(k, visited, m, n, steps);
  }

  // ----- the traversal

  class Installer {
    const k: Kmod
    const filters: Filters
    ghost const paths: set<string>
    var visited: set<string>

    constructor (k: Kmod, filters: Filters, ghost paths: set<string>)
      ensures this.k == k && this.filters == filters && this.paths == paths && visited == {}
    {
      this.k := k;
      this.filters := filters;
      this.paths := paths;
      visited := {};
    }

    ghost predicate Valid()
      reads this
    {
      OnePathOneModule(k) && PathsWithin(k, paths)
    }

    /** Whether `m` is followed at all. */
    ghost predicate Followed(m: Module, filter: bool) {
      k.path(m).Some? && (filter ==> Accepted(k, filters, m, k.path(m).value))
    }

    method InstallModule(m: Module, filter: bool) returns (ok: bool)
      requires Valid()
      modifies this`visited
      ensures old(visited) <= visited
      ensures !Followed(m, filter) ==> ok && visited == old(visited)
      ensures NewFrom(k, old(visited), visited, m)
      ensures ok ==> NewClosed(k, old(visited), visited)
      ensures !ok ==> LeadsToBroken(k, m)
      ensures ok && Followed(m, filter) ==> k.path(m).value in visited
      decreases paths - visited, 0
    {
      if k.path(m).None? {
        return true;
      }
      var path := k.path(m).value;
      if filter {
        var accepted := FilterModule(k, filters, m, path);
        if !accepted {
          return true;
        }
      }
      if path in visited {
        return true;
      }
      ghost var before := visited;
      visited := visited + {path};
      ok := InstallAll(m, k.dependencies(m));
      SelfAdded(k, before, visited, m);
      if !ok {
        return false;
      }
      if k.softPre(m).Some? {
        ghost var middle := visited;
        ok := InstallSoft(m, k.softPre(m).value);
        NewFromTransitive(k, before, middle, visited, m);
        if !ok {
          return false;
        }
        NewClosedTransitive(k, before + {path}, middle, visited);
      }
      CloseModule(k, before, visited, m);
    }

    /** The loop over `module.dependencies()`, and over the modules of one lookup. */
    method InstallAll(ghost m: Module, modules: seq<Module>) returns (ok: bool)
      requires Valid() && k.path(m).Some? && k.path(m).value in visited
      requires forall n :: n in modules ==> Successor(k, m, n)
      modifies this`visited
      ensures old(visited) <= visited
      ensures NewFrom(k, old(visited), visited, m)
      ensures ok ==> NewClosed(k, old(visited), visited)
      ensures !ok ==> LeadsToBroken(k, m)
      ensures ok ==> forall n :: n in modules ==> Settled(k, visited, n)
      decreases paths - visited, 1
    {
      ghost var start := visited;
      for i := 0 to |modules|
        invariant start <= visited
        invariant NewFrom(k, start, visited, m) && NewClosed(k, start, visited)
        invariant forall j :: 0 <= j < i ==> Settled(k, visited, modules[j])
      {
        ghost var before := visited;
        var done := InstallModule(modules[i], false);
        AfterSuccessor(k, start, before, visited, m, modules[i]);
        if !done {
          BrokenThrough(k, m, modules[i]);
          return false;
        }
        NewClosedTransitive(k, start, before, visited);
      }
      return true;
    }

    /** The loop over the pre soft-dependencies: a missing name or a failed lookup is an error. */
    method InstallSoft(ghost m: Module, pre: seq<Module>) returns (ok: bool)
      requires Valid() && k.path(m).Some? && k.path(m).value in visited && k.softPre(m) == Some(pre)
      modifies this`visited
      ensures old(visited) <= visited
      ensures NewFrom(k, old(visited), visited, m)
      ensures ok ==> NewClosed(k, old(visited), visited)
      ensures !ok ==> LeadsToBroken(k, m)
      ensures ok ==> !Broken(k, m) && forall n :: SoftSuccessor(k, m, n) ==> Settled(k, visited, n)
      decreases paths - visited, 2
    {
      ghost var start := visited;
      for i := 0 to |pre|
        invariant start <= visited
        invariant NewFrom(k, start, visited, m) && NewClosed(k, start, visited)
        invariant forall j, n :: 0 <= j < i && LookedUp(k, pre[j], n) ==> Settled(k, visited, n)
        invariant forall j :: 0 <= j < i ==> k.name(pre[j]).Some? && k.lookup(k.name(pre[j]).value).Some?
      {
        assert Chain(k, m, m, 0);
        if k.name(pre[i]).None? {
          return false;
        }
        var found := k.lookup(k.name(pre[i]).value);
        if found.None? {
          return false;
        }
        forall n | n in found.value ensures Successor(k, m, n) {
          assert LookedUp(k, pre[i], n);
        }
        ghost var before := visited;
        var done := InstallAll(m, found.value);
        NewFromTransitive(k, start, before, visited, m);
        if !done {
          return false;
        }
        NewClosedTransitive(k, start, before, visited);
        forall j, n | 0 <= j < i + 1 && LookedUp(k, pre[j], n) ensures Settled(k, visited, n) {
          if j < i {
            assert Settled(k, before, n);
          }
        }
      }
      return true;
    }
  }

  /**
    `install_modules` from the resolved roots on: every root is tried, and only if none
    fails are the visited paths handed to the installation.
   */
  method InstallModules(k: Kmod, f: Filters, roots: seq<Module>,
                        ghost paths: set<string>) returns (files: Option<set<string>>)
    requires OnePathOneModule(k) && PathsWithin(k, paths)
    ensures files.Some? ==> forall p :: p in files.value <==> Reachable(k, f, roots, p)
    ensures files.None? <==> exists m :: Root(k, f, roots, m) && LeadsToBroken(k, m)
  {
    var installer := new Installer(k, f, paths);
    var failed := false;
    for i := 0 to |roots|
      invariant installer.Valid() && installer.k == k && installer.filters == f && fresh(installer)
      invariant forall p :: p in installer.visited ==> Reachable(k, f, roots, p)
      invariant failed ==> exists m :: Root(k, f, roots, m) && LeadsToBroken(k, m)
      invariant !failed ==> NewClosed(k, {}, installer.visited)
      invariant !failed ==> forall j :: 0 <= j < i && Root(k, f, roots, roots[j]) ==>
                              Settled(k, installer.visited, roots[j])
    {
      ghost var before := installer.visited;
      var ok := installer.InstallModule(roots[i], true);
      forall p | p in installer.visited ensures Reachable(k, f, roots, p) {
        if p !in before {
          assert Root(k, f, roots, roots[i]) && Leads(k, roots[i], p);
        }
      }
      if ok && !failed {
        NewClosedTransitive(k, {}, before, installer.visited);
      }
      if !ok {
        assert Root(k, f, roots, roots[i]);
      }
      failed := failed || !ok;
    }
    if failed {
      return None;
    }
    forall p | Reachable(k, f, roots, p) ensures p in installer.visited {
      VisitedContainsReachable(k, f, roots, installer.visited, p);
    }
    forall m | Root(k, f, roots, m) ensures !LeadsToBroken(k, m) {
      ClosedNotBroken(k, installer.visited, m);
    }
    return Some(installer.visited);
  }
}
