/**
  `convert_abs_rel`: the relative text of a symbolic link, computed component by component,
  and the exact condition under which it leads back to the source.
 */
module RelativeLink {
  import opened Counting

  datatype Component = RootDir | CurDir | ParentDir | Normal(name: string)

  /** A path as `Path::components` yields it. */
  type Path = seq<Component>

  /** An absolute path without `.` and `..`. */
  predicate Normalised(p: Path) {
    p != [] && p[0] == RootDir && forall i :: 1 <= i < |p| ==> p[i].Normal?
  }

  /** What `components` yields: a root can only come first. */
  predicate WellFormed(p: Path) {
    forall i :: 1 <= i < |p| ==> p[i] != RootDir
  }

  predicate HasParent(p: Path) {
    p != [] && p[|p| - 1] != RootDir
  }

  /** `PathBuf::push` of one component: an absolute one replaces the path. */
  function Push(p: Path, c: Component): (r: Path) {
    if c.RootDir? then [c] else p + [c]
  }

  function PushAll(p: Path, q: Path): (r: Path) {
    if q != [] && q[0].RootDir? then q else p + q
  }

  function Drop<T>(s: seq<T>, i: nat): (r: seq<T>) {
    if i <= |s| then s[i..] else []
  }

  // ----- the specification of the loop

  /** The source components that are kept: those without an equal partner. */
  function Rest(s: Path, p: Path): (r: Path) {
    if s == [] then []
    else if p == [] then s
    else (if s[0] == p[0] then [] else [s[0]]) + Rest(s[1..], p[1..])
  }

  /** The number of differing pairs. */
  function Ups(s: Path, p: Path): (n: nat)
    ensures n <= |s| && n <= |p|
  {
    if s == [] || p == [] then 0
    else (if s[0] == p[0] then 0 else 1) + Ups(s[1..], p[1..])
  }

  function UpDirs(n: nat): (r: Path)
    ensures |r| == n && forall i :: 0 <= i < n ==> r[i] == ParentDir
  {
    seq(n, i => ParentDir)
  }

  /** The relative text for a link to `s` from the directory `p`. */
  function Relative(s: Path, p: Path): (r: Path) {
    PushAll(UpDirs(Ups(s, p)), Rest(s, p))
  }

  /** The zip over both paths. None: `target` has no parent. */
  method ConvertAbsRel(source: Path, target: Path) returns (r: Option<Path>)
    requires WellFormed(source) && WellFormed(target)
    ensures r == if HasParent(target) then Some(Relative(source, target[..|target| - 1])) else None
  {
    hide Rest, Ups;
    if !HasParent(target) {
      return None;
    }
    var parent := target[..|target| - 1];
    var targetRel: Path := [];
    var rest: Path := [];
    var i := 0;
    ghost var ups := 0;
    assert Drop(source, 0) == source && Drop(parent, 0) == parent;
    assert rest + Rest(source, parent) == Rest(source, parent);
    assert UpDirs(0) == [];
    while i < |source| || i < |parent|
      invariant rest + Rest(Drop(source, i), Drop(parent, i)) == Rest(source, parent)
      invariant ups + Ups(Drop(source, i), Drop(parent, i)) == Ups(source, parent)
      invariant targetRel == UpDirs(ups)
      invariant i == 0 ==> rest == []
      decreases |source| + |parent| - i
    {
      LoopStep(source, parent, i, rest);
      if i < |source| && i < |parent| {
        if source[i] != parent[i] {
          rest := Push(rest, source[i]);
          UpDirsPush(ups);
          targetRel := Push(targetRel, ParentDir);
          ups := ups + 1;
        }
      } else if i < |source| {
        rest := Push(rest, source[i]);
      }
      i := i + 1;
    }
    NothingLeft(source, parent, i);
    assert rest + [] == rest;
    return Some(PushAll(targetRel, rest));
  }

  lemma NothingLeft(s: Path, p: Path, i: nat)
    requires i >= |s| && i >= |p|
    ensures Rest(Drop(s, i), Drop(p, i)) == [] && Ups(Drop(s, i), Drop(p, i)) == 0
  {
  }

  lemma UpDirsPush(n: nat)
    ensures Push(UpDirs(n), ParentDir) == UpDirs(n + 1)
  {
  }

  predicate Kept(s: Path, p: Path, i: nat) {
    i < |s| && (i < |p| ==> s[i] != p[i])
  }

  lemma DropStep<T>(s: seq<T>, i: nat)
    ensures i < |s| ==> Drop(s, i) != [] && Drop(s, i)[0] == s[i] && Drop(s, i)[1..] == Drop(s, i + 1)
    ensures i >= |s| ==> Drop(s, i) == [] && Drop(s, i + 1) == []
  {
  }

  /** What the first pair of two paths contributes. */
  lemma RestStep(s: Path, p: Path)
    ensures s != [] && p != [] ==> Rest(s, p) == (if s[0] == p[0] then [] else [s[0]]) + Rest(s[1..], p[1..])
    ensures s != [] && p == [] ==> Rest(s, p) == [s[0]] + Rest(s[1..], [])
    ensures s == [] ==> Rest(s, p) == []
  {
    if s != [] && p == [] {
      assert s == [s[0]] + s[1..];
    }
  }

  lemma UpsStep(s: Path, p: Path)
    ensures s != [] && p != [] ==> Ups(s, p) == Bit(s[0] != p[0]) + Ups(s[1..], p[1..])
    ensures s == [] || p == [] ==> Ups(s, p) == 0
  {
  }

  lemma Gather(rest: Path, front: Path, tail: Path)
    ensures rest + (front + tail) == rest + front + tail
    ensures rest + ([] + tail) == rest + tail
  {
  }

  /** One round of the zip. */
  lemma LoopStep(s: Path, p: Path, i: nat, rest: Path)
    requires i < |s| || i < |p|
    ensures rest + Rest(Drop(s, i), Drop(p, i))
            == (if Kept(s, p, i) then rest + [s[i]] else rest) + Rest(Drop(s, i + 1), Drop(p, i + 1))
    ensures Ups(Drop(s, i), Drop(p, i))
            == Bit(Kept(s, p, i) && i < |p|) + Ups(Drop(s, i + 1), Drop(p, i + 1))
  {
    hide Rest, Ups, Drop;
    DropStep(s, i);
    DropStep(p, i);
    RestStep(Drop(s, i), Drop(p, i));
    UpsStep(Drop(s, i), Drop(p, i));
    UpsStep(Drop(s, i + 1), Drop(p, i + 1));
    RestStep(Drop(s, i + 1), Drop(p, i + 1));
    if i < |s| {
      Gather(rest, [s[i]], Rest(Drop(s, i + 1), Drop(p, i + 1)));
    }
  }

  /** With a common root, the kept components are ordinary names. */
  lemma RestNormal(s: Path, p: Path)
    requires Normalised(s) && Normalised(p)
    ensures Rest(s, p) == Rest(s[1..], p[1..]) && forall i :: 0 <= i < |Rest(s, p)| ==> Rest(s, p)[i].Normal?
  {
    RestOfNames(s[1..], p[1..]);
  }

  lemma {:induction false} RestOfNames(s: Path, p: Path)
    requires forall i :: 0 <= i < |s| ==> s[i].Normal?
    ensures forall i :: 0 <= i < |Rest(s, p)| ==> Rest(s, p)[i].Normal?
  {
    if s != [] && p != [] {
      RestOfNames(s[1..], p[1..]);
    }
  }

  // ----- lexical resolution

  function ResolveOne(dir: Path, c: Component): (r: Path) {
    match c
    case RootDir => [RootDir]
    case CurDir => dir
    case ParentDir => if |dir| > 1 then dir[..|dir| - 1] else dir
    case Normal(_) => dir + [c]
  }

  /** Following `rel` from the directory `dir` without looking at the filesystem. */
  function Resolve(dir: Path, rel: Path): (r: Path)
    decreases |rel|
  {
    if rel == [] then dir else Resolve(ResolveOne(dir, rel[0]), rel[1..])
  }

  lemma {:induction false} ResolveUps(dir: Path, n: nat, rest: Path)
    requires n < |dir|
    ensures Resolve(dir, UpDirs(n) + rest) == Resolve(dir[..|dir| - n], rest)
    decreases n
  {
    if n == 0 {
      assert UpDirs(0) + rest == rest && dir[..|dir|] == dir;
    } else {
      var up := dir[..|dir| - 1];
      assert (UpDirs(n) + rest)[1..] == UpDirs(n - 1) + rest;
      ResolveUps(up, n - 1, rest);
      assert up[..|up| - (n - 1)] == dir[..|dir| - n];
    }
  }

  lemma {:induction false} ResolveNames(dir: Path, names: Path)
    requires forall i :: 0 <= i < |names| ==> names[i].Normal?
    ensures Resolve(dir, names) == dir + names
    decreases |names|
  {
    if names != [] {
      ResolveNames(dir + [names[0]], names[1..]);
      assert dir + [names[0]] + names[1..] == dir + names;
    } else {
      assert dir + names == dir;
    }
  }

  // ----- the exact condition

  /** Once a pair differs, all later pairs differ. */
  ghost predicate NoRematch(s: Path, p: Path) {
    forall i, j :: 0 <= i < j < |s| && j < |p| && s[i] != p[i] ==> s[j] != p[j]
  }

  lemma {:induction false} RestLength(s: Path, p: Path)
    ensures |Rest(s, p)| == Ups(s, p) + (if |s| > |p| then |s| - |p| else 0)
  {
    if s != [] && p != [] {
      RestLength(s[1..], p[1..]);
    }
  }

  /** A common front contributes nothing. */
  lemma {:induction false} CommonFront(s: Path, p: Path, m: nat)
    requires m <= |s| && m <= |p| && forall i :: 0 <= i < m ==> s[i] == p[i]
    ensures Rest(s, p) == Rest(s[m..], p[m..]) && Ups(s, p) == Ups(s[m..], p[m..])
    decreases m
  {
    if m > 0 {
      CommonFront(s[1..], p[1..], m - 1);
      assert s[1..][m - 1..] == s[m..] && p[1..][m - 1..] == p[m..];
    } else {
      assert s[0..] == s && p[0..] == p;
    }
  }

  lemma {:induction false} AllDiffer(s: Path, p: Path)
    requires |p| <= |s| && forall i :: 0 <= i < |p| ==> s[i] != p[i]
    ensures Rest(s, p) == s && Ups(s, p) == |p|
  {
    if p != [] {
      AllDiffer(s[1..], p[1..]);
      assert [s[0]] + s[1..] == s;
    }
  }

  lemma {:induction false} SomeAgree(s: Path, p: Path, j: nat)
    requires j < |s| && j < |p| && s[j] == p[j]
    ensures Ups(s, p) < |p|
    decreases j
  {
    if j > 0 {
      SomeAgree(s[1..], p[1..], j - 1);
    }
  }

  lemma {:induction false} FirstDifference(s: Path, p: Path) returns (m: nat)
    ensures m <= |s| && m <= |p| && forall i :: 0 <= i < m ==> s[i] == p[i]
    ensures m < |s| && m < |p| ==> s[m] != p[m]
  {
    if s == [] || p == [] || s[0] != p[0] {
      m := 0;
    } else {
      m := FirstDifference(s[1..], p[1..]);
      m := m + 1;
      forall i | 0 <= i < m ensures s[i] == p[i] {
        if i > 0 {
          assert s[1..][i - 1] == p[1..][i - 1];
        }
      }
    }
  }

  /** Where the link leads, in terms of the pairs. */
  lemma ResolveRelative(s: Path, p: Path)
    requires Normalised(s) && Normalised(p)
    ensures Ups(s, p) < |p|
    ensures Resolve(p, Relative(s, p)) == p[..|p| - Ups(s, p)] + Rest(s, p)
  {
    SomeAgree(s, p, 0);
    RestNormal(s, p);
    assert Relative(s, p) == UpDirs(Ups(s, p)) + Rest(s, p);
    ResolveUps(p, Ups(s, p), Rest(s, p));
    ResolveNames(p[..|p| - Ups(s, p)], Rest(s, p));
  }

  lemma SufficientShape(s: Path, p: Path) returns (m: nat)
    requires |p| <= |s| && NoRematch(s, p)
    ensures m <= |p| && Ups(s, p) == |p| - m && Rest(s, p) == s[m..]
    ensures forall i :: 0 <= i < m ==> s[i] == p[i]
  {
    m := FirstDifference(s, p);
    CommonFront(s, p, m);
    SuffixDiffers(s, p, m);
    AllDiffer(s[m..], p[m..]);
  }

  lemma ConditionSuffices(s: Path, p: Path)
    requires Normalised(s) && Normalised(p) && |p| <= |s| && NoRematch(s, p)
    ensures Resolve(p, Relative(s, p)) == s
  {
    ResolveRelative(s, p);
    var m := SufficientShape(s, p);
    Glue(s, p, m);
  }

  lemma Glue(s: Path, p: Path, m: nat)
    requires m <= |p| <= |s| && forall i :: 0 <= i < m ==> s[i] == p[i]
    ensures p[..m] + s[m..] == s
  {
  }

  lemma FrontAt(p: Path, k: nat, r: Path, m: nat)
    requires k <= |p|
    ensures m < k ==> (p[..k] + r)[m] == p[m]
  {
  }

  lemma SuffixDiffers(s: Path, p: Path, m: nat)
    requires NoRematch(s, p) && m <= |p| <= |s| && (m < |p| ==> s[m] != p[m])
    ensures forall i :: 0 <= i < |p[m..]| ==> s[m..][i] != p[m..][i]
  {
  }

  lemma ConditionNecessary(s: Path, p: Path)
    requires Normalised(s) && Normalised(p) && Resolve(p, Relative(s, p)) == s
    ensures |p| <= |s| && NoRematch(s, p)
  {
    ResolveRelative(s, p);
    RestLength(s, p);
    var m := FirstDifference(s, p);
    CommonFront(s, p, m);
    if m < |p| {
      NoneAgreesBehind(s, p, m);
    }
  }

  /** If a pair behind the difference agrees, fewer levels are left than there are components. */
  lemma DiffersBehind(s: Path, p: Path, m: nat, j: nat)
    requires m < j < |p| <= |s| && s[m] != p[m]
    requires Ups(s, p) == Ups(s[m..], p[m..])
    requires p[..|p| - Ups(s, p)] + Rest(s, p) == s
    ensures s[j] != p[j]
  {
    hide Rest, Ups;
    if s[j] == p[j] {
      assert s[m..][j - m] == p[m..][j - m];
      SomeAgree(s[m..], p[m..], j - m);
      FrontAt(p, |p| - Ups(s, p), Rest(s, p), m);
    }
  }

  /** If fewer levels are left than there are components behind the difference, the difference stays. */
  lemma NoneAgreesBehind(s: Path, p: Path, m: nat)
    requires m < |p| <= |s| && s[m] != p[m] && forall i :: 0 <= i < m ==> s[i] == p[i]
    requires Ups(s, p) == Ups(s[m..], p[m..])
    requires p[..|p| - Ups(s, p)] + Rest(s, p) == s
    ensures NoRematch(s, p)
  {
    hide Rest, Ups;
    forall j | m < j < |p| ensures s[j] != p[j] {
      DiffersBehind(s, p, m, j);
    }
  }

  /** The text is empty if and only if the link leads to its own directory or to one above it. */
  lemma EmptyRelative(s: Path, p: Path)
    requires Normalised(s) && Normalised(p)
    ensures Relative(s, p) == [] <==> s <= p
  {
    hide Rest, Ups;
    RestNormal(s, p);
    RestLength(s, p);
    var m := FirstDifference(s, p);
    CommonFront(s, p, m);
    UpsOfSuffix(s, p, m);
  }

  /** Behind the common front there is a differing pair, or one path has ended. */
  lemma UpsOfSuffix(s: Path, p: Path, m: nat)
    requires m <= |s| && m <= |p|
    ensures m == |s| ==> Rest(s[m..], p[m..]) == [] && Ups(s[m..], p[m..]) == 0
    ensures m < |s| && m < |p| && s[m] != p[m] ==> Ups(s[m..], p[m..]) > 0
  {
  }

  /**
    The link text computed for a link to `s` in directory `p` resolves to `s` if and only if
    `s` has at least as many components as `p` and no pair agrees again after the first
    difference.
   */
  lemma RelativeLinkExact(s: Path, p: Path)
    requires Normalised(s) && Normalised(p)
    ensures Resolve(p, Relative(s, p)) == s <==> |p| <= |s| && NoRematch(s, p)
  {
    if |p| <= |s| && NoRematch(s, p) {
      ConditionSuffices(s, p);
    }
    if Resolve(p, Relative(s, p)) == s {
      ConditionNecessary(s, p);
    }
  }

  /** A link that leads astray: `/a/x/c` from the directory `/b/x`. */
  lemma RematchLeadsAstray()
    ensures var s, p := [RootDir, Normal("a"), Normal("x"), Normal("c")], [RootDir, Normal("b"), Normal("x")];
            Normalised(s) && Normalised(p) && Resolve(p, Relative(s, p)) != s
  {
  }

  /** A common root directory in front of both paths does not change the condition. */
  lemma CommonRoot(root: Path, s: Path, p: Path)
    ensures |root + p| <= |root + s| && NoRematch(root + s, root + p) <==> |p| <= |s| && NoRematch(s, p)
  {
    if NoRematch(root + s, root + p) {
      forall i, j | 0 <= i < j < |s| && j < |p| && s[i] != p[i] ensures s[j] != p[j] {
        assert (root + s)[|root| + i] != (root + p)[|root| + i];
        assert (root + s)[|root| + j] != (root + p)[|root| + j];
      }
    }
    if NoRematch(s, p) {
      forall i, j | 0 <= i < j < |root + s| && j < |root + p| && (root + s)[i] != (root + p)[i]
        ensures (root + s)[j] != (root + p)[j]
      {
        assert i >= |root| && s[i - |root|] != p[i - |root|];
        assert s[j - |root|] != p[j - |root|];
      }
    }
  }
}
