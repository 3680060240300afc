/**
  `clone_path`: installing a path, its ancestors and its symlink targets below a
  destination root, with read-only directories made writable for the moment.
 */
module ClonePath {
  import R = RelativeLink

  /** An absolute path: the names below `/`. */
  type Names = seq<string>

  /** Permission bits; `other` are those that have nothing to do with writing. */
  datatype Mode = Mode(uw: bool, gw: bool, ow: bool, other: nat)

  predicate ReadOnly(m: Mode) {
    !m.uw && !m.gw && !m.ow
  }

  /** `set_readonly(false)`. */
  function Writable(m: Mode): (r: Mode)
    ensures !ReadOnly(r) && r.uw && r.gw && r.ow && r.other == m.other
  {
    Mode(true, true, true, m.other)
  }

  /** A source entry. Link texts are free of `.` and `..`. */
  datatype Node =
    | Dir(mode: Mode)
    | File(mode: Mode, data: string)
    | Link(absolute: bool, text: Names)
    | Special

  /** A destination entry. */
  datatype Copy =
    | CDir(mode: Mode)
    | CFile(mode: Mode, data: string)
    | CLink(text: R.Path)

  type Tree = map<Names, Node>
  type Dest = map<Names, Copy>

  function Up(p: Names): (r: Names)
    requires p != []
    ensures |r| == |p| - 1
  {
    p[..|p| - 1]
  }

  predicate IsLink(src: Tree, p: Names) {
    p in src && src[p].Link?
  }

  /** What a link points to: an absolute text, or a text below the link's directory. */
  function Target(src: Tree, p: Names): (r: Names)
    requires IsLink(src, p)
  {
    if src[p].absolute || p == [] then src[p].text else Up(p) + src[p].text
  }

  /** The text of a link as a path. */
  function LinkPath(src: Tree, p: Names): (r: R.Path)
    requires IsLink(src, p)
  {
    if src[p].absolute then Abs(src[p].text) else Abs(src[p].text)[1..]
  }

  /** Following the link's text from the link's directory leads to its target. */
  lemma TargetResolves(src: Tree, p: Names)
    requires IsLink(src, p) && p != []
    ensures R.Resolve(Abs(Up(p)), LinkPath(src, p)) == Abs(Target(src, p))
  {
    var text := Abs(src[p].text);
    if src[p].absolute {
      R.ResolveNames([R.RootDir], text[1..]);
      assert text == [R.RootDir] + text[1..];
    } else {
      R.ResolveNames(Abs(Up(p)), text[1..]);
      AbsAppend(Up(p), src[p].text);
    }
  }

  function Abs(p: Names): (r: R.Path)
    ensures |r| == |p| + 1 && R.Normalised(r)
  {
    [R.RootDir] + seq(|p|, i requires 0 <= i < |p| => R.Normal(p[i]))
  }

  // ----- hypotheses

  /** No proper ancestor of `p` is a link. */
  ghost predicate RealAncestors(src: Tree, p: Names) {
    forall k :: 0 <= k < |p| ==> !IsLink(src, p[..k])
  }

  /** A source tree: entries live in directories, and links lead through real directories. */
  ghost predicate SourceTree(src: Tree) {
    && (forall p :: p in src && p != [] ==> Up(p) in src && src[Up(p)].Dir?)
    && (forall p {:trigger Target(src, p)} :: IsLink(src, p) ==> RealAncestors(src, Target(src, p)))
    && !IsLink(src, [])
  }

  /** Following links from link to link ends: `rank` decreases. */
  ghost predicate AcyclicLinks(src: Tree, rank: Names -> nat) {
    forall p {:trigger Target(src, p)} ::
      IsLink(src, p) && IsLink(src, Target(src, p)) ==> rank(Target(src, p)) < rank(p)
  }

  /** A destination: its root exists, entries live in directories, source directories are directories. */
  ghost predicate DestTree(src: Tree, dst: Dest) {
    && [] in dst
    && (forall p :: p in dst && p != [] ==> Up(p) in dst && dst[Up(p)].CDir?)
    && (forall p :: p in dst && p in src && src[p].Dir? ==> dst[p].CDir?)
  }

  // ----- what a path needs

  /** One dependency of installing `p`: its parent directory or its symlink target. */
  ghost predicate Needs1(src: Tree, p: Names, q: Names) {
    || (p != [] && q == Up(p))
    || (IsLink(src, p) && q == Target(src, p))
  }

  ghost predicate NeedsIn(src: Tree, p: Names, q: Names, n: nat)
    decreases n
  {
    if n == 0 then p == q else exists r :: Needs1(src, p, r) && NeedsIn(src, r, q, n - 1)
  }

  ghost predicate Needs(src: Tree, p: Names, q: Names) {
    exists n: nat :: NeedsIn(src, p, q, n)
  }

  lemma NeedsSelf(src: Tree, p: Names)
    ensures Needs(src, p, p)
  {
    assert NeedsIn(src, p, p, 0);
  }

  lemma NeedsStep(src: Tree, p: Names, r: Names, q: Names)
    requires Needs1(src, p, r) && Needs(src, r, q)
    ensures Needs(src, p, q)
  {
    var n: nat :| NeedsIn(src, r, q, n);
    assert NeedsIn(src, p, q, n + 1);
  }

  /** 0 for anything but a link. */
  ghost function LinkRank(src: Tree, rank: Names -> nat, p: Names): (n: nat) {
    if IsLink(src, p) then 1 + rank(p) else 0
  }

  lemma Needs1Rank(src: Tree, rank: Names -> nat, p: Names, r: Names)
    requires SourceTree(src) && AcyclicLinks(src, rank) && RealAncestors(src, p) && Needs1(src, p, r)
    ensures RealAncestors(src, r)
    ensures LinkRank(src, rank, r) < LinkRank(src, rank, p) || (LinkRank(src, rank, r) == 0 && p != [] && r == Up(p))
  {
    if p != [] && r == Up(p) {
      assert p[..|p| - 1] == r && !IsLink(src, p[..|p| - 1]);
      forall k | 0 <= k < |r| ensures !IsLink(src, r[..k]) {
        assert r[..k] == p[..k];
      }
    }
  }

  /** Nothing a path needs has a higher link rank; what an ordinary path needs are its ancestors. */
  lemma {:induction false} NeedsBelow(src: Tree, rank: Names -> nat, p: Names, q: Names, n: nat)
    requires SourceTree(src) && AcyclicLinks(src, rank) && RealAncestors(src, p) && NeedsIn(src, p, q, n)
    ensures RealAncestors(src, q)
    ensures LinkRank(src, rank, q) <= LinkRank(src, rank, p)
    ensures LinkRank(src, rank, p) == 0 ==> |q| <= |p|
    decreases n
  {
    if n > 0 {
      var r :| Needs1(src, p, r) && NeedsIn(src, r, q, n - 1);
      Needs1Rank(src, rank, p, r);
      NeedsBelow(src, rank, r, q, n - 1);
    }
  }

  // ----- the result

  /** The link leads to its own directory or to one above it, so that its relative text is empty. */
  predicate LinksUp(src: Tree, q: Names) {
    q != [] && IsLink(src, q) && Target(src, q) <= Up(q)
  }

  /** An existing entry of a kind that can be installed. */
  ghost predicate Installable(src: Tree, copies: Names -> bool, q: Names) {
    q in src && !src[q].Special? && (src[q].File? ==> copies(q)) && !LinksUp(src, q)
  }

  /** The faithful image of a source entry. */
  ghost predicate IsImage(src: Tree, copies: Names -> bool, root: Names, q: Names, c: Copy) {
    && Installable(src, copies, q) && q != []
    && match src[q]
       case Dir(mode) => c == CDir(mode)
       case File(mode, data) => c == CFile(mode, data)
       case Link(_, _) => c == CLink(R.Relative(Abs(root + Target(src, q)), Abs(root + Up(q))))
       case Special => false
  }

  /** Every entry of `before` is still there as it was, permissions included. */
  ghost predicate Unchanged(before: Dest, after: Dest) {
    forall q :: q in before ==> q in after && after[q] == before[q]
  }

  /**
    From `before` to `after` nothing changed but that images of entries needed for `p` were
    added, each link together with its target.
   */
  ghost predicate Grown(src: Tree, copies: Names -> bool, root: Names, p: Names, before: Dest, after: Dest) {
    && Unchanged(before, after)
    && (forall q :: q in after && q !in before ==>
          && IsImage(src, copies, root, q, after[q]) && Needs(src, p, q)
          && (IsLink(src, q) ==> Target(src, q) in after))
  }

  /** Nothing is lost; at most a directory is left writable. */
  ghost predicate NothingLost(before: Dest, after: Dest) {
    forall q :: q in before ==>
      q in after && (after[q] == before[q] || (before[q].CDir? && after[q] == CDir(Writable(before[q].mode))))
  }

  /** Everything that `p` needs and that is not there yet can be installed. */
  ghost predicate Clonable(src: Tree, copies: Names -> bool, dst: Dest, p: Names) {
    forall q :: Needs(src, p, q) && q !in dst ==> Installable(src, copies, q)
  }

  /** Making the entry `p` itself ends without putting permissions back. */
  ghost predicate HaltsAt(src: Tree, copies: Names -> bool, dst: Dest, p: Names) {
    p in src && (src[p].Special? || (src[p].Link? && !Clonable(src, copies, dst, Target(src, p))))
  }

  /** Cloning `p` comes to an entry that ends it without putting permissions back. */
  ghost predicate Halts(src: Tree, copies: Names -> bool, dst: Dest, p: Names)
    decreases |p|
  {
    p !in dst && (HaltsAt(src, copies, dst, p) || (p != [] && Halts(src, copies, dst, Up(p))))
  }

  lemma GrownVia(src: Tree, copies: Names -> bool, root: Names, p: Names, r: Names, before: Dest, after: Dest)
    requires Needs1(src, p, r) && Grown(src, copies, root, r, before, after)
    ensures Grown(src, copies, root, p, before, after)
  {
    forall q | q in after && q !in before ensures Needs(src, p, q) {
      NeedsStep(src, p, r, q);
    }
  }

  lemma GrownTransitive(src: Tree, copies: Names -> bool, root: Names, p: Names, a: Dest, b: Dest, c: Dest)
    requires Grown(src, copies, root, p, a, b) && Grown(src, copies, root, p, b, c)
    ensures Grown(src, copies, root, p, a, c)
  {
  }

  lemma ClonableVia(src: Tree, copies: Names -> bool, dst: Dest, p: Names, r: Names)
    requires Needs1(src, p, r) && Clonable(src, copies, dst, p)
    ensures Clonable(src, copies, dst, r)
  {
    forall q | Needs(src, r, q) ensures Needs(src, p, q) {
      NeedsStep(src, p, r, q);
    }
  }

  lemma ClonableSelf(src: Tree, copies: Names -> bool, dst: Dest, p: Names)
    requires Clonable(src, copies, dst, p) && p !in dst
    ensures Installable(src, copies, p)
  {
    NeedsSelf(src, p);
  }

  lemma ClonableLater(src: Tree, copies: Names -> bool, before: Dest, after: Dest, p: Names)
    requires Clonable(src, copies, before, p) && NothingLost(before, after)
    ensures Clonable(src, copies, after, p)
  {
  }

  /** Cloning the target of a link leaves the link's own place free and its directory as it was. */
  lemma PlaceKept(src: Tree, copies: Names -> bool, root: Names, p: Names, before: Dest, after: Dest)
    requires p != [] && IsLink(src, p) && p !in before && !Needs(src, Target(src, p), p)
    requires Grown(src, copies, root, Target(src, p), before, after)
    ensures p !in after
    ensures Up(p) in before ==> Up(p) in after && after[Up(p)] == before[Up(p)]
  {
  }

  /** A link is not among the things its target needs. */
  lemma NotNeededByTarget(src: Tree, rank: Names -> nat, p: Names)
    requires SourceTree(src) && AcyclicLinks(src, rank) && IsLink(src, p)
    ensures !Needs(src, Target(src, p), p)
  {
    var t := Target(src, p);
    if Needs(src, t, p) {
      var n: nat :| NeedsIn(src, t, p, n);
      NeedsBelow(src, rank, t, p, n);
    }
  }

  lemma NotNeededByParent(src: Tree, rank: Names -> nat, p: Names)
    requires SourceTree(src) && AcyclicLinks(src, rank) && RealAncestors(src, p) && p != []
    ensures RealAncestors(src, Up(p)) && !IsLink(src, Up(p)) && !Needs(src, Up(p), p)
  {
    Needs1Rank(src, rank, p, Up(p));
    assert !IsLink(src, p[..|p| - 1]);
    if Needs(src, Up(p), p) {
      var n: nat :| NeedsIn(src, Up(p), p, n);
      NeedsBelow(src, rank, Up(p), p, n);
    }
  }

  // ----- the recursive installer

  /** The directory of `p` is there and can be written to. */
  predicate HasRoom(dst: Dest, p: Names)
    requires p != []
  {
    Up(p) in dst && dst[Up(p)].CDir? && !ReadOnly(dst[Up(p)].mode)
  }

  class Cloner {
    const src: Tree
    const root: Names                 // the destination root directory
    const copies: Names -> bool       // whether copying a file's data succeeds
    var dst: Dest                     // the destination, relative to the root directory

    constructor (src: Tree, root: Names, copies: Names -> bool, dst: Dest)
      ensures this.src == src && this.root == root && this.copies == copies && this.dst == dst
    {
      this.src, this.root, this.copies, this.dst := src, root, copies, dst;
    }

    /**
      `symlink`, `mkdir` and `open(O_CREAT)`: the parent must be a writable directory, and
      the text of a link must not be empty.
     */
    method Create(p: Names, c: Copy) returns (ok: bool)
      requires p != []
      modifies this`dst
      ensures ok == (p !in old(dst) && HasRoom(old(dst), p) && c != CLink([]))
      ensures dst == if ok then old(dst)[p := c] else old(dst)
    {
      if p in dst || !HasRoom(dst, p) || c == CLink([]) {
        return false;
      }
      dst := dst[p := c];
      return true;
    }

    /** `copy`: a failure leaves an empty file behind. */
    method CopyFile(p: Names, mode: Mode, data: string) returns (ok: bool)
      requires p != []
      modifies this`dst
      ensures ok == (copies(p) && p !in old(dst) && HasRoom(old(dst), p))
      ensures ok ==> dst == old(dst)[p := CFile(mode, data)]
      ensures !ok ==> dst == old(dst)
                      || (p !in old(dst) && HasRoom(old(dst), p) && dst == old(dst)[p := CFile(mode, "")])
    {
      if copies(p) {
        ok := Create(p, CFile(mode, data));
      } else {
        var created := Create(p, CFile(mode, ""));
        ok := false;
      }
    }

    /** The text that `ln_r` gives to the link at `p`. */
    method LinkText(p: Names) returns (text: R.Path)
      requires p != [] && IsLink(src, p)
      ensures text == R.Relative(Abs(root + Target(src, p)), Abs(root + Up(p)))
    {
      var full := Abs(root + p);
      assert full[..|full| - 1] == Abs(root + Up(p));
      var r := R.ConvertAbsRel(Abs(root + Target(src, p)), full);
      text := r.value;
    }

    /** A link: its target is cloned, then `ln_r` makes it. `aborted`: the nested call failed. */
    method InstallLink(p: Names, ghost rank: Names -> nat) returns (ok: bool, aborted: bool)
      requires SourceTree(src) && AcyclicLinks(src, rank) && DestTree(src, dst)
      requires p != [] && IsLink(src, p) && RealAncestors(src, p) && p !in dst
      modifies this`dst
      ensures NothingLost(old(dst), dst) && DestTree(src, dst)
      ensures ok ==> !aborted && p in dst && Grown(src, copies, root, p, old(dst), dst)
      ensures LinksUp(src, p) ==> !ok
      ensures Clonable(src, copies, old(dst), p) && HasRoom(old(dst), p) ==> ok
      ensures !aborted ==> Unchanged(old(dst), dst)
      ensures aborted ==> !Clonable(src, copies, old(dst), Target(src, p))
      ensures Complete(src, old(dst)) && !Clonable(src, copies, old(dst), Target(src, p)) ==> aborted
      decreases LinkRank(src, rank, p), |p|, 0
    {
      hide Needs, Grown, DestTree, NothingLost, SourceTree, AcyclicLinks, RealAncestors, Clonable, Unchanged, Complete;
      NeedsSelf(src, p);
      ghost var before := dst;
      var target := Target(src, p);
      assert Needs1(src, p, target);
      Needs1Rank(src, rank, p, target);
      if Clonable(src, copies, before, p) {
        ClonableSelf(src, copies, before, p);
        ClonableVia(src, copies, before, p, target);
      }
      ok := ClonePath(target, rank);
      aborted := !ok;
      if ok {
        GrownVia(src, copies, root, p, target, before, dst);
        GrownUnchanged(src, copies, root, p, before, dst);
        NotNeededByTarget(src, rank, p);
        PlaceKept(src, copies, root, p, before, dst);
        ghost var middle := dst;
        var text := LinkText(p);
        EmptyText(root, target, Up(p));
        ok := Create(p, CLink(text));
        if ok {
          AddedKept(src, p, before, middle, CLink(text));
          AddedUnchanged(p, before, middle, CLink(text));
          GrownByOne(src, copies, root, p, before, middle, CLink(text));
        }
      }
    }

    /**
      Making the entry itself, once its parent is in place and writable. `aborted`: a nested
      call failed, or the entry is neither link, directory nor file, for which the source has
      no code and panics; in both cases nothing is restored.
     */
    method Install(p: Names, ghost rank: Names -> nat) returns (ok: bool, aborted: bool)
      requires SourceTree(src) && AcyclicLinks(src, rank) && DestTree(src, dst)
      requires p != [] && p in src && RealAncestors(src, p) && p !in dst
      modifies this`dst
      ensures NothingLost(old(dst), dst) && DestTree(src, dst)
      ensures ok ==> !aborted && p in dst && Grown(src, copies, root, p, old(dst), dst)
      ensures src[p].Special? ==> aborted && dst == old(dst)
      ensures LinksUp(src, p) ==> !ok
      ensures Clonable(src, copies, old(dst), p) && HasRoom(old(dst), p) ==> ok
      ensures !aborted ==> Unchanged(old(dst), dst)
      ensures aborted ==> HaltsAt(src, copies, old(dst), p)
      ensures Complete(src, old(dst)) && HaltsAt(src, copies, old(dst), p) ==> aborted
      decreases LinkRank(src, rank, p), |p|, 1
    {
      hide Needs, Grown, DestTree, NothingLost, SourceTree, AcyclicLinks, RealAncestors, Clonable, Unchanged, Complete;
      NeedsSelf(src, p);
      aborted := false;
      ghost var before := dst;
      NothingLostSelf(before);
      if Clonable(src, copies, before, p) {
        ClonableSelf(src, copies, before, p);
      }
      match src[p] {
        case Link(_, _) =>
          ok, aborted := InstallLink(p, rank);
        case Dir(mode) =>
          ok := Create(p, CDir(mode));
          AddedKept(src, p, before, before, CDir(mode));
          AddedUnchanged(p, before, before, CDir(mode));
          GrownByOne(src, copies, root, p, before, before, CDir(mode));
        case File(mode, data) =>
          ok := CopyFile(p, mode, data);
          AddedKept(src, p, before, before, CFile(mode, data));
          AddedKept(src, p, before, before, CFile(mode, ""));
          AddedUnchanged(p, before, before, CFile(mode, data));
          AddedUnchanged(p, before, before, CFile(mode, ""));
          if ok {
            GrownByOne(src, copies, root, p, before, before, CFile(mode, data));
          }
        case Special =>
          ok, aborted := false, true;
      }
    }

    /**
      Succeeds if, and with a complete destination only if, everything that is needed and not
      there yet can be installed. On success the path is there, every entry that existed
      before is unchanged, permissions included, and what was added are images of entries the
      path needs. On failure nothing is lost.
     */
    method ClonePath(p: Names, ghost rank: Names -> nat) returns (ok: bool)
      requires SourceTree(src) && AcyclicLinks(src, rank) && DestTree(src, dst) && RealAncestors(src, p)
      modifies this`dst
      ensures NothingLost(old(dst), dst) && DestTree(src, dst)
      ensures ok ==> p in dst && Grown(src, copies, root, p, old(dst), dst)
      ensures Clonable(src, copies, old(dst), p) ==> ok
      ensures Complete(src, old(dst)) ==> (ok <==> Clonable(src, copies, old(dst), p))
      ensures LinksUp(src, p) && p !in old(dst) ==> !ok
      ensures !Halts(src, copies, old(dst), p) ==> Unchanged(old(dst), dst)
      ensures Complete(src, old(dst)) && p !in old(dst) && p != [] && Up(p) in old(dst)
              && old(dst)[Up(p)].CDir? && ReadOnly(old(dst)[Up(p)].mode) ==>
                (dst[Up(p)] == CDir(Writable(old(dst)[Up(p)].mode)) <==> HaltsAt(src, copies, old(dst), p))
      ensures p in old(dst) ==> ok && dst == old(dst)
      decreases LinkRank(src, rank, p), |p|, 2
    {
      hide Needs, Grown, DestTree, NothingLost, SourceTree, AcyclicLinks, Clonable, Complete, Unchanged, HaltsAt;
      ghost var d0 := dst;
      NothingLostSelf(d0);
      NeedsSelf(src, p);
      if p in dst {
        GrownSelf(src, copies, root, p, d0);
        if Complete(src, d0) {
          ClonedMeansClonable(src, copies, root, p, d0, d0);
        }
        return true;
      }
      RootThere(src, d0);
      var parent := Up(p);    // the destination root exists, so `p` is not `/`
      assert Needs1(src, p, parent);
      NotNeededByParent(src, rank, p);
      if Clonable(src, copies, d0, p) {
        ClonableSelf(src, copies, d0, p);
        ClonableVia(src, copies, d0, p, parent);
      }
      ok := ClonePath(parent, rank);
      if !ok {
        return false;
      }
      ghost var d1 := dst;
      GrownVia(src, copies, root, p, parent, d0, d1);
      GrownUnchanged(src, copies, root, p, d0, d1);
      NotAdded(src, copies, root, p, parent, d0, d1);
      if p !in src {
        NotInSource(src, copies, d0, p);
        return false;
      }
      ParentThere(src, d1, p);
      var saved := dst[parent].mode;
      if ReadOnly(saved) {
        dst := dst[parent := CDir(Writable(saved))];
      }
      ghost var d2 := dst;
      MadeWritable(src, parent, d1, d2);
      NothingLostTransitive(d0, d1, d2);
      if Clonable(src, copies, d0, p) {
        ClonableLater(src, copies, d0, d2, p);
      }
      HaltsSince(src, copies, d0, d2, p);
      SameEntries(src, copies, parent, d1, d2, p);
      var aborted;
      ok, aborted := Install(p, rank);
      ghost var d3 := dst;
      NothingLostTransitive(d0, d2, d3);
      if aborted {
        if ReadOnly(saved) {
          LeftWritable(parent, d1, d2, d3);
        }
        return false;
      }
      if ReadOnly(saved) {
        dst := dst[parent := CDir(saved)];
      }
      PutBack(src, parent, d0, d1, d2, d3, dst);
      UnchangedTransitive(d0, d1, dst);
      if ok {
        Restored(src, copies, root, p, parent, d1, d2, d3, dst);
        GrownTransitive(src, copies, root, p, d0, d1, dst);
        if Complete(src, d0) {
          ClonedMeansClonable(src, copies, root, p, d0, dst);
        }
      }
    }
  }

  /** `b` is `a` with the parent writable. */
  ghost predicate Unlocked(parent: Names, a: Dest, b: Dest) {
    && parent in a && a[parent].CDir?
    && b == if ReadOnly(a[parent].mode) then a[parent := CDir(Writable(a[parent].mode))] else a
  }

  /** `b` is `a` with the permissions of the parent as they were in `d1`. */
  ghost predicate Relocked(parent: Names, d1: Dest, a: Dest, b: Dest) {
    && parent in d1 && d1[parent].CDir?
    && b == if ReadOnly(d1[parent].mode) then a[parent := CDir(d1[parent].mode)] else a
  }

  lemma MadeWritable(src: Tree, parent: Names, a: Dest, b: Dest)
    requires DestTree(src, a) && Unlocked(parent, a, b)
    ensures DestTree(src, b) && NothingLost(a, b)
    ensures parent in b && b[parent].CDir? && !ReadOnly(b[parent].mode)
  {
  }

  lemma PutBack(src: Tree, parent: Names, d0: Dest, d1: Dest, d2: Dest, d3: Dest, d4: Dest)
    requires Unlocked(parent, d1, d2) && Relocked(parent, d1, d3, d4)
    requires DestTree(src, d3) && NothingLost(d0, d1) && NothingLost(d0, d3) && NothingLost(d2, d3)
    requires Unchanged(d2, d3)
    ensures DestTree(src, d4) && NothingLost(d0, d4) && Unchanged(d1, d4)
  {
  }

  lemma UnchangedTransitive(a: Dest, b: Dest, c: Dest)
    requires Unchanged(a, b) && Unchanged(b, c)
    ensures Unchanged(a, c)
  {
  }

  lemma RootThere(src: Tree, dst: Dest)
    requires DestTree(src, dst)
    ensures [] in dst
  {
  }

  lemma ParentThere(src: Tree, dst: Dest, p: Names)
    requires SourceTree(src) && DestTree(src, dst) && p in src && p != [] && Up(p) in dst
    ensures dst[Up(p)].CDir?
  {
  }

  lemma GrownSelf(src: Tree, copies: Names -> bool, root: Names, p: Names, dst: Dest)
    ensures Grown(src, copies, root, p, dst, dst)
  {
  }

  /** What its parent needs does not include the path itself. */
  lemma NotAdded(src: Tree, copies: Names -> bool, root: Names, p: Names, r: Names, before: Dest, after: Dest)
    requires Grown(src, copies, root, r, before, after) && !Needs(src, r, p) && p !in before
    ensures p !in after
  {
  }

  lemma NotInSource(src: Tree, copies: Names -> bool, dst: Dest, p: Names)
    requires p !in src && p !in dst
    ensures !Clonable(src, copies, dst, p) && !HaltsAt(src, copies, dst, p) && !LinksUp(src, p)
  {
    NeedsSelf(src, p);
    assert !Installable(src, copies, p);
  }

  /** What ends the call later would have ended it at the start. */
  lemma HaltsSince(src: Tree, copies: Names -> bool, before: Dest, after: Dest, p: Names)
    requires NothingLost(before, after)
    ensures HaltsAt(src, copies, after, p) ==> HaltsAt(src, copies, before, p)
  {
    if IsLink(src, p) && Clonable(src, copies, before, Target(src, p)) {
      ClonableLater(src, copies, before, after, Target(src, p));
    }
  }

  lemma {:induction false} HaltsLater(src: Tree, copies: Names -> bool, before: Dest, after: Dest, p: Names)
    requires NothingLost(before, after) && Halts(src, copies, after, p)
    ensures Halts(src, copies, before, p)
    decreases |p|
  {
    hide HaltsAt;
    HaltsSince(src, copies, before, after, p);
    if !HaltsAt(src, copies, after, p) {
      HaltsLater(src, copies, before, after, Up(p));
    }
  }

  lemma SameEntries(src: Tree, copies: Names -> bool, parent: Names, a: Dest, b: Dest, p: Names)
    requires Unlocked(parent, a, b)
    ensures HaltsAt(src, copies, b, p) <==> HaltsAt(src, copies, a, p)
    ensures Complete(src, b) <==> Complete(src, a)
  {
  }

  lemma LeftWritable(parent: Names, d1: Dest, d2: Dest, d3: Dest)
    requires Unlocked(parent, d1, d2) && ReadOnly(d1[parent].mode) && NothingLost(d2, d3)
    ensures parent in d3 && d3[parent] == CDir(Writable(d1[parent].mode))
  {
  }

  lemma GrownByOne(src: Tree, copies: Names -> bool, root: Names, p: Names, before: Dest, middle: Dest, c: Copy)
    requires Grown(src, copies, root, p, before, middle) && p !in middle && Needs(src, p, p)
    requires IsImage(src, copies, root, p, c) && (IsLink(src, p) ==> Target(src, p) in middle)
    ensures Grown(src, copies, root, p, before, middle[p := c])
  {
  }

  /** A new entry in a directory loses nothing. */
  lemma AddedKept(src: Tree, p: Names, before: Dest, middle: Dest, c: Copy)
    requires DestTree(src, middle) && NothingLost(before, middle)
    requires p !in middle && p in src && (src[p].Dir? ==> c.CDir?)
    ensures NothingLost(before, middle)
    ensures p != [] && Up(p) in middle && middle[Up(p)].CDir? ==>
              DestTree(src, middle[p := c]) && NothingLost(before, middle[p := c])
  {
  }

  lemma AddedUnchanged(p: Names, before: Dest, middle: Dest, c: Copy)
    requires Unchanged(before, middle) && p !in middle
    ensures Unchanged(before, middle[p := c])
  {
  }

  lemma GrownUnchanged(src: Tree, copies: Names -> bool, root: Names, p: Names, before: Dest, after: Dest)
    requires Grown(src, copies, root, p, before, after)
    ensures Unchanged(before, after)
  {
  }

  lemma NothingLostSelf(dst: Dest)
    ensures NothingLost(dst, dst) && Unchanged(dst, dst)
  {
  }

  lemma NothingLostTransitive(a: Dest, b: Dest, c: Dest)
    requires NothingLost(a, b) && NothingLost(b, c)
    ensures NothingLost(a, c)
  {
  }

  /** Undoing the permission change of the parent leaves only what was added. */
  lemma Restored(src: Tree, copies: Names -> bool, root: Names, p: Names, parent: Names, d1: Dest, d2: Dest, d3: Dest,
                 d4: Dest)
    requires Unlocked(parent, d1, d2) && Relocked(parent, d1, d3, d4)
    requires Grown(src, copies, root, p, d2, d3)
    ensures Grown(src, copies, root, p, d1, d4)
  {
  }

  // ----- consequences

  /** Every link in the destination is there together with its target. */
  ghost predicate Complete(src: Tree, dst: Dest) {
    forall q {:trigger Target(src, q)} :: q in dst && IsLink(src, q) ==> Target(src, q) in dst
  }

  lemma CompleteKept(src: Tree, copies: Names -> bool, root: Names, p: Names, before: Dest, after: Dest)
    requires Complete(src, before) && Grown(src, copies, root, p, before, after)
    ensures Complete(src, after)
  {
  }

  lemma {:induction false} NeedsInstalled(src: Tree, dst: Dest, p: Names, q: Names, n: nat)
    requires DestTree(src, dst) && Complete(src, dst) && p in dst && NeedsIn(src, p, q, n)
    ensures q in dst
    decreases n
  {
    if n > 0 {
      var r :| Needs1(src, p, r) && NeedsIn(src, r, q, n - 1);
      NeedsInstalled(src, dst, r, q, n - 1);
    }
  }

  /**
    What a successful call leaves behind: what was there, and exactly what the path needs:
    itself, all ancestors, and the symlink targets with theirs.
   */
  lemma ClonedExactly(src: Tree, copies: Names -> bool, root: Names, p: Names, before: Dest, after: Dest, q: Names)
    requires DestTree(src, after) && Complete(src, before) && Grown(src, copies, root, p, before, after) && p in after
    ensures q in after <==> q in before || Needs(src, p, q)
  {
    CompleteKept(src, copies, root, p, before, after);
    if Needs(src, p, q) {
      var n: nat :| NeedsIn(src, p, q, n);
      NeedsInstalled(src, after, p, q, n);
    }
  }

  /** What was needed and not there could be installed. */
  lemma ClonedMeansClonable(src: Tree, copies: Names -> bool, root: Names, p: Names, before: Dest, after: Dest)
    requires DestTree(src, after) && Complete(src, before) && Grown(src, copies, root, p, before, after) && p in after
    ensures Clonable(src, copies, before, p)
  {
    forall q | Needs(src, p, q) && q !in before ensures Installable(src, copies, q) {
      ClonedExactly(src, copies, root, p, before, after, q);
    }
  }

  lemma EmptyText(root: Names, t: Names, d: Names)
    ensures R.Relative(Abs(root + t), Abs(root + d)) == [] <==> t <= d
  {
    hide R.Relative;
    R.EmptyRelative(Abs(root + t), Abs(root + d));
    PrefixOfAbs(root + t, root + d);
    PrefixBelow(root, t, d);
  }

  lemma PrefixOfAbs(a: Names, b: Names)
    ensures Abs(a) <= Abs(b) <==> a <= b
  {
    if Abs(a) <= Abs(b) {
      forall i | 0 <= i < |a| ensures a[i] == b[i] {
        assert Abs(a)[i + 1] == Abs(b)[i + 1];
      }
    }
  }

  lemma PrefixBelow(root: Names, a: Names, b: Names)
    ensures root + a <= root + b <==> a <= b
  {
    if root + a <= root + b {
      forall i | 0 <= i < |a| ensures a[i] == b[i] {
        assert (root + a)[|root| + i] == (root + b)[|root| + i];
      }
    }
  }

  lemma AbsAppend(a: Names, b: Names)
    ensures Abs(a + b) == Abs(a) + Abs(b)[1..]
  {
  }

  ghost predicate AgreesAgain(s: Names, p: Names) {
    exists i, j :: 0 <= i < j < |s| && j < |p| && s[i] != p[i] && s[j] == p[j]
  }

  lemma NamesRematch(s: Names, p: Names)
    ensures R.NoRematch(Abs(s)[1..], Abs(p)[1..]) <==> !AgreesAgain(s, p)
  {
    var a, b := Abs(s)[1..], Abs(p)[1..];
    assert forall i :: 0 <= i < |s| ==> a[i] == R.Normal(s[i]);
    assert forall i :: 0 <= i < |p| ==> b[i] == R.Normal(p[i]);
    if R.NoRematch(a, b) {
      forall i, j | 0 <= i < j < |s| && j < |p| && s[i] != p[i] ensures s[j] != p[j] {
        assert a[i] != b[i] && a[j] != b[j];
      }
    }
    if !AgreesAgain(s, p) {
      forall i, j | 0 <= i < j < |a| && j < |b| && a[i] != b[i] ensures a[j] != b[j] {
        assert s[i] != p[i];
      }
    }
  }

  /**
    A link can be installed and leads to the installed copy of its target if and only if the
    target is not the link's directory or one above it, has at least as many names as that
    directory, and no name agrees again after the first difference. The destination root does
    not matter.
   */
  lemma LinkLeadsHome(src: Tree, root: Names, q: Names)
    requires IsLink(src, q) && q != []
    ensures var t, text := Target(src, q), R.Relative(Abs(root + Target(src, q)), Abs(root + Up(q)));
            text != [] && R.Resolve(Abs(root + Up(q)), text) == Abs(root + t)
            <==> !LinksUp(src, q) && |Up(q)| <= |t| && !AgreesAgain(t, Up(q))
  {
    hide R.Relative, R.Resolve, R.NoRematch;
    var t, d := Target(src, q), Up(q);
    EmptyText(root, t, d);
    R.RelativeLinkExact(Abs(root + t), Abs(root + d));
    AbsAppend(root, t);
    AbsAppend(root, d);
    R.CommonRoot(Abs(root), Abs(t)[1..], Abs(d)[1..]);
    NamesRematch(t, d);
  }

  // ----- a link to an enclosing directory

  /** `/a/l` is a link to `/a`. */
  function EnclosingLink(): (src: Tree) {
    var mode := Mode(true, false, false, 0);
    map[[] := Dir(mode), ["a"] := Dir(mode), ["a", "l"] := Link(true, ["a"])]
  }

  lemma EnclosingLinkFits(src: Tree, l: Names)
    requires src == EnclosingLink() && l == ["a", "l"]
    ensures SourceTree(src) && AcyclicLinks(src, (p: Names) => 0) && RealAncestors(src, l) && LinksUp(src, l)
  {
    assert Up(l) == ["a"] && Up(["a"]) == [];
    assert forall p :: IsLink(src, p) ==> p == l;
    assert Target(src, l) == ["a"];
    forall k | 0 <= k < |l| ensures !IsLink(src, l[..k]) {
      assert |l[..k]| < 2;
    }
    forall k | 0 <= k < 1 ensures !IsLink(src, ["a"][..k]) {
      assert |["a"][..k]| == 0;
    }
  }

  /** It cannot be installed: the text computed for it is empty. */
  method EnclosingLinkFails() returns (ok: bool)
    ensures !ok
  {
    var src, l := EnclosingLink(), ["a", "l"];
    EnclosingLinkFits(src, l);
    var c := new Cloner(src, ["r"], (p: Names) => true, map[[] := CDir(Mode(true, false, false, 0))]);
    ok := c.ClonePath(l, (p: Names) => 0);
  }

  ghost predicate NeededBy(src: Tree, files: seq<Names>, q: Names) {
    exists p :: p in files && Needs(src, p, q)
  }

  /** From `before` to `after` exactly what the files need was added, and nothing changed. */
  ghost predicate InstalledExactly(src: Tree, copies: Names -> bool, files: seq<Names>, before: Dest, after: Dest) {
    && Unchanged(before, after)
    && (forall q :: q in after <==> q in before || NeededBy(src, files, q))
    && (forall q :: q in after && q !in before ==> Installable(src, copies, q))
  }

  lemma InstalledOneMore(src: Tree, copies: Names -> bool, root: Names, files: seq<Names>, p: Names, start: Dest,
                         before: Dest, after: Dest)
    requires InstalledExactly(src, copies, files, start, before)
    requires DestTree(src, after) && Complete(src, before) && Grown(src, copies, root, p, before, after) && p in after
    ensures InstalledExactly(src, copies, files + [p], start, after)
  {
    forall q ensures q in after <==> q in start || NeededBy(src, files + [p], q) {
      ClonedExactly(src, copies, root, p, before, after, q);
      assert p in files + [p];
      if NeededBy(src, files, q) {
        var f :| f in files && Needs(src, f, q);
        assert f in files + [p];
      }
    }
  }

  /** Installing other files first does not decide whether a path can be cloned. */
  lemma ClonableSince(src: Tree, copies: Names -> bool, done: seq<Names>, start: Dest, before: Dest, p: Names)
    requires InstalledExactly(src, copies, done, start, before)
    ensures Clonable(src, copies, before, p) <==> Clonable(src, copies, start, p)
  {
    hide Needs, Installable;
  }

  /** One round of the loop: `done` are the files installed so far. */
  method InstallNext(c: Cloner, p: Names, ghost done: seq<Names>, ghost start: Dest,
                     ghost rank: Names -> nat) returns (ok: bool)
    requires SourceTree(c.src) && AcyclicLinks(c.src, rank) && DestTree(c.src, c.dst) && Complete(c.src, c.dst)
    requires RealAncestors(c.src, p) && NothingLost(start, c.dst)
    requires InstalledExactly(c.src, c.copies, done, start, c.dst)
    modifies c`dst
    ensures NothingLost(start, c.dst) && DestTree(c.src, c.dst)
    ensures ok ==> Complete(c.src, c.dst) && InstalledExactly(c.src, c.copies, done + [p], start, c.dst)
    ensures ok <==> Clonable(c.src, c.copies, start, p)
    ensures ok || !Halts(c.src, c.copies, start, p) ==> Unchanged(start, c.dst)
  {
    hide Clonable, HaltsAt, Halts;
    ghost var before := c.dst;
    if Halts(c.src, c.copies, before, p) {
      HaltsLater(c.src, c.copies, start, before, p);
    }
    ClonableSince(c.src, c.copies, done, start, before, p);
    ok := c.ClonePath(p, rank);
    NothingLostTransitive(start, before, c.dst);
    if ok {
      CompleteKept(c.src, c.copies, c.root, p, before, c.dst);
      InstalledOneMore(c.src, c.copies, c.root, done, p, start, before, c.dst);
    }
  }

  lemma NothingInstalled(src: Tree, copies: Names -> bool, dst: Dest)
    ensures NothingLost(dst, dst) && InstalledExactly(src, copies, [], dst, dst)
  {
  }

  /** `install_files`: one path after the other, stopping at the first failure. */
  method InstallFiles(c: Cloner, files: seq<Names>, ghost rank: Names -> nat) returns (ok: bool)
    requires SourceTree(c.src) && AcyclicLinks(c.src, rank) && DestTree(c.src, c.dst) && Complete(c.src, c.dst)
    requires forall p :: p in files ==> RealAncestors(c.src, p)
    modifies c`dst
    ensures NothingLost(old(c.dst), c.dst) && DestTree(c.src, c.dst)
    ensures ok ==> InstalledExactly(c.src, c.copies, files, old(c.dst), c.dst)
    ensures ok <==> forall p :: p in files ==> Clonable(c.src, c.copies, old(c.dst), p)
    ensures (forall p :: p in files ==> !Halts(c.src, c.copies, old(c.dst), p)) ==> Unchanged(old(c.dst), c.dst)
  {
    hide Halts, Unchanged, Needs, NothingLost, DestTree, Complete, InstalledExactly, SourceTree, AcyclicLinks,
         RealAncestors, Clonable;
    ghost var start := c.dst;
    ghost var done: seq<Names> := [];
    NothingInstalled(c.src, c.copies, c.dst);
    NothingLostSelf(start);
    for i := 0 to |files|
      invariant NothingLost(start, c.dst) && DestTree(c.src, c.dst) && Complete(c.src, c.dst)
      invariant forall p :: p in done ==> Clonable(c.src, c.copies, start, p)
      invariant Unchanged(start, c.dst)
      invariant done == files[..i] && InstalledExactly(c.src, c.copies, done, start, c.dst)
    {
      assert files[i] in files;
      ok := InstallNext(c, files[i], done, start, rank);
      if !ok {
        return false;
      }
      done := done + [files[i]];
    }
    assert done == files;
    return true;
  }
}
