/**
  The part of `std::path` that the dependency search relies on, on path strings:
  joining, and splitting into a parent directory and a file name. Trailing
  separators and `.` components do not count, as in `Path::components`.
 */
module UnixPath {
  import opened Counting

  const SEP := '/'

  ghost predicate SlashFree(name: string) {
    SEP !in name
  }

  /** A single ordinary path component. */
  ghost predicate ProperName(name: string) {
    SlashFree(name) && name != "" && name != "." && name != ".."
  }

  /** `p` without trailing separators and trailing `.` components. */
  function Trim(p: string): (r: string) {
    if |p| >= 2 && p[|p| - 1] == SEP then Trim(p[..|p| - 1])
    else if |p| >= 2 && p[|p| - 2..] == "/." then Trim(p[..|p| - 1])
    else p
  }

  /** One past the last separator. */
  function BaseStart(p: string): (i: nat)
    ensures i <= |p|
    ensures SlashFree(p[i..])
    ensures i > 0 ==> p[i - 1] == SEP
  {
    if p == "" then 0
    else if p[|p| - 1] == SEP then |p|
    else BaseStart(p[..|p| - 1])
  }

  function FileName(p: string): (r: Option<string>)
    ensures r.Some? ==> ProperName(r.value)
  {
    var t := Trim(p);
    var base := t[BaseStart(t)..];
    if base == "" || base == "." || base == ".." then None else Some(base)
  }

  function Parent(p: string): (r: Option<string>) {
    var t := Trim(p);
    if t == "" || t == "/" then None else Some(Trim(t[..BaseStart(t)]))
  }

  /** `dir` ready to have a component appended (`PathBuf::push` adds the separator). */
  function Prefix(dir: string): (r: string)
    ensures r == "" || r[|r| - 1] == SEP
  {
    if dir == "" || dir[|dir| - 1] == SEP then dir else dir + "/"
  }

  function Join(dir: string, rel: string): (r: string) {
    if rel != "" && rel[0] == SEP then rel else Prefix(dir) + rel
  }

  lemma {:induction false} BaseStartUnique(pre: string, name: string)
    requires SlashFree(name)
    requires pre == "" || pre[|pre| - 1] == SEP
    ensures BaseStart(pre + name) == |pre|
  {
    if name == "" {
      assert pre + name == pre;
    } else {
      assert (pre + name)[..|pre + name| - 1] == pre + name[..|name| - 1];
      assert name[|name| - 1] in name;
      BaseStartUnique(pre, name[..|name| - 1]);
    }
  }

  /** Splitting what `Join` put together gives the name and the trimmed directory back. */
  lemma SplitJoin(dir: string, name: string)
    requires ProperName(name)
    ensures Join(dir, name) == Prefix(dir) + name
    ensures FileName(Join(dir, name)) == Some(name)
    ensures Parent(Join(dir, name)) == Some(Trim(Prefix(dir)))
  {
    var p := Join(dir, name);
    assert name[0] in name && name[|name| - 1] in name;
    assert p == Prefix(dir) + name;
    assert p[|p| - 1] == name[|name| - 1];
    if |name| >= 2 {
      assert p[|p| - 2] == name[|name| - 2] && name[|name| - 2] in name;
    } else {
      assert name == [name[0]];
    }
    assert Trim(p) == p;
    BaseStartUnique(Prefix(dir), name);
    assert p[BaseStart(p)..] == name;
    assert p[..BaseStart(p)] == Prefix(dir);
  }

  /** Without a trailing separator (unless it is the root) and without a trailing `.` component. */
  ghost predicate Clean(dir: string) {
    && dir != ""
    && (dir[|dir| - 1] == SEP ==> dir == "/")
    && (|dir| >= 2 ==> dir[|dir| - 2..] != "/.")
  }

  /** All trailing separators and `.` components are cut off. */
  lemma {:induction false} TrimClean(p: string)
    requires p != ""
    ensures Clean(Trim(p)) && (Clean(p) ==> Trim(p) == p)
    decreases |p|
  {
    if |p| >= 2 && (p[|p| - 1] == SEP || p[|p| - 2..] == "/.") {
      TrimClean(p[..|p| - 1]);
    }
  }

  /** They make no difference, and nothing else is cut off. */
  lemma TrimExact(p: string)
    requires p != ""
    ensures Clean(Trim(p)) && (Clean(p) ==> Trim(p) == p)
    ensures Trim(p + "/") == Trim(p) && Trim(p + "/.") == Trim(p)
  {
    hide Clean;
    TrimClean(p);
    var a, b := p + "/", p + "/.";
    assert a[..|a| - 1] == p && a[|a| - 1] == SEP;
    assert b[..|b| - 1] == a && b[|b| - 2..] == "/.";
    assert b[|b| - 1] == '.';
    assert Trim(b) == Trim(a) == Trim(p);
  }

  /** The parent of a path below a clean directory is that directory. */
  lemma ParentOfJoin(dir: string, name: string)
    requires Clean(dir) && ProperName(name)
    ensures Parent(Join(dir, name)) == Some(dir) && FileName(Join(dir, name)) == Some(name)
  {
    hide FileName, Parent, Join;
    SplitJoin(dir, name);
    assert Prefix(dir)[..|Prefix(dir)| - 1] == if dir == "/" then "" else dir;
  }

  /** A joined path determines the name and the directory prefix it was joined from. */
  lemma JoinInjective(d1: string, n1: string, d2: string, n2: string)
    requires ProperName(n1) && ProperName(n2)
    requires Join(d1, n1) == Join(d2, n2)
    ensures n1 == n2 && Prefix(d1) == Prefix(d2)
  {
    SplitJoin(d1, n1);
    SplitJoin(d2, n2);
    BaseStartUnique(Prefix(d1), n1);
    BaseStartUnique(Prefix(d2), n2);
    var p := Join(d1, n1);
    assert Prefix(d1) == p[..BaseStart(p)] == Prefix(d2);
  }
}
