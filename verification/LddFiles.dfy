/**
  What `recurse` learns from one file before it searches: the loop over the sections, which
  loads every dynamic section and collects search directories and needed names.
 */
module LddFiles {
  import opened Counting
  import opened Bytes
  import DS = DynamicSection
  import opened ElfSections
  import opened LddModel
  import Substitute

  /** `OsStr::from_bytes`. */
  function Text(bytes: seq<Byte>): (s: string)
    ensures |s| == |bytes| && forall i :: 0 <= i < |s| ==> s[i] as int == bytes[i]
  {
    seq(|bytes|, i requires 0 <= i < |bytes| => bytes[i] as char)
  }

  /** The names of the entries whose tag is in `tags`, in order. */
  function NamesWith(tags: set<nat>, entries: seq<DS.Dynamic>): (r: seq<string>) {
    if entries == [] then []
    else
      var front, d := NamesWith(tags, entries[..|entries| - 1]), entries[|entries| - 1];
      if d.dhtype in tags && d.content.Text? then front + [Text(d.content.name)] else front
  }

  const SEARCH_TAGS: set<nat> := {DS.RPATH, DS.RUNPATH}
  const NEEDED_TAGS: set<nat> := {DS.NEEDED}

  function FileOf(entries: seq<DS.Dynamic>): (r: ElfFile) {
    ElfFile(NamesWith(SEARCH_TAGS, entries), NamesWith(NEEDED_TAGS, entries))
  }

  /** RPATH is tag 15, RUNPATH tag 29 and NEEDED tag 1: one more entry adds its name to its list. */
  lemma FileOfOneMore(entries: seq<DS.Dynamic>, d: DS.Dynamic)
    ensures FileOf([]) == ElfFile([], [])
    ensures d.content.Text? && d.dhtype == 15 ==>
              FileOf(entries + [d])
              == ElfFile(FileOf(entries).searchPaths + [Text(d.content.name)], FileOf(entries).needed)
    ensures d.content.Text? && d.dhtype == 29 ==>
              FileOf(entries + [d])
              == ElfFile(FileOf(entries).searchPaths + [Text(d.content.name)], FileOf(entries).needed)
    ensures d.content.Text? && d.dhtype == 1 ==>
              FileOf(entries + [d])
              == ElfFile(FileOf(entries).searchPaths, FileOf(entries).needed + [Text(d.content.name)])
    ensures !d.content.Text? || d.dhtype !in {1, 15, 29} ==> FileOf(entries + [d]) == FileOf(entries)
  {
    assert (entries + [d])[..|entries|] == entries;
  }

  /** The entries of the dynamic sections below `n`, each decoded by itself. */
  function EntriesBelow(f: File, s: seq<Section>, n: nat): (r: seq<DS.Dynamic>)
    requires n <= |s|
  {
    if n == 0 then []
    else
      EntriesBelow(f, s, n - 1)
      + match (s[n - 1].header.shtype == SHT_DYNAMIC, Direct(f, s, n - 1))
        case (true, Ok(DynamicTable(entries))) => entries
        case _ => []
  }

  // ----- one entry

  /** The directories of one search path string. */
  function Directories(path: string, raw: string): (r: set<string>) {
    set n | n in Substitute.Split(raw, ':') :: Substitute.Replace(n, "$ORIGIN", Origin(path))
  }

  lemma OwnPathsOneMore(path: string, raws: seq<string>, raw: string, needed: seq<string>, more: seq<string>)
    ensures OwnPaths(path, ElfFile(raws + [raw], more))
            == OwnPaths(path, ElfFile(raws, needed)) + Directories(path, raw)
  {
    hide Substitute.Split, Substitute.Replace, Origin;
    var a := OwnPaths(path, ElfFile(raws + [raw], more));
    var b := OwnPaths(path, ElfFile(raws, needed)) + Directories(path, raw);
    forall dir | dir in a ensures dir in b {
      var r, n :| r in raws + [raw] && n in Substitute.Split(r, ':')
                  && dir == Substitute.Replace(n, "$ORIGIN", Origin(path));
      if r !in raws {
        assert r == raw;
      }
    }
    forall dir | dir in b ensures dir in a {
      if dir in OwnPaths(path, ElfFile(raws, needed)) {
        var r, n :| r in raws && n in Substitute.Split(r, ':') && dir == Substitute.Replace(n, "$ORIGIN", Origin(path));
        assert r in raws + [raw];
      } else {
        assert raw in raws + [raw];
      }
    }
  }

  /** `for_each` over the elements of one search path string. */
  method AddDirectories(path: string, raw: string, lpaths: set<string>) returns (r: set<string>)
    ensures r == lpaths + Directories(path, raw)
  {
    var parts := Substitute.Split(raw, ':');
    r := lpaths;
    for i := 0 to |parts|
      invariant r == lpaths + set n | n in parts[..i] :: Substitute.Replace(n, "$ORIGIN", Origin(path))
    {
      var dir := Substitute.ReplaceSlice(parts[i], "$ORIGIN", Origin(path));
      assert parts[..i + 1] == parts[..i] + [parts[i]];
      r := r + {dir};
    }
    assert parts[..|parts|] == parts;
  }

  ghost predicate Collected(path: string, lpaths0: set<string>, entries: seq<DS.Dynamic>, lpaths: set<string>,
                            deps: seq<string>)
  {
    lpaths == lpaths0 + OwnPaths(path, FileOf(entries)) && deps == FileOf(entries).needed
  }

  /** What one entry adds. */
  method AddEntry(path: string, d: DS.Dynamic, lpaths: set<string>, deps: seq<string>,
                  ghost lpaths0: set<string>, ghost entries: seq<DS.Dynamic>)
    returns (lpaths': set<string>, deps': seq<string>)
    requires Collected(path, lpaths0, entries, lpaths, deps)
    ensures Collected(path, lpaths0, entries + [d], lpaths', deps')
  {
    lpaths', deps' := lpaths, deps;
    assert (entries + [d])[..|entries|] == entries;
    if (d.dhtype == DS.RPATH || d.dhtype == DS.RUNPATH) && d.content.Text? {
      lpaths' := AddDirectories(path, Text(d.content.name), lpaths);
      OwnPathsOneMore(path, FileOf(entries).searchPaths, Text(d.content.name), deps, FileOf(entries + [d]).needed);
    }
    if d.dhtype == DS.NEEDED && d.content.Text? {
      deps' := deps + [Text(d.content.name)];
    }
  }

  method AddEntries(path: string, ds: seq<DS.Dynamic>, lpaths: set<string>, deps: seq<string>,
                    ghost lpaths0: set<string>, ghost entries: seq<DS.Dynamic>)
    returns (lpaths': set<string>, deps': seq<string>)
    requires Collected(path, lpaths0, entries, lpaths, deps)
    ensures Collected(path, lpaths0, entries + ds, lpaths', deps')
  {
    hide Collected;
    lpaths', deps' := lpaths, deps;
    ghost var seen := entries;
    for i := 0 to |ds|
      invariant seen == entries + ds[..i] && Collected(path, lpaths0, seen, lpaths', deps')
    {
      lpaths', deps' := AddEntry(path, ds[i], lpaths', deps', lpaths0, seen);
      seen := seen + [ds[i]];
    }
    assert seen == entries + ds;
  }

  // ----- the loop over the sections

  /** Some of the sections of `orig` have been loaded. */
  ghost predicate PartlyLoaded(f: File, orig: seq<Section>, c: set<nat>, s: seq<Section>) {
    (forall j :: j in c ==> j < |orig| && Direct(f, orig, j).Ok?) && s == Loaded(f, orig, c)
  }

  /** Section `k` decodes to dynamic entries. */
  ghost predicate Decodes(f: File, s: seq<Section>, k: nat)
    requires k < |s|
  {
    Direct(f, s, k).Ok? && Direct(f, s, k).value.DynamicTable?
  }

  /** Loading section `k` of the untouched table succeeds and gives dynamic entries. */
  ghost predicate LoadsAlone(f: File, orig: seq<Section>, k: nat)
    requires k < |orig|
  {
    ChainLoads(f, orig, k, {}) && Decodes(f, orig, k)
  }

  lemma LoadOneMore(f: File, orig: seq<Section>, c: set<nat>, s: seq<Section>, k: nat)
    requires PartlyLoaded(f, orig, c, s) && k < |orig|
    ensures ChainLoads(f, orig, k, {}) ==> ChainLoads(f, s, k, {})
    ensures ChainLoads(f, s, k, {}) ==>
              var c' := Chain(s, k, {});
              && (forall j :: j in c' ==> j < |s| && Direct(f, s, j).Ok?)
              && PartlyLoaded(f, orig, c + c', Loaded(f, s, c'))
              && Direct(f, orig, k).Ok? && Loaded(f, s, c')[k] == orig[k].(content := Direct(f, orig, k).value)
  {
    hide ChainLoads, Chain, Direct;
    ChainStable(f, orig, c, k, {});
    forall j: nat | j < |orig| ensures Direct(f, s, j) == Direct(f, orig, j) {
      DirectStable(f, orig, c, j);
    }
    if ChainLoads(f, s, k, {}) {
      ChainDecodes(f, s, k, {});
      OnChain(s, k);
      LoadedTwice(f, orig, c, Chain(s, k, {}));
    }
  }

  lemma OnChain(s: seq<Section>, k: nat)
    requires k < |s|
    ensures k in Chain(s, k, {})
  {
  }

  lemma EntriesOneMore(f: File, s: seq<Section>, k: nat)
    requires k < |s|
    ensures s[k].header.shtype != SHT_DYNAMIC ==> EntriesBelow(f, s, k + 1) == EntriesBelow(f, s, k)
    ensures s[k].header.shtype == SHT_DYNAMIC && Decodes(f, s, k) ==>
              EntriesBelow(f, s, k + 1) == EntriesBelow(f, s, k) + Direct(f, s, k).value.entries
  {
    assert EntriesBelow(f, s, k) + [] == EntriesBelow(f, s, k);
  }

  /**
    The first half of `recurse`. The directories are those of the file's RPATH and RUNPATH
    strings and the names those of its NEEDED entries, every dynamic section decoded by
    itself. None: an `unwrap` on a section that cannot be loaded or is no dynamic section.
   */
  method ReadFile(elf: Elf, path: string, inherited: set<string>)
    returns (r: Option<(set<string>, seq<string>)>)
    modifies elf`sections
    ensures var file := FileOf(EntriesBelow(elf.file, old(elf.sections), |old(elf.sections)|));
            r.Some? ==> r.value == (inherited + OwnPaths(path, file), file.needed)
    ensures r.Some? ==>
              forall k: nat :: k < |old(elf.sections)| && old(elf.sections)[k].header.shtype == SHT_DYNAMIC ==>
                Decodes(elf.file, old(elf.sections), k)
    ensures (forall k: nat :: k < |old(elf.sections)| && old(elf.sections)[k].header.shtype == SHT_DYNAMIC ==>
               LoadsAlone(elf.file, old(elf.sections), k)) ==> r.Some?
  {
    hide ChainLoads, Chain, Direct, OwnPaths, NamesWith, Loaded;
    ghost var orig, c := elf.sections, {};
    NothingLoaded(elf.file, orig);
    NothingCollected(path, inherited);
    var lpaths, deps := inherited, [];
    for shndx := 0 to |elf.sections|
      invariant |elf.sections| == |orig| && PartlyLoaded(elf.file, orig, c, elf.sections)
      invariant Collected(path, inherited, EntriesBelow(elf.file, orig, shndx), lpaths, deps)
      invariant forall k: nat :: k < shndx && orig[k].header.shtype == SHT_DYNAMIC ==> Decodes(elf.file, orig, k)
    {
      HeadersKept(elf.file, orig, c, elf.sections);
      EntriesOneMore(elf.file, orig, shndx);
      if elf.sections[shndx].header.shtype == SHT_DYNAMIC {
        LoadOneMore(elf.file, orig, c, elf.sections, shndx);
        c := c + Chain(elf.sections, shndx, {});
        var ok := elf.Load(shndx);
        if !ok || !elf.sections[shndx].content.DynamicTable? {
          return None;
        }
        lpaths, deps := AddEntries(path, elf.sections[shndx].content.entries, lpaths, deps,
                                   inherited, EntriesBelow(elf.file, orig, shndx));
      }
    }
    return Some((lpaths, deps));
  }

  lemma NothingLoaded(f: File, s: seq<Section>)
    ensures PartlyLoaded(f, s, {}, s)
  {
  }

  lemma NothingCollected(path: string, inherited: set<string>)
    ensures Collected(path, inherited, [], inherited, [])
  {
  }

  lemma HeadersKept(f: File, orig: seq<Section>, c: set<nat>, s: seq<Section>)
    requires PartlyLoaded(f, orig, c, s)
    ensures |s| == |orig| && forall j :: 0 <= j < |s| ==> s[j].header == orig[j].header
  {
  }
}
