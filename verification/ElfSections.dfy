/**
  `Elf::load` and `Section::from_reader`: sections are loaded along `sh_link`. While its
  linked section is being loaded, a section is taken out of the table and an empty one
  stands in its place; that is what ends the recursion on cyclic links.
 */
module ElfSections {
  import opened Counting
  import opened Bytes
  import opened DynamicSection

  const SHT_STRTAB := 3
  const SHT_DYNAMIC := 6
  const SHT_NOBITS := 8

  datatype SectionHeader = SectionHeader(
    name: nat, shtype: nat, flags: nat, addr: nat, offset: nat,
    size: nat, link: nat, info: nat, addralign: nat, entsize: nat)

  datatype SectionContent =
    | Absent                             // SectionContent::None
    | Unloaded
    | DynamicTable(entries: seq<Dynamic>)
    | StringTable(data: seq<Byte>)

  datatype Section = Section(header: SectionHeader, name: seq<Byte>, content: SectionContent, addrlock: bool)

  /** `Section::default()`, what `mem::take` leaves behind. */
  const TAKEN := Section(SectionHeader(0, 0, 0, 0, 0, 0, 0, 0, 0, 0), [], Absent, false)

  datatype File = File(bytes: seq<Byte>, header: Header)

  // ----- reading one section

  /** `seek` and `read_exact`: reading nothing succeeds anywhere. */
  predicate Readable(f: File, h: SectionHeader) {
    h.size == 0 || h.offset + h.size <= |f.bytes|
  }

  function BytesOf(f: File, h: SectionHeader): (r: seq<Byte>)
    requires Readable(f, h)
    ensures |r| == h.size && forall i :: 0 <= i < h.size ==> r[i] == f.bytes[h.offset + i]
  {
    if h.size == 0 then [] else f.bytes[h.offset..h.offset + h.size]
  }

  /** The string table that `Dynamic::from_reader` finds in the linked section. */
  function LinkedStrings(linked: Option<SectionContent>): (r: Result<Option<seq<Byte>>>) {
    match linked
    case None => Ok(None)
    case Some(StringTable(data)) => Ok(Some(data))
    case Some(_) => Err(LinkedSectionIsNotStrtab)
  }

  /** What `Section::from_reader` puts into `content`. */
  function ReadContent(f: File, sec: Section, linked: Option<SectionContent>): (r: Result<SectionContent>) {
    if !sec.content.Unloaded? then Ok(sec.content)
    else if sec.header.shtype == SHT_NOBITS then Ok(Absent)
    else if !Readable(f, sec.header) then Err(Io)
    else if sec.header.shtype == SHT_STRTAB then Ok(StringTable(BytesOf(f, sec.header)))
    else if sec.header.shtype == SHT_DYNAMIC then
      match LinkedStrings(linked)
      case Err(e) => Err(e)
      case Ok(strtab) =>
        match Entries(f.header, strtab, BytesOf(f, sec.header))
        case Err(e) => Err(e)
        case Ok(entries) => Ok(DynamicTable(entries))
    else Ok(Unloaded)
  }

  method FromReader(f: File, sec: Section, linked: Option<SectionContent>) returns (r: Result<Section>)
    ensures r == match ReadContent(f, sec, linked)
                 case Err(e) => Err(e)
                 case Ok(content) => Ok(sec.(content := content))
  {
    if !sec.content.Unloaded? {
      return Ok(sec);
    }
    if sec.header.shtype == SHT_NOBITS {
      return Ok(sec.(content := Absent));
    }
    if !Readable(f, sec.header) {
      return Err(Io);
    }
    var bb := BytesOf(f, sec.header);
    if sec.header.shtype == SHT_STRTAB {
      return Ok(sec.(content := StringTable(bb)));
    }
    if sec.header.shtype == SHT_DYNAMIC {
      var strtab := LinkedStrings(linked);
      if strtab.Err? {
        return Err(strtab.error);
      }
      var entries := ReadEntries(f.header, strtab.value, bb);
      if entries.Err? {
        return Err(entries.error);
      }
      return Ok(sec.(content := DynamicTable(entries.value)));
    }
    return Ok(sec);
  }

  // ----- decoding without recursion: the reference

  predicate ValidLink(s: seq<Section>, i: nat)
    requires i < |s|
  {
    1 <= s[i].header.link < |s|
  }

  /** The content of a linked section, if it can serve as a string table. */
  function PlainContent(f: File, sec: Section): (r: SectionContent) {
    if sec.content.Unloaded? && sec.header.shtype == SHT_STRTAB && Readable(f, sec.header)
    then StringTable(BytesOf(f, sec.header))
    else sec.content
  }

  /**
    Section `i` decoded by itself: a dynamic section against the bytes of the string table
    it links to, any other section without looking at another one.
   */
  function Direct(f: File, s: seq<Section>, i: nat): (r: Result<SectionContent>)
    requires i < |s|
  {
    ReadContent(f, s[i], if ValidLink(s, i) then Some(PlainContent(f, s[s[i].header.link])) else None)
  }

  predicate PendingDynamic(sec: Section) {
    sec.content.Unloaded? && sec.header.shtype == SHT_DYNAMIC
  }

  /** The section numbers below `n`. */
  function Indices(n: nat): (r: set<nat>)
    ensures forall j: nat :: j in r <==> j < n
  {
    if n == 0 then {} else Indices(n - 1) + {n - 1}
  }

  /** The sections on the link chain from `i`, up to one that is taken out already. */
  function Chain(s: seq<Section>, i: nat, taken: set<nat>): (c: set<nat>)
    requires i < |s|
    ensures c !! taken && forall j :: j in c ==> j < |s|
    decreases Indices(|s|) - taken
  {
    if i in taken then {}
    else
      assert i in Indices(|s|) - taken;
      {i} + (if ValidLink(s, i) then Chain(s, s[i].header.link, taken + {i}) else {})
  }

  /**
    Every section on the chain decodes, and if the chain closes into a cycle, the section
    that closes it is not a dynamic section still to be loaded.
   */
  predicate ChainLoads(f: File, s: seq<Section>, i: nat, taken: set<nat>)
    requires i < |s|
    decreases Indices(|s|) - taken
  {
    i in taken
    || (&& Direct(f, s, i).Ok?
        && (ValidLink(s, i) ==>
              && (s[i].header.link in taken + {i} ==> !PendingDynamic(s[i]))
              && (assert i in Indices(|s|) - taken;
                  ChainLoads(f, s, s[i].header.link, taken + {i}))))
  }

  /** The table with the sections in `c` decoded and nothing else changed. */
  ghost function Loaded(f: File, s: seq<Section>, c: set<nat>): (r: seq<Section>)
    requires forall j :: j in c ==> j < |s| && Direct(f, s, j).Ok?
    ensures |r| == |s|
  {
    seq(|s|, j requires 0 <= j < |s| => if j in c then s[j].(content := Direct(f, s, j).value) else s[j])
  }

  ghost function Hide(s: seq<Section>, taken: set<nat>): (r: seq<Section>)
    ensures |r| == |s|
  {
    seq(|s|, j requires 0 <= j < |s| => if j in taken then TAKEN else s[j])
  }

  lemma {:induction false} ChainDecodes(f: File, s: seq<Section>, i: nat, taken: set<nat>)
    requires i < |s| && ChainLoads(f, s, i, taken)
    ensures forall j :: j in Chain(s, i, taken) ==> Direct(f, s, j).Ok?
    decreases Indices(|s|) - taken
  {
    if i !in taken && ValidLink(s, i) {
      assert i in Indices(|s|) - taken;
      ChainDecodes(f, s, s[i].header.link, taken + {i});
    }
  }

  /** A successfully decoded section serves as a string table exactly as its plain content does. */
  lemma DecodedServes(f: File, s: seq<Section>, t: nat)
    requires t < |s| && Direct(f, s, t).Ok?
    ensures LinkedStrings(Some(Direct(f, s, t).value)) == LinkedStrings(Some(PlainContent(f, s[t])))
  {
  }

  lemma ReadTaken(f: File, linked: Option<SectionContent>)
    ensures ReadContent(f, TAKEN, linked) == Ok(Absent)
  {
  }

  // ----- the recursive loader

  class Elf {
    const file: File
    var sections: seq<Section>

    constructor (file: File, sections: seq<Section>)
      ensures this.file == file && this.sections == sections
    {
      this.file, this.sections := file, sections;
    }

    /**
      `orig` is the table before the outermost call and `taken` are the sections that the
      enclosing calls have taken out. The call succeeds exactly if the chain loads, and
      then decodes the sections on the chain; every other section, and every header and
      name, is as before.
     */
    method LoadFrom(i: nat, ghost orig: seq<Section>, ghost taken: set<nat>) returns (ok: bool)
      requires i < |orig| && sections == Hide(orig, taken)
      requires forall j :: j in taken ==> j < |orig|
      modifies this`sections
      ensures ok == ChainLoads(file, orig, i, taken)
      ensures ok ==> (forall j :: j in Chain(orig, i, taken) ==> Direct(file, orig, j).Ok?)
                     && sections == Hide(Loaded(file, orig, Chain(orig, i, taken)), taken)
      decreases Indices(|orig|) - taken
    {
      hide ReadContent, PlainContent;
      var sec := sections[i];
      sections := sections[i := TAKEN];
      var link := sec.header.link;
      var linked := None;
      if 1 <= link < |sections| {
        assert i !in taken;
        assert i in Indices(|orig|) - taken;
        assert sections == Hide(orig, taken + {i});
        ok := LoadFrom(link, orig, taken + {i});
        if !ok {
          return false;
        }
        linked := Some(sections[link].content);
      }
      var r := FromReader(file, sec, linked);
      ReadTaken(file, linked);
      LoadStep(file, orig, i, taken, linked);
      if r.Err? {
        return false;
      }
      sections := sections[i := r.value];
      if ChainLoads(file, orig, i, taken) {
        ChainDecodes(file, orig, i, taken);
        assert sections == Hide(Loaded(file, orig, Chain(orig, i, taken)), taken);
      }
      return true;
    }

    /** `Elf::load`. */
    method Load(i: nat) returns (ok: bool)
      requires i < |sections|
      modifies this`sections
      ensures ok == ChainLoads(file, old(sections), i, {})
      ensures ok ==> (forall j :: j in Chain(old(sections), i, {}) ==> Direct(file, old(sections), j).Ok?)
                     && sections == Loaded(file, old(sections), Chain(old(sections), i, {}))
    {
      ghost var orig := sections;
      assert sections == Hide(orig, {});
      ok := LoadFrom(i, orig, {});
      if ok {
        assert sections == Loaded(file, orig, Chain(orig, i, {}));
      }
    }
  }

  /** Reading section `i` once its linked section is dealt with. */
  lemma LoadStep(f: File, s: seq<Section>, i: nat, taken: set<nat>, linked: Option<SectionContent>)
    requires i < |s|
    requires i in taken ==> linked == None
    requires i !in taken && !ValidLink(s, i) ==> linked == None
    requires i !in taken && ValidLink(s, i) ==>
               && ChainLoads(f, s, s[i].header.link, taken + {i})
               && linked == Some(if s[i].header.link in taken + {i} then Absent
                                 else Direct(f, s, s[i].header.link).value)
    ensures i !in taken ==> (ReadContent(f, s[i], linked).Ok? <==> ChainLoads(f, s, i, taken))
    ensures i !in taken && ChainLoads(f, s, i, taken) ==> ReadContent(f, s[i], linked) == Direct(f, s, i)
  {
  }

  // ----- loading more than once

  /** Decoding after some sections have been loaded gives what it gave before. */
  lemma DirectStable(f: File, s: seq<Section>, c: set<nat>, k: nat)
    requires k < |s| && forall j :: j in c ==> j < |s| && Direct(f, s, j).Ok?
    ensures Direct(f, Loaded(f, s, c), k) == Direct(f, s, k)
  {
  }

  lemma {:induction false} ChainStable(f: File, s: seq<Section>, c: set<nat>, i: nat, taken: set<nat>)
    requires i < |s| && forall j :: j in c ==> j < |s| && Direct(f, s, j).Ok?
    ensures Chain(Loaded(f, s, c), i, taken) == Chain(s, i, taken)
    ensures ChainLoads(f, s, i, taken) ==> ChainLoads(f, Loaded(f, s, c), i, taken)
    decreases Indices(|s|) - taken
  {
    DirectStable(f, s, c, i);
    if i !in taken && ValidLink(s, i) {
      assert i in Indices(|s|) - taken;
      ChainStable(f, s, c, s[i].header.link, taken + {i});
    }
  }

  lemma LoadedTwice(f: File, s: seq<Section>, a: set<nat>, b: set<nat>)
    requires forall j :: j in a ==> j < |s| && Direct(f, s, j).Ok?
    requires forall j :: j in b ==> j < |s| && Direct(f, s, j).Ok?
    ensures forall j :: j in b ==> Direct(f, Loaded(f, s, a), j).Ok?
    ensures Loaded(f, Loaded(f, s, a), b) == Loaded(f, s, a + b)
  {
    forall j: nat | j < |s| ensures Direct(f, Loaded(f, s, a), j) == Direct(f, s, j) {
      DirectStable(f, s, a, j);
    }
  }

  /** Loading a section again succeeds and changes nothing. */
  lemma LoadAgain(f: File, s: seq<Section>, i: nat)
    requires i < |s| && ChainLoads(f, s, i, {})
    requires forall j :: j in Chain(s, i, {}) ==> Direct(f, s, j).Ok?
    ensures var r := Loaded(f, s, Chain(s, i, {}));
            && ChainLoads(f, r, i, {})
            && (forall j :: j in Chain(r, i, {}) ==> Direct(f, r, j).Ok?)
            && Loaded(f, r, Chain(r, i, {})) == r
  {
    var c := Chain(s, i, {});
    ChainStable(f, s, c, i, {});
    LoadedTwice(f, s, c, c);
    assert c + c == c;
  }

  /** If both sections can be loaded, the order makes no difference to the table. */
  lemma LoadOrder(f: File, s: seq<Section>, i: nat, j: nat)
    requires i < |s| && j < |s| && ChainLoads(f, s, i, {}) && ChainLoads(f, s, j, {})
    requires forall k :: k in Chain(s, i, {}) + Chain(s, j, {}) ==> Direct(f, s, k).Ok?
    ensures var a, b := Loaded(f, s, Chain(s, i, {})), Loaded(f, s, Chain(s, j, {}));
            && ChainLoads(f, a, j, {}) && ChainLoads(f, b, i, {})
            && (forall k :: k in Chain(a, j, {}) ==> Direct(f, a, k).Ok?)
            && (forall k :: k in Chain(b, i, {}) ==> Direct(f, b, k).Ok?)
            && Loaded(f, a, Chain(a, j, {})) == Loaded(f, b, Chain(b, i, {}))
  {
    hide Loaded, Direct, ChainLoads, Chain;
    var ci, cj := Chain(s, i, {}), Chain(s, j, {});
    ChainStable(f, s, ci, j, {});
    ChainStable(f, s, cj, i, {});
    LoadedTwice(f, s, ci, cj);
    LoadedTwice(f, s, cj, ci);
    assert ci + cj == cj + ci;
  }

  /** `rank` decreases along every link: there is no cycle. */
  ghost predicate Acyclic(s: seq<Section>, rank: nat -> nat) {
    forall j: nat :: j < |s| && ValidLink(s, j) ==> rank(s[j].header.link) < rank(j)
  }

  /** On acyclic links `load` succeeds exactly if every section on the chain decodes by itself. */
  lemma {:induction false} AcyclicLoads(f: File, s: seq<Section>, i: nat, taken: set<nat>, rank: nat -> nat)
    requires i < |s| && Acyclic(s, rank) && forall j :: j in taken ==> rank(j) > rank(i)
    ensures ChainLoads(f, s, i, taken) <==> forall j :: j in Chain(s, i, taken) ==> Direct(f, s, j).Ok?
    decreases Indices(|s|) - taken
  {
    assert i !in taken;
    if ValidLink(s, i) {
      assert i in Indices(|s|) - taken;
      assert rank(s[i].header.link) < rank(i);
      AcyclicLoads(f, s, s[i].header.link, taken + {i}, rank);
    }
  }

  /**
    On a cycle it matters where loading starts: from the dynamic section its string table
    is loaded first, from the string table the dynamic section finds it taken out.
   */
  lemma CycleDependsOnStart(f: File, s: seq<Section>, d: nat, t: nat)
    requires 1 <= d < |s| && 1 <= t < |s| && d != t
    requires PendingDynamic(s[d]) && s[d].header.link == t && Direct(f, s, d).Ok?
    requires s[t].content.Unloaded? && s[t].header.shtype == SHT_STRTAB && s[t].header.link == d && Direct(f, s, t).Ok?
    ensures ChainLoads(f, s, d, {}) && !ChainLoads(f, s, t, {})
  {
  }

  // ----- success on any links, without reference to what is taken out

  /** Different sections, each of which links to the next one. */
  ghost predicate IsWalk(s: seq<Section>, walk: seq<nat>) {
    && walk != []
    && (forall k :: 0 <= k < |walk| ==> walk[k] < |s|)
    && (forall j, k :: 0 <= j < k < |walk| ==> walk[j] != walk[k])
    && (forall k :: 0 <= k < |walk| - 1 ==> LinksTo(s, walk[k], walk[k + 1]))
  }

  predicate LinksTo(s: seq<Section>, i: nat, j: nat) {
    i < |s| && ValidLink(s, i) && s[i].header.link == j
  }

  /** The last section decodes, and unless it is no pending dynamic section it does not link back. */
  ghost predicate EndLoads(f: File, s: seq<Section>, walk: seq<nat>)
    requires IsWalk(s, walk)
  {
    var i := walk[|walk| - 1];
    && Direct(f, s, i).Ok?
    && (ValidLink(s, i) && s[i].header.link in walk ==> !PendingDynamic(s[i]))
  }

  ghost predicate AllEndsLoad(f: File, s: seq<Section>, start: seq<nat>) {
    forall walk :: start <= walk && IsWalk(s, walk) ==> EndLoads(f, s, walk)
  }

  function Members(walk: seq<nat>): (r: set<nat>)
    ensures forall i :: i in r <==> i in walk
  {
    set i | i in walk
  }

  /** A walk that goes on goes on along the link of its last section. */
  lemma WalkGoesOn(s: seq<Section>, start: seq<nat>, walk: seq<nat>)
    requires IsWalk(s, start) && IsWalk(s, walk) && start < walk
    ensures var i := start[|start| - 1];
            && ValidLink(s, i) && s[i].header.link !in start && start + [s[i].header.link] <= walk
  {
    var n := |start|;
    assert walk[n - 1] == start[n - 1] && LinksTo(s, walk[n - 1], walk[n]);
    forall k | 0 <= k < n ensures start[k] != walk[n] {
      assert walk[k] == start[k];
    }
  }

  lemma LongerWalk(s: seq<Section>, start: seq<nat>)
    requires IsWalk(s, start) && ValidLink(s, start[|start| - 1])
    requires s[start[|start| - 1]].header.link !in start
    ensures IsWalk(s, start + [s[start[|start| - 1]].header.link])
  {
  }

  lemma {:induction false} LoadsAlongWalks(f: File, s: seq<Section>, start: seq<nat>, taken: set<nat>)
    requires IsWalk(s, start) && taken == Members(start[..|start| - 1])
    ensures ChainLoads(f, s, start[|start| - 1], taken) <==> AllEndsLoad(f, s, start)
    decreases Indices(|s|) - taken
  {
    hide Direct, PendingDynamic;
    var i := start[|start| - 1];
    assert i !in taken && taken + {i} == Members(start);
    assert i in Indices(|s|) - taken;
    if ValidLink(s, i) && s[i].header.link !in start {
      var longer := start + [s[i].header.link];
      LongerWalk(s, start);
      assert longer[..|longer| - 1] == start;
      LoadsAlongWalks(f, s, longer, taken + {i});
      EndsOfLonger(f, s, start);
    } else {
      forall walk | start <= walk && IsWalk(s, walk) ensures walk == start {
        if start < walk {
          WalkGoesOn(s, start, walk);
        }
      }
    }
  }

  lemma EndsOfLonger(f: File, s: seq<Section>, start: seq<nat>)
    requires IsWalk(s, start) && ValidLink(s, start[|start| - 1])
    requires s[start[|start| - 1]].header.link !in start
    ensures AllEndsLoad(f, s, start)
            <==> EndLoads(f, s, start) && AllEndsLoad(f, s, start + [s[start[|start| - 1]].header.link])
  {
    hide EndLoads;
    var longer := start + [s[start[|start| - 1]].header.link];
    assert start <= longer;
    forall walk | start <= walk && IsWalk(s, walk) ensures walk == start || longer <= walk {
      if start < walk {
        WalkGoesOn(s, start, walk);
      }
    }
    forall walk | longer <= walk && IsWalk(s, walk) ensures start <= walk {
      assert walk[..|start|] == longer[..|start|] == start;
    }
  }

  /**
    Exactly when a section can be loaded, whatever the links: every section that can be
    reached along them decodes by itself, and no pending dynamic section among them links
    back to itself or to a section on the way to it.
   */
  lemma LoadExact(f: File, s: seq<Section>, i: nat)
    requires i < |s|
    ensures ChainLoads(f, s, i, {})
            <==> forall walk :: IsWalk(s, walk) && walk[0] == i ==> EndLoads(f, s, walk)
  {
    hide EndLoads;
    LoadsAlongWalks(f, s, [i], {});
    forall walk | IsWalk(s, walk) ensures [i] <= walk <==> walk[0] == i {
    }
  }

  // ----- from the bytes of a file to its entries

  /** What is read of a section still to be loaded, by the number of its type. */
  lemma ReadByType(f: File, sec: Section, linked: Option<SectionContent>)
    requires sec.content.Unloaded?
    ensures sec.header.shtype == 8 ==> ReadContent(f, sec, linked) == Ok(Absent)
    ensures sec.header.shtype != 8 && sec.header.size > 0 && sec.header.offset + sec.header.size > |f.bytes| ==>
              ReadContent(f, sec, linked) == Err(Io)
    ensures sec.header.offset + sec.header.size <= |f.bytes| ==>
              var bytes := f.bytes[sec.header.offset..sec.header.offset + sec.header.size];
              && (sec.header.shtype == 3 ==> ReadContent(f, sec, linked) == Ok(StringTable(bytes)))
              && (sec.header.shtype == 6 && linked.None? ==>
                    ReadContent(f, sec, linked) == AsTable(Entries(f.header, None, bytes)))
              && (sec.header.shtype == 6 && linked.Some? && linked.value.StringTable? ==>
                    ReadContent(f, sec, linked) == AsTable(Entries(f.header, Some(linked.value.data), bytes)))
              && (sec.header.shtype == 6 && linked.Some? && !linked.value.StringTable? ==>
                    ReadContent(f, sec, linked) == Err(LinkedSectionIsNotStrtab))
              && (sec.header.shtype !in {3, 6, 8} ==> ReadContent(f, sec, linked) == Ok(Unloaded))
  {
    hide Entries;
    if Readable(f, sec.header) && sec.header.offset + sec.header.size <= |f.bytes| {
      assert BytesOf(f, sec.header) == f.bytes[sec.header.offset..sec.header.offset + sec.header.size];
    }
  }

  function AsTable(entries: Result<seq<Dynamic>>): (r: Result<SectionContent>) {
    match entries
    case Err(e) => Err(e)
    case Ok(ds) => Ok(DynamicTable(ds))
  }

  /** A string table and a dynamic section that links to it, both laid out in the file. */
  ghost predicate LaidOut(f: File, s: seq<Section>, d: nat, t: nat, a: seq<Byte>, strings: seq<Byte>, b: seq<Byte>,
                          es: seq<Raw>, c: seq<Byte>)
  {
    && f.bytes == a + strings + b + EncodeAll(f.header, es) + c
    && d < |s| && 1 <= t < |s| && d != t
    && s[t].content.Unloaded? && s[t].header.shtype == 3 && s[t].header.link == 0
    && s[t].header.offset == |a| && s[t].header.size == |strings|
    && s[d].content.Unloaded? && s[d].header.shtype == 6 && s[d].header.link == t
    && s[d].header.offset == |a| + |strings| + |b| && s[d].header.size == |EncodeAll(f.header, es)|
  }

  lemma LaidOutBytes(f: File, s: seq<Section>, d: nat, t: nat, a: seq<Byte>, strings: seq<Byte>, b: seq<Byte>,
                     es: seq<Raw>, c: seq<Byte>)
    requires LaidOut(f, s, d, t, a, strings, b, es, c)
    ensures Readable(f, s[t].header) && BytesOf(f, s[t].header) == strings
    ensures Readable(f, s[d].header) && BytesOf(f, s[d].header) == EncodeAll(f.header, es)
  {
    hide EncodeAll;
    Middle(a, strings, b + EncodeAll(f.header, es) + c);
    Middle(a + strings + b, EncodeAll(f.header, es), c);
    assert f.bytes == a + strings + (b + EncodeAll(f.header, es) + c);
  }

  lemma Middle(a: seq<Byte>, b: seq<Byte>, c: seq<Byte>)
    ensures (a + b + c)[|a|..|a| + |b|] == b
  {
  }

  /**
    Loading the dynamic section of such a file gives exactly the encoded entries up to the
    first DT_NULL, with the names from the string table, or the error of an invalid entry.
   */
  lemma LoadLaidOut(f: File, s: seq<Section>, d: nat, t: nat, a: seq<Byte>, strings: seq<Byte>, b: seq<Byte>,
                    es: seq<Raw>, c: seq<Byte>)
    requires LaidOut(f, s, d, t, a, strings, b, es, c) && Fits(f.header.class_, es)
    ensures Direct(f, s, d) == AsTable(MapEntries(Some(strings), UpToNull(es)))
    ensures ChainLoads(f, s, d, {}) <==> MapEntries(Some(strings), UpToNull(es)).Ok?
  {
    hide Entries, EncodeAll, MapEntries, UpToNull, Fits;
    LaidOutBytes(f, s, d, t, a, strings, b, es, c);
    DynamicRoundTrip(f.header, Some(strings), es, []);
    assert EncodeAll(f.header, es) + [] == EncodeAll(f.header, es);
    assert Direct(f, s, t) == Ok(StringTable(strings));
    assert ChainLoads(f, s, t, {d});
  }
}
