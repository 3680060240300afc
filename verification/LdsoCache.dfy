/**
  The decoding part of `LdsoCache::read_ld_so_cache`: finding the new-format cache in the
  file, guessing its byte order, and grouping the library paths by name.
 */
module LdsoCache {
  import opened Counting
  import opened Bytes

  // "glibc-ld.so.cache" and "1.1"
  const MAGIC: seq<Byte> := [
    0x67, 0x6c, 0x69, 0x62, 0x63, 0x2d, 0x6c, 0x64, 0x2e, 0x73, 0x6f, 0x2e, 0x63, 0x61, 0x63, 0x68, 0x65]
  const VERSION: seq<Byte> := [0x31, 0x2e, 0x31]
  const HEADER_SIZE := 48
  const ENTRY_SIZE := 24
  const WORD := 0x1_0000_0000

  type Name = seq<Byte>

  datatype Parsed =
    | Cache(libs: map<Name, seq<Name>>)
    | InvalidData
    | UnexpectedEof
    | Panic    // a string offset outside the string table

  // ----- finding the cache

  predicate MatchesAt(haystack: seq<Byte>, needle: seq<Byte>, i: nat) {
    i + |needle| <= |haystack| && haystack[i..i + |needle|] == needle
  }

  function FindFrom(haystack: seq<Byte>, needle: seq<Byte>, i: nat): (r: Option<nat>)
    ensures r.Some? ==> r.value >= i && MatchesAt(haystack, needle, r.value)
                        && forall j: nat :: i <= j < r.value ==> !MatchesAt(haystack, needle, j)
    ensures r.None? ==> forall j: nat :: i <= j ==> !MatchesAt(haystack, needle, j)
    decreases |haystack| - i
  {
    if i + |needle| > |haystack| then None
    else if MatchesAt(haystack, needle, i) then Some(i)
    else if i < |haystack| then FindFrom(haystack, needle, i + 1)
    else None
  }

  /** The first place where `needle` occurs. */
  function FindSubsequence(haystack: seq<Byte>, needle: seq<Byte>): (r: Option<nat>)
    ensures r.Some? ==> MatchesAt(haystack, needle, r.value)
                        && forall j: nat :: j < r.value ==> !MatchesAt(haystack, needle, j)
    ensures r.None? ==> forall j: nat :: !MatchesAt(haystack, needle, j)
  {
    FindFrom(haystack, needle, 0)
  }

  // ----- words in the wrong byte order

  function Other(e: Endian): (r: Endian) {
    if e.Little? then Big else Little
  }

  /** `u32::swap_bytes`. */
  function SwapBytes(v: nat): (r: nat)
    requires v < WORD
    ensures r < WORD
  {
    assert Pow256(4) == WORD;
    Decode(Big, Encode(Little, v, 4))
  }

  /** Reading a word in the other byte order is reading it and swapping its bytes. */
  lemma SwapDecodes(e: Endian, bs: seq<Byte>)
    requires |bs| == 4
    ensures Decode(e, bs) < WORD && SwapBytes(Decode(e, bs)) == Decode(Other(e), bs)
  {
    assert Pow256(4) == WORD;
    LittleInverse(bs);
    LittleInverse(Reversed(bs));
    assert Reversed(Reversed(bs)) == bs;
  }

  lemma SwapTwice(v: nat)
    requires v < WORD
    ensures SwapBytes(SwapBytes(v)) == v
  {
    assert Pow256(4) == WORD;
    IntegerRoundTrip(Little, v, 4);
    SwapDecodes(Big, Encode(Little, v, 4));
  }

  lemma LittleFour(b0: Byte, b1: Byte, b2: Byte, b3: Byte)
    ensures FromLittle([b0, b1, b2, b3]) == b0 + 256 * (b1 + 256 * (b2 + 256 * b3))
  {
    assert [b0, b1, b2, b3][1..] == [b1, b2, b3] && [b1, b2, b3][1..] == [b2, b3] && [b2, b3][1..] == [b3];
    assert FromLittle([b3]) == b3;
    assert FromLittle([b2, b3]) == b2 + 256 * FromLittle([b3]);
    assert FromLittle([b1, b2, b3]) == b1 + 256 * FromLittle([b2, b3]);
  }

  /** The swapped count of fewer than 65536 entries is far too large. */
  lemma SwapSmall(n: nat)
    requires 0 < n < 65536
    ensures SwapBytes(n) >= 65536
  {
    var low, high := n % 256, n / 256;
    assert high < 256;
    assert ToLittle(0, 2) == [0] + ToLittle(0, 1) && ToLittle(0, 1) == [0] + ToLittle(0, 0);
    assert ToLittle(high, 3) == [high] + ToLittle(0, 2);
    assert ToLittle(n, 4) == [low] + ToLittle(high, 3);
    assert Reversed(ToLittle(n, 4)) == [0, 0, high, low];
    LittleFour(0, 0, high, low);
  }

  // ----- decoding

  /** A key or value field of an entry. */
  function Field(h: Endian, swap: bool, bs: seq<Byte>): (v: nat)
    requires |bs| == 4
  {
    SwapDecodes(h, bs);
    if swap then SwapBytes(Decode(h, bs)) else Decode(h, bs)
  }

  /** The string at file position `pos`, when the table starts at `start`. */
  function TextAt(strings: seq<Byte>, start: nat, pos: nat): (r: Option<Name>) {
    if start <= pos <= start + |strings| then Some(CString(strings[pos - start..])) else None
  }

  /** The `i`-th entry: its key and value strings, if both are inside the string table. */
  function PairAt(h: Endian, swap: bool, table: seq<Byte>, strings: seq<Byte>, start: nat, i: nat)
    : (r: Option<(Name, Name)>)
  {
    if ENTRY_SIZE * (i + 1) > |table| then None
    else
      var entry := table[ENTRY_SIZE * i..ENTRY_SIZE * (i + 1)];
      match (TextAt(strings, start, Field(h, swap, entry[4..8])), TextAt(strings, start, Field(h, swap, entry[8..12])))
      case (Some(key), Some(val)) => Some((key, val))
      case _ => None
  }

  function Fetch(h: Endian, swap: bool, table: seq<Byte>, strings: seq<Byte>, start: nat)
    : (f: nat -> Option<(Name, Name)>)
  {
    (i: nat) => PairAt(h, swap, table, strings, start, i)
  }

  /** The first `n` pairs, if all of them are there. */
  function Pairs(fetch: nat -> Option<(Name, Name)>, n: nat): (r: Option<seq<(Name, Name)>>) {
    if n == 0 then Some([])
    else
      match (Pairs(fetch, n - 1), fetch(n - 1))
      case (Some(front), Some(pair)) => Some(front + [pair])
      case _ => None
  }

  /** `cache.entry(key).or_insert_with(Vec::new).push(val)`. */
  function AddTo(m: map<Name, seq<Name>>, key: Name, val: Name): (r: map<Name, seq<Name>>) {
    m[key := (if key in m then m[key] else []) + [val]]
  }

  function Group(pairs: seq<(Name, Name)>): (m: map<Name, seq<Name>>) {
    if pairs == [] then map[]
    else
      var last := pairs[|pairs| - 1];
      AddTo(Group(pairs[..|pairs| - 1]), last.0, last.1)
  }

  /** Whether the sizes fit as they are, fit after swapping, or do not fit. */
  function GuessSwap(n: nat, l: nat, body: nat): (r: Option<bool>)
    requires n < WORD && l < WORD
  {
    if ENTRY_SIZE * n + l == body then Some(false)
    else if ENTRY_SIZE * SwapBytes(n) + SwapBytes(l) == body then Some(true)
    else None
  }

  function NativeWord(h: Endian, bs: seq<Byte>): (v: nat)
    requires |bs| == 4
    ensures v < WORD
  {
    SwapDecodes(h, bs);
    Decode(h, bs)
  }

  /** Decoding what follows the header, `count` entries and the string table. */
  function DecodeBody(h: Endian, swap: bool, body: seq<Byte>, count: nat): (r: Parsed)
    requires ENTRY_SIZE * count <= |body|
  {
    var size := ENTRY_SIZE * count;
    match Pairs(Fetch(h, swap, body[..size], body[size..], HEADER_SIZE + size), count)
    case None => Panic
    case Some(pairs) => Cache(Group(pairs))
  }

  /** The result of reading `buf` on a machine with byte order `h`. */
  function Decoded(h: Endian, buf: seq<Byte>): (r: Parsed) {
    match FindSubsequence(buf, MAGIC)
    case None => InvalidData
    case Some(at) =>
      var cache := buf[at..];
      if |cache| < HEADER_SIZE then UnexpectedEof
      else if cache[17..20] != VERSION then InvalidData
      else
        var n, l := NativeWord(h, cache[20..24]), NativeWord(h, cache[24..28]);
        match GuessSwap(n, l, |cache| - HEADER_SIZE)
        case None => InvalidData
        case Some(swap) => DecodeBody(h, swap, cache[HEADER_SIZE..], if swap then SwapBytes(n) else n)
  }

  method ReadLdsoCache(h: Endian, buf: seq<Byte>) returns (r: Parsed)
    ensures r == Decoded(h, buf)
  {
    var offset := FindSubsequence(buf, MAGIC);
    if offset.None? {
      return InvalidData;
    }
    var cache := buf[offset.value..];
    if |cache| < HEADER_SIZE {
      return UnexpectedEof;
    }
    if cache[17..20] != VERSION {
      return InvalidData;
    }
    var nlibs, lenStrings := NativeWord(h, cache[20..24]), NativeWord(h, cache[24..28]);
    var byteSwap := HEADER_SIZE + ENTRY_SIZE * nlibs + lenStrings != |cache|;
    if byteSwap {
      nlibs, lenStrings := SwapBytes(nlibs), SwapBytes(lenStrings);
      if HEADER_SIZE + ENTRY_SIZE * nlibs + lenStrings != |cache| {
        return InvalidData;
      }
    }
    r := ReadEntries(h, byteSwap, cache[HEADER_SIZE..], nlibs);
  }

  method ReadEntries(h: Endian, byteSwap: bool, body: seq<Byte>, nlibs: nat) returns (r: Parsed)
    requires ENTRY_SIZE * nlibs <= |body|
    ensures r == DecodeBody(h, byteSwap, body, nlibs)
  {
    var size := ENTRY_SIZE * nlibs;
    r := GroupEntries(Fetch(h, byteSwap, body[..size], body[size..], HEADER_SIZE + size), nlibs);
  }

  /** The loop over the entries. */
  method GroupEntries(fetch: nat -> Option<(Name, Name)>, nlibs: nat) returns (r: Parsed)
    ensures r == match Pairs(fetch, nlibs) case None => Panic case Some(pairs) => Cache(Group(pairs))
  {
    var libs: map<Name, seq<Name>> := map[];
    ghost var done: seq<(Name, Name)> := [];
    for i := 0 to nlibs
      invariant Pairs(fetch, i) == Some(done) && libs == Group(done)
    {
      var pair := fetch(i);
      if pair.None? {
        PairsFail(fetch, i, nlibs);
        return Panic;
      }
      assert (done + [pair.value])[..|done|] == done;
      done := done + [pair.value];
      libs := AddTo(libs, pair.value.0, pair.value.1);
    }
    return Cache(libs);
  }

  lemma {:induction false} PairsFail(fetch: nat -> Option<(Name, Name)>, i: nat, n: nat)
    requires i < n && fetch(i).None?
    ensures Pairs(fetch, n).None?
    decreases n
  {
    if i < n - 1 {
      PairsFail(fetch, i, n - 1);
    }
  }

  // ----- grouping

  /** The values of one key, in order. */
  function ValuesOf(pairs: seq<(Name, Name)>, key: Name): (r: seq<Name>) {
    if pairs == [] then []
    else
      var front := ValuesOf(pairs[..|pairs| - 1], key);
      if pairs[|pairs| - 1].0 == key then front + [pairs[|pairs| - 1].1] else front
  }

  /** The grouping is stable: per key, all its values in the order of the entries. */
  lemma {:induction false} GroupIsStable(pairs: seq<(Name, Name)>, key: Name)
    ensures key in Group(pairs) <==> exists i :: 0 <= i < |pairs| && pairs[i].0 == key
    ensures key in Group(pairs) ==> Group(pairs)[key] == ValuesOf(pairs, key)
    ensures key !in Group(pairs) ==> ValuesOf(pairs, key) == []
  {
    if pairs != [] {
      var front := pairs[..|pairs| - 1];
      GroupIsStable(front, key);
      assert forall i :: 0 <= i < |front| ==> front[i] == pairs[i];
    }
  }

  // ----- the format

  datatype FileEntry = FileEntry(flags: seq<Byte>, key: nat, value: nat, rest: seq<Byte>)

  predicate EntryLaid(x: FileEntry, start: nat, len: nat) {
    && |x.flags| == 4 && |x.rest| == 12
    && start <= x.key <= start + len && x.key < WORD
    && start <= x.value <= start + len && x.value < WORD
  }

  /** Where the string table starts, counted from the magic. */
  function StringStart(xs: seq<FileEntry>): (n: nat) {
    HEADER_SIZE + ENTRY_SIZE * |xs|
  }

  /** Offsets are counted from the magic and point into the string table. */
  ghost predicate WellLaid(xs: seq<FileEntry>, strings: seq<Byte>) {
    && |xs| < WORD && |strings| < WORD
    && forall i :: 0 <= i < |xs| ==> EntryLaid(xs[i], StringStart(xs), |strings|)
  }

  function EncodeEntry(e: Endian, x: FileEntry): (bs: seq<Byte>) {
    x.flags + Encode(e, x.key, 4) + Encode(e, x.value, 4) + x.rest
  }

  function EncodeTable(e: Endian, xs: seq<FileEntry>): (bs: seq<Byte>) {
    if xs == [] then [] else EncodeTable(e, xs[..|xs| - 1]) + EncodeEntry(e, xs[|xs| - 1])
  }

  function EncodeHeader(e: Endian, n: nat, l: nat, unused: seq<Byte>): (bs: seq<Byte>) {
    MAGIC + VERSION + Encode(e, n, 4) + Encode(e, l, 4) + unused
  }

  function EncodeCache(e: Endian, xs: seq<FileEntry>, strings: seq<Byte>, unused: seq<Byte>): (bs: seq<Byte>) {
    EncodeHeader(e, |xs|, |strings|, unused) + EncodeTable(e, xs) + strings
  }

  function PairOf(x: FileEntry, start: nat, strings: seq<Byte>): (p: (Name, Name))
    requires start <= x.key <= start + |strings| && start <= x.value <= start + |strings|
  {
    (CString(strings[x.key - start..]), CString(strings[x.value - start..]))
  }

  function PairsOf(xs: seq<FileEntry>, start: nat, strings: seq<Byte>): (ps: seq<(Name, Name)>)
    requires forall i :: 0 <= i < |xs| ==> EntryLaid(xs[i], start, |strings|)
  {
    if xs == [] then []
    else
      assert EntryLaid(xs[|xs| - 1], start, |strings|);
      PairsOf(xs[..|xs| - 1], start, strings) + [PairOf(xs[|xs| - 1], start, strings)]
  }

  // ----- the byte-order guess

  /** A cache in the other byte order is recognised exactly if its sizes do not also fit unswapped. */
  lemma GuessExact(n: nat, l: nat)
    requires n < WORD && l < WORD
    ensures GuessSwap(n, l, ENTRY_SIZE * n + l) == Some(false)
    ensures GuessSwap(SwapBytes(n), SwapBytes(l), ENTRY_SIZE * n + l) == Some(true)
            <==> ENTRY_SIZE * SwapBytes(n) + SwapBytes(l) != ENTRY_SIZE * n + l
  {
    SwapTwice(n);
    SwapTwice(l);
  }

  /** The guess is never wrong for a non-empty list below 24 * 65536 bytes. */
  lemma GuessRightBelowBound(n: nat, l: nat)
    requires 0 < n < WORD && l < WORD && ENTRY_SIZE * n + l < ENTRY_SIZE * 65536
    ensures ENTRY_SIZE * SwapBytes(n) + SwapBytes(l) != ENTRY_SIZE * n + l
  {
    SwapSmall(n);
  }

  /** Just above the bound there are sizes for which the guess is wrong. */
  lemma GuessWrongAboveBound()
    ensures ENTRY_SIZE * SwapBytes(65536) + SwapBytes(6144) == ENTRY_SIZE * 65536 + 6144
  {
  }

  // ----- the round trip

  lemma EntryFields(e: Endian, x: FileEntry)
    requires |x.flags| == 4 && |x.rest| == 12
    ensures |EncodeEntry(e, x)| == ENTRY_SIZE
    ensures EncodeEntry(e, x)[4..8] == Encode(e, x.key, 4) && EncodeEntry(e, x)[8..12] == Encode(e, x.value, 4)
  {
  }

  lemma SliceOfFront(a: seq<Byte>, b: seq<Byte>, lo: nat, hi: nat)
    requires lo <= hi <= |a|
    ensures (a + b)[lo..hi] == a[lo..hi]
  {
  }

  ghost predicate FieldsLaid(xs: seq<FileEntry>) {
    forall j :: 0 <= j < |xs| ==> |xs[j].flags| == 4 && |xs[j].rest| == 12
  }

  lemma {:induction false} TableSize(e: Endian, xs: seq<FileEntry>)
    requires FieldsLaid(xs)
    ensures |EncodeTable(e, xs)| == ENTRY_SIZE * |xs|
  {
    if xs != [] {
      EntryFields(e, xs[|xs| - 1]);
      TableSize(e, xs[..|xs| - 1]);
    }
  }

  lemma {:induction false} TableEntry(e: Endian, xs: seq<FileEntry>, i: nat)
    requires i < |xs| && FieldsLaid(xs)
    ensures |EncodeTable(e, xs)| == ENTRY_SIZE * |xs|
    ensures EncodeTable(e, xs)[ENTRY_SIZE * i..ENTRY_SIZE * (i + 1)] == EncodeEntry(e, xs[i])
    decreases |xs|
  {
    TableSize(e, xs);
    if i < |xs| - 1 {
      TableEntry(e, xs[..|xs| - 1], i);
      TableSize(e, xs[..|xs| - 1]);
      SliceOfFront(EncodeTable(e, xs[..|xs| - 1]), EncodeEntry(e, xs[|xs| - 1]), ENTRY_SIZE * i, ENTRY_SIZE * (i + 1));
    } else {
      TableLast(e, xs);
    }
  }

  lemma Suffix(a: seq<Byte>, b: seq<Byte>, lo: nat, hi: nat)
    requires lo == |a| && hi == |a| + |b|
    ensures (a + b)[lo..hi] == b
  {
  }

  lemma TableLast(e: Endian, xs: seq<FileEntry>)
    requires xs != [] && FieldsLaid(xs)
    ensures |EncodeTable(e, xs)| == ENTRY_SIZE * |xs|
    ensures EncodeTable(e, xs)[ENTRY_SIZE * (|xs| - 1)..ENTRY_SIZE * |xs|] == EncodeEntry(e, xs[|xs| - 1])
  {
    TableSize(e, xs);
    TableSize(e, xs[..|xs| - 1]);
    Suffix(EncodeTable(e, xs[..|xs| - 1]), EncodeEntry(e, xs[|xs| - 1]), ENTRY_SIZE * (|xs| - 1), ENTRY_SIZE * |xs|);
  }

  /** A word is read back in its own byte order, by swapping if that is not the machine's. */
  lemma FieldRoundTrip(h: Endian, e: Endian, v: nat)
    requires v < WORD
    ensures Field(h, e != h, Encode(e, v, 4)) == v
    ensures NativeWord(h, Encode(e, v, 4)) == if e == h then v else SwapBytes(v)
  {
    assert Pow256(4) == WORD;
    IntegerRoundTrip(e, v, 4);
    SwapDecodes(h, Encode(e, v, 4));
    SwapDecodes(e, Encode(e, v, 4));
  }

  /** `PairAt`, given the bytes of the entry and the fields they hold. */
  lemma PairOfEntry(h: Endian, swap: bool, table: seq<Byte>, strings: seq<Byte>, start: nat, i: nat,
                    entry: seq<Byte>, key: nat, val: nat)
    requires |entry| == ENTRY_SIZE && ENTRY_SIZE * (i + 1) <= |table|
    requires table[ENTRY_SIZE * i..ENTRY_SIZE * (i + 1)] == entry
    requires Field(h, swap, entry[4..8]) == key && Field(h, swap, entry[8..12]) == val
    requires TextAt(strings, start, key).Some? && TextAt(strings, start, val).Some?
    ensures PairAt(h, swap, table, strings, start, i)
            == Some((TextAt(strings, start, key).value, TextAt(strings, start, val).value))
  {
  }

  lemma TableRead(h: Endian, e: Endian, xs: seq<FileEntry>, table: seq<Byte>, strings: seq<Byte>, start: nat, i: nat)
    requires i < |xs| && EntryLaid(xs[i], start, |strings|)
    requires ENTRY_SIZE * (i + 1) <= |table| && table[ENTRY_SIZE * i..ENTRY_SIZE * (i + 1)] == EncodeEntry(e, xs[i])
    ensures PairAt(h, e != h, table, strings, start, i) == Some(PairOf(xs[i], start, strings))
  {
    EntryFields(e, xs[i]);
    FieldRoundTrip(h, e, xs[i].key);
    FieldRoundTrip(h, e, xs[i].value);
    PairOfEntry(h, e != h, table, strings, start, i, EncodeEntry(e, xs[i]), xs[i].key, xs[i].value);
  }

  lemma PairRoundTrip(h: Endian, e: Endian, xs: seq<FileEntry>, strings: seq<Byte>, start: nat, i: nat)
    requires i < |xs| && FieldsLaid(xs) && EntryLaid(xs[i], start, |strings|)
    ensures PairAt(h, e != h, EncodeTable(e, xs), strings, start, i) == Some(PairOf(xs[i], start, strings))
  {
    TableEntry(e, xs, i);
    TableRead(h, e, xs, EncodeTable(e, xs), strings, start, i);
  }

  lemma {:induction false} PairsRoundTrip(fetch: nat -> Option<(Name, Name)>, xs: seq<FileEntry>, strings: seq<Byte>,
                                          start: nat)
    requires forall j :: 0 <= j < |xs| ==> EntryLaid(xs[j], start, |strings|)
    requires forall j: nat :: j < |xs| ==>
               EntryLaid(xs[j], start, |strings|) && fetch(j) == Some(PairOf(xs[j], start, strings))
    ensures Pairs(fetch, |xs|) == Some(PairsOf(xs, start, strings))
    decreases |xs|
  {
    if xs != [] {
      var front := xs[..|xs| - 1];
      forall j: nat | j < |front|
        ensures EntryLaid(front[j], start, |strings|) && fetch(j) == Some(PairOf(front[j], start, strings))
      {
        assert front[j] == xs[j];
      }
      PairsRoundTrip(fetch, front, strings, start);
      assert fetch(|xs| - 1) == Some(PairOf(xs[|xs| - 1], start, strings));
    }
  }

  lemma TableLength(e: Endian, xs: seq<FileEntry>, strings: seq<Byte>)
    requires WellLaid(xs, strings)
    ensures |EncodeTable(e, xs)| == ENTRY_SIZE * |xs| && FieldsLaid(xs)
  {
    forall j | 0 <= j < |xs| ensures |xs[j].flags| == 4 && |xs[j].rest| == 12 {
      assert EntryLaid(xs[j], StringStart(xs), |strings|);
    }
    TableSize(e, xs);
  }

  lemma BodyOfPairs(h: Endian, swap: bool, table: seq<Byte>, xs: seq<FileEntry>, strings: seq<Byte>)
    requires WellLaid(xs, strings) && |table| == ENTRY_SIZE * |xs|
    requires forall j: nat :: j < |xs| ==>
               EntryLaid(xs[j], StringStart(xs), |strings|)
               && PairAt(h, swap, table, strings, StringStart(xs), j) == Some(PairOf(xs[j], StringStart(xs), strings))
    ensures DecodeBody(h, swap, table + strings, |xs|) == Cache(Group(PairsOf(xs, StringStart(xs), strings)))
  {
    hide PairAt, PairsOf, Group, Pairs, PairOf;
    var body, size, start := table + strings, ENTRY_SIZE * |xs|, StringStart(xs);
    assert body[..size] == table && body[size..] == strings;
    var fetch := Fetch(h, swap, table, strings, start);
    forall j: nat | j < |xs|
      ensures EntryLaid(xs[j], start, |strings|) && fetch(j) == Some(PairOf(xs[j], start, strings))
    {
      assert PairAt(h, swap, table, strings, start, j) == Some(PairOf(xs[j], start, strings));
    }
    PairsRoundTrip(fetch, xs, strings, start);
    assert Pairs(fetch, |xs|) == Some(PairsOf(xs, start, strings));
  }

  lemma BodyRoundTrip(h: Endian, e: Endian, xs: seq<FileEntry>, strings: seq<Byte>)
    requires WellLaid(xs, strings)
    ensures var body := EncodeTable(e, xs) + strings;
            && ENTRY_SIZE * |xs| <= |body|
            && DecodeBody(h, e != h, body, |xs|) == Cache(Group(PairsOf(xs, StringStart(xs), strings)))
  {
    TableLength(e, xs, strings);
    var start := StringStart(xs);
    forall j: nat | j < |xs|
      ensures EntryLaid(xs[j], start, |strings|)
              && PairAt(h, e != h, EncodeTable(e, xs), strings, start, j) == Some(PairOf(xs[j], start, strings))
    {
      assert EntryLaid(xs[j], start, |strings|);
      PairRoundTrip(h, e, xs, strings, start, j);
    }
    BodyOfPairs(h, e != h, EncodeTable(e, xs), xs, strings);
  }

  /** At `at` there is a cache whose sizes read natively as `n` and `l`, followed by `body`. */
  ghost predicate HeaderAt(h: Endian, buf: seq<Byte>, at: nat, n: nat, l: nat, body: seq<Byte>) {
    && n < WORD && l < WORD
    && at <= |buf| && |buf[at..]| == HEADER_SIZE + |body|
    && buf[at..][17..20] == VERSION && buf[at..][HEADER_SIZE..] == body
    && NativeWord(h, buf[at..][20..24]) == n && NativeWord(h, buf[at..][24..28]) == l
  }

  lemma DecodedOf(h: Endian, buf: seq<Byte>, at: nat, n: nat, l: nat, body: seq<Byte>)
    requires FindSubsequence(buf, MAGIC) == Some(at) && HeaderAt(h, buf, at, n, l, body)
    ensures GuessSwap(n, l, |body|) == Some(false) ==> Decoded(h, buf) == DecodeBody(h, false, body, n)
    ensures GuessSwap(n, l, |body|) == Some(true) ==> Decoded(h, buf) == DecodeBody(h, true, body, SwapBytes(n))
  {
  }

  lemma HeaderFields(e: Endian, n: nat, l: nat, unused: seq<Byte>, rest: seq<Byte>)
    requires |unused| == 20
    ensures var cache := EncodeHeader(e, n, l, unused) + rest;
            && |cache| == HEADER_SIZE + |rest|
            && cache[17..20] == VERSION
            && cache[20..24] == Encode(e, n, 4) && cache[24..28] == Encode(e, l, 4)
            && cache[HEADER_SIZE..] == rest
  {
  }

  /** The sizes of a cache in the other byte order do not fit unswapped, or there is nothing to decode. */
  ghost predicate Unambiguous(h: Endian, e: Endian, n: nat, l: nat)
    requires n < WORD && l < WORD
  {
    e == h || n == 0 || ENTRY_SIZE * SwapBytes(n) + SwapBytes(l) != ENTRY_SIZE * n + l
  }

  lemma SwapZero()
    ensures SwapBytes(0) == 0
  {
  }

  /**
    Any entry list laid out in the format, in either byte order and behind any prefix
    without an earlier match of the magic, decodes to the stable grouping of its values by
    key, unless the sizes are ambiguous.
   */
  lemma CacheRoundTrip(h: Endian, e: Endian, prefix: seq<Byte>, xs: seq<FileEntry>, strings: seq<Byte>,
                       unused: seq<Byte>)
    requires WellLaid(xs, strings) && |unused| == 20
    requires FindSubsequence(prefix + EncodeCache(e, xs, strings, unused), MAGIC) == Some(|prefix|)
    requires Unambiguous(h, e, |xs|, |strings|)
    ensures Decoded(h, prefix + EncodeCache(e, xs, strings, unused))
            == Cache(Group(PairsOf(xs, StringStart(xs), strings)))
  {
    var buf := prefix + EncodeCache(e, xs, strings, unused);
    var body := EncodeTable(e, xs) + strings;
    HeaderRoundTrip(h, e, prefix, xs, strings, unused);
    TableLength(e, xs, strings);
    BodyRoundTrip(h, e, xs, strings);
    Recognised(h, e, buf, |prefix|, |xs|, |strings|, body);
    if |xs| == 0 {
      NothingToDecode(h, body);
    }
  }

  lemma HeaderRoundTrip(h: Endian, e: Endian, prefix: seq<Byte>, xs: seq<FileEntry>, strings: seq<Byte>,
                        unused: seq<Byte>)
    requires |xs| < WORD && |strings| < WORD && |unused| == 20
    ensures var n, l := |xs|, |strings|;
            HeaderAt(h, prefix + EncodeCache(e, xs, strings, unused), |prefix|,
                     if e == h then n else SwapBytes(n), if e == h then l else SwapBytes(l),
                     EncodeTable(e, xs) + strings)
  {
    hide EncodeTable, EncodeHeader, NativeWord, SwapBytes, Encode, Field;
    var body, header := EncodeTable(e, xs) + strings, EncodeHeader(e, |xs|, |strings|, unused);
    var buf := prefix + EncodeCache(e, xs, strings, unused);
    BehindPrefix(prefix, header, EncodeTable(e, xs), strings);
    HeaderFields(e, |xs|, |strings|, unused, body);
    FieldRoundTrip(h, e, |xs|);
    FieldRoundTrip(h, e, |strings|);
  }

  lemma BehindPrefix(prefix: seq<Byte>, a: seq<Byte>, b: seq<Byte>, c: seq<Byte>)
    ensures (prefix + (a + b + c))[|prefix|..] == a + (b + c)
  {
  }

  /** Unambiguous sizes lead to decoding with the right byte order. */
  lemma Recognised(h: Endian, e: Endian, buf: seq<Byte>, at: nat, n: nat, l: nat, body: seq<Byte>)
    requires n < WORD && l < WORD && Unambiguous(h, e, n, l) && |body| == ENTRY_SIZE * n + l
    requires FindSubsequence(buf, MAGIC) == Some(at)
    requires HeaderAt(h, buf, at, if e == h then n else SwapBytes(n), if e == h then l else SwapBytes(l), body)
    ensures e == h || n > 0 ==> Decoded(h, buf) == DecodeBody(h, e != h, body, n)
    ensures n == 0 ==>
              Decoded(h, buf) == DecodeBody(h, false, body, 0) || Decoded(h, buf) == DecodeBody(h, true, body, 0)
  {
    SizesGuessed(h, e, n, l);
    if e == h {
      DecodedOf(h, buf, at, n, l, body);
    } else {
      DecodedOf(h, buf, at, SwapBytes(n), SwapBytes(l), body);
    }
  }

  /** The guess for the native reading of the sizes of a laid out cache. */
  lemma SizesGuessed(h: Endian, e: Endian, n: nat, l: nat)
    requires n < WORD && l < WORD && Unambiguous(h, e, n, l)
    ensures e == h ==> GuessSwap(n, l, ENTRY_SIZE * n + l) == Some(false)
    ensures e != h && n > 0 ==> GuessSwap(SwapBytes(n), SwapBytes(l), ENTRY_SIZE * n + l) == Some(true)
    ensures e != h ==> GuessSwap(SwapBytes(n), SwapBytes(l), ENTRY_SIZE * n + l).Some?
    ensures SwapBytes(SwapBytes(n)) == n && (n == 0 ==> SwapBytes(n) == 0)
  {
    GuessExact(n, l);
    SwapTwice(n);
    SwapTwice(l);
    SwapZero();
  }

  /** Without entries both readings give the empty cache. */
  lemma NothingToDecode(h: Endian, body: seq<Byte>)
    ensures DecodeBody(h, true, body, 0) == DecodeBody(h, false, body, 0) == Cache(map[])
  {
  }

  /** Below the bound no cache is ambiguous, so every one is read back on every machine. */
  lemma CacheRoundTripBelowBound(h: Endian, e: Endian, prefix: seq<Byte>, xs: seq<FileEntry>, strings: seq<Byte>,
                                 unused: seq<Byte>)
    requires WellLaid(xs, strings) && |unused| == 20
    requires FindSubsequence(prefix + EncodeCache(e, xs, strings, unused), MAGIC) == Some(|prefix|)
    requires ENTRY_SIZE * |xs| + |strings| < ENTRY_SIZE * 65536
    ensures Decoded(h, prefix + EncodeCache(e, xs, strings, unused))
            == Cache(Group(PairsOf(xs, StringStart(xs), strings)))
  {
    if xs != [] {
      GuessRightBelowBound(|xs|, |strings|);
    }
    CacheRoundTrip(h, e, prefix, xs, strings, unused);
  }

  // ----- the layout and the refusals, in numbers

  /** The word at `at`, in byte order `e`. */
  function WordAt(e: Endian, bs: seq<Byte>, at: nat): (v: nat)
    requires at + 4 <= |bs|
  {
    Decode(e, bs[at..at + 4])
  }

  /** The sizes in byte order `e` account for every byte of `cache`. */
  predicate SizesFit(e: Endian, cache: seq<Byte>)
    requires |cache| >= 48
  {
    48 + 24 * WordAt(e, cache, 20) + WordAt(e, cache, 24) == |cache|
  }

  /** Exactly which caches are refused before their entries are looked at, and with which error. */
  lemma Refusals(h: Endian, buf: seq<Byte>)
    ensures FindSubsequence(buf, MAGIC).None? ==> Decoded(h, buf) == InvalidData
    ensures FindSubsequence(buf, MAGIC).Some? ==>
              var cache := buf[FindSubsequence(buf, MAGIC).value..];
              && (Decoded(h, buf) == UnexpectedEof <==> |cache| < 48)
              && (|cache| >= 48 ==>
                    (Decoded(h, buf) == InvalidData
                     <==> cache[17..20] != [0x31, 0x2e, 0x31] || (!SizesFit(h, cache) && !SizesFit(Other(h), cache))))
  {
    hide FindSubsequence, Decode;
    if FindSubsequence(buf, MAGIC).Some? {
      var cache := buf[FindSubsequence(buf, MAGIC).value..];
      if |cache| >= 48 {
        SwapDecodes(h, cache[20..24]);
        SwapDecodes(h, cache[24..28]);
      }
    }
  }

  /** In byte order `e`, the key or the value of entry `i` is a file position outside the string table. */
  ghost predicate Stray(e: Endian, cache: seq<Byte>, i: nat) {
    && 48 + 24 * i + 12 <= |cache| && SizesFit(e, cache)
    && var start := 48 + 24 * WordAt(e, cache, 20);
       !(start <= WordAt(e, cache, 48 + 24 * i + 4) <= |cache| && start <= WordAt(e, cache, 48 + 24 * i + 8) <= |cache|)
  }

  /** The byte order that is used when the sizes fit. */
  ghost function Used(h: Endian, cache: seq<Byte>): (e: Endian)
    requires |cache| >= 48
  {
    if SizesFit(h, cache) then h else Other(h)
  }

  lemma {:induction false} PairsMissing(fetch: nat -> Option<(Name, Name)>, n: nat)
    ensures Pairs(fetch, n).None? <==> exists i: nat :: i < n && fetch(i).None?
  {
    if n > 0 {
      PairsMissing(fetch, n - 1);
    }
  }

  /** Where entry `i` of the table is in the cache. */
  lemma EntryAt(cache: seq<Byte>, size: nat, from: nat, to: nat)
    requires 48 + size <= |cache| && from <= to <= size
    ensures cache[48..][..size][from..to] == cache[48 + from..48 + to]
  {
    var rest := cache[48..];
    assert rest[..size][from..to] == rest[from..to];
    assert rest[from..to] == cache[48 + from..48 + to];
  }

  lemma FieldReads(h: Endian, e: Endian, bs: seq<Byte>)
    requires |bs| == 4
    ensures Field(h, e != h, bs) == Decode(e, bs)
  {
    SwapDecodes(h, bs);
  }

  /** An entry cannot be resolved exactly if one of its two words leads outside the string table. */
  lemma EntryStrays(h: Endian, e: Endian, cache: seq<Byte>, n: nat, i: nat)
    requires |cache| >= 48 && SizesFit(e, cache) && n == WordAt(e, cache, 20) && i < n
    ensures PairAt(h, e != h, cache[48..][..24 * n], cache[48..][24 * n..], 48 + 24 * n, i).None?
            <==> Stray(e, cache, i)
  {
    hide CString, Field, Decode;
    assert 24 * i + 24 <= 24 * n;
    var entry := cache[48..][..24 * n][24 * i..24 * (i + 1)];
    EntryAt(cache, 24 * n, 24 * i, 24 * (i + 1));
    InnerSlice(cache, 48 + 24 * i, 24, 4);
    InnerSlice(cache, 48 + 24 * i, 24, 8);
    FieldReads(h, e, entry[4..8]);
    FieldReads(h, e, entry[8..12]);
  }

  /** A cache that is not refused cannot be decoded if and only if one of its entries strays. */
  lemma PanicExact(h: Endian, buf: seq<Byte>, cache: seq<Byte>)
    requires FindSubsequence(buf, MAGIC).Some? && cache == buf[FindSubsequence(buf, MAGIC).value..]
    requires |cache| >= 48 && cache[17..20] == VERSION && SizesFit(Used(h, cache), cache)
    ensures Decoded(h, buf) == Panic
            <==> exists i: nat :: i < WordAt(Used(h, cache), cache, 20) && Stray(Used(h, cache), cache, i)
  {
    hide FindSubsequence, Decode, PairAt, Group, Pairs, Stray;
    var e := Used(h, cache);
    var n := WordAt(e, cache, 20);
    SwapDecodes(h, cache[20..24]);
    SwapDecodes(h, cache[24..28]);
    assert Decoded(h, buf) == DecodeBody(h, e != h, cache[48..], n);
    var fetch := Fetch(h, e != h, cache[48..][..24 * n], cache[48..][24 * n..], 48 + 24 * n);
    PairsMissing(fetch, n);
    forall i: nat | i < n ensures fetch(i).None? <==> Stray(e, cache, i) {
      EntryStrays(h, e, cache, n, i);
    }
  }

  /** Where the format puts what: header of 48 bytes, entries of 24, then the strings. */
  lemma CacheLayout(e: Endian, xs: seq<FileEntry>, strings: seq<Byte>, unused: seq<Byte>)
    requires WellLaid(xs, strings) && |unused| == 20
    ensures var cache, start := EncodeCache(e, xs, strings, unused), 48 + 24 * |xs|;
            && |cache| == start + |strings| && cache[start..] == strings
            && cache[0..17] == [0x67, 0x6c, 0x69, 0x62, 0x63, 0x2d, 0x6c, 0x64, 0x2e, 0x73, 0x6f, 0x2e,
                                0x63, 0x61, 0x63, 0x68, 0x65]
            && cache[17..20] == [0x31, 0x2e, 0x31]
            && WordAt(e, cache, 20) == |xs| && WordAt(e, cache, 24) == |strings|
            && cache[48..start] == EncodeTable(e, xs)
  {
    hide EncodeTable, Encode, Decode, EncodeHeader;
    TableLength(e, xs, strings);
    var header, table := EncodeHeader(e, |xs|, |strings|, unused), EncodeTable(e, xs);
    HeaderFields(e, |xs|, |strings|, unused, table + strings);
    assert header + table + strings == header + (table + strings);
    HeaderBegins(e, |xs|, |strings|, unused);
    SliceOfFront(header, table + strings, 0, 17);
    Suffix(header + table, strings, 48 + 24 * |xs|, 48 + 24 * |xs| + |strings|);
    SliceOfFront(header + table, strings, 48, 48 + 24 * |xs|);
    Suffix(header, table, 48, 48 + 24 * |xs|);
    assert Pow256(4) == WORD;
    IntegerRoundTrip(e, |xs|, 4);
    IntegerRoundTrip(e, |strings|, 4);
  }

  lemma HeaderBegins(e: Endian, n: nat, l: nat, unused: seq<Byte>)
    requires |unused| == 20
    ensures |EncodeHeader(e, n, l, unused)| == 48 && EncodeHeader(e, n, l, unused)[0..17] == MAGIC
  {
  }

  /** In an entry the key follows four bytes and the value follows the key. */
  lemma EntryLayout(e: Endian, xs: seq<FileEntry>, i: nat)
    requires i < |xs| && FieldsLaid(xs) && xs[i].key < WORD && xs[i].value < WORD
    ensures |EncodeTable(e, xs)| == 24 * |xs|
    ensures WordAt(e, EncodeTable(e, xs), 24 * i + 4) == xs[i].key
    ensures WordAt(e, EncodeTable(e, xs), 24 * i + 8) == xs[i].value
  {
    hide EncodeTable, EncodeEntry, Encode, Decode;
    TableEntry(e, xs, i);
    EntryFields(e, xs[i]);
    InnerSlice(EncodeTable(e, xs), 24 * i, 24, 4);
    InnerSlice(EncodeTable(e, xs), 24 * i, 24, 8);
    assert Pow256(4) == WORD;
    IntegerRoundTrip(e, xs[i].key, 4);
    IntegerRoundTrip(e, xs[i].value, 4);
  }

  lemma InnerSlice(bs: seq<Byte>, at: nat, len: nat, lo: nat)
    requires at + len <= |bs| && lo + 4 <= len
    ensures bs[at..at + len][lo..lo + 4] == bs[at + lo..at + lo + 4]
  {
    var entry := bs[at..at + len];
    var inner, outer := entry[lo..lo + 4], bs[at + lo..at + lo + 4];
    forall i | 0 <= i < 4 ensures inner[i] == outer[i] {
      assert entry[lo + i] == bs[at + lo + i];
    }
  }
}
