/**
  `Dynamic::from_reader` and `Strtab::get`: the dynamic section (System V gABI, chapter 5,
  "Dynamic Section") decoded against a string table (chapter 4, "String Table").
 */
module DynamicSection {
  import opened Counting
  import opened Bytes

  datatype Class = Class32 | Class64

  datatype Header = Header(class_: Class, endian: Endian)

  datatype Error = Io | LinkedSectionIsNotStrtab | InvalidDynamicFlags1(bits: nat)

  datatype Result<+T> = Ok(value: T) | Err(error: Error)

  datatype DynamicContent =
    | Nothing
    | Text(name: seq<Byte>, off: Option<nat>)
    | Address(val: nat)
    | Flags1(bits: nat)

  datatype Dynamic = Dynamic(dhtype: nat, content: DynamicContent)

  const NULL := 0
  const NEEDED := 1
  const RPATH := 15
  const RUNPATH := 29
  const UNKNOWN := 0xffff
  const FLAGS_1 := 0x6ffffffb
  const FLAGS_1_END := 0x1000_0000    // one past the highest combination of defined flags

  /** The tags that `DynamicType` names. */
  predicate KnownTag(tag: nat) {
    || tag <= 30 || 32 <= tag <= 34 || tag == UNKNOWN
    || 0x6ffffdf5 <= tag <= 0x6ffffdff || 0x6ffffef5 <= tag <= 0x6ffffeff
    || tag == 0x6ffffff0 || 0x6ffffff9 <= tag <= 0x70000006 || 0x70000008 <= tag <= 0x7000000b
    || 0x70000010 <= tag <= 0x70000014 || tag == 0x70000016 || tag == 0x70000035
    || tag == 0x7ffffffd || tag == 0x7fffffff
  }

  /** `Strtab::get`. */
  function StringAt(strtab: seq<Byte>, i: nat): (r: seq<Byte>)
    ensures i < |strtab| ==> 0 !in r && r <= strtab[i..] && (i + |r| == |strtab| || strtab[i + |r|] == 0)
    ensures i >= |strtab| ==> r == CORRUPT
  {
    if i >= |strtab| then CORRUPT else CString(strtab[i..])
  }

  const CORRUPT: seq<Byte> := [0x3c, 0x63, 0x6f, 0x72, 0x72, 0x75, 0x70, 0x74, 0x3e]    // "<corrupt>"

  function Width(class_: Class): (n: nat)
    ensures n > 0
  {
    if class_.Class32? then 4 else 8
  }

  predicate NamesString(tag: nat) {
    tag == NEEDED || tag == RPATH || tag == RUNPATH
  }

  /** The meaning of one tag and value. */
  function Entry(strtab: Option<seq<Byte>>, tag: nat, val: nat): (r: Result<Dynamic>) {
    if !KnownTag(tag) then Ok(Dynamic(UNKNOWN, Nothing))
    else if tag == NULL then Ok(Dynamic(NULL, Nothing))
    else if NamesString(tag) then
      Ok(Dynamic(tag, match strtab
                      case None => Text([], None)
                      case Some(s) => Text(StringAt(s, val), Some(val))))
    else if tag == FLAGS_1 then
      if val < FLAGS_1_END then Ok(Dynamic(tag, Flags1(val))) else Err(InvalidDynamicFlags1(val))
    else Ok(Dynamic(tag, Address(val)))
  }

  /** `r`, with `front` in front of its entries. */
  function Prepend(front: seq<Dynamic>, r: Result<seq<Dynamic>>): (t: Result<seq<Dynamic>>) {
    match r
    case Ok(rest) => Ok(front + rest)
    case Err(e) => Err(e)
  }

  /**
    What the bytes from the cursor on decode to: entries up to DT_NULL, or up to where not
    even a tag is left; a tag without its value is an error.
   */
  function Entries(h: Header, strtab: Option<seq<Byte>>, bytes: seq<Byte>): (r: Result<seq<Dynamic>>)
    decreases |bytes|
  {
    var w := Width(h.class_);
    if |bytes| < w then Ok([])
    else if |bytes| < 2 * w then Err(Io)
    else
      var tag, val := Decode(h.endian, bytes[..w]), Decode(h.endian, bytes[w..2 * w]);
      match Entry(strtab, tag, val)
      case Err(e) => Err(e)
      case Ok(d) => if tag == NULL then Ok([d]) else Prepend([d], Entries(h, strtab, bytes[2 * w..]))
  }

  /** One round of the loop, seen from the rest of the input. */
  lemma EntriesStep(h: Header, strtab: Option<seq<Byte>>, bytes: seq<Byte>, pos: nat)
    requires pos + 2 * Width(h.class_) <= |bytes|
    ensures var w := Width(h.class_);
            var tag, val := Decode(h.endian, bytes[pos..pos + w]), Decode(h.endian, bytes[pos + w..pos + 2 * w]);
            Entries(h, strtab, bytes[pos..])
            == match Entry(strtab, tag, val)
               case Err(e) => Err(e)
               case Ok(d) => if tag == NULL then Ok([d]) else Prepend([d], Entries(h, strtab, bytes[pos + 2 * w..]))
  {
    var w, rest := Width(h.class_), bytes[pos..];
    assert rest[..w] == bytes[pos..pos + w];
    assert rest[w..2 * w] == bytes[pos + w..pos + 2 * w];
    assert rest[2 * w..] == bytes[pos + 2 * w..];
  }

  lemma PrependTwice(a: seq<Dynamic>, b: seq<Dynamic>, r: Result<seq<Dynamic>>)
    ensures Prepend(a, Prepend(b, r)) == Prepend(a + b, r)
  {
    if r.Ok? {
      assert a + (b + r.value) == a + b + r.value;
    }
  }

  /** The reading loop. */
  method ReadEntries(h: Header, strtab: Option<seq<Byte>>, bytes: seq<Byte>) returns (r: Result<seq<Dynamic>>)
    ensures r == Entries(h, strtab, bytes)
  {
    var w := Width(h.class_);
    var pos := 0;
    var acc: seq<Dynamic> := [];
    assert bytes[0..] == bytes && forall t: seq<Dynamic> :: acc + t == t;
    while |bytes| - pos >= w
      invariant pos <= |bytes|
      invariant Entries(h, strtab, bytes) == Prepend(acc, Entries(h, strtab, bytes[pos..]))
      decreases |bytes| - pos
    {
      ghost var from := pos;
      var tag := Decode(h.endian, bytes[pos..pos + w]);
      pos := pos + w;
      if |bytes| - pos < w {
        return Err(Io);
      }
      var val := Decode(h.endian, bytes[pos..pos + w]);
      pos := pos + w;
      EntriesStep(h, strtab, bytes, from);
      var d := Entry(strtab, tag, val);
      if d.Err? {
        return Err(d.error);
      }
      PrependTwice(acc, [d.value], Entries(h, strtab, bytes[pos..]));
      acc := acc + [d.value];
      if tag == NULL {
        return Ok(acc);
      }
    }
    assert acc + [] == acc;
    return Ok(acc);
  }

  // ----- the inverse

  datatype Raw = Raw(tag: nat, val: nat)

  ghost predicate Fits(class_: Class, es: seq<Raw>) {
    forall i :: 0 <= i < |es| ==> es[i].tag < Pow256(Width(class_)) && es[i].val < Pow256(Width(class_))
  }

  function EncodeRaw(h: Header, e: Raw): (bytes: seq<Byte>)
    ensures |bytes| == 2 * Width(h.class_)
  {
    Encode(h.endian, e.tag, Width(h.class_)) + Encode(h.endian, e.val, Width(h.class_))
  }

  function EncodeAll(h: Header, es: seq<Raw>): (bytes: seq<Byte>) {
    if es == [] then [] else EncodeRaw(h, es[0]) + EncodeAll(h, es[1..])
  }

  /** The entries up to and including the first DT_NULL. */
  function UpToNull(es: seq<Raw>): (r: seq<Raw>)
    ensures r <= es
    ensures forall i :: 0 <= i < |r| - 1 ==> r[i].tag != NULL
    ensures |r| < |es| ==> r != [] && r[|r| - 1].tag == NULL
  {
    if es == [] then [] else if es[0].tag == NULL then [es[0]] else [es[0]] + UpToNull(es[1..])
  }

  ghost predicate HasNull(es: seq<Raw>) {
    exists i :: 0 <= i < |es| && es[i].tag == NULL
  }

  /** Entry by entry; the first invalid one makes the whole an error. */
  function MapEntries(strtab: Option<seq<Byte>>, es: seq<Raw>): (r: Result<seq<Dynamic>>) {
    if es == [] then Ok([])
    else
      match Entry(strtab, es[0].tag, es[0].val)
      case Err(e) => Err(e)
      case Ok(d) => Prepend([d], MapEntries(strtab, es[1..]))
  }

  lemma CutTwo(a: seq<Byte>, b: seq<Byte>, c: seq<Byte>, d: seq<Byte>)
    ensures var s := a + b + c + d;
            && s[..|a|] == a && s[|a|..|a| + |b|] == b && s[|a| + |b|..] == c + d
  {
  }

  /** The first encoded entry is what the first round of the loop reads. */
  lemma EncodedStep(h: Header, es: seq<Raw>, tail: seq<Byte>)
    requires Fits(h.class_, es) && es != []
    ensures var w, bytes := Width(h.class_), EncodeAll(h, es) + tail;
            && |bytes| >= 2 * w
            && Decode(h.endian, bytes[..w]) == es[0].tag
            && Decode(h.endian, bytes[w..2 * w]) == es[0].val
            && bytes[2 * w..] == EncodeAll(h, es[1..]) + tail
  {
    var w, e := Width(h.class_), es[0];
    CutTwo(Encode(h.endian, e.tag, w), Encode(h.endian, e.val, w), EncodeAll(h, es[1..]), tail);
    IntegerRoundTrip(h.endian, e.tag, w);
    IntegerRoundTrip(h.endian, e.val, w);
  }

  lemma HasNullTail(es: seq<Raw>)
    requires es != [] && es[0].tag != NULL
    ensures HasNull(es) == HasNull(es[1..])
  {
  }

  /**
    Decoding an encoded list, for both classes and both byte orders, gives exactly the
    entries up to the first DT_NULL, whatever follows. Without a DT_NULL all entries come
    back if less than a tag follows, and a lone tag is an error.
   */
  lemma {:induction false} DynamicRoundTrip(h: Header, strtab: Option<seq<Byte>>, es: seq<Raw>, tail: seq<Byte>)
    requires Fits(h.class_, es)
    ensures HasNull(es) || |tail| < Width(h.class_) ==>
              Entries(h, strtab, EncodeAll(h, es) + tail) == MapEntries(strtab, UpToNull(es))
    ensures !HasNull(es) && Width(h.class_) <= |tail| < 2 * Width(h.class_) ==>
              Entries(h, strtab, EncodeAll(h, es) + tail)
              == match MapEntries(strtab, es) case Err(e) => Err(e) case Ok(_) => Err(Io)
    decreases |es|
  {
    if es == [] {
      assert EncodeAll(h, es) + tail == tail;
    } else {
      EncodedStep(h, es, tail);
      if es[0].tag == NULL {
        assert UpToNull(es)[1..] == [];
        assert [Dynamic(NULL, Nothing)] + [] == [Dynamic(NULL, Nothing)];
      } else {
        DynamicRoundTrip(h, strtab, es[1..], tail);
        HasNullTail(es);
        assert UpToNull(es)[1..] == UpToNull(es[1..]);
      }
    }
  }

  /** A name that was laid out in the string table is what its entry decodes to. */
  lemma NameRoundTrip(front: seq<Byte>, name: seq<Byte>, rest: seq<Byte>, tag: nat)
    requires 0 !in name && NamesString(tag)
    ensures Entry(Some(front + name + [0] + rest), tag, |front|) == Ok(Dynamic(tag, Text(name, Some(|front|))))
  {
    var strtab := front + name + [0] + rest;
    assert strtab[|front|..] == name + [0] + rest;
    CStringOf(name, rest);
  }

  // ----- where the words are, in numbers

  /**
    A 64-bit entry is two words of eight bytes and the next one begins at byte 16; a 32-bit
    entry is two words of four bytes and the next one begins at byte 8.
   */
  lemma EntryPlaces(e: Endian, strtab: Option<seq<Byte>>, bytes: seq<Byte>)
    ensures |bytes| >= 16 ==>
              Entries(Header(Class64, e), strtab, bytes)
              == FirstEntry(Decode(e, bytes[0..8]), Entry(strtab, Decode(e, bytes[0..8]), Decode(e, bytes[8..16])),
                            Entries(Header(Class64, e), strtab, bytes[16..]))
    ensures |bytes| >= 8 ==>
              Entries(Header(Class32, e), strtab, bytes)
              == FirstEntry(Decode(e, bytes[0..4]), Entry(strtab, Decode(e, bytes[0..4]), Decode(e, bytes[4..8])),
                            Entries(Header(Class32, e), strtab, bytes[8..]))
    ensures |bytes| < 8 ==> Entries(Header(Class64, e), strtab, bytes) == Ok([])
    ensures |bytes| < 4 ==> Entries(Header(Class32, e), strtab, bytes) == Ok([])
    ensures 8 <= |bytes| < 16 ==> Entries(Header(Class64, e), strtab, bytes) == Err(Io)
    ensures 4 <= |bytes| < 8 ==> Entries(Header(Class32, e), strtab, bytes) == Err(Io)
  {
    hide Decode, Entry, KnownTag;
    assert |bytes| >= 8 ==> bytes[..8] == bytes[0..8] && bytes[..4] == bytes[0..4];
  }

  /** The first entry, then the others unless it is DT_NULL, which is tag 0. */
  function FirstEntry(tag: nat, d: Result<Dynamic>, rest: Result<seq<Dynamic>>): (r: Result<seq<Dynamic>>) {
    match (d, rest)
    case (Err(e), _) => Err(e)
    case (Ok(first), _) => if tag == 0 then Ok([first]) else Prepend([first], rest)
  }

  /** The entries with a meaning of their own, by the numbers of their tags. */
  lemma EntryByNumber(strings: seq<Byte>, val: nat)
    ensures Entry(Some(strings), 0, val) == Ok(Dynamic(0, Nothing))
    ensures Entry(Some(strings), 1, val) == Ok(Dynamic(1, Text(StringAt(strings, val), Some(val))))
    ensures Entry(Some(strings), 15, val) == Ok(Dynamic(15, Text(StringAt(strings, val), Some(val))))
    ensures Entry(Some(strings), 29, val) == Ok(Dynamic(29, Text(StringAt(strings, val), Some(val))))
    ensures forall tag :: tag in [1, 15, 29] ==> Entry(None, tag, val) == Ok(Dynamic(tag, Text([], None)))
    ensures Entry(Some(strings), 0x6ffffffb, val)
            == if val < 0x1000_0000 then Ok(Dynamic(0x6ffffffb, Flags1(val))) else Err(InvalidDynamicFlags1(val))
    ensures forall tag: nat :: 2 <= tag <= 30 && tag != 15 && tag != 29 ==>
              Entry(Some(strings), tag, val) == Ok(Dynamic(tag, Address(val)))
    ensures Entry(Some(strings), 31, val) == Ok(Dynamic(0xffff, Nothing))
  {
    hide StringAt;
  }

  /** A 64-bit little-endian section that needs the library `l`. */
  lemma NeedsL(bytes: seq<Byte>)
    requires |bytes| == 32 && bytes[0] == 1 && bytes[8] == 1
    requires forall i :: 0 <= i < 32 && i != 0 && i != 8 ==> bytes[i] == 0
    ensures Entries(Header(Class64, Little), Some([0, 0x6c, 0]), bytes)
            == Ok([Dynamic(1, Text([0x6c], Some(1))), Dynamic(0, Nothing)])
  {
    hide Entries, Decode;
    EntryPlaces(Little, Some([0, 0x6c, 0]), bytes);
    EntryPlaces(Little, Some([0, 0x6c, 0]), bytes[16..]);
    OneThenZeros(bytes[0..8], 1);
    OneThenZeros(bytes[8..16], 1);
    OneThenZeros(bytes[16..][0..8], 0);
    OneThenZeros(bytes[16..][8..16], 0);
    EntryByNumber([0, 0x6c, 0], 1);
    EntryByNumber([0, 0x6c, 0], 0);
    assert [0, 0x6c, 0][1..] == [0x6c] + [0] + [];
    CStringOf([0x6c], []);
    assert [Dynamic(1, Text([0x6c], Some(1)))] + [Dynamic(0, Nothing)]
           == [Dynamic(1, Text([0x6c], Some(1))), Dynamic(0, Nothing)];
  }

  lemma OneThenZeros(bs: seq<Byte>, b: Byte)
    requires bs != [] && bs[0] == b && forall i :: 0 < i < |bs| ==> bs[i] == 0
    ensures Decode(Little, bs) == b
  {
    hide Decode;
    DecodePlaces(bs);
    AllZeros(bs[1..]);
  }

  lemma {:induction false} AllZeros(bs: seq<Byte>)
    requires forall i :: 0 <= i < |bs| ==> bs[i] == 0
    ensures Decode(Little, bs) == 0
  {
    hide Decode;
    DecodePlaces(bs);
    if bs != [] {
      AllZeros(bs[1..]);
    }
  }
}
