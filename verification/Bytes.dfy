/** Bytes, fixed-width integers in either byte order, and NUL-terminated strings. */
module Bytes {
  type Byte = x: int | 0 <= x < 256

  datatype Endian = Little | Big

  function Pow256(n: nat): (r: nat)
    ensures r > 0
  {
    if n == 0 then 1 else 256 * Pow256(n - 1)
  }

  function Reversed(bs: seq<Byte>): (r: seq<Byte>)
    ensures |r| == |bs|
    ensures forall i :: 0 <= i < |bs| ==> r[i] == bs[|bs| - 1 - i]
  {
    seq(|bs|, i requires 0 <= i < |bs| => bs[|bs| - 1 - i])
  }

  /** Least significant byte first. */
  function FromLittle(bs: seq<Byte>): (v: nat)
    ensures v < Pow256(|bs|)
  {
    if bs == [] then 0 else bs[0] + 256 * FromLittle(bs[1..])
  }

  function ToLittle(v: nat, n: nat): (bs: seq<Byte>)
    ensures |bs| == n
  {
    if n == 0 then [] else [v % 256] + ToLittle(v / 256, n - 1)
  }

  function Decode(e: Endian, bs: seq<Byte>): (v: nat)
    ensures v < Pow256(|bs|)
  {
    if e.Little? then FromLittle(bs) else FromLittle(Reversed(bs))
  }

  function Encode(e: Endian, v: nat, n: nat): (bs: seq<Byte>)
    ensures |bs| == n
  {
    if e.Little? then ToLittle(v, n) else Reversed(ToLittle(v, n))
  }

  lemma {:induction false} LittleRoundTrip(v: nat, n: nat)
    requires v < Pow256(n)
    ensures FromLittle(ToLittle(v, n)) == v
  {
    if n > 0 {
      assert ToLittle(v, n)[1..] == ToLittle(v / 256, n - 1);
      LittleRoundTrip(v / 256, n - 1);
    }
  }

  lemma {:induction false} LittleInverse(bs: seq<Byte>)
    ensures ToLittle(FromLittle(bs), |bs|) == bs
  {
    if bs != [] {
      LittleInverse(bs[1..]);
      assert FromLittle(bs) % 256 == bs[0] && FromLittle(bs) / 256 == FromLittle(bs[1..]);
    }
  }

  /** Encoding and decoding in the same byte order loses nothing. */
  lemma IntegerRoundTrip(e: Endian, v: nat, n: nat)
    requires v < Pow256(n)
    ensures Decode(e, Encode(e, v, n)) == v
  {
    LittleRoundTrip(v, n);
    assert Reversed(Reversed(ToLittle(v, n))) == ToLittle(v, n);
  }

  /** What a byte contributes: the least significant one comes first, or last. */
  lemma DecodePlaces(bs: seq<Byte>)
    ensures Decode(Little, []) == 0 && Decode(Big, []) == 0
    ensures bs != [] ==> Decode(Little, bs) == bs[0] + 256 * Decode(Little, bs[1..])
    ensures bs != [] ==> Decode(Big, bs) == bs[|bs| - 1] + 256 * Decode(Big, bs[..|bs| - 1])
  {
    assert Reversed([]) == [];
    if bs != [] {
      assert Reversed(bs)[0] == bs[|bs| - 1];
      assert Reversed(bs)[1..] == Reversed(bs[..|bs| - 1]);
    }
  }

  // ----- NUL-terminated strings

  /** The first piece of `bs` split at zero bytes. */
  function CString(bs: seq<Byte>): (r: seq<Byte>)
    ensures r <= bs && 0 !in r
    ensures |r| == |bs| || bs[|r|] == 0
  {
    if bs == [] || bs[0] == 0 then [] else [bs[0]] + CString(bs[1..])
  }

  /** A string without zero bytes is read back from in front of its terminator. */
  lemma {:induction false} CStringOf(s: seq<Byte>, rest: seq<Byte>)
    requires 0 !in s
    ensures CString(s + [0] + rest) == s
  {
    if s != [] {
      assert (s + [0] + rest)[1..] == s[1..] + [0] + rest;
      CStringOf(s[1..], rest);
      assert s == [s[0]] + s[1..];
      assert s[0] in s;
    }
  }
}
