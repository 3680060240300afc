/**
  `copy`: the loop over data extents with its fallback from copy_file_range to sendfile to
  read and write. The kernel is an oracle: how many bytes a call moves and which calls are
  rejected is decided by arbitrary reply streams.
 */
module SparseCopy {
  import opened Counting
  import opened Bytes

  datatype Errno = ENOSYS | EPERM | EXDEV | EINVAL | EIO

  /** What the kernel does with a request: fail, or move about `n` bytes. */
  datatype Reply = Fail(e: Errno) | Moves(n: nat) | Signal

  /** One call of a mechanism with the kernel's reply. */
  datatype Call = Range(reply: Reply) | Send(reply: Reply) | InOut(reply: Reply)

  datatype Moved = Count(n: nat) | Error(e: Errno) | Interrupted

  // ----- file contents

  function Zeros(n: nat): (s: seq<Byte>)
    ensures |s| == n && forall i :: 0 <= i < n ==> s[i] == 0
  {
    seq(n, i => 0)
  }

  /** Writing `bytes` at `off`; a gap behind the end of the file is filled with zeros. */
  function Put(file: seq<Byte>, off: nat, bytes: seq<Byte>): (r: seq<Byte>) {
    if bytes == [] then file
    else
      var padded := if |file| < off then file + Zeros(off - |file|) else file;
      padded[..off] + bytes + (if off + |bytes| < |padded| then padded[off + |bytes|..] else [])
  }

  /** What a write changes and what it leaves alone. */
  lemma PutShape(file: seq<Byte>, off: nat, bytes: seq<Byte>)
    ensures |Put(file, off, bytes)| == if off + |bytes| > |file| && bytes != [] then off + |bytes| else |file|
    ensures forall i :: 0 <= i < |Put(file, off, bytes)| ==>
              Put(file, off, bytes)[i] == if off <= i < off + |bytes| then bytes[i - off]
                                          else if i < |file| then file[i]
                                          else 0
  {
  }

  lemma PutNothing(file: seq<Byte>, off: nat, src: seq<Byte>, from: nat)
    requires from <= |src|
    ensures Put(file, off, src[from..from]) == file
  {
  }

  /** Two adjoining writes are one write. */
  lemma PutAppend(file: seq<Byte>, off: nat, x: seq<Byte>, y: seq<Byte>)
    ensures Put(Put(file, off, x), off + |x|, y) == Put(file, off, x + y)
  {
    if x == [] {
      assert x + y == y;
    } else if y == [] {
      assert x + y == x;
    } else {
      hide Put;
      PutShape(file, off, x);
      PutShape(Put(file, off, x), off + |x|, y);
      PutShape(file, off, x + y);
    }
  }

  lemma PutSlice(file: seq<Byte>, off: nat, src: seq<Byte>, from: nat, w: nat, n: nat)
    requires from + w + n <= |src|
    ensures Put(Put(file, off, src[from..from + w]), off + w, src[from + w..from + w + n])
            == Put(file, off, src[from..from + w + n])
  {
    hide Put;
    PutAppend(file, off, src[from..from + w], src[from + w..from + w + n]);
    assert src[from..from + w] + src[from + w..from + w + n] == src[from..from + w + n];
  }

  // ----- extents

  /** The first byte at or behind `off` that lies in a data extent. */
  function NextData(data: seq<bool>, off: nat): (r: nat)
    requires off <= |data|
    ensures off <= r <= |data|
    ensures forall i :: off <= i < r ==> !data[i]
    ensures r < |data| ==> data[r]
    decreases |data| - off
  {
    if off == |data| || data[off] then off else NextData(data, off + 1)
  }

  /** The first byte at or behind `off` that lies in a hole; the end of the file counts as one. */
  function NextHole(data: seq<bool>, off: nat): (r: nat)
    requires off <= |data|
    ensures off <= r <= |data|
    ensures forall i :: off <= i < r ==> data[i]
    ensures r < |data| ==> !data[r]
    decreases |data| - off
  {
    if off == |data| || !data[off] then off else NextHole(data, off + 1)
  }

  // ----- the kernel

  /** At least one byte and at most `max`. */
  function Clamp(n: nat, max: nat): (r: nat)
    requires max > 0
    ensures 1 <= r <= max
  {
    if n < 1 then 1 else if n > max then max else n
  }

  function Min(a: nat, b: nat): (r: nat) {
    if a < b then a else b
  }

  function Amount(reply: Reply): (n: nat) {
    match reply
    case Moves(n) => n
    case _ => 1
  }

  /** Every call was answered in turn by its mechanism's stream. */
  ghost predicate Answered(calls: seq<Call>, range: nat -> Reply, send: nat -> Reply, io: nat -> Reply) {
    forall i :: 0 <= i < |calls| ==>
      calls[i].reply == match calls[i]
                        case Range(_) => range(i)
                        case Send(_) => send(i)
                        case InOut(_) => io(i)
  }

  class Kernel {
    const src: seq<Byte>
    const data: seq<bool>                 // which source bytes lie in data extents
    const seeks: bool                     // SEEK_DATA and SEEK_HOLE are supported
    const truncate: Option<Errno>         // how `ftruncate` fails, if it does
    const rangeReplies: nat -> Reply      // copy_file_range
    const sendReplies: nat -> Reply       // sendfile
    const ioReplies: nat -> Reply         // read and write
    var clock: nat
    var calls: seq<Call>                  // what was called so far, with the replies
    var signals: nat                      // how many more calls a signal may interrupt
    var dst: seq<Byte>
    var inOff: nat                        // file offset of the source descriptor
    var outOff: nat                       // file offset of the destination descriptor
    var byRange: nat                      // bytes moved by copy_file_range so far,
    var bySend: nat                       // by sendfile,
    var byRead: nat                       // and by read and write

    constructor (src: seq<Byte>, data: seq<bool>, seeks: bool, truncate: Option<Errno>,
                 rangeReplies: nat -> Reply, sendReplies: nat -> Reply, ioReplies: nat -> Reply, signals: nat)
      requires |data| == |src| && forall i :: 0 <= i < |src| && !data[i] ==> src[i] == 0
      ensures Valid() && Fresh()
      ensures this.src == src && this.data == data && this.seeks == seeks && this.truncate == truncate
      ensures this.rangeReplies == rangeReplies && this.sendReplies == sendReplies && this.ioReplies == ioReplies
    {
      this.src, this.data, this.seeks, this.truncate := src, data, seeks, truncate;
      this.rangeReplies, this.sendReplies, this.ioReplies := rangeReplies, sendReplies, ioReplies;
      this.signals := signals;
      clock, calls, dst, inOff, outOff, byRange, bySend, byRead := 0, [], [], 0, 0, 0, 0, 0;
    }

    /** Bytes in holes read as zero. */
    ghost predicate Valid() {
      |data| == |src| && forall i :: 0 <= i < |src| && !data[i] ==> src[i] == 0
    }

    /** Just opened, the destination truncated. */
    ghost predicate Fresh()
      reads this
    {
      && clock == 0 && calls == []
      && dst == [] && inOff == 0 && outOff == 0 && byRange == 0 && bySend == 0 && byRead == 0
    }

    ghost predicate Recorded()
      reads this
    {
      |calls| == clock && Answered(calls, rangeReplies, sendReplies, ioReplies)
    }

    /** No call fails with an error that `copy` reports. */
    ghost predicate NoHardErrors() {
      && (forall t: nat :: rangeReplies(t).Fail? ==> rangeReplies(t).e != EIO)
      && (forall t: nat :: sendReplies(t).Fail? ==> sendReplies(t).e != EIO && sendReplies(t).e != EXDEV)
      && (forall t: nat :: !ioReplies(t).Fail?)
    }

    method Truncate() returns (e: Option<Errno>)
      requires dst == []
      modifies this`dst
      ensures e == truncate
      ensures dst == if e.None? then Zeros(|src|) else []
    {
      if truncate.None? {
        dst := Zeros(|src|);
      }
      return truncate;
    }

    method SeekData(off: nat) returns (r: Option<nat>)
      requires Valid() && off <= |src|
      modifies this`inOff
      ensures r == if seeks && NextData(data, off) < |src| then Some(NextData(data, off)) else None
      ensures inOff == if r.Some? then r.value else old(inOff)
    {
      var pos := NextData(data, off);
      if !seeks || pos == |src| {
        return None;
      }
      inOff := pos;
      return Some(pos);
    }

    method SeekHole(off: nat) returns (r: Option<nat>)
      requires Valid() && off <= |src|
      modifies this`inOff
      ensures r == if seeks && off < |src| then Some(NextHole(data, off)) else None
      ensures inOff == if r.Some? then r.value else old(inOff)
    {
      if !seeks || off == |src| {
        return None;
      }
      inOff := NextHole(data, off);
      return Some(inOff);
    }

    /** Explicit offsets on both sides; the descriptors' own offsets stay. */
    method CopyFileRange(off: nat, len: nat) returns (r: Moved)
      requires len > 0 && off < |src|
      modifies this`clock, this`calls, this`dst, this`byRange
      ensures calls == old(calls) + [Range(rangeReplies(old(clock)))]
      ensures !r.Interrupted? && clock == old(clock) + 1 && (r.Error? <==> rangeReplies(old(clock)).Fail?)
      ensures r.Count? ==> r.n == Clamp(Amount(rangeReplies(old(clock))), Min(len, |src| - off))
      ensures r.Error? ==> rangeReplies(old(clock)) == Fail(r.e) && dst == old(dst) && byRange == old(byRange)
      ensures r.Count? ==>
                && 1 <= r.n <= len && off + r.n <= |src|
                && dst == Put(old(dst), off, src[off..off + r.n]) && byRange == old(byRange) + r.n
    {
      var reply := rangeReplies(clock);
      clock, calls := clock + 1, calls + [Range(reply)];
      if reply.Fail? {
        return Error(reply.e);
      }
      var n := Clamp(Amount(reply), Min(len, |src| - off));
      dst := Put(dst, off, src[off..off + n]);
      byRange := byRange + n;
      return Count(n);
    }

    /** Explicit offset on the source, the descriptor's own offset on the destination. */
    method SendFile(off: nat, len: nat) returns (r: Moved)
      requires len > 0 && off < |src|
      modifies this`clock, this`calls, this`dst, this`outOff, this`bySend
      ensures calls == old(calls) + [Send(sendReplies(old(clock)))]
      ensures !r.Interrupted? && clock == old(clock) + 1 && (r.Error? <==> sendReplies(old(clock)).Fail?)
      ensures r.Count? ==> r.n == Clamp(Amount(sendReplies(old(clock))), Min(len, |src| - off))
      ensures r.Error? ==>
                && sendReplies(old(clock)) == Fail(r.e)
                && dst == old(dst) && outOff == old(outOff) && bySend == old(bySend)
      ensures r.Count? ==>
                && 1 <= r.n <= len && off + r.n <= |src|
                && dst == Put(old(dst), old(outOff), src[off..off + r.n])
                && outOff == old(outOff) + r.n && bySend == old(bySend) + r.n
    {
      var reply := sendReplies(clock);
      clock, calls := clock + 1, calls + [Send(reply)];
      if reply.Fail? {
        return Error(reply.e);
      }
      var n := Clamp(Amount(reply), Min(len, |src| - off));
      dst := Put(dst, outOff, src[off..off + n]);
      outOff, bySend := outOff + n, bySend + n;
      return Count(n);
    }

    method Read(len: nat) returns (r: Moved, buf: seq<Byte>)
      requires len > 0 && inOff < |src|
      modifies this`clock, this`calls, this`signals, this`inOff
      ensures clock == old(clock) + 1 && calls == old(calls) + [InOut(ioReplies(old(clock)))]
      ensures r.Error? <==> ioReplies(old(clock)).Fail?
      ensures r.Interrupted? ==> signals < old(signals) && inOff == old(inOff)
      ensures !r.Interrupted? ==> signals == old(signals)
      ensures r.Error? ==> ioReplies(old(clock)) == Fail(r.e)
      ensures r.Count? ==>
                && 1 <= r.n <= len && old(inOff) + r.n <= |src|
                && buf == src[old(inOff)..old(inOff) + r.n] && inOff == old(inOff) + r.n
    {
      var reply := ioReplies(clock);
      clock, calls := clock + 1, calls + [InOut(reply)];
      buf := [];
      if reply.Fail? {
        return Error(reply.e), [];
      }
      if reply.Signal? && signals > 0 {
        signals := signals - 1;
        return Interrupted, [];
      }
      var n := Clamp(Amount(reply), Min(len, |src| - inOff));
      buf := src[inOff..inOff + n];
      inOff := inOff + n;
      return Count(n), buf;
    }

    /** `write_all`. */
    method WriteAll(buf: seq<Byte>) returns (ok: bool)
      modifies this`clock, this`calls, this`dst, this`outOff, this`byRead
      ensures clock == old(clock) + 1 && calls == old(calls) + [InOut(ioReplies(old(clock)))]
      ensures ok <==> !ioReplies(old(clock)).Fail?
      ensures ok ==>
                && dst == Put(old(dst), old(outOff), buf)
                && outOff == old(outOff) + |buf| && byRead == old(byRead) + |buf|
    {
      var reply := ioReplies(clock);
      clock, calls := clock + 1, calls + [InOut(reply)];
      if reply.Fail? {
        return false;
      }
      dst := Put(dst, outOff, buf);
      outOff, byRead := outOff + |buf|, byRead + |buf|;
      return true;
    }

    method SetIn(off: nat)
      modifies this`inOff
      ensures inOff == off
    {
      inOff := off;
    }

    method SetOut(off: nat)
      modifies this`outOff
      ensures outOff == off
    {
      outOff := off;
    }
  }

  const BUF_SIZE := 8 * 1024

  /** Since moment `t`, when `before` had been called, there were only reads and writes. */
  ghost predicate InOutSince(k: Kernel, before: seq<Call>, t: nat)
    reads k
  {
    && t <= k.clock && |k.calls| == |before| + k.clock - t && before <= k.calls
    && forall j :: t <= j < k.clock ==> k.calls[|before| + j - t] == InOut(k.ioReplies(j))
  }

  /** Since moment `t` a read or write has failed. */
  ghost predicate FailedSince(k: Kernel, t: nat)
    reads k
  {
    exists j: nat :: t <= j < k.clock && k.ioReplies(j).Fail?
  }

  /** One round of the innermost loop. */
  method Chunk(k: Kernel, len: nat) returns (r: Moved)
    requires len > 0 && k.inOff < |k.src|
    modifies k`clock, k`calls, k`signals, k`dst, k`inOff, k`outOff, k`byRead
    ensures r.Interrupted? ==>
              && k.signals < old(k.signals) && k.inOff == old(k.inOff)
              && k.dst == old(k.dst) && k.outOff == old(k.outOff) && k.byRead == old(k.byRead)
    ensures r.Count? ==>
              && 1 <= r.n <= len && old(k.inOff) + r.n <= |k.src| && k.signals == old(k.signals)
              && k.inOff == old(k.inOff) + r.n && k.outOff == old(k.outOff) + r.n && k.byRead == old(k.byRead) + r.n
              && k.dst == Put(old(k.dst), old(k.outOff), k.src[old(k.inOff)..old(k.inOff) + r.n])
    ensures InOutSince(k, old(k.calls), old(k.clock)) && (r.Error? <==> FailedSince(k, old(k.clock)))
    ensures k.NoHardErrors() ==> !r.Error?
  {
    var buf;
    r, buf := k.Read(len);
    if r.Count? {
      var done := k.WriteAll(buf);
      if !done {
        return Error(EIO);
      }
    }
  }

  /** `written` bytes from source offset `from` are through to destination offset `to`. */
  ghost predicate Through(k: Kernel, from: nat, to: nat, was: seq<Byte>, byRead: nat, written: nat)
    requires from + written <= |k.src|
    reads k
  {
    && k.inOff == from + written && k.outOff == to + written && k.byRead == byRead + written
    && k.dst == Put(was, to, k.src[from..from + written])
  }

  /** One round, in terms of the whole transfer. */
  method Round(k: Kernel, left: nat, ghost from: nat, ghost to: nat, ghost was: seq<Byte>, ghost byRead: nat,
               ghost written: nat) returns (r: Moved)
    requires left > 0 && from + written + left <= |k.src| && Through(k, from, to, was, byRead, written)
    modifies k`clock, k`calls, k`signals, k`dst, k`inOff, k`outOff, k`byRead
    ensures r.Interrupted? ==> k.signals < old(k.signals) && Through(k, from, to, was, byRead, written)
    ensures r.Count? ==>
              && 1 <= r.n <= left && k.signals == old(k.signals)
              && Through(k, from, to, was, byRead, written + r.n)
    ensures InOutSince(k, old(k.calls), old(k.clock)) && (r.Error? <==> FailedSince(k, old(k.clock)))
    ensures k.NoHardErrors() ==> !r.Error?
  {
    hide Put;
    r := Chunk(k, Min(left, BUF_SIZE));
    if r.Count? {
      PutSlice(was, to, k.src, from, written, r.n);
    }
  }

  /**
    The innermost loop: read and write until `count` bytes are through. Below the end of
    the file `read` never returns 0, so the source's early break is not taken.
   */
  method ReadWrite(k: Kernel, count: nat) returns (ok: bool)
    requires k.inOff + count <= |k.src|
    modifies k`clock, k`calls, k`signals, k`dst, k`inOff, k`outOff, k`byRead
    ensures ok ==> Through(k, old(k.inOff), old(k.outOff), old(k.dst), old(k.byRead), count)
    ensures InOutSince(k, old(k.calls), old(k.clock)) && (ok <==> !FailedSince(k, old(k.clock)))
    ensures k.NoHardErrors() ==> ok
  {
    hide Put;
    var nextLen := count;
    var written := 0;
    PutNothing(k.dst, k.outOff, k.src, k.inOff);
    while nextLen > 0
      invariant 0 <= nextLen && 0 <= written && written + nextLen == count
      invariant Through(k, old(k.inOff), old(k.outOff), old(k.dst), old(k.byRead), written)
      invariant InOutSince(k, old(k.calls), old(k.clock)) && !FailedSince(k, old(k.clock))
      decreases nextLen, k.signals
    {
      var r := Round(k, nextLen, old(k.inOff), old(k.outOff), old(k.dst), old(k.byRead), written);
      match r {
        case Interrupted => continue;
        case Error(_) => return false;
        case Count(len) =>
          written := written + len;
          nextLen := nextLen - len;
      }
    }
    return true;
  }

  // ----- what the two modes establish

  /** The destination has been sized and the extents of the source can be queried. */
  ghost predicate SparseMode(k: Kernel)
    requires k.Valid()
  {
    k.truncate.None? && k.seeks && NextData(k.data, 0) < |k.src|
  }

  /** The destination before the first byte is moved. */
  ghost function Base(k: Kernel): (r: seq<Byte>) {
    if k.truncate.None? then Zeros(|k.src|) else []
  }

  ghost predicate LastByteIsData(k: Kernel)
    requires k.Valid()
  {
    |k.src| > 0 && k.data[|k.src| - 1]
  }

  /**
    Everything below `srcpos` is copied, and every other destination byte is either copied
    or still zero. `srcpos` may lag behind the extent that is being copied.
   */
  ghost predicate SparseKept(k: Kernel, srcpos: nat)
    requires k.Valid()
    reads k
  {
    && |k.dst| == |k.src| && srcpos <= |k.src|
    && (forall i :: 0 <= i < |k.src| ==> k.dst[i] == k.src[i] || (k.dst[i] == 0 && i >= srcpos))
    && (srcpos == |k.src| ==> LastByteIsData(k))
  }

  /** Moving `[beg, beg + n)` of the extent that starts at the first data byte from `srcpos` on. */
  lemma SparseTransfer(k: Kernel, dst: seq<Byte>, srcpos: nat, beg: nat, n: nat)
    requires k.Valid() && srcpos < |k.src| && n > 0
    requires beg == NextData(k.data, srcpos) && beg + n <= NextHole(k.data, beg)
    requires |dst| == |k.src|
    requires forall i :: 0 <= i < |k.src| ==> dst[i] == k.src[i] || (dst[i] == 0 && i >= srcpos)
    ensures var r := Put(dst, beg, k.src[beg..beg + n]);
            && |r| == |k.src| && srcpos + n <= |k.src|
            && (forall i :: 0 <= i < |k.src| ==> r[i] == k.src[i] || (r[i] == 0 && i >= srcpos + n))
            && (srcpos + n == |k.src| ==> LastByteIsData(k))
  {
  }

  /**
    The destination after copy_file_range moved `a` bytes, then sendfile `b` bytes, then
    read and write `c` bytes, when the file offsets are not set in between: sendfile starts
    at destination offset 0 again, and read starts at source offset 0 again.
   */
  ghost function DenseContents(base: seq<Byte>, src: seq<Byte>, a: nat, b: nat, c: nat): (r: seq<Byte>)
    requires a + b <= |src| && c <= |src|
  {
    Put(Put(Put(base, 0, src[..a]), 0, src[a..a + b]), b, src[..c])
  }

  ghost predicate DenseKept(k: Kernel, srcpos: nat)
    reads k
  {
    && k.byRange + k.bySend <= |k.src|
    && (k.byRead == 0 || (k.byRead == |k.src| && k.byRange + k.bySend < |k.src|))
    && srcpos == k.byRange + k.bySend + k.byRead
    && k.dst == DenseContents(Base(k), k.src, k.byRange, k.bySend, k.byRead)
    && (k.byRead == 0 ==> k.inOff == 0 && k.outOff == k.bySend)
  }

  lemma OnlySend(base: seq<Byte>, src: seq<Byte>, a: nat, b: nat)
    requires a + b <= |src|
    ensures DenseContents(base, src, a, b, 0) == Put(Put(base, 0, src[..a]), 0, src[a..a + b])
  {
    hide Put;
    assert src[..0] == src[0..0];
    PutNothing(Put(Put(base, 0, src[..a]), 0, src[a..a + b]), b, src, 0);
  }

  lemma OnlyRange(base: seq<Byte>, src: seq<Byte>, a: nat)
    requires a <= |src|
    ensures DenseContents(base, src, a, 0, 0) == Put(base, 0, src[..a])
  {
    hide Put;
    OnlySend(base, src, a, 0);
    PutNothing(Put(base, 0, src[..a]), 0, src, a);
  }

  lemma DenseRange(base: seq<Byte>, src: seq<Byte>, a: nat, n: nat)
    requires a + n <= |src|
    ensures Put(DenseContents(base, src, a, 0, 0), a, src[a..a + n]) == DenseContents(base, src, a + n, 0, 0)
  {
    hide Put, DenseContents;
    OnlyRange(base, src, a);
    OnlyRange(base, src, a + n);
    assert src[..a] == src[0..a] && src[..a + n] == src[0..a + n];
    PutSlice(base, 0, src, 0, a, n);
  }

  lemma DenseSend(base: seq<Byte>, src: seq<Byte>, a: nat, b: nat, n: nat, dst: seq<Byte>, beg: nat)
    requires beg == a + b && beg + n <= |src| && dst == DenseContents(base, src, a, b, 0)
    ensures Put(dst, b, src[beg..beg + n]) == DenseContents(base, src, a, b + n, 0)
  {
    hide Put, DenseContents;
    OnlySend(base, src, a, b);
    OnlySend(base, src, a, b + n);
    PutSlice(Put(base, 0, src[..a]), 0, src, a, b, n);
  }

  // ----- what a schedule makes of a copy without sparse handling

  /** How many bytes each mechanism moves. */
  datatype Shares = Shares(byRange: nat, bySend: nat, byRead: nat)

  /**
    The shares when the loop ends, from the moment at which `a` bytes were moved by
    copy_file_range and `b` by sendfile and `t` calls were made.
   */
  function SharesFrom(n: nat, range: nat -> Reply, send: nat -> Reply, t: nat, a: nat, b: nat,
                      useRange: bool, useSend: bool): (r: Shares)
    requires a + b <= n
    ensures r.byRange + r.bySend <= n && Finished(n, r)
    decreases n - a - b, useRange, useSend
  {
    if a + b == n then Shares(a, b, 0)
    else if useRange then
      if range(t).Fail? then SharesFrom(n, range, send, t + 1, a, b, false, useSend)
      else SharesFrom(n, range, send, t + 1, a + Clamp(Amount(range(t)), n - a - b), b, true, useSend)
    else if useSend then
      if send(t).Fail? then SharesFrom(n, range, send, t + 1, a, b, false, false)
      else SharesFrom(n, range, send, t + 1, a, b + Clamp(Amount(send(t)), n - a - b), false, true)
    else Shares(a, b, n)
  }

  /** How much each primitive moved when the loop of a dense copy has ended. */
  ghost predicate Finished(n: nat, s: Shares) {
    (s.byRead == 0 && s.byRange + s.bySend == n) || (s.byRead == n && s.byRange + s.bySend < n)
  }

  /** Only one mechanism moved anything. */
  ghost predicate AtMostOne(s: Shares) {
    || (s.byRange == 0 && s.bySend == 0)
    || (s.byRange == 0 && s.byRead == 0)
    || (s.bySend == 0 && s.byRead == 0)
  }

  /** How many bytes a mechanism moves before its first rejection. */
  function MovedBefore(replies: nat -> Reply, t: nat, left: nat): (n: nat)
    ensures n <= left
    ensures left > 0 ==> (n == 0 <==> replies(t).Fail?)
    decreases left
  {
    if left == 0 || replies(t).Fail? then 0
    else
      var n := Clamp(Amount(replies(t)), left);
      n + MovedBefore(replies, t + 1, left - n)
  }

  /** A mechanism moves everything, or is rejected before it has moved a byte. */
  ghost predicate AllOrNothing(replies: nat -> Reply, t: nat, n: nat) {
    MovedBefore(replies, t, n) == 0 || MovedBefore(replies, t, n) == n
  }

  /** The schedule rejects mechanisms only before they have moved a byte. */
  ghost predicate RejectsEarly(n: nat, range: nat -> Reply, send: nat -> Reply, useRange: bool, useSend: bool) {
    && (useRange ==> AllOrNothing(range, 0, n))
    && (useSend ==>
          if !useRange then AllOrNothing(send, 0, n)
          else MovedBefore(range, 0, n) == 0 ==> AllOrNothing(send, 1, n))
  }

  /** A mechanism that has worked is not rejected later. */
  ghost predicate Lasts(replies: nat -> Reply) {
    forall t1: nat, t2: nat :: t1 < t2 && !replies(t1).Fail? ==> !replies(t2).Fail?
  }

  lemma {:induction false} LastingMovesAll(replies: nat -> Reply, t: nat, left: nat)
    requires Lasts(replies) && left > 0 && !replies(t).Fail?
    ensures MovedBefore(replies, t, left) == left
    decreases left
  {
    var n := Clamp(Amount(replies(t)), left);
    if n < left {
      assert !replies(t + 1).Fail?;
      LastingMovesAll(replies, t + 1, left - n);
    }
  }

  lemma LastingRejectsEarly(n: nat, range: nat -> Reply, send: nat -> Reply, useRange: bool, useSend: bool)
    requires Lasts(range) && Lasts(send)
    ensures RejectsEarly(n, range, send, useRange, useSend)
  {
    if n > 0 {
      if !range(0).Fail? {
        LastingMovesAll(range, 0, n);
      }
      if !send(0).Fail? {
        LastingMovesAll(send, 0, n);
      }
      if !send(1).Fail? {
        LastingMovesAll(send, 1, n);
      }
    }
  }

  /** What sendfile moves once copy_file_range is out of use. */
  lemma {:induction false} SendShare(n: nat, range: nat -> Reply, send: nat -> Reply, t: nat, a: nat, b: nat)
    requires a + b <= n
    ensures var s := SharesFrom(n, range, send, t, a, b, false, true);
            && s.byRange == a && s.bySend == b + MovedBefore(send, t, n - a - b)
    decreases n - a - b
  {
    if a + b < n && !send(t).Fail? {
      SendShare(n, range, send, t + 1, a, b + Clamp(Amount(send(t)), n - a - b));
    }
  }

  /** What copy_file_range moves. */
  lemma {:induction false} RangeShare(n: nat, range: nat -> Reply, send: nat -> Reply, t: nat, a: nat, useSend: bool)
    requires a <= n
    ensures SharesFrom(n, range, send, t, a, 0, true, useSend).byRange == a + MovedBefore(range, t, n - a)
    decreases n - a
  {
    if a < n {
      if range(t).Fail? {
        if useSend {
          SendShare(n, range, send, t + 1, a, 0);
        }
      } else {
        RangeShare(n, range, send, t + 1, a + Clamp(Amount(range(t)), n - a), useSend);
      }
    }
  }

  /** Only one mechanism moves anything if and only if the schedule rejects the others in time. */
  lemma EarlyRejection(n: nat, range: nat -> Reply, send: nat -> Reply, useRange: bool, useSend: bool)
    ensures AtMostOne(SharesFrom(n, range, send, 0, 0, 0, useRange, useSend))
            <==> RejectsEarly(n, range, send, useRange, useSend)
  {
    if useRange {
      RangeShare(n, range, send, 0, 0, useSend);
      if n > 0 && range(0).Fail? && useSend {
        SendShare(n, range, send, 1, 0, 0);
      }
    } else if useSend {
      SendShare(n, range, send, 0, 0, 0);
    }
  }

  /** What the state of the copy foresees. */
  ghost function Foreseen(k: Kernel, useRange: bool, useSend: bool): (s: Shares)
    reads k
  {
    if k.byRead > 0 || k.byRange + k.bySend > |k.src| then Shares(k.byRange, k.bySend, k.byRead)
    else SharesFrom(|k.src|, k.rangeReplies, k.sendReplies, k.clock, k.byRange, k.bySend, useRange, useSend)
  }

  lemma SparseDone(k: Kernel, srcpos: nat)
    requires k.Valid() && SparseKept(k, srcpos) && srcpos >= |k.src|
    ensures srcpos == |k.src| && k.dst == k.src && LastByteIsData(k)
  {
  }

  lemma DenseDone(k: Kernel, srcpos: nat, useRange: bool, useSend: bool)
    requires DenseKept(k, srcpos) && srcpos >= |k.src|
    ensures Foreseen(k, useRange, useSend) == Shares(k.byRange, k.bySend, k.byRead)
    ensures Finished(|k.src|, Foreseen(k, useRange, useSend)) && srcpos == k.byRange + k.bySend + k.byRead
    ensures k.dst == DenseContents(Base(k), k.src, k.byRange, k.bySend, k.byRead)
  {
  }

  // ----- one round of the outer loop

  ghost predicate Kept(k: Kernel, sparse: bool, srcpos: nat)
    requires k.Valid()
    reads k
  {
    if sparse then SparseKept(k, srcpos) else DenseKept(k, srcpos)
  }

  /** What `next_beg` and `next_len` are when a transfer is tried. */
  ghost predicate Aimed(k: Kernel, sparse: bool, srcpos: nat, beg: nat, len: nat)
    requires k.Valid()
  {
    && srcpos < |k.src| && len > 0
    && if sparse then beg == NextData(k.data, srcpos) && beg < |k.src| && beg + len == NextHole(k.data, beg)
       else beg == srcpos && len == |k.src|
  }

  method RangeSparse(k: Kernel, ghost srcpos: nat, beg: nat, len: nat) returns (r: Moved)
    requires k.Valid() && SparseKept(k, srcpos) && Aimed(k, true, srcpos, beg, len)
    modifies k`clock, k`calls, k`dst, k`byRange
    ensures k.clock == old(k.clock) + 1 && k.calls == old(k.calls) + [Range(k.rangeReplies(old(k.clock)))]
    ensures if r.Error? then k.rangeReplies(old(k.clock)) == Fail(r.e) else !k.rangeReplies(old(k.clock)).Fail?
    ensures !r.Interrupted?
    ensures r.Count? ==> r.n >= 1 && SparseKept(k, srcpos + r.n)
    ensures r.Error? ==> SparseKept(k, srcpos) && (k.NoHardErrors() ==> r.e != EIO)
  {
    hide Put;
    ghost var dst := k.dst;
    r := k.CopyFileRange(beg, len);
    if r.Count? {
      SparseTransfer(k, dst, srcpos, beg, r.n);
    }
  }

  method RangeDense(k: Kernel, ghost srcpos: nat, beg: nat, len: nat) returns (r: Moved)
    requires k.Valid() && DenseKept(k, srcpos) && Aimed(k, false, srcpos, beg, len)
    requires k.bySend == 0
    modifies k`clock, k`calls, k`dst, k`byRange
    ensures k.clock == old(k.clock) + 1 && k.calls == old(k.calls) + [Range(k.rangeReplies(old(k.clock)))]
    ensures if r.Error? then k.rangeReplies(old(k.clock)) == Fail(r.e) else !k.rangeReplies(old(k.clock)).Fail?
    ensures !r.Interrupted?
    ensures r.Count? ==> r.n >= 1 && DenseKept(k, srcpos + r.n)
    ensures k.clock == old(k.clock) + 1 && (r.Error? <==> k.rangeReplies(old(k.clock)).Fail?)
    ensures r.Error? ==> k.byRange == old(k.byRange)
    ensures r.Count? ==> k.byRange == old(k.byRange) + Clamp(Amount(k.rangeReplies(old(k.clock))), |k.src| - srcpos)
    ensures r.Error? ==> DenseKept(k, srcpos) && (k.NoHardErrors() ==> r.e != EIO)
  {
    hide Put, NextData, NextHole, DenseContents;
    ghost var moved, dst := k.byRange, k.dst;
    assert k.byRead == 0 && beg == moved;
    assert dst == DenseContents(Base(k), k.src, moved, 0, 0);
    r := k.CopyFileRange(beg, len);
    if r.Count? {
      DenseRange(Base(k), k.src, moved, r.n);
    }
  }

  method RangeStep(k: Kernel, sparse: bool, ghost srcpos: nat, beg: nat, len: nat) returns (r: Moved)
    requires k.Valid() && Kept(k, sparse, srcpos) && Aimed(k, sparse, srcpos, beg, len)
    requires k.bySend == 0
    modifies k`clock, k`calls, k`dst, k`byRange
    ensures k.clock == old(k.clock) + 1 && k.calls == old(k.calls) + [Range(k.rangeReplies(old(k.clock)))]
    ensures if r.Error? then k.rangeReplies(old(k.clock)) == Fail(r.e) else !k.rangeReplies(old(k.clock)).Fail?
    ensures !r.Interrupted?
    ensures r.Count? ==> r.n >= 1 && Kept(k, sparse, srcpos + r.n)
    ensures !sparse ==> k.clock == old(k.clock) + 1 && (r.Error? <==> k.rangeReplies(old(k.clock)).Fail?)
    ensures !sparse && r.Error? ==> k.byRange == old(k.byRange)
    ensures !sparse && r.Count? ==>
              k.byRange == old(k.byRange) + Clamp(Amount(k.rangeReplies(old(k.clock))), |k.src| - srcpos)
    ensures r.Error? ==> Kept(k, sparse, srcpos) && (k.NoHardErrors() ==> r.e != EIO)
  {
    if sparse {
      r := RangeSparse(k, srcpos, beg, len);
    } else {
      r := RangeDense(k, srcpos, beg, len);
    }
  }

  /** Sparse: the destination offset is set before the call. */
  method SendSparse(k: Kernel, ghost srcpos: nat, beg: nat, len: nat) returns (r: Moved)
    requires k.Valid() && SparseKept(k, srcpos) && Aimed(k, true, srcpos, beg, len)
    requires beg == 0 ==> k.outOff == 0
    modifies k`clock, k`calls, k`dst, k`outOff, k`bySend
    ensures k.clock == old(k.clock) + 1 && k.calls == old(k.calls) + [Send(k.sendReplies(old(k.clock)))]
    ensures if r.Error? then k.sendReplies(old(k.clock)) == Fail(r.e) else !k.sendReplies(old(k.clock)).Fail?
    ensures !r.Interrupted?
    ensures r.Count? ==> r.n >= 1 && SparseKept(k, srcpos + r.n)
    ensures r.Error? ==> SparseKept(k, srcpos) && (k.NoHardErrors() ==> r.e != EIO && r.e != EXDEV)
    ensures r.Error? && beg == 0 ==> k.outOff == old(k.outOff)
  {
    hide Put;
    if beg != 0 {
      k.SetOut(beg);
    }
    ghost var dst := k.dst;
    r := k.SendFile(beg, len);
    if r.Count? {
      SparseTransfer(k, dst, srcpos, beg, r.n);
    }
  }

  /** Not sparse: the destination offset is wherever sendfile left it. */
  method SendDense(k: Kernel, ghost srcpos: nat, beg: nat, len: nat) returns (r: Moved)
    requires k.Valid() && DenseKept(k, srcpos) && Aimed(k, false, srcpos, beg, len)
    modifies k`clock, k`calls, k`dst, k`outOff, k`bySend
    ensures k.clock == old(k.clock) + 1 && k.calls == old(k.calls) + [Send(k.sendReplies(old(k.clock)))]
    ensures if r.Error? then k.sendReplies(old(k.clock)) == Fail(r.e) else !k.sendReplies(old(k.clock)).Fail?
    ensures !r.Interrupted?
    ensures r.Count? ==> r.n >= 1 && DenseKept(k, srcpos + r.n)
    ensures k.clock == old(k.clock) + 1 && (r.Error? <==> k.sendReplies(old(k.clock)).Fail?)
    ensures r.Error? ==> k.bySend == old(k.bySend)
    ensures r.Count? ==> k.bySend == old(k.bySend) + Clamp(Amount(k.sendReplies(old(k.clock))), |k.src| - srcpos)
    ensures r.Error? ==> DenseKept(k, srcpos) && (k.NoHardErrors() ==> r.e != EIO && r.e != EXDEV)
    ensures r.Error? ==> k.outOff == old(k.outOff)
  {
    hide Put, NextData, NextHole, DenseContents;
    ghost var moved, dst := k.bySend, k.dst;
    assert k.byRead == 0 && k.outOff == moved && beg == k.byRange + moved;
    assert dst == DenseContents(Base(k), k.src, k.byRange, moved, 0);
    r := k.SendFile(beg, len);
    if r.Count? {
      DenseSend(Base(k), k.src, k.byRange, moved, r.n, dst, beg);
    }
  }

  method SendStep(k: Kernel, sparse: bool, ghost srcpos: nat, beg: nat, len: nat) returns (r: Moved)
    requires k.Valid() && Kept(k, sparse, srcpos) && Aimed(k, sparse, srcpos, beg, len)
    requires sparse && beg == 0 ==> k.outOff == 0
    modifies k`clock, k`calls, k`dst, k`outOff, k`bySend
    ensures k.clock == old(k.clock) + 1 && k.calls == old(k.calls) + [Send(k.sendReplies(old(k.clock)))]
    ensures if r.Error? then k.sendReplies(old(k.clock)) == Fail(r.e) else !k.sendReplies(old(k.clock)).Fail?
    ensures !r.Interrupted?
    ensures r.Count? ==> r.n >= 1 && Kept(k, sparse, srcpos + r.n)
    ensures !sparse ==> k.clock == old(k.clock) + 1 && (r.Error? <==> k.sendReplies(old(k.clock)).Fail?)
    ensures !sparse && r.Error? ==> k.bySend == old(k.bySend)
    ensures !sparse && r.Count? ==>
              k.bySend == old(k.bySend) + Clamp(Amount(k.sendReplies(old(k.clock))), |k.src| - srcpos)
    ensures r.Error? ==> Kept(k, sparse, srcpos) && (k.NoHardErrors() ==> r.e != EIO && r.e != EXDEV)
    ensures r.Error? && beg == 0 ==> k.outOff == old(k.outOff)
  {
    if sparse {
      r := SendSparse(k, srcpos, beg, len);
    } else {
      r := SendDense(k, srcpos, beg, len);
    }
  }

  method ReadSparse(k: Kernel, ghost srcpos: nat, beg: nat, len: nat) returns (ok: bool)
    requires k.Valid() && SparseKept(k, srcpos) && Aimed(k, true, srcpos, beg, len)
    requires beg == 0 ==> k.outOff == 0
    modifies k`clock, k`calls, k`signals, k`dst, k`inOff, k`outOff, k`byRead
    ensures ok ==> SparseKept(k, srcpos + len)
    ensures InOutSince(k, old(k.calls), old(k.clock)) && (ok <==> !FailedSince(k, old(k.clock)))
    ensures k.NoHardErrors() ==> ok
  {
    hide Put;
    k.SetIn(beg);
    if beg != 0 {
      k.SetOut(beg);
    }
    ghost var dst := k.dst;
    ok := ReadWrite(k, len);
    if ok {
      SparseTransfer(k, dst, srcpos, beg, len);
    }
  }

  method ReadDense(k: Kernel, ghost srcpos: nat, beg: nat, len: nat) returns (ok: bool)
    requires k.Valid() && DenseKept(k, srcpos) && Aimed(k, false, srcpos, beg, len)
    modifies k`clock, k`calls, k`signals, k`dst, k`inOff, k`outOff, k`byRead
    ensures ok ==> DenseKept(k, srcpos + len)
    ensures ok ==> k.byRead == len
    ensures InOutSince(k, old(k.calls), old(k.clock)) && (ok <==> !FailedSince(k, old(k.clock)))
    ensures k.NoHardErrors() ==> ok
  {
    hide Put, NextData, NextHole;
    assert k.byRead == 0 && k.src[0..len] == k.src[..len] && k.src[0..0] == k.src[..0];
    ghost var a, b := k.byRange, k.bySend;
    PutNothing(Put(Put(Base(k), 0, k.src[..a]), 0, k.src[a..a + b]), b, k.src, 0);
    ok := ReadWrite(k, len);
  }

  method ReadStep(k: Kernel, sparse: bool, ghost srcpos: nat, beg: nat, len: nat) returns (ok: bool)
    requires k.Valid() && Kept(k, sparse, srcpos) && Aimed(k, sparse, srcpos, beg, len)
    requires sparse && beg == 0 ==> k.outOff == 0
    modifies k`clock, k`calls, k`signals, k`dst, k`inOff, k`outOff, k`byRead
    ensures ok ==> Kept(k, sparse, srcpos + len)
    ensures !sparse && ok ==> k.byRead == len
    ensures InOutSince(k, old(k.calls), old(k.clock)) && (ok <==> !FailedSince(k, old(k.clock)))
    ensures k.NoHardErrors() ==> ok
  {
    if sparse {
      ok := ReadSparse(k, srcpos, beg, len);
    } else {
      ok := ReadDense(k, srcpos, beg, len);
    }
  }

  // ----- what the dense results mean

  /** The bytes that sendfile wrote to the wrong place happen to be the right ones. */
  ghost predicate Coincides(base: seq<Byte>, src: seq<Byte>, a: nat, b: nat)
    requires a + b == |src|
  {
    && (forall i :: 0 <= i < b ==> src[i] == src[a + i])
    && (forall i :: a <= i < |src| && b <= i ==> |base| == |src| && src[i] == 0)
  }

  /** Writing at least as much as was there replaces everything. */
  lemma PutOver(file: seq<Byte>, src: seq<Byte>)
    requires |file| <= |src|
    ensures Put(file, 0, src) == src
  {
    hide Put;
    PutShape(file, 0, src);
  }

  /** The destination before reading starts. */
  lemma BeforeReading(base: seq<Byte>, src: seq<Byte>, a: nat, b: nat)
    requires |base| <= |src| && a + b <= |src|
    ensures |Put(Put(base, 0, src[..a]), 0, src[a..a + b])| <= |src|
  {
    hide Put;
    PutShape(base, 0, src[..a]);
    PutShape(Put(base, 0, src[..a]), 0, src[a..a + b]);
  }

  lemma DenseSingle(base: seq<Byte>, src: seq<Byte>, a: nat, b: nat, c: nat)
    requires base == [] || base == Zeros(|src|)
    requires Finished(|src|, Shares(a, b, c)) && AtMostOne(Shares(a, b, c))
    ensures DenseContents(base, src, a, b, c) == src
  {
    hide Put;
    assert src[..|src|] == src && src[0..|src|] == src;
    if c > 0 {
      BeforeReading(base, src, 0, 0);
      PutOver(Put(Put(base, 0, src[..0]), 0, src[0..0]), src);
    } else if b == 0 {
      OnlyRange(base, src, a);
      PutOver(base, src);
    } else {
      OnlySend(base, src, 0, b);
      assert src[..0] == src[0..0];
      PutNothing(base, 0, src, 0);
      PutOver(base, src);
    }
  }

  lemma LateSendShape(base: seq<Byte>, src: seq<Byte>, a: nat, b: nat)
    requires base == [] || base == Zeros(|src|)
    requires a > 0 && b > 0 && a + b == |src|
    ensures var r, most := DenseContents(base, src, a, b, 0), if a < b then b else a;
            && |r| == (if base == [] then most else |src|)
            && (forall i :: 0 <= i < b ==> r[i] == src[a + i])
            && (forall i :: b <= i < a ==> r[i] == src[i])
            && (forall i :: most <= i < |r| ==> r[i] == 0)
  {
    hide Put, DenseContents;
    OnlySend(base, src, a, b);
    PutShape(base, 0, src[..a]);
    PutShape(Put(base, 0, src[..a]), 0, src[a..a + b]);
  }

  lemma DenseLateSend(base: seq<Byte>, src: seq<Byte>, a: nat, b: nat)
    requires base == [] || base == Zeros(|src|)
    requires a > 0 && b > 0 && a + b == |src|
    ensures DenseContents(base, src, a, b, 0) == src <==> Coincides(base, src, a, b)
  {
    hide Put, DenseContents;
    LateSendShape(base, src, a, b);
    var r, most := DenseContents(base, src, a, b, 0), if a < b then b else a;
    if Coincides(base, src, a, b) {
      assert a <= most < |src| && b <= most && src[most] == 0;
      forall i | 0 <= i < |src| ensures r[i] == src[i] {
      }
    }
    if r == src {
      forall i | 0 <= i < b ensures src[i] == src[a + i] {
        assert r[i] == src[a + i];
      }
    }
  }

  lemma DenseLateRead(base: seq<Byte>, src: seq<Byte>, a: nat, b: nat, c: nat)
    requires base == [] || base == Zeros(|src|)
    requires Finished(|src|, Shares(a, b, c)) && c > 0
    ensures DenseContents(base, src, a, b, c) == src <==> b == 0
  {
    hide Put;
    assert src[..c] == src;
    var before := Put(Put(base, 0, src[..a]), 0, src[a..a + b]);
    BeforeReading(base, src, a, b);
    PutShape(before, b, src);
    if b == 0 {
      PutOver(before, src);
    }
  }

  /**
    A finished copy without sparse handling. If a primitive was only ever rejected before
    it had moved a byte, the copy is exact. Otherwise the returned count is wrong exactly
    when reading started late, and the contents are right exactly when they coincide.
   */
  lemma DenseOutcome(base: seq<Byte>, src: seq<Byte>, a: nat, b: nat, c: nat)
    requires base == [] || base == Zeros(|src|)
    requires Finished(|src|, Shares(a, b, c))
    ensures AtMostOne(Shares(a, b, c)) ==> DenseContents(base, src, a, b, c) == src && a + b + c == |src|
    ensures a + b + c == |src| <==> c == 0 || a + b == 0
    ensures c > 0 ==> (DenseContents(base, src, a, b, c) == src <==> b == 0)
    ensures a > 0 && b > 0 && c == 0 ==> (DenseContents(base, src, a, b, c) == src <==> Coincides(base, src, a, b))
  {
    if AtMostOne(Shares(a, b, c)) {
      DenseSingle(base, src, a, b, c);
    }
    if c > 0 {
      DenseLateRead(base, src, a, b, c);
    } else if a > 0 && b > 0 {
      DenseLateSend(base, src, a, b);
    }
  }

  /**
    Whatever the contents, a copy with these shares is exact if and only if one mechanism
    moved everything.
   */
  lemma SharesExact(n: nat, base: seq<Byte>, s: Shares)
    requires Finished(n, s) && (base == [] || base == Zeros(n))
    ensures (s.byRange + s.bySend + s.byRead == n
             && forall src: seq<Byte> :: |src| == n ==>
                  DenseContents(base, src, s.byRange, s.bySend, s.byRead) == src)
            <==> AtMostOne(s)
  {
    hide Put, DenseContents;
    var a, b, c := s.byRange, s.bySend, s.byRead;
    forall src: seq<Byte> | |src| == n && AtMostOne(s) ensures DenseContents(base, src, a, b, c) == src {
      DenseSingle(base, src, a, b, c);
    }
    if !AtMostOne(s) && c == 0 {
      var src := SpoiledSource(n, base, a, b);
    }
  }

  /**
    A schedule copies every source of length `n` exactly if and only if it rejects mechanisms
    only before they have moved a byte, whether the destination was sized or not.
   */
  lemma ScheduleExact(n: nat, base: seq<Byte>, range: nat -> Reply, send: nat -> Reply, useRange: bool, useSend: bool)
    requires base == [] || base == Zeros(n)
    ensures var s := SharesFrom(n, range, send, 0, 0, 0, useRange, useSend);
            (s.byRange + s.bySend + s.byRead == n
             && forall src: seq<Byte> :: |src| == n ==>
                  DenseContents(base, src, s.byRange, s.bySend, s.byRead) == src)
            <==> RejectsEarly(n, range, send, useRange, useSend)
  {
    hide Put, DenseContents;
    EarlyRejection(n, range, send, useRange, useSend);
    SharesExact(n, base, SharesFrom(n, range, send, 0, 0, 0, useRange, useSend));
  }

  /** Contents that sendfile spoils when it takes over behind byte `a`. */
  lemma SpoiledSource(n: nat, base: seq<Byte>, a: nat, b: nat) returns (src: seq<Byte>)
    requires a > 0 && b > 0 && a + b == n && (base == [] || base == Zeros(n))
    ensures |src| == n && DenseContents(base, src, a, b, 0) != src
  {
    hide Put, DenseContents;
    src := seq(n, i => if i == a then 1 else 0);
    DenseLateSend(base, src, a, b);
    assert src[0] != src[a + 0];
    assert !Coincides(base, src, a, b);
  }

  // ----- the copy

  /** Sizing the destination and finding the first extent. None: `ftruncate` failed for good. */
  method Prepare(k: Kernel) returns (ok: bool, sparse: bool, nextBeg: nat, nextEnd: nat)
    requires k.Valid() && k.Fresh()
    modifies k`dst, k`inOff
    ensures ok == (k.truncate.None? || k.truncate.value == EINVAL)
    ensures ok ==>
              && sparse == SparseMode(k) && Kept(k, sparse, 0) && nextBeg <= nextEnd
              && (|k.src| > 0 ==> Aimed(k, sparse, 0, nextBeg, nextEnd - nextBeg))
  {
    sparse, nextBeg, nextEnd := true, 0, |k.src|;
    var e := k.Truncate();
    if e.Some? {
      if e.value != EINVAL {
        return false, false, 0, 0;
      }
      sparse := false;
    }
    if sparse {
      var found := k.SeekData(0);
      match found
      case None => sparse := false;
      case Some(pos) => nextBeg := pos;
    }
    if sparse {
      var found := k.SeekHole(nextBeg);
      match found
      case None => sparse := false;
      case Some(pos) => nextEnd := pos;
    }
    ok := true;
  }

  /** SEEK_DATA and SEEK_HOLE from `srcpos` on. */
  method Locate(k: Kernel, srcpos: nat) returns (ok: bool, nextBeg: nat, nextEnd: nat)
    requires k.Valid() && SparseMode(k) && SparseKept(k, srcpos) && srcpos < |k.src|
    modifies k`inOff
    ensures SparseKept(k, srcpos)
    ensures ok ==> nextBeg <= nextEnd && Aimed(k, true, srcpos, nextBeg, nextEnd - nextBeg)
    ensures LastByteIsData(k) ==> ok
  {
    ok, nextBeg, nextEnd := false, 0, 0;
    var data := k.SeekData(srcpos);
    if data.Some? {
      var hole := k.SeekHole(data.value);
      if hole.Some? {
        ok, nextBeg, nextEnd := true, data.value, hole.value;
      }
    }
  }

  // ----- which mechanism is called, and which replies end the copy

  /** The reply is an error that `copy` returns instead of falling back. */
  predicate Breaks(c: Call) {
    match c
    case Range(Fail(e)) => e != ENOSYS && e != EPERM && e != EXDEV && e != EINVAL
    case Send(Fail(e)) => e != ENOSYS && e != EPERM && e != EINVAL
    case InOut(Fail(_)) => true
    case _ => false
  }

  /** Which errors those are: the ones that the kernel must not give for `NoHardErrors`. */
  lemma HardErrors(k: Kernel)
    ensures k.NoHardErrors()
            <==> forall t: nat ::
                   && !Breaks(Range(k.rangeReplies(t)))
                   && !Breaks(Send(k.sendReplies(t)))
                   && !Breaks(InOut(k.ioReplies(t)))
    ensures forall e :: Breaks(Range(Fail(e))) <==> e == EIO
    ensures forall e :: Breaks(Send(Fail(e))) <==> e == EIO || e == EXDEV
    ensures forall e :: Breaks(InOut(Fail(e)))
  {
    if k.NoHardErrors() {
      forall t: nat
        ensures !Breaks(Range(k.rangeReplies(t))) && !Breaks(Send(k.sendReplies(t))) && !Breaks(InOut(k.ioReplies(t)))
      {
        assert !k.ioReplies(t).Fail?;
      }
    }
  }

  ghost predicate Broken(calls: seq<Call>) {
    exists i :: 0 <= i < |calls| && Breaks(calls[i])
  }

  /** The mechanism is not there at all: no later copy of the process tries it again. */
  predicate Unsupported(reply: Reply) {
    reply == Fail(ENOSYS) || reply == Fail(EPERM)
  }

  /** No call of copy_file_range was rejected, and it was not ruled out from the start. */
  ghost predicate RangeOn(calls: seq<Call>, atFirst: bool) {
    atFirst && forall i :: 0 <= i < |calls| && calls[i].Range? ==> !calls[i].reply.Fail?
  }

  ghost predicate SendOn(calls: seq<Call>, atFirst: bool) {
    atFirst && forall i :: 0 <= i < |calls| && calls[i].Send? ==> !calls[i].reply.Fail?
  }

  /** `c` uses the best mechanism that no call has ruled out so far. */
  ghost predicate Due(calls: seq<Call>, range: bool, send: bool, c: Call) {
    if RangeOn(calls, range) then c.Range?
    else if SendOn(calls, send) then c.Send?
    else c.InOut?
  }

  ghost predicate InOrder(calls: seq<Call>, range: bool, send: bool) {
    forall i :: 0 <= i < |calls| ==> Due(calls[..i], range, send, calls[i])
  }

  lemma OneMoreCall(calls: seq<Call>, range: bool, send: bool, c: Call)
    requires InOrder(calls, range, send) && Due(calls, range, send, c)
    ensures InOrder(calls + [c], range, send)
    ensures RangeOn(calls + [c], range) <==> RangeOn(calls, range) && !(c.Range? && c.reply.Fail?)
    ensures SendOn(calls + [c], send) <==> SendOn(calls, send) && !(c.Send? && c.reply.Fail?)
    ensures Broken(calls + [c]) <==> Broken(calls) || Breaks(c)
  {
    hide Due, Breaks;
    var more := calls + [c];
    assert more[|calls|] == c && more[..|calls|] == calls;
    forall i | 0 <= i < |calls| ensures more[i] == calls[i] && more[..i] == calls[..i] {
    }
  }

  lemma {:induction false} MoreInOut(calls: seq<Call>, range: bool, send: bool, more: seq<Call>)
    requires InOrder(calls, range, send) && !RangeOn(calls, range) && !SendOn(calls, send)
    requires forall i :: 0 <= i < |more| ==> more[i].InOut?
    ensures InOrder(calls + more, range, send) && !RangeOn(calls + more, range) && !SendOn(calls + more, send)
    ensures Broken(calls + more) <==> Broken(calls) || Broken(more)
    decreases |more|
  {
    hide InOrder, RangeOn, SendOn, Broken;
    if more == [] {
      assert calls + more == calls;
      NoneBroken();
    } else {
      var front, last := more[..|more| - 1], more[|more| - 1];
      MoreInOut(calls, range, send, front);
      assert calls + more == calls + front + [last] && more == front + [last];
      OneMoreCall(calls + front, range, send, last);
      BrokenOneMore(front, last);
    }
  }

  /**
    The schedule alone decides which calls are made: two logs that begin with the same
    mechanisms in use have no first place at which they differ.
   */
  lemma {:induction false} OneHistory(xs: seq<Call>, ys: seq<Call>, range: bool, send: bool,
                                      rangeReplies: nat -> Reply, sendReplies: nat -> Reply, ioReplies: nat -> Reply,
                                      i: nat)
    requires InOrder(xs, range, send) && InOrder(ys, range, send) && i <= |xs| && i <= |ys|
    requires Answered(xs, rangeReplies, sendReplies, ioReplies) && Answered(ys, rangeReplies, sendReplies, ioReplies)
    ensures xs[..i] == ys[..i]
  {
    if i > 0 {
      OneHistory(xs, ys, range, send, rangeReplies, sendReplies, ioReplies, i - 1);
      assert xs[i - 1] == ys[i - 1];
      assert xs[..i] == xs[..i - 1] + [xs[i - 1]] && ys[..i] == ys[..i - 1] + [ys[i - 1]];
    }
  }

  lemma NoneBroken()
    ensures !Broken([])
  {
  }

  lemma BrokenOneMore(calls: seq<Call>, c: Call)
    ensures Broken(calls + [c]) <==> Broken(calls) || Breaks(c)
  {
    assert (calls + [c])[|calls|] == c;
    forall i | 0 <= i < |calls| ensures (calls + [c])[i] == calls[i] {
    }
  }

  /** What was called since the copy began, and how it went, as far as the copy goes on. */
  ghost predicate Logged(k: Kernel, calls: seq<Call>, range: bool, send: bool, useRange: bool, useSend: bool) {
    && Answered(calls, k.rangeReplies, k.sendReplies, k.ioReplies)
    && InOrder(calls, range, send) && !Broken(calls)
    && useRange == RangeOn(calls, range) && useSend == SendOn(calls, send)
  }

  /** Some call of the mechanism was answered with: it is not there at all. */
  ghost predicate RangeMissing(calls: seq<Call>) {
    exists i :: 0 <= i < |calls| && calls[i].Range? && Unsupported(calls[i].reply)
  }

  ghost predicate SendMissing(calls: seq<Call>) {
    exists i :: 0 <= i < |calls| && calls[i].Send? && Unsupported(calls[i].reply)
  }

  lemma MissingOneMore(calls: seq<Call>, c: Call)
    ensures RangeMissing(calls + [c]) <==> RangeMissing(calls) || (c.Range? && Unsupported(c.reply))
    ensures SendMissing(calls + [c]) <==> SendMissing(calls) || (c.Send? && Unsupported(c.reply))
  {
    assert (calls + [c])[|calls|] == c;
    forall i | 0 <= i < |calls| ensures (calls + [c])[i] == calls[i] {
    }
  }

  lemma MissingInOut(calls: seq<Call>, more: seq<Call>)
    requires forall i :: 0 <= i < |more| ==> more[i].InOut?
    ensures RangeMissing(calls + more) <==> RangeMissing(calls)
    ensures SendMissing(calls + more) <==> SendMissing(calls)
  {
    forall i | 0 <= i < |calls| ensures (calls + more)[i] == calls[i] {
    }
    forall i | |calls| <= i < |calls + more| ensures (calls + more)[i] == more[i - |calls|] {
    }
  }

  /** A dense copy that has come to its end: what was foreseen at the start has happened. */
  lemma DenseSettled(k: Kernel, srcpos: nat, useRange: bool, useSend: bool, range: bool, send: bool)
    requires k.Valid() && DenseKept(k, srcpos) && srcpos >= |k.src|
    requires Foreseen(k, useRange, useSend) == SharesFrom(|k.src|, k.rangeReplies, k.sendReplies, 0, 0, 0, range, send)
    ensures var s := SharesFrom(|k.src|, k.rangeReplies, k.sendReplies, 0, 0, 0, range, send);
            && srcpos == s.byRange + s.bySend + s.byRead
            && k.dst == DenseContents(Base(k), k.src, s.byRange, s.bySend, s.byRead)
    ensures RejectsEarly(|k.src|, k.rangeReplies, k.sendReplies, range, send) ==> srcpos == |k.src| && k.dst == k.src
    ensures Lasts(k.rangeReplies) && Lasts(k.sendReplies) ==> srcpos == |k.src| && k.dst == k.src
  {
    hide DenseContents, MovedBefore, SharesFrom, RejectsEarly, Lasts;
    DenseDone(k, srcpos, useRange, useSend);
    EarlyRejection(|k.src|, k.rangeReplies, k.sendReplies, range, send);
    if Lasts(k.rangeReplies) && Lasts(k.sendReplies) {
      LastingRejectsEarly(|k.src|, k.rangeReplies, k.sendReplies, range, send);
    }
    DenseOutcome(Base(k), k.src, k.byRange, k.bySend, k.byRead);
  }

  lemma ForeseenAtFirst(k: Kernel, range: bool, send: bool)
    requires k.Valid() && k.Fresh()
    ensures Foreseen(k, range, send) == SharesFrom(|k.src|, k.rangeReplies, k.sendReplies, 0, 0, 0, range, send)
  {
  }

  lemma LogSays(k: Kernel, range: bool, send: bool, useRange: bool, useSend: bool)
    requires k.clock == |k.calls| && Logged(k, k.calls, range, send, useRange, useSend)
    ensures k.Recorded() && InOrder(k.calls, range, send) && !Broken(k.calls)
  {
  }

  lemma NothingCalled(k: Kernel, range: bool, send: bool)
    requires k.Valid() && k.Fresh()
    ensures Logged(k, k.calls, range, send, range, send)
    ensures InOrder([], range, send) && RangeOn([], range) == range && SendOn([], send) == send
    ensures !Broken([]) && !RangeMissing([]) && !SendMissing([])
  {
  }

  lemma AnsweredOneMore(calls: seq<Call>, range: nat -> Reply, send: nat -> Reply, io: nat -> Reply, c: Call)
    requires Answered(calls, range, send, io)
    requires c == Range(range(|calls|)) || c == Send(send(|calls|)) || c == InOut(io(|calls|))
    ensures Answered(calls + [c], range, send, io)
  {
  }

  lemma AnsweredInOut(calls: seq<Call>, range: nat -> Reply, send: nat -> Reply, io: nat -> Reply, more: seq<Call>)
    requires Answered(calls, range, send, io)
    requires forall i :: 0 <= i < |more| ==> more[i] == InOut(io(|calls| + i))
    ensures Answered(calls + more, range, send, io)
  {
    forall i | |calls| <= i < |calls + more| ensures (calls + more)[i] == InOut(io(i)) {
      assert (calls + more)[i] == more[i - |calls|];
    }
  }

  /** The part of the log that reading and writing added. */
  lemma InOutPart(k: Kernel, before: seq<Call>, t: nat) returns (more: seq<Call>)
    requires InOutSince(k, before, t)
    ensures k.calls == before + more && |more| == k.clock - t
    ensures forall i :: 0 <= i < |more| ==> more[i] == InOut(k.ioReplies(t + i))
    ensures Broken(more) <==> FailedSince(k, t)
  {
    more := k.calls[|before|..];
    forall i | 0 <= i < |more| ensures more[i] == InOut(k.ioReplies(t + i)) {
      assert k.calls[|before| + (t + i) - t] == InOut(k.ioReplies(t + i));
    }
    if FailedSince(k, t) {
      var j: nat :| t <= j < k.clock && k.ioReplies(j).Fail?;
      assert Breaks(more[j - t]);
    }
  }

  datatype Outcome = Progress(n: nat) | Rejected | Failed

  /** The state of the process that outlives one `copy`. */
  class Copier {
    var hasCopyFileRange: bool    // HAS_COPY_FILE_RANGE and HAS_SENDFILE
    var hasSendfile: bool

    constructor ()
      ensures hasCopyFileRange && hasSendfile
    {
      hasCopyFileRange, hasSendfile := true, true;
    }

    /** One attempt with the best primitive that is still in use. */
    method Transfer(k: Kernel, sparse: bool, ghost srcpos: nat, beg: nat, len: nat, useRange: bool, useSend: bool)
      returns (o: Outcome, useRange': bool, useSend': bool)
      requires k.Valid() && Kept(k, sparse, srcpos) && Aimed(k, sparse, srcpos, beg, len)
      requires useRange ==> k.bySend == 0
      requires sparse && beg == 0 ==> k.outOff == 0
      modifies this, k
      ensures o.Progress? ==> o.n >= 1 && Kept(k, sparse, srcpos + o.n) && useRange' == useRange && useSend' == useSend
      ensures o.Rejected? ==>
                && Kept(k, sparse, srcpos) && (beg == 0 ==> k.outOff == old(k.outOff))
                && (|| (useRange && !useRange' && useSend' == useSend)
                    || (!useRange && !useRange' && useSend && !useSend'))
      ensures useRange' ==> k.bySend == 0
      ensures !sparse && !o.Failed? ==> Foreseen(k, useRange', useSend') == old(Foreseen(k, useRange, useSend))
      ensures useRange ==>
                var c := Range(k.rangeReplies(old(k.clock)));
                && k.clock == old(k.clock) + 1 && k.calls == old(k.calls) + [c]
                && (o.Failed? <==> Breaks(c))
                && (!o.Failed? ==> useRange' == !c.reply.Fail? && useSend' == useSend)
      ensures !useRange && useSend ==>
                var c := Send(k.sendReplies(old(k.clock)));
                && k.clock == old(k.clock) + 1 && k.calls == old(k.calls) + [c]
                && (o.Failed? <==> Breaks(c))
                && (!o.Failed? ==> !useRange' && useSend' == !c.reply.Fail?)
      ensures !useRange && !useSend ==>
                && InOutSince(k, old(k.calls), old(k.clock)) && !useRange' && !useSend'
                && (o.Failed? <==> FailedSince(k, old(k.clock)))
      ensures hasCopyFileRange
              == (old(hasCopyFileRange) && !(useRange && Unsupported(k.rangeReplies(old(k.clock)))))
      ensures hasSendfile
              == (old(hasSendfile) && !(!useRange && useSend && Unsupported(k.sendReplies(old(k.clock)))))
      ensures k.NoHardErrors() ==> !o.Failed?
    {
      hide Put, NextData, NextHole, DenseContents, SparseKept, Kernel.NoHardErrors, InOutSince, FailedSince;
      useRange', useSend' := useRange, useSend;
      if useRange {
        var moved := RangeStep(k, sparse, srcpos, beg, len);
        match moved
        case Count(n) => o := Progress(n);
        case Error(err) =>
          if err == ENOSYS || err == EPERM {
            hasCopyFileRange := false;
            o, useRange' := Rejected, false;
          } else if err == EXDEV || err == EINVAL {
            o, useRange' := Rejected, false;
          } else {
            o := Failed;
          }
      } else if useSend {
        var moved := SendStep(k, sparse, srcpos, beg, len);
        match moved
        case Count(n) => o := Progress(n);
        case Error(err) =>
          if err == ENOSYS || err == EPERM {
            hasSendfile := false;
            o, useSend' := Rejected, false;
          } else if err == EINVAL {
            o, useSend' := Rejected, false;
          } else {
            o := Failed;
          }
      } else {
        var ok := ReadStep(k, sparse, srcpos, beg, len);
        o := if ok then Progress(len) else Failed;
      }
    }

    /** The attempt goes into the log; what the two flags are is what the log says. */
    method Attempt(k: Kernel, sparse: bool, ghost srcpos: nat, beg: nat, len: nat, useRange: bool, useSend: bool,
                   ghost range: bool, ghost send: bool)
      returns (o: Outcome, useRange': bool, useSend': bool)
      requires k.Valid() && Kept(k, sparse, srcpos) && Aimed(k, sparse, srcpos, beg, len)
      requires useRange ==> k.bySend == 0
      requires sparse && beg == 0 ==> k.outOff == 0
      requires k.clock == |k.calls| && Logged(k, k.calls, range, send, useRange, useSend)
      requires hasCopyFileRange == (range && !RangeMissing(k.calls)) && hasSendfile == (send && !SendMissing(k.calls))
      modifies this, k
      ensures o.Progress? ==> o.n >= 1 && Kept(k, sparse, srcpos + o.n) && useRange' == useRange && useSend' == useSend
      ensures o.Rejected? ==>
                && Kept(k, sparse, srcpos) && (beg == 0 ==> k.outOff == old(k.outOff))
                && (|| (useRange && !useRange' && useSend' == useSend)
                    || (!useRange && !useRange' && useSend && !useSend'))
      ensures useRange' ==> k.bySend == 0
      ensures !sparse && !o.Failed? ==> Foreseen(k, useRange', useSend') == old(Foreseen(k, useRange, useSend))
      ensures k.NoHardErrors() ==> !o.Failed?
      ensures k.clock == |k.calls|
      ensures if o.Failed? then k.Recorded() && InOrder(k.calls, range, send) && Broken(k.calls)
              else Logged(k, k.calls, range, send, useRange', useSend')
      ensures hasCopyFileRange == (range && !RangeMissing(k.calls)) && hasSendfile == (send && !SendMissing(k.calls))
    {
      hide Put, NextData, NextHole, DenseContents, SparseKept, DenseKept, Kept, Aimed, Foreseen, InOrder, RangeOn,
           SendOn, Broken, RangeMissing, SendMissing, Breaks, Unsupported, Answered, InOutSince, FailedSince,
           Kernel.NoHardErrors, Kernel.Valid;
      ghost var before, t := k.calls, k.clock;
      o, useRange', useSend' := Transfer(k, sparse, srcpos, beg, len, useRange, useSend);
      if useRange || useSend {
        ghost var c := k.calls[|before|];
        AnsweredOneMore(before, k.rangeReplies, k.sendReplies, k.ioReplies, c);
        OneMoreCall(before, range, send, c);
        MissingOneMore(before, c);
      } else {
        ghost var more := InOutPart(k, before, t);
        AnsweredInOut(before, k.rangeReplies, k.sendReplies, k.ioReplies, more);
        MoreInOut(before, range, send, more);
        MissingInOut(before, more);
      }
    }

    /**
      Returns the number of bytes copied, or None for an error.

      With sparse handling a result means an exact copy, for every schedule of partial
      counts and fallbacks; without hard errors it is reached exactly when the last byte
      lies in a data extent. Without sparse handling the destination and the returned count
      are determined by how much each primitive moves under the schedule (`SharesFrom`,
      `DenseContents`): the copy is exact if the schedule rejects primitives only before
      they have moved a byte, in particular if one that has worked is not rejected later.
     */
    method Copy(k: Kernel) returns (r: Option<nat>)
      requires k.Valid() && k.Fresh()
      modifies this, k
      ensures r.Some? && SparseMode(k) ==> r.value == |k.src| && k.dst == k.src && LastByteIsData(k)
      ensures k.NoHardErrors() && SparseMode(k) ==> (r.Some? <==> LastByteIsData(k))
      ensures r.Some? && !SparseMode(k) ==>
                var s := SharesFrom(|k.src|, k.rangeReplies, k.sendReplies, 0, 0, 0,
                                    old(hasCopyFileRange), old(hasSendfile));
                && r.value == s.byRange + s.bySend + s.byRead
                && k.dst == DenseContents(Base(k), k.src, s.byRange, s.bySend, s.byRead)
      ensures r.Some? && !SparseMode(k)
              && RejectsEarly(|k.src|, k.rangeReplies, k.sendReplies, old(hasCopyFileRange), old(hasSendfile))
              ==> r.value == |k.src| && k.dst == k.src
      ensures r.Some? && !SparseMode(k) && Lasts(k.rangeReplies) && Lasts(k.sendReplies)
              ==> r.value == |k.src| && k.dst == k.src
      ensures k.NoHardErrors() && !SparseMode(k) && (k.truncate.None? || k.truncate.value == EINVAL) ==> r.Some?
      ensures k.Recorded() && InOrder(k.calls, old(hasCopyFileRange), old(hasSendfile))
      ensures r.None? <==>
                || (k.truncate.Some? && k.truncate.value != EINVAL)
                || Broken(k.calls)
                || (SparseMode(k) && !LastByteIsData(k))
      ensures hasCopyFileRange == (old(hasCopyFileRange) && !RangeMissing(k.calls))
      ensures hasSendfile == (old(hasSendfile) && !SendMissing(k.calls))
    {
      hide Put, NextData, NextHole, DenseContents, MovedBefore, SparseKept, DenseKept,
           InOrder, RangeOn, SendOn, Broken, RangeMissing, SendMissing, SharesFrom, RejectsEarly, Lasts, Base, Answered,
           Logged;
      ghost var range, send := hasCopyFileRange, hasSendfile;
      var bytesToCopy := |k.src|;
      var useRange, useSend := hasCopyFileRange, hasSendfile;
      NothingCalled(k, range, send);
      ForeseenAtFirst(k, range, send);
      ghost var shares := Foreseen(k, range, send);
      var ok, sparse, nextBeg, nextEnd := Prepare(k);
      if !ok {
        LogSays(k, range, send, useRange, useSend);
        return None;
      }
      var srcpos: nat := 0;
      var nextLen: nat := nextEnd - nextBeg;
      assert k.bySend == 0 && k.outOff == 0;
      while srcpos < bytesToCopy
        invariant Kept(k, sparse, srcpos)
        invariant srcpos == 0 && nextBeg == 0 ==> k.outOff == 0
        invariant srcpos == 0 && 0 < bytesToCopy ==> Aimed(k, sparse, 0, nextBeg, nextLen)
        invariant !sparse && srcpos < bytesToCopy ==> nextLen == bytesToCopy
        invariant useRange ==> k.bySend == 0
        invariant !sparse ==> Foreseen(k, useRange, useSend) == shares
        invariant k.clock == |k.calls| && Logged(k, k.calls, range, send, useRange, useSend)
        invariant hasCopyFileRange == (range && !RangeMissing(k.calls))
        invariant hasSendfile == (send && !SendMissing(k.calls))
        decreases bytesToCopy - srcpos, (if useRange then 1 else 0) + (if useSend then 1 else 0)
      {
        if srcpos != 0 {
          if sparse {
            ok, nextBeg, nextEnd := Locate(k, srcpos);
            if !ok {
              LogSays(k, range, send, useRange, useSend);
              return None;
            }
            nextLen := nextEnd - nextBeg;
          } else {
            nextBeg := srcpos;
            nextEnd := bytesToCopy - srcpos;
          }
        }
        // `next_len` is positive here, so the source's guard for an empty extent is not taken
        var o;
        o, useRange, useSend := Attempt(k, sparse, srcpos, nextBeg, nextLen, useRange, useSend, range, send);
        match o {
          case Failed => return None;
          case Rejected =>
          case Progress(n) => srcpos := srcpos + n;
        }
      }
      LogSays(k, range, send, useRange, useSend);
      if !sparse {
        DenseSettled(k, srcpos, useRange, useSend, range, send);
      } else {
        SparseDone(k, srcpos);
      }
      return Some(srcpos);
    }
  }

  /** A schedule that corrupts the copy: one byte by copy_file_range, then sendfile takes over. */
  method LateSwitchCorrupts() returns (r: Option<nat>, dst: seq<Byte>)
    ensures r == Some(2) && dst == [2, 0]
  {
    var range := (t: nat) => if t == 0 then Moves(1) else Fail(EINVAL);
    var send := (t: nat) => Moves(1);
    var k := new Kernel([1, 2], [true, true], false, None, range, send, send, 0);
    var c := new Copier();
    assert SharesFrom(2, range, send, 2, 1, 0, false, true) == Shares(1, 1, 0);
    assert SharesFrom(2, range, send, 0, 0, 0, true, true) == Shares(1, 1, 0);
    r := c.Copy(k);
    dst := k.dst;
  }
}
