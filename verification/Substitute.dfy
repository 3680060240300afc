/** `replace_slice` and the ':'-separated RPATH/RUNPATH elements it is applied to. */
module Substitute {

  predicate OccursAt<T(==)>(buf: seq<T>, from: seq<T>, i: nat) {
    i + |from| <= |buf| && buf[i..i + |from|] == from
  }

  /** Left-to-right replacement of `from` by `to`. */
  function Replace<T(==)>(buf: seq<T>, from: seq<T>, to: seq<T>): (r: seq<T>)
    requires from != []
    decreases |buf|
  {
    if |buf| < |from| then buf
    else if from <= buf then to + Replace(buf[|from|..], from, to)
    else [buf[0]] + Replace(buf[1..], from, to)
  }

  /** `res` is the replaced front, and the rest from `i` on is still to be replaced. */
  ghost predicate Onward<T>(buf: seq<T>, from: seq<T>, to: seq<T>, i: nat, res: seq<T>)
    requires from != [] && i <= |buf|
  {
    res + Replace(buf[i..], from, to) == Replace(buf, from, to)
  }

  /**
    The index loop. `from` must not be empty: with an empty `from` the source's loop
    would never advance.
   */
  method ReplaceSlice<T(==)>(buf: seq<T>, from: seq<T>, to: seq<T>) returns (res: seq<T>)
    requires from != []
    ensures res == Replace(buf, from, to)
  {
    hide Replace, Onward, OccursAt;
    if |buf| < |from| {
      ReplaceShort(buf, from, to);
      return buf;
    }
    res := [];
    var i := 0;
    OnwardStart(buf, from, to);
    while i <= |buf| - |from|
      invariant i <= |buf| && Onward(buf, from, to, i, res)
    {
      OnwardRound(buf, from, to, i, res);
      if OccursAt(buf, from, i) {
        res := res + to;
        i := i + |from|;
      } else {
        res := res + [buf[i]];
        i := i + 1;
      }
    }
    OnwardEnd(buf, from, to, i, res);
    if i < |buf| {
      res := res + buf[i..];
    }
  }

  lemma OnwardStart<T>(buf: seq<T>, from: seq<T>, to: seq<T>)
    requires from != []
    ensures Onward(buf, from, to, 0, [])
  {
    hide Replace;
    assert buf[0..] == buf && [] + Replace(buf, from, to) == Replace(buf, from, to);
  }

  lemma OnwardRound<T>(buf: seq<T>, from: seq<T>, to: seq<T>, i: nat, res: seq<T>)
    requires from != [] && i + |from| <= |buf| && Onward(buf, from, to, i, res)
    ensures if OccursAt(buf, from, i) then Onward(buf, from, to, i + |from|, res + to)
            else Onward(buf, from, to, i + 1, res + [buf[i]])
  {
    hide Replace;
    ReplaceRound(buf, from, to, i);
    if OccursAt(buf, from, i) {
      Reassociate(res, to, Replace(buf[i + |from|..], from, to));
    } else {
      Reassociate(res, [buf[i]], Replace(buf[i + 1..], from, to));
    }
  }

  lemma OnwardEnd<T>(buf: seq<T>, from: seq<T>, to: seq<T>, i: nat, res: seq<T>)
    requires from != [] && i <= |buf| < i + |from| && Onward(buf, from, to, i, res)
    ensures Replace(buf, from, to) == if i < |buf| then res + buf[i..] else res
  {
    hide Replace;
    ReplaceShort(buf[i..], from, to);
    if i == |buf| {
      assert res + buf[i..] == res;
    }
  }

  lemma Reassociate<T>(a: seq<T>, b: seq<T>, c: seq<T>)
    ensures a + (b + c) == a + b + c
  {
  }

  /** One round of the loop. */
  lemma ReplaceRound<T>(buf: seq<T>, from: seq<T>, to: seq<T>, i: nat)
    requires from != [] && i + |from| <= |buf|
    ensures Replace(buf[i..], from, to)
            == if OccursAt(buf, from, i) then to + Replace(buf[i + |from|..], from, to)
               else [buf[i]] + Replace(buf[i + 1..], from, to)
  {
    assert buf[i..][|from|..] == buf[i + |from|..];
    assert buf[i..][1..] == buf[i + 1..];
    assert buf[i..][..|from|] == buf[i..i + |from|];
  }

  lemma ReplaceShort<T>(buf: seq<T>, from: seq<T>, to: seq<T>)
    requires from != [] && |buf| < |from|
    ensures Replace(buf, from, to) == buf
  {
  }

  lemma OccursShift<T>(buf: seq<T>, from: seq<T>, i: nat)
    requires buf != []
    ensures OccursAt(buf[1..], from, i) == OccursAt(buf, from, i + 1)
  {
  }

  /** Without an occurrence nothing changes. */
  lemma {:induction false} ReplaceAbsent<T>(buf: seq<T>, from: seq<T>, to: seq<T>)
    requires from != []
    requires forall i: nat :: !OccursAt(buf, from, i)
    ensures Replace(buf, from, to) == buf
    decreases |buf|
  {
    if |buf| >= |from| {
      assert !OccursAt(buf, from, 0);
      forall i: nat ensures !OccursAt(buf[1..], from, i) {
        OccursShift(buf, from, i);
      }
      ReplaceAbsent(buf[1..], from, to);
    }
  }

  lemma ReplaceFirst<T>(buf: seq<T>, from: seq<T>, to: seq<T>)
    requires from != [] && OccursAt(buf, from, 0)
    ensures Replace(buf, from, to) == to + Replace(buf[|from|..], from, to)
  {
  }

  /** The leftmost occurrence is replaced, and replacement resumes right behind it. */
  lemma {:induction false} ReplaceLeftmost<T>(buf: seq<T>, from: seq<T>, to: seq<T>, k: nat)
    requires from != []
    requires OccursAt(buf, from, k)
    requires forall i: nat :: i < k ==> !OccursAt(buf, from, i)
    ensures Replace(buf, from, to) == buf[..k] + to + Replace(buf[k + |from|..], from, to)
    decreases k
  {
    hide Replace;
    if k == 0 {
      ReplaceFirst(buf, from, to);
      assert buf[..0] + to == to;
    } else {
      var rest := buf[1..];
      assert !OccursAt(buf, from, 0);
      OccursShift(buf, from, k - 1);
      forall i: nat | i < k - 1 ensures !OccursAt(rest, from, i) {
        OccursShift(buf, from, i);
      }
      ReplaceLeftmost(rest, from, to, k - 1);
      ReplaceStep(buf, from, to);
      var tail := Replace(buf[k + |from|..], from, to);
      assert rest[k - 1 + |from|..] == buf[k + |from|..];
      ConsPrefix(buf, to, k, tail);
    }
  }

  lemma ReplaceStep<T>(buf: seq<T>, from: seq<T>, to: seq<T>)
    requires from != [] && |from| <= |buf| && !OccursAt(buf, from, 0)
    ensures Replace(buf, from, to) == [buf[0]] + Replace(buf[1..], from, to)
  {
  }

  lemma ConsPrefix<T>(buf: seq<T>, to: seq<T>, k: nat, tail: seq<T>)
    requires 0 < k <= |buf|
    ensures [buf[0]] + (buf[1..][..k - 1] + to + tail) == buf[..k] + to + tail
  {
  }

  /** A symbol that `from` does not contain separates the replacement into two halves. */
  lemma {:induction false} ReplaceBarrier<T>(a: seq<T>, sep: T, b: seq<T>, from: seq<T>, to: seq<T>)
    requires from != [] && sep !in from
    ensures Replace(a + [sep] + b, from, to) == Replace(a, from, to) + [sep] + Replace(b, from, to)
    decreases |a|
  {
    var buf := a + [sep] + b;
    if a == [] {
      assert buf == [sep] + b;
      assert buf[1..] == b;
      assert from[0] in from;
    } else if |from| <= |a| && from <= a {
      assert from <= buf;
      assert buf[|from|..] == a[|from|..] + [sep] + b;
      ReplaceBarrier(a[|from|..], sep, b, from, to);
    } else {
      assert buf[1..] == a[1..] + [sep] + b;
      if |a| < |from| {
        assert buf[|a|] == sep && from[|a|] in from;
      }
      ReplaceBarrier(a[1..], sep, b, from, to);
      if |buf| < |from| {
        assert Replace(buf[1..], from, to) == buf[1..];
      }
      assert Replace(a, from, to) == [a[0]] + Replace(a[1..], from, to);
    }
  }

  /** `slice::split`: the maximal separator-free pieces. */
  function Split<T(==)>(s: seq<T>, sep: T): (r: seq<seq<T>>)
    ensures |r| > 0
  {
    if s == [] then [[]]
    else
      var rest := Split(s[1..], sep);
      if s[0] == sep then [[]] + rest else [[s[0]] + rest[0]] + rest[1..]
  }

  function Rejoin<T>(parts: seq<seq<T>>, sep: T): (r: seq<T>)
    requires parts != []
  {
    if |parts| == 1 then parts[0] else parts[0] + [sep] + Rejoin(parts[1..], sep)
  }

  function ReplaceEach<T(==)>(parts: seq<seq<T>>, from: seq<T>, to: seq<T>): (r: seq<seq<T>>)
    requires from != []
    ensures |r| == |parts|
    ensures forall i :: 0 <= i < |parts| ==> r[i] == Replace(parts[i], from, to)
  {
    if parts == [] then [] else [Replace(parts[0], from, to)] + ReplaceEach(parts[1..], from, to)
  }

  lemma {:induction false} SplitFree<T>(s: seq<T>, sep: T)
    requires sep !in s
    ensures Split(s, sep) == [s]
  {
    if s != [] {
      SplitFree(s[1..], sep);
      assert s[0] in s;
      assert [s[0]] + s[1..] == s;
    }
  }

  lemma {:induction false} SplitAtFirst<T>(a: seq<T>, sep: T, b: seq<T>)
    requires sep !in a
    ensures Split(a + [sep] + b, sep) == [a] + Split(b, sep)
  {
    var s := a + [sep] + b;
    if a == [] {
      assert s[1..] == b;
    } else {
      assert s[1..] == a[1..] + [sep] + b;
      SplitAtFirst(a[1..], sep, b);
      assert a[0] in a;
      assert [a[0]] + a[1..] == a;
    }
  }

  lemma {:induction false} SplitAtLast<T>(a: seq<T>, sep: T, b: seq<T>)
    requires sep !in b
    ensures Split(a + [sep] + b, sep) == Split(a, sep) + [b]
  {
    var s := a + [sep] + b;
    if a == [] {
      assert s[1..] == b && s[0] == sep;
      SplitFree(b, sep);
    } else {
      assert s[1..] == a[1..] + [sep] + b && s[0] == a[0];
      SplitAtLast(a[1..], sep, b);
      var rest := Split(a[1..], sep);
      assert (rest + [b])[0] == rest[0] && (rest + [b])[1..] == rest[1..] + [b];
    }
  }

  /** Splitting loses nothing, and every piece is free of the separator. */
  lemma {:induction false} SplitRejoin<T>(s: seq<T>, sep: T)
    ensures Rejoin(Split(s, sep), sep) == s
    ensures forall i :: 0 <= i < |Split(s, sep)| ==> sep !in Split(s, sep)[i]
  {
    if s != [] {
      SplitRejoin(s[1..], sep);
      var rest := Split(s[1..], sep);
      if s[0] == sep {
        assert ([[]] + rest)[1..] == rest;
      } else {
        var parts := [[s[0]] + rest[0]] + rest[1..];
        assert parts[1..] == rest[1..];
        if |rest| > 1 {
          assert [s[0]] + rest[0] + [sep] + Rejoin(rest[1..], sep)
                 == [s[0]] + (rest[0] + [sep] + Rejoin(rest[1..], sep));
        }
      }
    }
  }

  lemma {:induction false} FirstIndex<T>(s: seq<T>, x: T) returns (k: nat)
    requires x in s
    ensures k < |s| && s[k] == x && x !in s[..k]
  {
    if s[0] == x {
      k := 0;
    } else {
      k := FirstIndex(s[1..], x);
      k := k + 1;
      assert s[..k] == [s[0]] + s[1..][..k - 1];
    }
  }

  /**
    Replacing in every ':'-separated element and rejoining is the same as replacing in
    the whole string, whatever `to` contains.
   */
  lemma {:induction false} ReplaceCommutesWithSplit<T>(s: seq<T>, sep: T, from: seq<T>, to: seq<T>)
    requires from != [] && sep !in from
    ensures Rejoin(ReplaceEach(Split(s, sep), from, to), sep) == Replace(s, from, to)
    decreases |s|
  {
    if sep in s {
      var k := FirstIndex(s, sep);
      var a, b := s[..k], s[k + 1..];
      assert s == a + [sep] + b;
      SplitAtFirst(a, sep, b);
      ReplaceBarrier(a, sep, b, from, to);
      ReplaceCommutesWithSplit(b, sep, from, to);
      assert ([a] + Split(b, sep))[1..] == Split(b, sep);
    } else {
      SplitFree(s, sep);
    }
  }

  lemma {:induction false} ReplaceStaysFree<T>(s: seq<T>, sep: T, from: seq<T>, to: seq<T>)
    requires from != [] && sep !in s && sep !in to
    ensures sep !in Replace(s, from, to)
    decreases |s|
  {
    if |s| < |from| {
    } else if from <= s {
      ReplaceStaysFree(s[|from|..], sep, from, to);
    } else {
      ReplaceStaysFree(s[1..], sep, from, to);
    }
  }

  /** If `to` is free of the separator as well, replacing in the pieces gives the pieces of the replaced whole. */
  lemma {:induction false} SplitOfReplace<T>(s: seq<T>, sep: T, from: seq<T>, to: seq<T>)
    requires from != [] && sep !in from && sep !in to
    ensures Split(Replace(s, from, to), sep) == ReplaceEach(Split(s, sep), from, to)
    decreases |s|
  {
    if sep in s {
      var k := FirstIndex(s, sep);
      var a, b := s[..k], s[k + 1..];
      assert s == a + [sep] + b;
      SplitAtFirst(a, sep, b);
      ReplaceBarrier(a, sep, b, from, to);
      ReplaceStaysFree(a, sep, from, to);
      SplitAtFirst(Replace(a, from, to), sep, Replace(b, from, to));
      SplitOfReplace(b, sep, from, to);
      assert ([a] + Split(b, sep))[1..] == Split(b, sep);
    } else {
      SplitFree(s, sep);
      ReplaceStaysFree(s, sep, from, to);
      SplitFree(Replace(s, from, to), sep);
    }
  }
}
