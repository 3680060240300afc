/** Options and sums over sequences, shared by the other modules. */
module Counting {

  datatype Option<+T> = None | Some(value: T)

  function Bit(b: bool): (n: nat) { if b then 1 else 0 }

  /** The sum of `f` over the elements of `s`. */
  ghost function Sum<T>(f: T -> nat, s: seq<T>): nat {
    if s == [] then 0 else Sum(f, s[..|s| - 1]) + f(s[|s| - 1])
  }

  lemma {:induction false} SumConcat<T>(f: T -> nat, a: seq<T>, b: seq<T>)
    ensures Sum(f, a + b) == Sum(f, a) + Sum(f, b)
  {
    if b == [] {
      assert a + b == a;
    } else {
      assert (a + b)[..|a + b| - 1] == a + b[..|b| - 1];
      SumConcat(f, a, b[..|b| - 1]);
    }
  }

  /** Replacing one element changes the sum by the difference of the two values. */
  lemma {:induction false} SumUpdate<T>(f: T -> nat, s: seq<T>, i: nat, x: T)
    requires i < |s|
    ensures Sum(f, s[i := x]) + f(s[i]) == Sum(f, s) + f(x)
  {
    if i == |s| - 1 {
      assert s[i := x][..|s| - 1] == s[..|s| - 1];
    } else {
      assert s[i := x][..|s| - 1] == s[..|s| - 1][i := x];
      SumUpdate(f, s[..|s| - 1], i, x);
    }
  }

  function RemoveAt<T>(s: seq<T>, i: nat): (r: seq<T>)
    requires i < |s|
  {
    s[..i] + s[i + 1..]
  }

  lemma {:induction false} SumRemoveAt<T>(f: T -> nat, s: seq<T>, i: nat)
    requires i < |s|
    ensures Sum(f, RemoveAt(s, i)) + f(s[i]) == Sum(f, s)
  {
    var r := RemoveAt(s, i);
    if i == |s| - 1 {
      assert r == s[..|s| - 1];
    } else {
      SumRemoveAt(f, s[..|s| - 1], i);
      assert r[..|r| - 1] == RemoveAt(s[..|s| - 1], i);
    }
  }

  lemma {:induction false} SumZero<T>(f: T -> nat, s: seq<T>)
    requires forall i :: 0 <= i < |s| ==> f(s[i]) == 0
    ensures Sum(f, s) == 0
  {
    if s != [] {
      SumZero(f, s[..|s| - 1]);
    }
  }

  lemma {:induction false} SumTwo<T>(f: T -> nat, s: seq<T>, i: nat, j: nat)
    requires i < j < |s|
    ensures f(s[i]) + f(s[j]) <= Sum(f, s)
  {
    if j == |s| - 1 {
      SumOne(f, s[..j], i);
    } else {
      SumTwo(f, s[..|s| - 1], i, j);
    }
  }

  lemma {:induction false} SumOne<T>(f: T -> nat, s: seq<T>, i: nat)
    requires i < |s|
    ensures f(s[i]) <= Sum(f, s)
  {
    if i < |s| - 1 {
      SumOne(f, s[..|s| - 1], i);
    }
  }

  /** Every finite set can be listed without repetition. */
  lemma {:induction false} Enumerable<T>(xs: set<T>) returns (order: seq<T>)
    ensures Enumerates(order, xs)
  {
    if xs == {} {
      order := [];
    } else {
      var x :| x in xs;
      var rest := Enumerable(xs - {x});
      order := [x] + rest;
      assert xs == {x} + (xs - {x});
    }
  }

  /** `order` lists exactly the elements of `xs`, each once. */
  predicate Enumerates<T(==)>(order: seq<T>, xs: set<T>) {
    && (forall x :: x in xs ==> x in order)
    && (forall x :: x in order ==> x in xs)
    && |order| == |xs|
  }

  lemma {:induction false} CoverCount<T>(xs: set<T>, s: seq<T>)
    requires forall x :: x in xs ==> x in s
    ensures |xs| <= |s|
  {
    if s != [] {
      var last := s[|s| - 1];
      CoverCount(xs - {last}, s[..|s| - 1]);
      assert xs <= (xs - {last}) + {last};
    }
  }

  /** A listing repeats nothing. */
  lemma EnumeratesDistinct<T>(order: seq<T>, xs: set<T>, i: nat, j: nat)
    requires Enumerates(order, xs) && i < j < |order|
    ensures order[i] != order[j]
  {
    if order[i] == order[j] {
      var r := RemoveAt(order, i);
      forall x | x in xs ensures x in r {
        var k :| 0 <= k < |order| && order[k] == x;
        var at := if k == i then j - 1 else if k < i then k else k - 1;
        assert r[at] == x;
      }
      CoverCount(xs, r);
    }
  }
}
