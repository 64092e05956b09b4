/** Splitting a list in two by a test, and merging two lists by a rank: the one undoes the other. */
module Merging {
  /** The elements that pass the test, or those that do not, in order. */
  function Passing<T>(test: T -> bool, want: bool, s: seq<T>): seq<T> {
    if s == [] then []
    else Passing(test, want, s[..|s| - 1]) + if test(s[|s| - 1]) == want then [s[|s| - 1]] else []
  }

  /** The loop that deals a stretch of a list out to two lists. */
  method Deal<T>(test: T -> bool, s: seq<T>, begin: nat, end: nat) returns (passing: seq<T>, others: seq<T>)
    requires begin <= end <= |s|
    ensures passing == Passing(test, true, s[begin..end])
    ensures others == Passing(test, false, s[begin..end])
  {
    passing, others := [], [];
    for index := begin to end
      invariant passing == Passing(test, true, s[begin..index])
      invariant others == Passing(test, false, s[begin..index])
    {
      assert s[begin..index + 1][..index - begin] == s[begin..index];
      if test(s[index]) {
        passing := passing + [s[index]];
      } else {
        others := others + [s[index]];
      }
    }
  }

  /** Repeatedly take the head of the lower rank. */
  function Merge<T>(rank: T -> int, a: seq<T>, b: seq<T>): seq<T>
    decreases |a| + |b|
  {
    if a == [] then b
    else if b == [] then a
    else if rank(a[0]) <= rank(b[0]) then [a[0]] + Merge(rank, a[1..], b)
    else [b[0]] + Merge(rank, a, b[1..])
  }

  ghost predicate Ascending<T>(rank: T -> int, s: seq<T>) {
    forall i, j :: 0 <= i < j < |s| ==> rank(s[i]) < rank(s[j])
  }

  lemma {:induction false} PassingFront<T>(test: T -> bool, want: bool, x: T, s: seq<T>)
    ensures Passing(test, want, [x] + s) == (if test(x) == want then [x] else []) + Passing(test, want, s)
  {
    if s == [] {
      assert [x] + s == [x] && [x][..0] == [];
    } else {
      var m := |s| - 1;
      PassingFront(test, want, x, s[..m]);
      assert ([x] + s)[..m + 1] == [x] + s[..m];
    }
  }

  lemma {:induction false} PassingWithin<T>(test: T -> bool, want: bool, s: seq<T>, x: T)
    requires x in Passing(test, want, s)
    ensures x in s
  {
    if s != [] && x in Passing(test, want, s[..|s| - 1]) {
      PassingWithin(test, want, s[..|s| - 1], x);
    }
  }

  /** An element below all the others comes out first, whichever list it heads. */
  lemma MergeHead<T>(rank: T -> int, x: T, a: seq<T>, b: seq<T>)
    requires a != [] ==> rank(x) < rank(a[0])
    requires b != [] ==> rank(x) < rank(b[0])
    ensures Merge(rank, [x] + a, b) == [x] + Merge(rank, a, b) == Merge(rank, a, [x] + b)
  {
    assert ([x] + a)[1..] == a && ([x] + b)[1..] == b;
    if a == [] { assert Merge(rank, a, b) == b; }
    if b == [] { assert Merge(rank, a, b) == a; }
  }

  lemma PassingEmpty<T>(test: T -> bool, rank: T -> int)
    ensures Merge(rank, Passing(test, true, []), Passing(test, false, [])) == []
  {
  }

  /** Splitting loses nothing and reorders nothing: merging by rank undoes it. */
  lemma {:induction false} MergeUndoesSplit<T>(rank: T -> int, test: T -> bool, s: seq<T>)
    requires Ascending(rank, s)
    ensures Merge(rank, Passing(test, true, s), Passing(test, false, s)) == s
  {
    hide Merge, Passing;
    if s == [] {
      PassingEmpty(test, rank);
    } else {
      var x, tail := s[0], s[1..];
      var a, b := Passing(test, true, tail), Passing(test, false, tail);
      assert s == [x] + tail;
      MergeUndoesSplit(rank, test, tail);
      PassingFront(test, true, x, tail);
      PassingFront(test, false, x, tail);
      if a != [] { PassingWithin(test, true, tail, a[0]); }
      if b != [] { PassingWithin(test, false, tail, b[0]); }
      MergeHead(rank, x, a, b);
      assert [] + a == a && [] + b == b;
    }
  }
}
