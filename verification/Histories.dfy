/** Lists of steps taken in order from a state, each accepted or refused; a refusal is final. */
module Histories {
  import opened Bytes

  type Acceptor<!A, -R> = (A, R) -> Option<A>

  function Accept<A, R>(next: Acceptor<A, R>, a: A, rs: seq<R>): Option<A> {
    if rs == [] then Some(a) else Then(next, Accept(next, a, rs[..|rs| - 1]), rs[|rs| - 1])
  }

  function Then<A, R>(next: Acceptor<A, R>, a: Option<A>, r: R): Option<A> {
    if a.None? then None else next(a.value, r)
  }

  lemma AcceptAppend<A, R>(next: Acceptor<A, R>, a: A, rs: seq<R>, r: R)
    ensures Accept(next, a, rs + [r]) == Then(next, Accept(next, a, rs), r)
  {
    assert (rs + [r])[..|rs + [r]| - 1] == rs;
  }

  /** Every prefix of an accepted list is accepted. */
  lemma {:induction false} AcceptPrefix<A, R>(next: Acceptor<A, R>, a: A, rs: seq<R>, n: nat)
    requires n <= |rs| && Accept(next, a, rs).Some?
    ensures Accept(next, a, rs[..n]).Some?
  {
    if n < |rs| {
      AcceptPrefix(next, a, rs[..|rs| - 1], n);
      assert rs[..|rs| - 1][..n] == rs[..n];
    } else {
      assert rs[..n] == rs;
    }
  }

  lemma {:induction false} AcceptSplit<A, R>(next: Acceptor<A, R>, a: A, rs: seq<R>, qs: seq<R>)
    ensures Accept(next, a, rs + qs) == match Accept(next, a, rs)
                                        case None => None
                                        case Some(b) => Accept(next, b, qs)
  {
    if qs == [] {
      assert rs + qs == rs;
    } else {
      AcceptSplit(next, a, rs, qs[..|qs| - 1]);
      assert (rs + qs)[..|rs + qs| - 1] == rs + qs[..|qs| - 1];
    }
  }

  /** The stretch between two prefixes leads from the state after the one to the state after the other. */
  lemma AcceptSlice<A, R>(next: Acceptor<A, R>, a: A, rs: seq<R>, i: nat, j: nat, b: A)
    requires i <= j <= |rs| && Accept(next, a, rs[..i]) == Some(b)
    ensures Accept(next, b, rs[i..j]) == Accept(next, a, rs[..j])
  {
    SplitAt(rs, i, j);
    AcceptSplit(next, a, rs[..i], rs[i..j]);
  }
}
