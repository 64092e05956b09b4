/** Reconciliation of a peer with the journal, page by page (`page_after` in receipt_journal.cpp). */
module Reconcile {
  import opened Bytes
  import opened AuditChain
  import opened Histories
  import opened Journal
  import opened Merging

  const MAX_PAGE := 1000

  datatype Page = Page(resources: seq<Record>, refinements: seq<Record>, hasMore: bool, local: Anchor)

  datatype PageError = LimitInvalid | JournalPoisoned | JournalSizeChanged | NotAPrefix

  predicate IsResource(r: Record) { r.receipt.ResourcePayload? }

  function SequenceOf(r: Record): int { r.h.sequence }

  /** The list of the page's resource envelopes, or of its refinement envelopes. */
  function OfKind(rs: seq<Record>, resource: bool): seq<Record> { Passing(IsResource, resource, rs) }

  /** What the reader of a page restores: both lists in the order of their sequence numbers. */
  function InOrder(page: Page): seq<Record> { Merge(SequenceOf, page.resources, page.refinements) }

  // ----- one page

  function Count(records: seq<Record>, peer: Anchor, limit: nat): (n: nat)
    requires peer.sequence <= |records|
    ensures peer.sequence + n <= |records|
  {
    if limit < |records| - peer.sequence then limit else |records| - peer.sequence
  }

  /** The next records after the peer's anchor. */
  function Next(records: seq<Record>, peer: Anchor, limit: nat): seq<Record>
    requires peer.sequence <= |records|
  {
    records[peer.sequence..peer.sequence + Count(records, peer, limit)]
  }

  /** `page_after`: a journal whose file cannot be checked, or has changed, is poisoned. */
  function PageRead(ctx: Context, s: State, peer: Anchor, limit: nat, statFails: bool): (State, Result<Page, PageError>) {
    if limit == 0 || limit > MAX_PAGE then (s, Err(LimitInvalid))
    else if s.poisoned then (s, Err(JournalPoisoned))
    else if statFails || |s.file| != s.durable then (s.(poisoned := true), Err(JournalSizeChanged))
    else if !AnchorIsPrefix(peer, ctx.KeyIdentity(), s.records) then (s, Err(NotAPrefix))
    else
      var next := Next(s.records, peer, limit);
      (s, Ok(Page(OfKind(next, true), OfKind(next, false), |next| < |s.records| - peer.sequence, Local(ctx, s))))
  }

  /** The page, when the system call succeeds. */
  function PageAfter(ctx: Context, s: State, peer: Anchor, limit: nat): Result<Page, PageError> {
    PageRead(ctx, s, peer, limit, false).1
  }

  /** The prefix anchors are the anchors reached by verifying the prefixes. */
  lemma AnchorOfPrefix(c: Crypto, key: seq<byte>, rs: seq<Record>, n: nat) returns (a: Anchor)
    requires VerifyAll(c, key, Genesis(c, key), rs).Some? && n <= |rs|
    ensures VerifyAll(c, key, Genesis(c, key), rs[..n]) == Some(a)
    ensures AnchorIsPrefix(a, KeyId(c, key), rs) && a.sequence == n
  {
    AcceptPrefix(Verifier(c, key), Genesis(c, key), rs, n);
    VerifyAllAnchor(c, key, Genesis(c, key), rs[..n]);
    a := VerifyAll(c, key, Genesis(c, key), rs[..n]).value;
  }

  /** `anchor_is_prefix` accepts exactly the anchors reached by verifying some prefix from the genesis. */
  lemma PrefixExact(c: Crypto, key: seq<byte>, rs: seq<Record>, peer: Anchor)
    requires VerifyAll(c, key, Genesis(c, key), rs).Some?
    ensures AnchorIsPrefix(peer, KeyId(c, key), rs)
        <==> exists n :: 0 <= n <= |rs| && VerifyAll(c, key, Genesis(c, key), rs[..n]) == Some(peer)
  {
    hide VerifySelf, KeyId;
    if AnchorIsPrefix(peer, KeyId(c, key), rs) {
      PrefixAnchor(c, key, rs, peer);
      assert 0 <= peer.sequence <= |rs|;
    }
    if n: nat :| n <= |rs| && VerifyAll(c, key, Genesis(c, key), rs[..n]) == Some(peer) {
      var a := AnchorOfPrefix(c, key, rs, n);
    }
  }

  /** A page is refused for its limit, for a journal that is or becomes poisoned, or for an anchor off the history. */
  lemma PageRefused(ctx: Context, s: State, peer: Anchor, limit: nat, statFails: bool)
    ensures var (t, r) := PageRead(ctx, s, peer, limit, statFails);
            var due, up := 0 < limit <= MAX_PAGE, !s.poisoned && !statFails && |s.file| == s.durable;
            && (r == Err(LimitInvalid) <==> !due)
            && (r == Err(JournalPoisoned) <==> due && s.poisoned)
            && (r == Err(JournalSizeChanged) <==> due && !s.poisoned && !up)
            && (r == Err(NotAPrefix) <==> due && up && !AnchorIsPrefix(peer, ctx.KeyIdentity(), s.records))
            && (r.Ok? <==> due && up && AnchorIsPrefix(peer, ctx.KeyIdentity(), s.records))
            && t == s.(poisoned := s.poisoned || (due && !up))
  {
    hide AnchorIsPrefix, OfKind, Next;
  }

  lemma PrefixAnchor(c: Crypto, key: seq<byte>, rs: seq<Record>, peer: Anchor)
    requires VerifyAll(c, key, Genesis(c, key), rs).Some? && AnchorIsPrefix(peer, KeyId(c, key), rs)
    ensures VerifyAll(c, key, Genesis(c, key), rs[..peer.sequence]) == Some(peer)
  {
    AcceptPrefix(Verifier(c, key), Genesis(c, key), rs, peer.sequence);
    VerifyAllAnchor(c, key, Genesis(c, key), rs[..peer.sequence]);
  }

  lemma SliceAscends(c: Crypto, key: seq<byte>, a: Anchor, rs: seq<Record>, i: nat, j: nat)
    requires VerifyAll(c, key, a, rs).Some? && i <= j <= |rs|
    ensures Ascending(SequenceOf, rs[i..j])
  {
    forall k | 0 <= k < |rs|
      ensures rs[k].h.sequence == a.sequence + k + 1
    {
      VerifyAllSequence(c, key, a, rs, k);
    }
  }

  /** Splitting a stretch of an accepted history by kind and restoring its order gives it back. */
  lemma SplitByKind(c: Crypto, key: seq<byte>, a: Anchor, rs: seq<Record>, i: nat, j: nat, page: Page)
    requires VerifyAll(c, key, a, rs).Some? && i <= j <= |rs|
    requires page.resources == OfKind(rs[i..j], true) && page.refinements == OfKind(rs[i..j], false)
    ensures InOrder(page) == rs[i..j]
  {
    SliceAscends(c, key, a, rs, i, j);
    MergeUndoesSplit(SequenceOf, IsResource, rs[i..j]);
  }

  /** The records after a prefix anchor verify from it to another. */
  lemma NextVerifies(c: Crypto, key: seq<byte>, rs: seq<Record>, peer: Anchor, n: nat) returns (a: Anchor)
    requires VerifyAll(c, key, Genesis(c, key), rs).Some? && AnchorIsPrefix(peer, KeyId(c, key), rs)
    requires peer.sequence + n <= |rs|
    ensures VerifyAll(c, key, peer, rs[peer.sequence..peer.sequence + n]) == Some(a)
    ensures AnchorIsPrefix(a, KeyId(c, key), rs) && a.sequence == peer.sequence + n
  {
    hide VerifySelf, KeyId;
    PrefixAnchor(c, key, rs, peer);
    a := AnchorOfPrefix(c, key, rs, peer.sequence + n);
    AcceptSlice(Verifier(c, key), Genesis(c, key), rs, peer.sequence, peer.sequence + n, peer);
  }

  /** Among prefix anchors the local head is the one that has every record. */
  lemma HeadIsLast(ctx: Context, s: State, ps: seq<seq<byte>>, pending: seq<seq<byte>>, a: Anchor)
    requires Backed(ctx, s, ps, pending) && AnchorIsPrefix(a, ctx.KeyIdentity(), s.records)
    ensures VerifyAll(ctx.crypto, ctx.key, ctx.Start(), s.records).Some?
    ensures a == Local(ctx, s) <==> a.sequence == |s.records|
  {
    ReadAllVerifies(ctx, ctx.Start(), ps);
    assert s.records[..|s.records|] == s.records;
    PrefixAnchor(ctx.crypto, ctx.key, s.records, a);
    VerifyAllAnchor(ctx.crypto, ctx.key, ctx.Start(), s.records);
  }

  /**
   * A page is exactly what the peer needs next: merged by sequence its two lists are the next records, which verify
   * from the peer's anchor to another prefix anchor; there is more if and only if that is not yet the head.
   */
  lemma PageAdvances(ctx: Context, s: State, ps: seq<seq<byte>>, pending: seq<seq<byte>>, peer: Anchor, limit: nat)
    returns (a: Anchor)
    requires Backed(ctx, s, ps, pending) && PageAfter(ctx, s, peer, limit).Ok?
    ensures InOrder(PageAfter(ctx, s, peer, limit).value) == Next(s.records, peer, limit)
    ensures VerifyAll(ctx.crypto, ctx.key, peer, Next(s.records, peer, limit)) == Some(a)
    ensures AnchorIsPrefix(a, ctx.KeyIdentity(), s.records)
    ensures a.sequence == peer.sequence + Count(s.records, peer, limit)
    ensures PageAfter(ctx, s, peer, limit).value.local == Local(ctx, s)
    ensures PageAfter(ctx, s, peer, limit).value.hasMore <==> a != Local(ctx, s)
  {
    hide VerifySelf, ReadHistory, KeyId;
    HeadIsLast(ctx, s, ps, pending, peer);
    var n := Count(s.records, peer, limit);
    a := NextVerifies(ctx.crypto, ctx.key, s.records, peer, n);
    SplitByKind(ctx.crypto, ctx.key, ctx.Start(), s.records, peer.sequence, peer.sequence + n,
                PageAfter(ctx, s, peer, limit).value);
    HeadIsLast(ctx, s, ps, pending, a);
  }

  // ----- convergence

  /** A peer that asks for pages of the given limits, verifies each, and keeps the anchor it reaches. */
  function Follow(ctx: Context, s: State, peer: Anchor, limits: seq<nat>): Option<Anchor>
    decreases |limits|
  {
    if limits == [] then Some(peer)
    else
      match Take(ctx, peer, PageAfter(ctx, s, peer, limits[0]))
      case None => None
      case Some(a) => Follow(ctx, s, a, limits[1..])
  }

  /** The peer's side of one page. */
  function Take(ctx: Context, peer: Anchor, page: Result<Page, PageError>): Option<Anchor> {
    match page
    case Err(_) => None
    case Ok(p) => VerifyAll(ctx.crypto, ctx.key, peer, InOrder(p))
  }

  function Sum(limits: seq<nat>): nat {
    if limits == [] then 0 else limits[0] + Sum(limits[1..])
  }

  /**
   * Reconciliation never fails from a prefix anchor, reaches exactly the sequence its limits allow, and so arrives at
   * the local head as soon as the limits cover what was missing.
   */
  lemma {:induction false} FollowConverges(ctx: Context, s: State, ps: seq<seq<byte>>, pending: seq<seq<byte>>,
                                           peer: Anchor, limits: seq<nat>)
    returns (a: Anchor)
    requires Backed(ctx, s, ps, pending) && !s.poisoned && AnchorIsPrefix(peer, ctx.KeyIdentity(), s.records)
    requires forall i :: 0 <= i < |limits| ==> 0 < limits[i] <= MAX_PAGE
    ensures Follow(ctx, s, peer, limits) == Some(a) && AnchorIsPrefix(a, ctx.KeyIdentity(), s.records)
    ensures a.sequence == peer.sequence + Count(s.records, peer, Sum(limits))
    ensures a == Local(ctx, s) <==> peer.sequence + Sum(limits) >= |s.records|
    decreases |limits|
  {
    if limits == [] {
      a := peer;
      HeadIsLast(ctx, s, ps, pending, peer);
    } else {
      var b := PageAdvances(ctx, s, ps, pending, peer, limits[0]);
      a := FollowConverges(ctx, s, ps, pending, b, limits[1..]);
    }
  }
}
