/**
 The frames of the journal file and the recovery scan of receipt_journal.cpp, for any reader of payloads: the reader
 decodes a payload and verifies it against the anchor reached so far.
 */
module Framing {
  import opened Bytes

  const MAX_PAYLOAD_BYTES := 64 * 1024
  const MAX_RECORD_BYTES := MAX_PAYLOAD_BYTES + 8

  /** Either the record and the next anchor, or why the payload is refused. */
  type Reader<!A, T, E> = (A, seq<byte>) -> Result<(T, A), E>

  // ----- frames

  /** `make_record`: the payload between two copies of its length. */
  function Frame(p: seq<byte>): (r: seq<byte>)
    ensures |r| == |p| + 8
  {
    BigEndian(4, |p|) + (p + BigEndian(4, |p|))
  }

  function Frames(ps: seq<seq<byte>>): seq<byte> {
    if ps == [] then [] else Frame(ps[0]) + Frames(ps[1..])
  }

  lemma {:induction false} FramesAppend(ps: seq<seq<byte>>, p: seq<byte>)
    ensures Frames(ps + [p]) == Frames(ps) + Frame(p)
  {
    if ps == [] {
      assert ps + [p] == [p] && [p][1..] == [];
      assert Frames([p]) == Frame(p) + [];
    } else {
      assert (ps + [p])[1..] == ps[1..] + [p];
      FramesAppend(ps[1..], p);
    }
  }

  predicate GoodSize(p: seq<byte>) { 0 < |p| <= MAX_PAYLOAD_BYTES }

  // ----- the scan

  datatype FrameError<E> = RecordLengthInvalid | RecordFooterMismatch | Refused(why: E)

  /** One turn of the recovery loop on the bytes not yet recovered. */
  datatype Piece<A, T, E> =
    | End
    | Torn
    | Bad(error: FrameError<E>)
    | Whole(record: T, size: nat, next: A)

  function NextPiece<A, T, E>(read: Reader<A, T, E>, rest: seq<byte>, a: A): (p: Piece<A, T, E>)
    ensures p.Whole? ==> 8 < p.size <= |rest|
    ensures p.End? <==> rest == []
  {
    if rest == [] then End
    else if |rest| < 4 then Torn
    else
      var n := FromBigEndian(rest[..4]);
      if n == 0 || n > MAX_PAYLOAD_BYTES then Bad(RecordLengthInvalid)
      else if n + 8 > |rest| then Torn
      else if FromBigEndian(rest[4 + n..8 + n]) != n then Bad(RecordFooterMismatch)
      else
        match read(a, rest[4..4 + n])
        case Err(e) => Bad(Refused(e))
        case Ok((r, b)) => Whole(r, n + 8, b)
  }

  /** The records found, the bytes they occupy, the anchor they lead to, and whether bytes were left over. */
  datatype Scanned<A, T, E> =
    | Corrupt(error: FrameError<E>)
    | Found(records: seq<T>, bytes: nat, anchor: A, torn: bool)

  function Before<A, T, E>(r: T, size: nat, s: Scanned<A, T, E>): Scanned<A, T, E> {
    if s.Corrupt? then s else Found([r] + s.records, size + s.bytes, s.anchor, s.torn)
  }

  /** The declarative reading of the recovery loop. */
  function Scan<A, T, E>(read: Reader<A, T, E>, rest: seq<byte>, a: A): Scanned<A, T, E>
    decreases |rest|
  {
    match NextPiece(read, rest, a)
    case End => Found([], 0, a, false)
    case Torn => Found([], 0, a, true)
    case Bad(e) => Corrupt(e)
    case Whole(r, size, b) => Before(r, size, Scan(read, rest[size..], b))
  }

  /** A scan that has already recovered some records. */
  function After<A, T, E>(rs: seq<T>, bytes: nat, s: Scanned<A, T, E>): Scanned<A, T, E> {
    if s.Corrupt? then s else Found(rs + s.records, bytes + s.bytes, s.anchor, s.torn)
  }

  lemma AfterBefore<A, T, E>(rs: seq<T>, bytes: nat, r: T, size: nat, s: Scanned<A, T, E>)
    ensures After(rs, bytes, Before(r, size, s)) == After(rs + [r], bytes + size, s)
  {
    if s.Found? {
      Associate(rs, [r], s.records);
    }
  }

  lemma AfterNothing<A, T, E>(s: Scanned<A, T, E>)
    ensures After([], 0, s) == s
  {
    if s.Found? { assert [] + s.records == s.records; }
  }

  /** `recover_records`: the loop over the file from byte `from` on. */
  method RecoverRecords<A, T, E>(read: Reader<A, T, E>, file: seq<byte>, from: nat, start: A) returns (s: Scanned<A, T, E>)
    requires from <= |file|
    ensures s == Scan(read, file[from..], start)
  {
    var records: seq<T> := [];
    var anchor := start;
    var durable := from;
    ghost var goal := Scan(read, file[from..], start);
    AfterNothing(goal);
    while durable < |file|
      invariant from <= durable <= |file|
      invariant After(records, durable - from, Scan(read, file[durable..], anchor)) == goal
    {
      var rest := file[durable..];
      if |rest| < 4 { return Found(records, durable - from, anchor, true); }
      var n := FromBigEndian(rest[..4]);
      if n == 0 || n > MAX_PAYLOAD_BYTES { return Corrupt(RecordLengthInvalid); }
      var size := n + 8;
      if size > |rest| { return Found(records, durable - from, anchor, true); }
      if FromBigEndian(rest[4 + n..size]) != n { return Corrupt(RecordFooterMismatch); }
      var verified := read(anchor, rest[4..4 + n]);
      if verified.Err? { return Corrupt(Refused(verified.error)); }
      var (record, next) := verified.value;
      AfterBefore(records, durable - from, record, size, Scan(read, rest[size..], next));
      assert rest[size..] == file[durable + size..];
      records, anchor, durable := records + [record], next, durable + size;
    }
    s := Found(records, durable - from, anchor, false);
  }

  // ----- payload lists the reader accepts

  /** The records and the anchor a payload list is read to; none as soon as one payload is refused. */
  function ReadAll<A, T, E>(read: Reader<A, T, E>, a: A, ps: seq<seq<byte>>): Option<(seq<T>, A)> {
    if ps == [] then Some(([], a))
    else if !GoodSize(ps[0]) then None
    else
      match read(a, ps[0])
      case Err(_) => None
      case Ok((r, b)) =>
        match ReadAll(read, b, ps[1..])
        case None => None
        case Some((rs, c)) => Some(([r] + rs, c))
  }

  lemma {:induction false} ReadAllLength<A, T, E>(read: Reader<A, T, E>, a: A, ps: seq<seq<byte>>)
    requires ReadAll(read, a, ps).Some?
    ensures |ReadAll(read, a, ps).value.0| == |ps|
  {
    if ps != [] {
      ReadAllLength(read, read(a, ps[0]).value.1, ps[1..]);
    }
  }

  lemma {:induction false} ReadAllAppend<A, T, E>(read: Reader<A, T, E>, a: A, ps: seq<seq<byte>>, p: seq<byte>)
    requires ReadAll(read, a, ps).Some? && GoodSize(p) && read(ReadAll(read, a, ps).value.1, p).Ok?
    ensures var (rs, b) := ReadAll(read, a, ps).value;
            var (r, c) := read(b, p).value;
            ReadAll(read, a, ps + [p]) == Some((rs + [r], c))
    decreases |ps|
  {
    if ps == [] {
      assert ps + [p] == [p] && [p][1..] == [];
      var (r, c) := read(a, p).value;
      assert ReadAll(read, c, [p][1..]) == Some(([], c));
      assert [r] + [] == [] + [r];
    } else {
      assert (ps + [p])[1..] == ps[1..] + [p];
      var (r, b) := read(a, ps[0]).value;
      ReadAllAppend(read, b, ps[1..], p);
      Associate([r], ReadAll(read, b, ps[1..]).value.0, [read(ReadAll(read, a, ps).value.1, p).value.0]);
    }
  }

  /** Accepted payload lists have accepted prefixes, read to the same leading records. */
  lemma {:induction false} ReadAllPrefix<A, T, E>(read: Reader<A, T, E>, a: A, ps: seq<seq<byte>>, n: nat)
    requires ReadAll(read, a, ps).Some? && n <= |ps|
    ensures ReadAll(read, a, ps[..n]).Some?
    ensures ReadAll(read, a, ps[..n]).value.0 <= ReadAll(read, a, ps).value.0
    decreases |ps|
  {
    if n > 0 {
      assert ps[..n][1..] == ps[1..][..n - 1];
      ReadAllPrefix(read, read(a, ps[0]).value.1, ps[1..], n - 1);
    }
  }

  // ----- recovery at every byte

  /** How many leading frames fit wholly in `m` bytes. */
  function Fit(ps: seq<seq<byte>>, m: nat): (k: nat)
    ensures k <= |ps|
  {
    if ps == [] || m < |Frame(ps[0])| then 0 else 1 + Fit(ps[1..], m - |Frame(ps[0])|)
  }

  /** `Fit` is what it says: the frames counted fit, and no further frame does. */
  lemma {:induction false} FitIsExact(ps: seq<seq<byte>>, m: nat)
    ensures |Frames(ps[..Fit(ps, m)])| <= m
    ensures Fit(ps, m) < |ps| ==> m < |Frames(ps[..Fit(ps, m) + 1])|
  {
    if ps != [] && |Frame(ps[0])| <= m {
      var k := Fit(ps[1..], m - |Frame(ps[0])|);
      FitIsExact(ps[1..], m - |Frame(ps[0])|);
      assert ps[..k + 1][1..] == ps[1..][..k];
      if k < |ps[1..]| {
        assert ps[..k + 2][1..] == ps[1..][..k + 1];
      }
    } else if ps != [] {
      assert ps[..1][1..] == [];
      assert Frames(ps[..1]) == Frame(ps[0]) + [];
    }
  }

  lemma Slices<T>(a: seq<T>, p: seq<T>, e: seq<T>, tail: seq<T>)
    requires |a| == |e|
    ensures (a + (p + e) + tail)[..|a|] == a
    ensures (a + (p + e) + tail)[|a| + |p|..2 * |a| + |p|] == e
    ensures (a + (p + e) + tail)[|a|..|a| + |p|] == p
  {
  }

  /** A whole frame in front is read and the scan goes on behind it. */
  lemma ScanWhole<A, T, E>(read: Reader<A, T, E>, p: seq<byte>, tail: seq<byte>, a: A)
    requires GoodSize(p) && read(a, p).Ok?
    ensures Scan(read, Frame(p) + tail, a) == Before(read(a, p).value.0, |Frame(p)|, Scan(read, tail, read(a, p).value.1))
  {
    Pow256Values();
    BigEndianRoundTrip(4, |p|);
    Slices(BigEndian(4, |p|), p, BigEndian(4, |p|), tail);
    assert (Frame(p) + tail)[|Frame(p)|..] == tail;
  }

  /** A proper non-empty prefix of a frame is a torn tail, never an error. */
  lemma CutPiece<A, T, E>(read: Reader<A, T, E>, p: seq<byte>, m: nat, a: A)
    requires GoodSize(p) && 0 < m < |Frame(p)|
    ensures NextPiece(read, Frame(p)[..m], a) == Torn
  {
    if m >= 4 {
      Pow256Values();
      BigEndianRoundTrip(4, |p|);
      assert Frame(p)[..m][..4] == BigEndian(4, |p|);
    }
  }

  lemma CutBehind<T>(f: seq<T>, rest: seq<T>, m: nat)
    requires |f| <= m <= |f| + |rest|
    ensures (f + rest)[..m] == f + rest[..m - |f|]
  {
  }

  lemma CutWithin<T>(f: seq<T>, rest: seq<T>, m: nat)
    requires m <= |f|
    ensures (f + rest)[..m] == f[..m]
  {
  }

  /** What a scan of the first `m` bytes of the frames is to find. */
  ghost function CutResult<A, T, E>(read: Reader<A, T, E>, a: A, ps: seq<seq<byte>>, m: nat): Scanned<A, T, E>
    requires ReadAll(read, a, ps[..Fit(ps, m)]).Some?
  {
    var kept := ps[..Fit(ps, m)];
    var (rs, b) := ReadAll(read, a, kept).value;
    Found(rs, |Frames(kept)|, b, m != |Frames(kept)|)
  }

  lemma CutResultStep<A, T, E>(read: Reader<A, T, E>, a: A, ps: seq<seq<byte>>, m: nat)
    requires ps != [] && |Frame(ps[0])| <= m && ReadAll(read, a, ps).Some?
    ensures ReadAll(read, a, ps[..Fit(ps, m)]).Some?
    ensures var f, (r, b) := |Frame(ps[0])|, read(a, ps[0]).value;
            && ReadAll(read, b, ps[1..][..Fit(ps[1..], m - f)]).Some?
            && CutResult(read, a, ps, m) == Before(r, f, CutResult(read, b, ps[1..], m - f))
  {
    var k := Fit(ps, m);
    ReadAllPrefix(read, a, ps, k);
    assert ps[..k][1..] == ps[1..][..k - 1] && ps[..k][0] == ps[0];
  }

  /**
   * Recovery at every byte: cut the frames of an accepted payload list anywhere, and the scan finds exactly the
   * records whose frames fit wholly, stands at their anchor, and reports a torn tail if and only if the cut is not on
   * a frame boundary.
   */
  lemma {:induction false} ScanCut<A, T, E>(read: Reader<A, T, E>, a: A, ps: seq<seq<byte>>, m: nat)
    requires ReadAll(read, a, ps).Some? && m <= |Frames(ps)|
    ensures ReadAll(read, a, ps[..Fit(ps, m)]).Some?
    ensures Scan(read, Frames(ps)[..m], a) == CutResult(read, a, ps, m)
    decreases |ps|
  {
    hide NextPiece;
    ReadAllPrefix(read, a, ps, Fit(ps, m));
    if m == 0 {
      assert Frames(ps)[..0] == [];
    } else {
      var f := Frame(ps[0]);
      if m < |f| {
        CutWithin(f, Frames(ps[1..]), m);
        CutPiece(read, ps[0], m, a);
      } else {
        CutBehind(f, Frames(ps[1..]), m);
        CutResultStep(read, a, ps, m);
        ScanWhole(read, ps[0], Frames(ps[1..])[..m - |f|], a);
        ScanCut(read, read(a, ps[0]).value.1, ps[1..], m - |f|);
      }
    }
  }

  lemma {:induction false} FramesPrefix(ps: seq<seq<byte>>, k: nat)
    requires k <= |ps|
    ensures Frames(ps[..k]) <= Frames(ps)
  {
    if k > 0 {
      FramesPrefix(ps[1..], k - 1);
      assert ps[..k][1..] == ps[1..][..k - 1];
    }
  }

  /** The same, for a given cut and the payloads kept. */
  lemma CutFinds<A, T, E>(read: Reader<A, T, E>, a: A, ps: seq<seq<byte>>, kept: seq<seq<byte>>, cut: seq<byte>,
                          rs: seq<T>, b: A)
    requires ReadAll(read, a, ps).Some? && cut <= Frames(ps)
    requires kept == ps[..Fit(ps, |cut|)] && ReadAll(read, a, kept) == Some((rs, b))
    ensures Frames(kept) <= cut
    ensures Scan(read, cut, a) == Found(rs, |Frames(kept)|, b, |cut| != |Frames(kept)|)
  {
    ScanCut(read, a, ps, |cut|);
    FitIsExact(ps, |cut|);
    FramesPrefix(ps, Fit(ps, |cut|));
    BothPrefixes(Frames(kept), cut, Frames(ps));
  }

  lemma BothPrefixes<T>(a: seq<T>, b: seq<T>, s: seq<T>)
    requires a <= s && b <= s && |a| <= |b|
    ensures a <= b && s[..|b|] == b
  {
  }

  lemma BehindHeader<T>(h: seq<T>, s: seq<T>, t: seq<T>)
    ensures (h + s)[..|h|] == h && (h + s)[|h|..] == s
    ensures t <= s ==> h + t <= h + s
    ensures h + s <= h + t ==> s <= t
  {
    if h + s <= h + t {
      assert s == (h + s)[|h|..] == (h + t)[|h|..][..|s|] == t[..|s|];
    }
  }

  /** Bytes between two copies of their number are a frame. */
  lemma Reassemble(rest: seq<byte>, n: nat)
    requires 8 + n <= |rest| && FromBigEndian(rest[..4]) == n == FromBigEndian(rest[4 + n..8 + n])
    ensures rest == Frame(rest[4..4 + n]) + rest[8 + n..]
  {
    ReadBack(rest[..4]);
    ReadBack(rest[4 + n..8 + n]);
  }

  /** The other direction: whatever a scan recovers was written as frames of payloads the reader accepts. */
  lemma {:induction false} ScanSound<A, T, E>(read: Reader<A, T, E>, rest: seq<byte>, a: A) returns (ps: seq<seq<byte>>)
    requires Scan(read, rest, a).Found?
    ensures var s := Scan(read, rest, a);
            && ReadAll(read, a, ps) == Some((s.records, s.anchor))
            && s.bytes == |Frames(ps)| <= |rest|
            && rest[..s.bytes] == Frames(ps)
            && (!s.torn <==> s.bytes == |rest|)
    decreases |rest|
  {
    var piece := NextPiece(read, rest, a);
    if piece.Whole? {
      var n := piece.size - 8;
      var p, tail := rest[4..4 + n], rest[piece.size..];
      Reassemble(rest, n);
      var qs := ScanSound(read, tail, piece.next);
      ps := [p] + qs;
      assert ps[1..] == qs;
      var k := Scan(read, tail, piece.next).bytes;
      assert rest[..piece.size + k] == Frame(p) + tail[..k];
    } else {
      ps := [];
    }
  }

  // ----- what a scan answers, without following the scan

  /** The length declared in front. */
  function Declared(rest: seq<byte>): nat
    requires |rest| >= 4
  {
    FromBigEndian(rest[..4])
  }

  /** What a crash leaves of a frame: too little for a length, or a good length with too little behind it. */
  predicate TornTail(rest: seq<byte>) {
    rest != [] && (|rest| < 4 || (0 < Declared(rest) <= MAX_PAYLOAD_BYTES && |rest| < Declared(rest) + 8))
  }

  /** What no crash leaves: a bad length, or a whole frame with another footer or a payload that is refused. */
  ghost predicate Fault<A(!new), T(!new), E(!new)>(read: Reader<A, T, E>, a: A, rest: seq<byte>, e: FrameError<E>) {
    && |rest| >= 4
    && match e
       case RecordLengthInvalid => Declared(rest) == 0 || Declared(rest) > MAX_PAYLOAD_BYTES
       case RecordFooterMismatch =>
         && 0 < Declared(rest) <= MAX_PAYLOAD_BYTES && Declared(rest) + 8 <= |rest|
         && rest[4 + Declared(rest)..8 + Declared(rest)] != rest[..4]
       case Refused(why) =>
         && 0 < Declared(rest) <= MAX_PAYLOAD_BYTES && Declared(rest) + 8 <= |rest|
         && rest[4 + Declared(rest)..8 + Declared(rest)] == rest[..4]
         && read(a, rest[4..4 + Declared(rest)]) == Err(why)
  }

  /** Behind the frames of accepted payloads the bytes show this fault. */
  ghost predicate Damaged<A(!new), T(!new), E(!new)>(read: Reader<A, T, E>, a: A, bytes: seq<byte>, ps: seq<seq<byte>>,
                                                     e: FrameError<E>) {
    && ReadAll(read, a, ps).Some? && Frames(ps) <= bytes
    && Fault(read, ReadAll(read, a, ps).value.1, bytes[|Frames(ps)|..], e)
  }

  /** Behind the frames of accepted payloads there is nothing more, or what a crash leaves of one more. */
  ghost predicate Intact<A(!new), T(!new), E(!new)>(read: Reader<A, T, E>, a: A, bytes: seq<byte>, ps: seq<seq<byte>>) {
    && ReadAll(read, a, ps).Some? && Frames(ps) <= bytes
    && (bytes == Frames(ps) || TornTail(bytes[|Frames(ps)|..]))
  }

  /** The footer repeats the length exactly if it denotes it. */
  lemma FooterIs(rest: seq<byte>, n: nat)
    requires |rest| >= 8 + n && Declared(rest) == n
    ensures rest[4 + n..8 + n] == rest[..4] <==> FromBigEndian(rest[4 + n..8 + n]) == n
  {
    ReadBack(rest[..4]);
    ReadBack(rest[4 + n..8 + n]);
  }

  lemma PieceExact<A(!new), T(!new), E(!new)>(read: Reader<A, T, E>, rest: seq<byte>, a: A)
    ensures NextPiece(read, rest, a).Torn? <==> TornTail(rest)
    ensures forall e :: NextPiece(read, rest, a) == Bad(e) <==> Fault(read, a, rest, e)
  {
    if |rest| >= 4 && |rest| >= 8 + Declared(rest) {
      FooterIs(rest, Declared(rest));
    }
  }

  /** The frames in front are found, and the scan goes on behind them. */
  lemma {:induction false} ScanBehind<A, T, E>(read: Reader<A, T, E>, a: A, ps: seq<seq<byte>>, tail: seq<byte>)
    requires ReadAll(read, a, ps).Some?
    ensures var (rs, b) := ReadAll(read, a, ps).value;
            Scan(read, Frames(ps) + tail, a) == After(rs, |Frames(ps)|, Scan(read, tail, b))
    decreases |ps|
  {
    hide NextPiece;
    if ps == [] {
      assert Frames(ps) + tail == tail;
      AfterNothing(Scan(read, tail, a));
    } else {
      var (r, b) := read(a, ps[0]).value;
      var (rs, c) := ReadAll(read, b, ps[1..]).value;
      Associate(Frame(ps[0]), Frames(ps[1..]), tail);
      ScanWhole(read, ps[0], Frames(ps[1..]) + tail, a);
      ScanBehind(read, b, ps[1..], tail);
      BeforeAfter(r, |Frame(ps[0])|, rs, |Frames(ps[1..])|, Scan(read, tail, c));
    }
  }

  lemma BeforeAfter<A, T, E>(r: T, size: nat, rs: seq<T>, bytes: nat, s: Scanned<A, T, E>)
    ensures Before(r, size, After(rs, bytes, s)) == After([r] + rs, size + bytes, s)
  {
    if s.Found? { Associate([r], rs, s.records); }
  }

  /** Whatever stands behind accepted frames decides the answer. */
  lemma ScanDecides<A(!new), T(!new), E(!new)>(read: Reader<A, T, E>, a: A, ps: seq<seq<byte>>, bytes: seq<byte>)
    requires ReadAll(read, a, ps).Some? && Frames(ps) <= bytes
    ensures forall e :: Damaged(read, a, bytes, ps, e) ==> Scan(read, bytes, a) == Corrupt(e)
    ensures Intact(read, a, bytes, ps) ==>
              Scan(read, bytes, a) == Found(ReadAll(read, a, ps).value.0, |Frames(ps)|, ReadAll(read, a, ps).value.1,
                                            bytes != Frames(ps))
  {
    var (rs, b) := ReadAll(read, a, ps).value;
    var tail := bytes[|Frames(ps)|..];
    assert bytes == Frames(ps) + tail;
    ScanBehind(read, a, ps, tail);
    PieceExact(read, tail, b);
    assert rs + [] == rs;
  }

  /** And every byte string is the frames of accepted payloads with an intact end, or with a fault. */
  lemma {:induction false} ScanCases<A(!new), T(!new), E(!new)>(read: Reader<A, T, E>, bytes: seq<byte>, a: A)
    returns (ps: seq<seq<byte>>)
    ensures ReadAll(read, a, ps).Some? && Frames(ps) <= bytes
    ensures Intact(read, a, bytes, ps) || exists e :: Damaged(read, a, bytes, ps, e)
    decreases |bytes|
  {
    var piece := NextPiece(read, bytes, a);
    PieceExact(read, bytes, a);
    if piece.Whole? {
      var n := piece.size - 8;
      var p, tail := bytes[4..4 + n], bytes[piece.size..];
      Reassemble(bytes, n);
      var qs := ScanCases(read, tail, piece.next);
      ps := [p] + qs;
      CasesStep(read, a, p, qs, tail, piece.record, piece.next);
    } else {
      ps := [];
      assert bytes[|Frames(ps)|..] == bytes;
      if piece.Bad? { assert Damaged(read, a, bytes, ps, piece.error); }
    }
  }

  lemma CasesStep<A(!new), T(!new), E(!new)>(read: Reader<A, T, E>, a: A, p: seq<byte>, qs: seq<seq<byte>>,
                                             tail: seq<byte>, r: T, b: A)
    requires GoodSize(p) && read(a, p) == Ok((r, b)) && ReadAll(read, b, qs).Some? && Frames(qs) <= tail
    ensures var bytes, ps := Frame(p) + tail, [p] + qs;
            && ReadAll(read, a, ps).Some? && Frames(ps) <= bytes
            && (Intact(read, b, tail, qs) ==> Intact(read, a, bytes, ps))
            && (forall e :: Damaged(read, b, tail, qs, e) ==> Damaged(read, a, bytes, ps, e))
  {
    var bytes, ps := Frame(p) + tail, [p] + qs;
    assert ps[1..] == qs;
    assert Frames(ps) == Frame(p) + Frames(qs);
    assert bytes[|Frames(ps)|..] == tail[|Frames(qs)|..];
  }

  /**
   * A scan answers over arbitrary bytes: it reports this corruption if and only if behind the frames of accepted
   * payloads a length is out of range, a whole frame has another footer, or its payload is refused; and otherwise it
   * finds the records of the frames in front of nothing, or of a torn tail.
   */
  lemma ScanExact<A(!new), T(!new), E(!new)>(read: Reader<A, T, E>, bytes: seq<byte>, a: A)
    ensures forall e :: Scan(read, bytes, a) == Corrupt(e) <==> exists ps :: Damaged(read, a, bytes, ps, e)
    ensures Scan(read, bytes, a).Found? <==> exists ps :: Intact(read, a, bytes, ps)
    ensures forall ps :: Intact(read, a, bytes, ps) ==>
              Scan(read, bytes, a) == Found(ReadAll(read, a, ps).value.0, |Frames(ps)|, ReadAll(read, a, ps).value.1,
                                            bytes != Frames(ps))
  {
    hide Scan, ReadAll, Fault, TornTail;
    var ps := ScanCases(read, bytes, a);
    ScanDecides(read, a, ps, bytes);
    forall qs | ReadAll(read, a, qs).Some? && Frames(qs) <= bytes
      ensures forall e :: Damaged(read, a, bytes, qs, e) ==> Scan(read, bytes, a) == Corrupt(e)
      ensures Intact(read, a, bytes, qs) ==>
                Scan(read, bytes, a) == Found(ReadAll(read, a, qs).value.0, |Frames(qs)|, ReadAll(read, a, qs).value.1,
                                              bytes != Frames(qs))
    {
      ScanDecides(read, a, qs, bytes);
    }
  }

  /** Four bytes are the big-endian form of the number they denote. */
  lemma {:induction false} ReadBack(b: seq<byte>)
    ensures BigEndian(|b|, FromBigEndian(b)) == b
  {
    if b != [] {
      ReadBack(b[..|b| - 1]);
      assert FromBigEndian(b) / 256 == FromBigEndian(b[..|b| - 1]);
    }
  }
}
