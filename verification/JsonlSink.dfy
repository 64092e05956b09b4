/** The bounded audit journal of jsonl_sink.cpp: a file of lines under a cap, whose oldest lines give way. */
module JsonlSink {
  import opened Bytes
  import opened Lines

  // ----- what truncation keeps

  /** The longest run of whole non-blank lines at the end that fits the budget. */
  function Newest(ls: seq<seq<byte>>, budget: nat): seq<seq<byte>> {
    if ls == [] then []
    else
      var l := ls[|ls| - 1];
      if l == [] || |l| + 1 > budget then [] else Newest(ls[..|ls| - 1], budget - (|l| + 1)) + [l]
  }

  predicate NoBlanks(ls: seq<seq<byte>>) { forall i :: 0 <= i < |ls| ==> ls[i] != [] }

  /** The bytes of some lines. */
  function Size(ls: seq<seq<byte>>): nat { |Wire(ls)| }

  lemma SizeSnoc(ls: seq<seq<byte>>, l: seq<byte>)
    ensures Size(ls + [l]) == Size(ls) + |l| + 1
  {
    WireAppend(ls, l);
  }

  lemma SizeCons(l: seq<byte>, ls: seq<seq<byte>>)
    ensures Size([l] + ls) == |l| + 1 + Size(ls)
  {
    WireHead([l] + ls);
    assert ([l] + ls)[1..] == ls;
  }

  lemma NewestSnoc(ls: seq<seq<byte>>, l: seq<byte>, budget: nat)
    ensures Newest(ls + [l], budget)
         == if l == [] || |l| + 1 > budget then [] else Newest(ls, budget - (|l| + 1)) + [l]
  {
    assert (ls + [l])[..|ls|] == ls;
  }

  /** The lines in front of the kept ones end with one that is blank or does not fit any more. */
  predicate Blocks(front: seq<seq<byte>>, room: int) {
    front != [] ==> front[|front| - 1] == [] || |front[|front| - 1]| + 1 > room
  }

  /** What is kept is a suffix, it fits, and the suffix that is one line longer does not, or begins with a blank. */
  lemma {:induction false} NewestIsLongest(ls: seq<seq<byte>>, budget: nat) returns (front: seq<seq<byte>>)
    ensures ls == front + Newest(ls, budget) && NoBlanks(Newest(ls, budget))
    ensures Size(Newest(ls, budget)) <= budget && Blocks(front, budget - Size(Newest(ls, budget)))
    decreases |ls|
  {
    front := [];
    if ls != [] {
      var before, l := Unsnoc(ls);
      NewestSnoc(before, l, budget);
      if l == [] || |l| + 1 > budget {
        front := ls;
        assert ls + [] == ls;
      } else {
        front := NewestIsLongest(before, budget - (|l| + 1));
        SizeSnoc(Newest(before, budget - (|l| + 1)), l);
        Associate(front, Newest(before, budget - (|l| + 1)), [l]);
      }
    }
  }

  lemma NewestBlocked(front: seq<seq<byte>>, budget: nat)
    requires Blocks(front, budget)
    ensures Newest(front, budget) == []
  {
    if front != [] {
      var before, l := Unsnoc(front);
      NewestSnoc(before, l, budget);
    }
  }

  lemma NewestTakes(front: seq<seq<byte>>, rest: seq<seq<byte>>, l: seq<byte>, budget: nat)
    requires l != [] && |l| + 1 <= budget && Newest(front + rest, budget - (|l| + 1)) == rest
    ensures Newest(front + (rest + [l]), budget) == rest + [l]
  {
    NewestSnoc(front + rest, l, budget);
    Associate(front, rest, [l]);
  }

  /** And it is the only such suffix. */
  lemma {:induction false} NewestUnique(front: seq<seq<byte>>, back: seq<seq<byte>>, budget: nat)
    requires NoBlanks(back) && Size(back) <= budget && Blocks(front, budget - Size(back))
    ensures Newest(front + back, budget) == back
    decreases |back|
  {
    if back == [] {
      assert front + back == front;
      NewestBlocked(front, budget);
    } else {
      var rest, l := Unsnoc(back);
      SizeSnoc(rest, l);
      assert l == back[|back| - 1] && NoBlanks(rest);
      NewestUnique(front, rest, budget - (|l| + 1));
      NewestTakes(front, rest, l, budget);
    }
  }

  /** The lines of the window that are provably complete: not the first, when the window does not begin the file. */
  function Complete(ls: seq<seq<byte>>, clipped: bool): seq<seq<byte>> {
    if clipped && ls != [] then ls[1..] else ls
  }

  /** The newest `cap` bytes. */
  function Window(file: seq<byte>, cap: nat): seq<byte> {
    if |file| <= cap then file else file[|file| - cap..]
  }

  /** `truncate_oldest`: what it writes back. */
  function Truncated(file: seq<byte>, cap: nat, incoming: nat): seq<byte> {
    Wire(Newest(Complete(Split(Window(file, cap)), |file| > cap), if cap > incoming then cap - incoming else 0))
  }

  // ----- the backward scan

  /** No newline from one position up to another. */
  ghost predicate Clear(s: seq<byte>, from: nat, to: nat)
    requires to <= |s|
  {
    forall i :: from <= i < to ==> s[i] != NEWLINE
  }

  /** The last newline before position `end`. */
  method RFind(s: seq<byte>, end: nat) returns (r: Option<nat>)
    requires end <= |s|
    ensures r.None? ==> Clear(s, 0, end)
    ensures r.Some? ==> r.value < end && s[r.value] == NEWLINE && Clear(s, r.value + 1, end)
  {
    var i := end;
    while i > 0
      invariant 0 <= i <= end && Clear(s, i, end)
    {
      if s[i - 1] == NEWLINE { return Some(i - 1); }
      i := i - 1;
    }
    r := None;
  }

  /** The whole lines of a window end at its last newline. */
  lemma WholeLines(head: seq<byte>, rest: seq<byte>)
    requires NEWLINE !in rest && (head == [] || head[|head| - 1] == NEWLINE)
    ensures head == Wire(Split(head + rest))
  {
    WireOfSplit(head);
    SplitHasNoNewline(head);
    SplitWire(Split(head), rest);
    FindIs(rest, |rest|);
    assert Split(rest) == [];
    assert Split(head) + [] == Split(head);
  }

  /** The last line of a text is where the backward search finds it. */
  lemma EndsWith(w: seq<byte>, l: seq<byte>, s: seq<byte>, start: nat)
    requires s == w + (l + [NEWLINE]) && NEWLINE !in l && (w == [] || w[|w| - 1] == NEWLINE)
    requires start < |s| && Clear(s, start, |s| - 1) && (start > 0 ==> s[start - 1] == NEWLINE)
    ensures start == |w|
  {
    assert forall i :: |w| <= i < |s| - 1 ==> s[i] == l[i - |w|];
    assert w != [] ==> s[|w| - 1] == w[|w| - 1];
  }

  lemma WireEnds(ls: seq<seq<byte>>)
    ensures ls != [] ==> Wire(ls) != [] && Wire(ls)[|Wire(ls)| - 1] == NEWLINE
    ensures ls == [] ==> Wire(ls) == []
  {
  }

  lemma LineStarts(before: seq<seq<byte>>, l: seq<byte>, s: seq<byte>, start: nat)
    requires s == Wire(before + [l]) && NEWLINE !in l
    requires start < |s| && Clear(s, start, |s| - 1) && (start > 0 ==> s[start - 1] == NEWLINE)
    ensures s[..start] == Wire(before) && |s| - start == |l| + 1 && (start == 0 <==> before == [])
  {
    WireAppend(before, l);
    WireEnds(before);
    EndsWith(Wire(before), l, s, start);
    assert (Wire(before) + (l + [NEWLINE]))[..|Wire(before)|] == Wire(before);
  }

  /** How far the scan is: the lines before, which end at `from`, and the lines kept so far, which fit. */
  ghost predicate Scanning(tail: seq<byte>, budget: nat, before: seq<seq<byte>>, from: nat, passed: seq<seq<byte>>,
                           kept: nat) {
    && from <= |tail| && tail[..from] == Wire(before)
    && kept == Size(passed) <= budget && NoBlanks(passed)
    && (forall i :: 0 <= i < |before| ==> NEWLINE !in before[i])
  }

  /** Where the line that ends at `from` begins: behind the newline before it, or at the start of the window. */
  method LineStart(tail: seq<byte>, from: nat, ghost before: seq<seq<byte>>) returns (start: nat)
    requires from <= |tail| && tail[..from] == Wire(before) && before != [] && NEWLINE !in before[|before| - 1]
    ensures start < from && tail[..start] == Wire(before[..|before| - 1])
    ensures from - start == |before[|before| - 1]| + 1 && (start == 0 <==> |before| == 1)
  {
    WireEnds(before);
    var startNewline := RFind(tail, from - 1);
    start := if startNewline.None? then 0 else startNewline.value + 1;
    ghost var s := tail[..from];
    ghost var rest, l := Unsnoc(before);
    LineStarts(rest, l, s, start);
    assert s[..start] == tail[..start];
  }

  /** Where the scan may stop. */
  predicate MayStop(before: seq<seq<byte>>, clipped: bool, room: nat) {
    (clipped && |before| == 1) || Blocks(before, room)
  }

  /** A scan that may stop has found what is to be kept. */
  lemma StopsRight(before: seq<seq<byte>>, passed: seq<seq<byte>>, clipped: bool, budget: nat)
    requires NoBlanks(passed) && Size(passed) <= budget && MayStop(before, clipped, budget - Size(passed))
    requires clipped ==> before != [] || passed == []
    ensures Newest(Complete(before + passed, clipped), budget) == passed
  {
    if clipped && before != [] {
      assert (before + passed)[1..] == before[1..] + passed;
      NewestUnique(before[1..], passed, budget);
    } else {
      if before == [] { assert before + passed == passed; }
      NewestUnique(before, passed, budget);
    }
  }

  lemma KeptText(tail: seq<byte>, end: nat, from: nat, before: seq<seq<byte>>, passed: seq<seq<byte>>)
    requires end <= |tail| && from <= end && tail[..end] == Wire(before + passed) && tail[..from] == Wire(before)
    ensures tail[from..end] == Wire(passed)
  {
    WireSplit(before, passed);
    assert tail[from..end] == tail[..end][from..];
    assert tail[..end][..from] == tail[..from];
  }

  /** The next line out of those before, added in front of those kept. */
  lemma PassLine(before: seq<seq<byte>>, passed: seq<seq<byte>>)
    requires before != [] && NoBlanks(passed) && before[|before| - 1] != []
    ensures before + passed == before[..|before| - 1] + ([before[|before| - 1]] + passed)
    ensures NoBlanks([before[|before| - 1]] + passed)
    ensures Size([before[|before| - 1]] + passed) == |before[|before| - 1]| + 1 + Size(passed)
  {
    SizeCons(before[|before| - 1], passed);
  }

  /** The loop of `truncate_oldest`, which moves `keep_from` backwards over the lines of the window. */
  method ScanBack(tail: seq<byte>, clipped: bool, budget: nat) returns (keepFrom: nat, kept: nat)
    ensures keepFrom + kept <= |tail|
    ensures tail[keepFrom..keepFrom + kept] == Wire(Newest(Complete(Split(tail), clipped), budget))
  {
    var last := RFind(tail, |tail|);
    var end := if last.None? then 0 else last.value + 1;
    keepFrom, kept := end, 0;
    ghost var before, passed: seq<seq<byte>> := Split(tail), [];
    ScanStarts(tail, end, budget);
    while keepFrom > 0
      invariant keepFrom + kept == end <= |tail| && Scanning(tail, budget, before, keepFrom, passed, kept)
      invariant Split(tail) == before + passed && tail[..end] == Wire(Split(tail))
      invariant keepFrom == 0 <==> before == []
      invariant clipped ==> before != [] || passed == []
      decreases keepFrom
    {
      var lineStart := LineStart(tail, keepFrom, before);
      var lineBytes := keepFrom - lineStart;
      if (lineStart == 0 && clipped) || lineBytes == 1 || kept + lineBytes > budget { break; }
      PassLine(before, passed);
      passed := [before[|before| - 1]] + passed;
      before := before[..|before| - 1];
      kept, keepFrom := kept + lineBytes, lineStart;
    }
    StopsRight(before, passed, clipped, budget);
    KeptText(tail, end, keepFrom, before, passed);
  }

  lemma ScanStarts(tail: seq<byte>, end: nat, budget: nat)
    requires end <= |tail| && Clear(tail, end, |tail|) && (end > 0 ==> tail[end - 1] == NEWLINE)
    ensures tail[..end] == Wire(Split(tail)) && Scanning(tail, budget, Split(tail), end, [], 0)
    ensures end == 0 <==> Split(tail) == []
    ensures Split(tail) == Split(tail) + []
  {
    var head, rest := tail[..end], tail[end..];
    assert tail == head + rest;
    WholeLines(head, rest);
    SplitHasNoNewline(tail);
    WireEnds(Split(tail));
  }

  // ----- runs of the sink

  /** A journal within the budget is kept as it is. */
  lemma NewestAll(ls: seq<seq<byte>>, budget: nat)
    requires NoBlanks(ls) && Size(ls) <= budget
    ensures Newest(ls, budget) == ls
  {
    NewestUnique([], ls, budget);
    assert [] + ls == ls;
  }

  /** Narrowing the budget keeps the longest suffix of what was kept. */
  lemma {:induction false} NewestTwice(ls: seq<seq<byte>>, budget: nat, smaller: nat)
    requires smaller <= budget
    ensures Newest(Newest(ls, budget), smaller) == Newest(ls, smaller)
    decreases |ls|
  {
    if ls != [] {
      var before, l := Unsnoc(ls);
      NewestSnoc(before, l, budget);
      NewestSnoc(before, l, smaller);
      if l != [] && |l| + 1 <= budget {
        NewestSnoc(Newest(before, budget - (|l| + 1)), l, smaller);
        if |l| + 1 <= smaller {
          NewestTwice(before, budget - (|l| + 1), smaller - (|l| + 1));
        }
      }
    }
  }

  /** One more line that fits: the longest fitting suffix is the one for the rest of the cap, and the line. */
  lemma NewestStep(ls: seq<seq<byte>>, l: seq<byte>, cap: nat)
    requires l != [] && |l| + 1 <= cap
    ensures Newest(ls + [l], cap) == Newest(Newest(ls, cap), cap - (|l| + 1)) + [l]
  {
    NewestSnoc(ls, l, cap);
    NewestTwice(ls, cap, cap - (|l| + 1));
  }

  lemma SplitOfWire(ls: seq<seq<byte>>)
    requires forall i :: 0 <= i < |ls| ==> NEWLINE !in ls[i]
    ensures Split(Wire(ls)) == ls
  {
    SplitWire(ls, []);
    assert Wire(ls) + [] == Wire(ls) && ls + [] == ls;
  }

  /** An encoded event: one line, never blank. */
  predicate IsRecord(l: seq<byte>) { l != [] && NEWLINE !in l }

  predicate Records(ls: seq<seq<byte>>) { forall i :: 0 <= i < |ls| ==> IsRecord(ls[i]) }

  predicate Fits(l: seq<byte>, cap: nat) { cap == 0 || |l| + 1 <= cap }

  /** The records that are accepted: without a cap all of them, with one those that can fit under it. */
  function Accepted(ls: seq<seq<byte>>, cap: nat): seq<seq<byte>> {
    if ls == [] then []
    else Accepted(ls[..|ls| - 1], cap) + if Fits(ls[|ls| - 1], cap) then [ls[|ls| - 1]] else []
  }

  /** What the file is to hold of a history of accepted records. */
  function Retained(history: seq<seq<byte>>, cap: nat): seq<seq<byte>> {
    if cap == 0 then history else Newest(history, cap)
  }

  /** Lines without a newline inside. */
  predicate Plain(ls: seq<seq<byte>>) { forall i :: 0 <= i < |ls| ==> NEWLINE !in ls[i] }

  lemma PlainAppend(ls: seq<seq<byte>>, l: seq<byte>)
    requires Plain(ls) && NEWLINE !in l
    ensures Plain(ls + [l])
  {
  }

  lemma NewestPlain(history: seq<seq<byte>>, cap: nat)
    requires Plain(history)
    ensures Plain(Newest(history, cap)) && NoBlanks(Newest(history, cap)) && Size(Newest(history, cap)) <= cap
  {
    var front := NewestIsLongest(history, cap);
    var kept := Newest(history, cap);
    forall i | 0 <= i < |kept|
      ensures NEWLINE !in kept[i]
    {
      assert (front + kept)[|front| + i] == kept[i];
    }
  }

  /** The truncation of a journal within its cap. */
  lemma TruncatedWithin(file: seq<byte>, cap: nat, incoming: nat)
    requires |file| <= cap && incoming <= cap
    ensures Truncated(file, cap, incoming) == Wire(Newest(Split(file), cap - incoming))
  {
  }

  /** Truncation leaves no more than what makes room for the record to come. */
  lemma TruncatedFits(file: seq<byte>, cap: nat, incoming: nat)
    ensures |Truncated(file, cap, incoming)| <= if cap > incoming then cap - incoming else 0
  {
    var front := NewestIsLongest(Complete(Split(Window(file, cap)), |file| > cap),
                                 if cap > incoming then cap - incoming else 0);
  }

  /** The file and the count of its bytes. */
  datatype Journal = Journal(file: seq<byte>, current: nat)

  /** The journal with room made for `size` more bytes. */
  function Emptied(cap: nat, j: Journal, size: nat): Journal {
    if cap == 0 || j.current + size <= cap then j
    else
      var file := Truncated(j.file, cap, size);
      Journal(file, |file|)
  }

  function Extended(j: Journal, l: seq<byte>): Journal { Journal(j.file + (l + [NEWLINE]), j.current + (|l| + 1)) }

  /** `record`, when every system call succeeds. */
  function RecordStep(cap: nat, j: Journal, l: seq<byte>): Journal {
    if Fits(l, cap) then Extended(Emptied(cap, j, |l| + 1), l) else j
  }

  function Run(cap: nat, j: Journal, ls: seq<seq<byte>>): Journal {
    if ls == [] then j else RecordStep(cap, Run(cap, j, ls[..|ls| - 1]), ls[|ls| - 1])
  }

  /** The journal that holds exactly these lines. */
  function Of(ls: seq<seq<byte>>): Journal { Journal(Wire(ls), Size(ls)) }

  /** The journal that holds these bytes, be they lines or not. */
  function Holding(file: seq<byte>): Journal { Journal(file, |file|) }

  lemma MakesRoom(cap: nat, history: seq<seq<byte>>, size: nat)
    requires Plain(history) && 0 < size <= cap
    ensures Emptied(cap, Of(Newest(history, cap)), size) == Of(Newest(Newest(history, cap), cap - size))
  {
    var kept := Newest(history, cap);
    NewestPlain(history, cap);
    if Size(kept) + size > cap {
      SplitOfWire(kept);
      TruncatedWithin(Wire(kept), cap, size);
    } else {
      NewestAll(kept, cap - size);
    }
  }

  lemma ExtendedOf(ls: seq<seq<byte>>, l: seq<byte>)
    ensures Extended(Of(ls), l) == Of(ls + [l])
  {
    WireAppend(ls, l);
  }

  lemma RecordMakesRoom(cap: nat, history: seq<seq<byte>>, l: seq<byte>)
    requires Plain(history) && l != [] && |l| + 1 <= cap
    ensures Extended(Emptied(cap, Of(Newest(history, cap)), |l| + 1), l) == Of(Newest(history + [l], cap))
  {
    var left := Newest(Newest(history, cap), cap - (|l| + 1));
    MakesRoom(cap, history, |l| + 1);
    ExtendedOf(left, l);
    NewestStep(history, l, cap);
  }

  /** The records fit behind what was there: nothing has had to give way. */
  predicate Untouched(cap: nat, start: seq<byte>, acc: seq<seq<byte>>) { cap == 0 || |start| + Size(acc) <= cap }

  /**
   * The lines there have been: those of the file as the last untouched record left it, a glued one included, and the
   * records since.
   */
  function Candidates(cap: nat, start: seq<byte>, acc: seq<seq<byte>>): seq<seq<byte>> {
    if acc == [] || Untouched(cap, start, acc) then Split(start + Wire(acc))
    else Candidates(cap, start, acc[..|acc| - 1]) + [acc[|acc| - 1]]
  }

  /** What the journal is to hold after these records. */
  function Kept(cap: nat, start: seq<byte>, acc: seq<seq<byte>>): Journal {
    if Untouched(cap, start, acc) then Holding(start + Wire(acc)) else Of(Newest(Candidates(cap, start, acc), cap))
  }

  lemma {:induction false} CandidatesPlain(cap: nat, start: seq<byte>, acc: seq<seq<byte>>)
    requires Plain(acc)
    ensures Plain(Candidates(cap, start, acc))
    decreases |acc|
  {
    if acc == [] || Untouched(cap, start, acc) {
      SplitHasNoNewline(start + Wire(acc));
    } else {
      CandidatesPlain(cap, start, acc[..|acc| - 1]);
      PlainAppend(Candidates(cap, start, acc[..|acc| - 1]), acc[|acc| - 1]);
    }
  }

  lemma CandidatesSnoc(cap: nat, start: seq<byte>, acc: seq<seq<byte>>, l: seq<byte>)
    requires !Untouched(cap, start, acc + [l])
    ensures Candidates(cap, start, acc + [l]) == Candidates(cap, start, acc) + [l]
  {
    assert (acc + [l])[..|acc|] == acc;
  }

  /** A record behind which the file is still untouched. */
  lemma KeptGrows(cap: nat, start: seq<byte>, acc: seq<seq<byte>>, l: seq<byte>)
    requires Untouched(cap, start, acc + [l])
    ensures Extended(Emptied(cap, Kept(cap, start, acc), |l| + 1), l) == Kept(cap, start, acc + [l])
  {
    SizeSnoc(acc, l);
    WireAppend(acc, l);
    Associate(start, Wire(acc), l + [NEWLINE]);
  }

  /** The first record that makes lines give way. */
  lemma KeptYields(cap: nat, start: seq<byte>, acc: seq<seq<byte>>, l: seq<byte>)
    requires Untouched(cap, start, acc) && !Untouched(cap, start, acc + [l]) && l != [] && |l| + 1 <= cap
    ensures Extended(Emptied(cap, Kept(cap, start, acc), |l| + 1), l) == Kept(cap, start, acc + [l])
  {
    hide Newest, Split, Truncated;
    var file := start + Wire(acc);
    SizeSnoc(acc, l);
    CandidatesSnoc(cap, start, acc, l);
    assert Candidates(cap, start, acc) == Split(file);
    TruncatedWithin(file, cap, |l| + 1);
    ExtendedOf(Newest(Split(file), cap - (|l| + 1)), l);
    NewestSnoc(Split(file), l, cap);
  }

  /** Every record after it. */
  lemma KeptMovesOn(cap: nat, start: seq<byte>, acc: seq<seq<byte>>, l: seq<byte>)
    requires !Untouched(cap, start, acc) && Plain(acc) && l != [] && |l| + 1 <= cap
    ensures Extended(Emptied(cap, Kept(cap, start, acc), |l| + 1), l) == Kept(cap, start, acc + [l])
  {
    hide Newest, Emptied, Extended;
    SizeSnoc(acc, l);
    CandidatesSnoc(cap, start, acc, l);
    CandidatesPlain(cap, start, acc);
    RecordMakesRoom(cap, Candidates(cap, start, acc), l);
  }

  lemma KeptStep(cap: nat, start: seq<byte>, acc: seq<seq<byte>>, l: seq<byte>)
    requires Plain(acc) && IsRecord(l) && Fits(l, cap)
    ensures RecordStep(cap, Kept(cap, start, acc), l) == Kept(cap, start, acc + [l])
  {
    hide Kept, Extended, Emptied;
    if Untouched(cap, start, acc + [l]) {
      KeptGrows(cap, start, acc, l);
    } else if Untouched(cap, start, acc) {
      KeptYields(cap, start, acc, l);
    } else {
      KeptMovesOn(cap, start, acc, l);
    }
  }

  /**
   * Retention over every run, from every file within the cap, blank lines and an unterminated rest included: as long as
   * the accepted records fit behind it, the file is itself and they; from then on it is exactly the longest run of
   * non-blank lines at the end of all there have been that fits the cap. The count is always the size of the file.
   */
  lemma {:induction false} RunKeeps(cap: nat, start: seq<byte>, ls: seq<seq<byte>>)
    requires Records(ls) && (cap != 0 ==> |start| <= cap)
    ensures Run(cap, Holding(start), ls) == Kept(cap, start, Accepted(ls, cap))
    ensures Records(Accepted(ls, cap))
    decreases |ls|
  {
    if ls == [] {
      assert start + [] == start;
    } else {
      var before, l := Unsnoc(ls);
      RecordsFront(before, l);
      RunKeeps(cap, start, before);
      RunSnoc(cap, Holding(start), before, l);
      AcceptedSnoc(before, l, cap);
      if Fits(l, cap) {
        KeptStep(cap, start, Accepted(before, cap), l);
        RecordsSnoc(Accepted(before, cap), l);
      }
    }
  }

  /** Behind whole non-blank lines, these and the records are all there have been. */
  lemma {:induction false} CandidatesOfLines(cap: nat, start: seq<seq<byte>>, acc: seq<seq<byte>>)
    requires Plain(start) && Plain(acc)
    ensures Candidates(cap, Wire(start), acc) == start + acc
    decreases |acc|
  {
    if acc == [] || Untouched(cap, Wire(start), acc) {
      WireSplit(start, acc);
      SplitOfWire(start + acc);
    } else {
      var before, l := Unsnoc(acc);
      CandidatesSnoc(cap, Wire(start), before, l);
      CandidatesOfLines(cap, start, before);
      Associate(start, before, [l]);
    }
  }

  /**
   * From any journal of whole non-blank lines within its cap, the file is always exactly the longest suffix of
   * everything accepted that fits the cap.
   */
  lemma RunRetains(cap: nat, start: seq<seq<byte>>, ls: seq<seq<byte>>)
    requires Records(start) && Records(ls) && (cap != 0 ==> Size(start) <= cap)
    ensures Run(cap, Of(start), ls) == Of(Retained(start + Accepted(ls, cap), cap))
    ensures Records(start + Accepted(ls, cap))
  {
    hide Newest, Run, Accepted, Candidates;
    var acc := Accepted(ls, cap);
    RunKeeps(cap, Wire(start), ls);
    CandidatesOfLines(cap, start, acc);
    WireSplit(start, acc);
    if cap != 0 && Untouched(cap, Wire(start), acc) {
      NoBlanksAppend(start, acc);
      NewestAll(start + acc, cap);
    }
  }

  lemma NoBlanksAppend(ls: seq<seq<byte>>, ks: seq<seq<byte>>)
    requires Records(ls) && Records(ks)
    ensures NoBlanks(ls + ks)
  {
  }

  lemma RunSnoc(cap: nat, j: Journal, before: seq<seq<byte>>, l: seq<byte>)
    ensures Run(cap, j, before + [l]) == RecordStep(cap, Run(cap, j, before), l)
  {
    assert (before + [l])[..|before|] == before;
  }

  lemma AcceptedSnoc(before: seq<seq<byte>>, l: seq<byte>, cap: nat)
    ensures Accepted(before + [l], cap) == if Fits(l, cap) then Accepted(before, cap) + [l] else Accepted(before, cap)
  {
    assert (before + [l])[..|before|] == before;
  }

  lemma RecordsFront(ls: seq<seq<byte>>, l: seq<byte>)
    requires Records(ls + [l])
    ensures Records(ls) && IsRecord(l)
  {
    var all := ls + [l];
    assert all[|ls|] == l && forall i :: 0 <= i < |ls| ==> all[i] == ls[i];
  }

  lemma RecordsSnoc(ls: seq<seq<byte>>, l: seq<byte>)
    requires Records(ls) && IsRecord(l)
    ensures Records(ls + [l])
  {
  }

  lemma StepBounded(cap: nat, j: Journal, l: seq<byte>)
    requires cap != 0 && j.current == |j.file| <= cap
    ensures var k := RecordStep(cap, j, l); k.current == |k.file| <= cap
  {
    TruncatedFits(j.file, cap, |l| + 1);
  }

  /** A record that could never fit under the cap is dropped and changes nothing; every other one ends the file. */
  lemma DroppedExact(cap: nat, j: Journal, l: seq<byte>)
    ensures cap != 0 && |l| + 1 > cap ==> RecordStep(cap, j, l) == j && Accepted([l], cap) == []
    ensures cap == 0 || |l| + 1 <= cap ==>
              var file := RecordStep(cap, j, l).file;
              && |l| + 1 <= |file| && file[|file| - (|l| + 1)..] == l + [NEWLINE]
              && Accepted([l], cap) == [l]
  {
    hide Emptied;
    assert [l][..0] == [] && Accepted([], cap) == [];
    assert [] + [l] == [l];
  }

  /** Whatever the file was and whatever is recorded, the count is the size of the file and never exceeds the cap. */
  lemma {:induction false} RunBounded(cap: nat, existing: seq<byte>, ls: seq<seq<byte>>)
    requires cap != 0
    ensures var j := Run(cap, Opened(cap, existing), ls); j.current == |j.file| <= cap
    decreases |ls|
  {
    if ls == [] {
      TruncatedFits(existing, cap, 0);
    } else {
      RunBounded(cap, existing, ls[..|ls| - 1]);
      StepBounded(cap, Run(cap, Opened(cap, existing), ls[..|ls| - 1]), ls[|ls| - 1]);
    }
  }

  /** The last line of what a record leaves is the record behind what was unterminated before. */
  lemma LastLine(file: seq<byte>, l: seq<byte>)
    requires NEWLINE !in l
    ensures Split(file + (l + [NEWLINE])) == Split(file) + [Rest(file) + l]
  {
    hide Split, Rest, Wire;
    var w, rest := Wire(Split(file)), Rest(file);
    SplitAndRest(file);
    SplitHasNoNewline(file);
    assert w + rest + (l + [NEWLINE]) == w + ((rest + l) + [NEWLINE] + []);
    SplitWire(Split(file), (rest + l) + [NEWLINE] + []);
    SplitLine(rest + l, []);
    NoLines([]);
    assert [rest + l] + [] == [rest + l];
  }

  lemma NoRest(file: seq<byte>)
    ensures Rest(file) == [] <==> file == [] || file[|file| - 1] == NEWLINE
  {
    hide Split, Rest;
    SplitAndRest(file);
    WireEnds(Split(file));
    if Rest(file) != [] { assert file[|file| - 1] == Rest(file)[|Rest(file)| - 1]; }
  }

  /**
   * An accepted record stands as a line of its own exactly if the file was empty, ended with a newline, or was
   * truncated to make room; otherwise it is glued to the unterminated rest that, say, a crash within a write has left.
   */
  lemma RecordStands(cap: nat, j: Journal, l: seq<byte>)
    requires NEWLINE !in l && Fits(l, cap)
    ensures var file := Emptied(cap, j, |l| + 1).file;
            && Split(RecordStep(cap, j, l).file) == Split(file) + [Rest(file) + l]
            && (Rest(file) + l == l <==>
                  j.file == [] || j.file[|j.file| - 1] == NEWLINE || (cap != 0 && j.current + |l| + 1 > cap))
  {
    hide Newest, Split, Rest;
    LastLine(Emptied(cap, j, |l| + 1).file, l);
    NoRest(Emptied(cap, j, |l| + 1).file);
    WireEnds(Newest(Complete(Split(Window(j.file, cap)), |j.file| > cap), if cap > |l| + 1 then cap - (|l| + 1) else 0));
  }

  // ----- the object

  /** The window, whether it is clipped and the budget, as the code computes them. */
  lemma TruncatedIs(file: seq<byte>, cap: nat, incoming: nat, window: nat)
    requires window == if |file| < cap then |file| else cap
    ensures Truncated(file, cap, incoming)
         == Wire(Newest(Complete(Split(file[|file| - window..]), |file| != window),
                        if cap > incoming then cap - incoming else 0))
  {
    WindowIs(file, cap, window);
  }

  lemma WindowIs(file: seq<byte>, cap: nat, window: nat)
    requires window == if |file| < cap then |file| else cap
    ensures file[|file| - window..] == Window(file, cap) && (|file| != window <==> |file| > cap)
  {
  }

  /** `make_jsonl_sink` on the contents of a file. */
  function Opened(cap: nat, existing: seq<byte>): Journal {
    var file := if cap != 0 && |existing| > cap then Truncated(existing, cap, 0) else existing;
    Journal(file, |file|)
  }

  /** `truncate_oldest` on the contents of a file. */
  method TruncateOldest(file: seq<byte>, cap: nat, incoming: nat) returns (left: seq<byte>)
    ensures left == Truncated(file, cap, incoming)
  {
    var keepBudget := if cap > incoming then cap - incoming else 0;
    var window := if |file| < cap then |file| else cap;
    var tail := file[|file| - window..];
    var clipped := |file| != window;
    TruncatedIs(file, cap, incoming, window);
    var keepFrom, kept := ScanBack(tail, clipped, keepBudget);
    left := tail[keepFrom..keepFrom + kept];
  }

  class Sink {
    const cap: nat
    var file: seq<byte>
    var currentBytes: nat

    function View(): Journal
      reads this
    {
      Journal(file, currentBytes)
    }

    constructor (max: nat, existing: seq<byte>)
      ensures cap == max && View() == Opened(max, existing)
    {
      cap := max;
      var contents := existing;
      if max != 0 && |existing| > max {
        contents := TruncateOldest(existing, max, 0);
      }
      file, currentBytes := contents, |contents|;
    }

    method Record(encoded: seq<byte>)
      requires currentBytes == |file|
      modifies this
      ensures View() == RecordStep(cap, old(View()), encoded) && currentBytes == |file|
    {
      var line := encoded + [NEWLINE];
      if cap != 0 {
        if |line| > cap { return; }
        if currentBytes + |line| > cap {
          file := TruncateOldest(file, cap, |line|);
          currentBytes := |file|;
        }
      }
      file := file + line;
      currentBytes := currentBytes + |line|;
    }
  }

  // ----- bounding an oversized journal on opening

  /**
   * What bounding is to keep of an oversized journal: the longest run of whole non-blank lines at its end that, with
   * the unterminated rest behind them, lies within the newest `cap` bytes.
   */
  function Promised(file: seq<byte>, cap: nat): seq<seq<byte>> {
    Newest(Split(file), if |Rest(file)| < cap then cap - |Rest(file)| else 0)
  }

  /** The byte before the window ends a line: what follows begins exactly at the window's edge. */
  predicate EdgeOnLine(file: seq<byte>, cap: nat)
    requires |file| > cap
  {
    file[|file| - cap - 1] == NEWLINE
  }

  /** A line begins exactly at the window's edge, and no blank line behind it ends what is kept. */
  predicate LosesLine(file: seq<byte>, cap: nat)
    requires |file| > cap
  {
    var lines := Split(Window(file, cap));
    EdgeOnLine(file, cap) && lines != [] && NoBlanks(lines)
  }

  /** The lines behind the last blank one. */
  function AfterBlank(ls: seq<seq<byte>>): seq<seq<byte>> {
    if ls == [] || ls[|ls| - 1] == [] then [] else AfterBlank(ls[..|ls| - 1]) + [ls[|ls| - 1]]
  }

  lemma AfterBlankSnoc(ls: seq<seq<byte>>, l: seq<byte>)
    ensures AfterBlank(ls + [l]) == if l == [] then [] else AfterBlank(ls) + [l]
  {
    assert (ls + [l])[..|ls|] == ls;
  }

  lemma NoBlanksSnoc(ls: seq<seq<byte>>, l: seq<byte>)
    ensures NoBlanks(ls + [l]) <==> NoBlanks(ls) && l != []
  {
    assert (ls + [l])[|ls|] == l && forall i :: 0 <= i < |ls| ==> (ls + [l])[i] == ls[i];
  }

  /** Of some lines that fit, behind others of which the last does not, those behind the last blank are kept. */
  lemma {:induction false} NewestFits(front: seq<seq<byte>>, ls: seq<seq<byte>>, room: nat)
    requires Blocks(front, room)
    ensures Newest(front + ls, Size(ls) + room) == AfterBlank(ls)
    decreases |ls|
  {
    if ls == [] {
      assert front + ls == front;
      NewestBlocked(front, room);
    } else {
      var before, l := Unsnoc(ls);
      NewestFits(front, before, room);
      SizeSnoc(before, l);
      Associate(front, before, [l]);
      NewestSnoc(front + before, l, Size(ls) + room);
      AfterBlankSnoc(before, l);
    }
  }

  /** Without its first line: that line is missed exactly if no line is blank. */
  lemma {:induction false} AfterBlankTail(ls: seq<seq<byte>>)
    requires ls != []
    ensures NoBlanks(ls) ==> AfterBlank(ls) == ls
    ensures AfterBlank(ls[1..]) == if NoBlanks(ls) then ls[1..] else AfterBlank(ls)
    decreases |ls|
  {
    var before, l := Unsnoc(ls);
    AfterBlankSnoc(before, l);
    NoBlanksSnoc(before, l);
    if before == [] {
      assert ls[1..] == [] && AfterBlank([]) == [];
    } else {
      AfterBlankTail(before);
      assert ls[1..] == before[1..] + [l];
      AfterBlankSnoc(before[1..], l);
    }
  }

  /** What is kept of lines that all fit. */
  lemma NewestWithin(ls: seq<seq<byte>>, cap: nat)
    requires Size(ls) <= cap
    ensures Newest(ls, cap) == AfterBlank(ls)
  {
    NewestFits([], ls, cap - Size(ls));
    assert [] + ls == ls;
  }

  /** What is promised of lines `front` that end where a text `s` begins, by the lines of that text. */
  lemma PromisedBehind(file: seq<byte>, p: seq<byte>, s: seq<byte>, cap: nat)
    requires file == p + s && (p == [] || p[|p| - 1] == NEWLINE)
    ensures Promised(file, cap) == Newest(Split(p) + Split(s), if |Rest(s)| < cap then cap - |Rest(s)| else 0)
  {
    hide Newest, Split, Rest;
    WireOfSplit(p);
    SplitHasNoNewline(p);
    SplitWire(Split(p), s);
    RestBehind(Split(p), s);
  }

  /** What the scan keeps of a window whose first line is taken for incomplete. */
  lemma KeptOfWindow(w: seq<byte>, ls: seq<seq<byte>>, cap: nat)
    requires Split(w) == ls && |w| <= cap
    ensures Newest(Complete(ls, true), cap) == if ls == [] then [] else AfterBlank(ls[1..])
  {
    hide Split, Rest, AfterBlank;
    SplitAndRest(w);
    if ls != [] {
      WireHead(ls);
      NewestWithin(ls[1..], cap);
    }
  }

  /** The window begins with a line. */
  lemma OnEdge(file: seq<byte>, p: seq<byte>, w: seq<byte>)
    requires file == p + w && p != [] && p[|p| - 1] == NEWLINE && w != []
    ensures Promised(file, |w|) == AfterBlank(Split(w)) && (Split(w) == [] ==> AfterBlank(Split(w)) == [])
  {
    hide Newest, Split, Rest, Promised;
    PromisedBehind(file, p, w, |w|);
    SplitAndRest(w);
    NewestFits(Split(p), Split(w), 0);
  }

  /** The window begins inside a line, of which `y` is before it: what is left of that line goes, and the rest stays. */
  lemma OffEdge(file: seq<byte>, p: seq<byte>, y: seq<byte>, w: seq<byte>)
    requires file == p + (y + w) && (p == [] || p[|p| - 1] == NEWLINE) && y != [] && NEWLINE !in y && w != []
    ensures Promised(file, |w|) == if Split(w) == [] then [] else AfterBlank(Split(w)[1..])
  {
    hide Newest, Split, Rest, Promised, AfterBlank, Find;
    PromisedBehind(file, p, y + w, |w|);
    if NEWLINE !in w {
      NoneInside(Split(p), y, w);
    } else {
      var x, v := FirstLine(w);
      OffEdgeLine(Split(p), y, x, v);
      assert ([x] + Split(v))[1..] == Split(v);
    }
  }

  lemma NoneInside(front: seq<seq<byte>>, y: seq<byte>, w: seq<byte>)
    requires NEWLINE !in y && NEWLINE !in w
    ensures Split(w) == [] && |Rest(y + w)| >= |w| && Newest(front + Split(y + w), 0) == []
  {
    NoLines(w);
    NoLines(y + w);
    NewestNothing(front);
  }

  lemma NewestNothing(ls: seq<seq<byte>>)
    ensures Newest(ls + [], 0) == []
  {
    assert ls + [] == ls;
    NewestBlocked(ls, 0);
  }

  lemma OffEdgeLine(front: seq<seq<byte>>, y: seq<byte>, x: seq<byte>, v: seq<byte>)
    requires y != [] && NEWLINE !in y && NEWLINE !in x
    ensures var w := x + [NEWLINE] + v;
            && |Rest(y + w)| < |w|
            && Newest(front + Split(y + w), |w| - |Rest(y + w)|) == AfterBlank(Split(v))
            && Split(w) == [x] + Split(v)
  {
    hide Newest, Split, Rest, AfterBlank;
    var w := x + [NEWLINE] + v;
    SplitLine(x, v);
    SplitInside(y, x, v);
    SplitAndRest(v);
    Associate(front, [y + x], Split(v));
    NewestFits(front + [y + x], Split(v), |x| + 1);
    assert |w| - |Rest(v)| == Size(Split(v)) + (|x| + 1);
  }

  lemma SplitInside(y: seq<byte>, x: seq<byte>, v: seq<byte>)
    requires NEWLINE !in y && NEWLINE !in x
    ensures Split(y + (x + [NEWLINE] + v)) == [y + x] + Split(v)
    ensures Rest(y + (x + [NEWLINE] + v)) == Rest(v)
  {
    hide Split, Rest;
    assert y + (x + [NEWLINE] + v) == (y + x) + [NEWLINE] + v;
    SplitLine(y + x, v);
    RestLine(y + x, v);
  }

  /** A non-empty text is whole lines and a part of the next. */
  lemma Parts(s: seq<byte>) returns (p: seq<byte>, y: seq<byte>)
    ensures s == p + y && (p == [] || p[|p| - 1] == NEWLINE) && NEWLINE !in y
    ensures s != [] ==> (y == [] <==> s[|s| - 1] == NEWLINE)
  {
    SplitAndRest(s);
    WireEnds(Split(s));
    p, y := Wire(Split(s)), Rest(s);
    if y != [] { assert s[|s| - 1] == y[|y| - 1]; }
  }

  lemma OpenedWindow(file: seq<byte>, cap: nat)
    requires 0 < cap < |file|
    ensures Opened(cap, file).file == Wire(Newest(Complete(Split(Window(file, cap)), true), cap))
  {
  }

  /**
   * Bounding, for every oversized file: what is kept is exactly what is promised, unless a line begins exactly at the
   * window's edge and no blank line follows in the window: then the oldest of the promised lines is lost.
   */
  lemma OpenedExact(file: seq<byte>, cap: nat)
    requires 0 < cap < |file|
    ensures LosesLine(file, cap) ==> Promised(file, cap) == Split(Window(file, cap)) != []
    ensures Opened(cap, file).file
         == Wire(if LosesLine(file, cap) then Promised(file, cap)[1..] else Promised(file, cap))
    ensures Opened(cap, file).file == Wire(Promised(file, cap)) <==> !LosesLine(file, cap)
  {
    hide Newest, Split, Rest, AfterBlank, Promised, Opened;
    OpenedWindow(file, cap);
    var before, w := file[..|file| - cap], Window(file, cap);
    assert file == before + w;
    var p, y := Parts(before);
    KeptOfWindow(w, Split(w), cap);
    if EdgeOnLine(file, cap) {
      assert p + y == p;
      OnEdge(file, p, w);
      if Split(w) != [] {
        AfterBlankTail(Split(w));
        WireHead(Split(w));
      }
    } else {
      Associate(p, y, w);
      OffEdge(file, p, y, w);
    }
  }

  /** In a file of whole non-blank lines that is: unless a line begins exactly at the window's edge. */
  lemma OpenedRecords(ls: seq<seq<byte>>, cap: nat)
    requires Records(ls) && 0 < cap < Size(ls)
    ensures Promised(Wire(ls), cap) == Newest(ls, cap)
    ensures LosesLine(Wire(ls), cap) <==> EdgeOnLine(Wire(ls), cap)
    ensures Opened(cap, Wire(ls)).file == Wire(Newest(ls, cap)) <==> !EdgeOnLine(Wire(ls), cap)
  {
    hide Newest, Promised, Opened, Split, Wire, EdgeOnLine;
    var file := Wire(ls);
    PromisedRecords(ls, cap);
    OpenedExact(file, cap);
    if EdgeOnLine(file, cap) { EdgeOfRecords(ls, file[..|file| - cap], Window(file, cap)) by { EdgeParts(file, cap); } }
  }

  lemma EdgeParts(file: seq<byte>, cap: nat)
    requires 0 < cap < |file|
    ensures var p, w := file[..|file| - cap], Window(file, cap);
            && file == p + w && p != [] && w != []
            && (EdgeOnLine(file, cap) <==> p[|p| - 1] == NEWLINE)
  {
  }

  lemma PromisedRecords(ls: seq<seq<byte>>, cap: nat)
    requires Records(ls) && cap > 0
    ensures Promised(Wire(ls), cap) == Newest(ls, cap)
  {
    hide Newest, Split, Wire, Rest;
    SplitOfWire(ls);
    RestBehind(ls, []);
    assert Wire(ls) + [] == Wire(ls);
    assert Rest([]) == [] by { NoLines([]); }
  }

  lemma EdgeOfRecords(ls: seq<seq<byte>>, p: seq<byte>, w: seq<byte>)
    requires Records(ls) && Wire(ls) == p + w && p != [] && p[|p| - 1] == NEWLINE && w != []
    ensures Split(w) != [] && NoBlanks(Split(w))
  {
    SplitOfWire(ls);
    WireOfSplit(p);
    SplitHasNoNewline(p);
    SplitWire(Split(p), w);
    WireEnds(ls);
    assert w[|w| - 1] == NEWLINE;
    WireOfSplit(w);
    forall i | 0 <= i < |Split(w)|
      ensures Split(w)[i] != []
    {
      assert ls[|Split(p)| + i] == Split(w)[i];
    }
  }

  lemma TwoLines(a: seq<byte>, b: seq<byte>)
    requires |a| == |b| == 1
    ensures Wire([a, b]) == [a[0], NEWLINE, b[0], NEWLINE] && Newest([a, b], 2) == [b]
  {
    assert [a, b] == [a] + [b] && [a] == [] + [a];
    WireAppend([], a);
    WireAppend([a], b);
    NewestSnoc([a], b, 2);
    NewestSnoc([], a, 0);
    assert [] + [b] == [b];
  }

  /** Two lines of two bytes each under a cap of two: the second fits and is lost all the same. */
  lemma OpenedLosesLine()
    ensures Newest([[0x61], [0x62]], 2) == [[0x62]]
    ensures Opened(2, Wire([[0x61], [0x62]])).file == []
  {
    var ls: seq<seq<byte>> := [[0x61], [0x62]];
    TwoLines([0x61], [0x62]);
    OpenedRecords(ls, 2);
    assert EdgeOnLine(Wire(ls), 2);
    OpenedExact(Wire(ls), 2);
    assert [[0x62]][1..] == [];
  }
}
