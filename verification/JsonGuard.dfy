/** The duplicate-key guard of apple_container_session_runtime.cpp: a recogniser proved exact for the grammar. */
module JsonGuard {
  import opened Bytes
  import opened Hex
  import opened JsonText

  // ----- runs of whitespace and of digits

  function SkipSpace(s: seq<byte>): (r: seq<byte>)
    ensures |r| <= |s|
  {
    if s != [] && IsSpace(s[0]) then SkipSpace(s[1..]) else s
  }

  function SkipDigits(s: seq<byte>): (r: seq<byte>)
    ensures |r| <= |s|
  {
    if s != [] && IsDigit(s[0]) then SkipDigits(s[1..]) else s
  }

  lemma {:induction false} SpaceSound(s: seq<byte>) returns (w: seq<byte>)
    ensures s == w + SkipSpace(s) && Spaces(w)
    ensures SkipSpace(s) == [] || !IsSpace(SkipSpace(s)[0])
  {
    w := [];
    if s != [] && IsSpace(s[0]) {
      w := SpaceSound(s[1..]);
      w := [s[0]] + w;
    }
  }

  lemma {:induction false} SpaceComplete(w: seq<byte>, s: seq<byte>)
    requires Spaces(w) && (s == [] || !IsSpace(s[0]))
    ensures SkipSpace(w + s) == s
  {
    if w == [] {
      assert w + s == s;
    } else {
      assert (w + s)[1..] == w[1..] + s;
      SpaceComplete(w[1..], s);
    }
  }

  lemma {:induction false} DigitsSound(s: seq<byte>) returns (ds: seq<byte>)
    ensures s == ds + SkipDigits(s) && Digits(ds)
    ensures s != [] && IsDigit(s[0]) ==> ds != [] && ds[0] == s[0]
    ensures SkipDigits(s) != s ==> ds != []
  {
    ds := [];
    if s != [] && IsDigit(s[0]) {
      ds := DigitsSound(s[1..]);
      ds := [s[0]] + ds;
    }
  }

  lemma {:induction false} DigitsComplete(ds: seq<byte>, s: seq<byte>)
    requires Digits(ds) && (s == [] || !IsDigit(s[0]))
    ensures SkipDigits(ds + s) == s
  {
    if ds == [] {
      assert ds + s == s;
    } else {
      assert (ds + s)[1..] == ds[1..] + s;
      DigitsComplete(ds[1..], s);
    }
  }

  // ----- numbers

  lemma Assoc3(a: seq<byte>, b: seq<byte>, c: seq<byte>, d: seq<byte>)
    ensures a + (b + (c + d)) == (a + (b + c)) + d
  {
    Associate(b, c, d);
    Associate(a, b + c, d);
  }

  lemma Assoc4(a: seq<byte>, b: seq<byte>, c: seq<byte>, d: seq<byte>, e: seq<byte>)
    ensures a + (b + (c + (d + e))) == (a + (b + (c + d))) + e
  {
    Associate(c, d, e);
    Assoc3(a, b, c + d, e);
  }

  function AfterMinus(s: seq<byte>): seq<byte> { if s != [] && s[0] == MINUS then s[1..] else s }

  function AfterWhole(s: seq<byte>): (r: Option<seq<byte>>)
    ensures r.Some? ==> |r.value| < |s|
  {
    if s == [] then None
    else if s[0] == ZERO then Some(s[1..])
    else if s[0] < 0x31 || s[0] > 0x39 then None
    else Some(SkipDigits(s))
  }

  /** At least one digit. */
  function AfterDigits(s: seq<byte>): (r: Option<seq<byte>>)
    ensures r.Some? ==> |r.value| <= |s|
  {
    if SkipDigits(s) == s then None else Some(SkipDigits(s))
  }

  function AfterFraction(s: seq<byte>): (r: Option<seq<byte>>)
    ensures r.Some? ==> |r.value| <= |s|
  {
    if s != [] && s[0] == POINT then AfterDigits(s[1..]) else Some(s)
  }

  function AfterSign(s: seq<byte>): seq<byte> { if s != [] && (s[0] == PLUS || s[0] == MINUS) then s[1..] else s }

  function AfterExponent(s: seq<byte>): (r: Option<seq<byte>>)
    ensures r.Some? ==> |r.value| <= |s|
  {
    if s != [] && s[0] in {0x65, 0x45} then AfterDigits(AfterSign(s[1..])) else Some(s)
  }

  function AfterNumber(s: seq<byte>): (r: Option<seq<byte>>)
    ensures r.Some? ==> |r.value| < |s|
  {
    match AfterWhole(AfterMinus(s))
    case None => None
    case Some(t) =>
      match AfterFraction(t)
      case None => None
      case Some(u) => AfterExponent(u)
  }

  /** What may follow a number: nothing that could continue it. */
  predicate Stops(s: seq<byte>) { s == [] || !(IsDigit(s[0]) || s[0] == POINT || s[0] in {0x65, 0x45}) }

  lemma FractionSound(s: seq<byte>) returns (f: Option<seq<byte>>)
    requires AfterFraction(s).Some?
    ensures s == FractionText(f) + AfterFraction(s).value
    ensures f.Some? ==> f.value != [] && Digits(f.value)
  {
    if s != [] && s[0] == POINT {
      var ds := DigitsSound(s[1..]);
      f := Some(ds);
      assert s == [POINT] + s[1..];
      Associate([POINT], ds, SkipDigits(s[1..]));
    } else {
      f := None;
      assert [] + s == s;
    }
  }

  lemma SignSplit(t: seq<byte>)
    ensures t == (if AfterSign(t) == t then [] else [t[0]]) + AfterSign(t)
    ensures AfterSign(t) != t ==> t[0] in {PLUS, MINUS}
  {
    if t != [] && (t[0] == PLUS || t[0] == MINUS) {
      assert |t[1..]| < |t|;
    }
  }

  lemma ExponentSound(s: seq<byte>) returns (e: Option<Exponent>)
    requires AfterExponent(s).Some?
    ensures s == ExponentText(e) + AfterExponent(s).value
    ensures e.Some? ==> e.value.mark in {0x65, 0x45} && e.value.sign in {[], [PLUS], [MINUS]}
    ensures e.Some? ==> e.value.digits != [] && Digits(e.value.digits)
  {
    if s != [] && s[0] in {0x65, 0x45} {
      var t := s[1..];
      var u := AfterSign(t);
      var sign := if u == t then [] else [t[0]];
      var ds := DigitsSound(u);
      e := Some(Exponent(s[0], sign, ds));
      SignSplit(t);
      assert s == [s[0]] + t;
      Assoc3([s[0]], sign, ds, SkipDigits(u));
    } else {
      e := None;
      assert [] + s == s;
    }
  }

  lemma WholeSound(s: seq<byte>) returns (w: seq<byte>)
    requires AfterWhole(s).Some?
    ensures s == w + AfterWhole(s).value
    ensures Digits(w) && w != [] && (w[0] == ZERO ==> |w| == 1)
  {
    if s[0] == ZERO {
      w := [ZERO];
      assert s == [ZERO] + s[1..];
    } else {
      w := DigitsSound(s);
    }
  }

  /** What the number loop accepts is a number of the grammar. */
  lemma NumberSound(s: seq<byte>) returns (n: Number)
    requires AfterNumber(s).Some?
    ensures IsNumber(n) && s == NumberText(n) + AfterNumber(s).value
  {
    var m := AfterMinus(s);
    var w := WholeSound(m);
    var t := AfterWhole(m).value;
    var f := FractionSound(t);
    var u := AfterFraction(t).value;
    var e := ExponentSound(u);
    n := Number(m != s, w, f, e);
    var sign := if m != s then [MINUS] else [];
    assert s == sign + m;
    Assoc4(sign, w, FractionText(f), ExponentText(e), AfterNumber(s).value);
  }

  lemma DigitRun(ds: seq<byte>, r: seq<byte>)
    requires Digits(ds) && ds != [] && (r == [] || !IsDigit(r[0]))
    ensures AfterDigits(ds + r) == Some(r)
  {
    DigitsComplete(ds, r);
    assert |ds + r| > |r|;
  }

  lemma ExponentComplete(e: Option<Exponent>, r: seq<byte>)
    requires Stops(r)
    requires e.Some? ==> e.value.mark in {0x65, 0x45} && e.value.sign in {[], [PLUS], [MINUS]}
    requires e.Some? ==> e.value.digits != [] && Digits(e.value.digits)
    ensures AfterExponent(ExponentText(e) + r) == Some(r)
  {
    if e.None? {
      assert [] + r == r;
    } else {
      var x := e.value;
      var t := x.sign + (x.digits + r);
      assert ExponentText(e) + r == [x.mark] + t;
      assert ([x.mark] + t)[1..] == t;
      assert AfterSign(t) == x.digits + r;
      DigitRun(x.digits, r);
    }
  }

  lemma FractionComplete(f: Option<seq<byte>>, r: seq<byte>)
    requires f.Some? ==> f.value != [] && Digits(f.value)
    requires r == [] || !(IsDigit(r[0]) || r[0] == POINT)
    ensures AfterFraction(FractionText(f) + r) == Some(r)
  {
    if f.None? {
      assert [] + r == r;
    } else {
      assert (FractionText(f) + r)[1..] == f.value + r;
      DigitRun(f.value, r);
    }
  }

  lemma WholeComplete(w: seq<byte>, r: seq<byte>)
    requires Digits(w) && w != [] && (w[0] == ZERO ==> |w| == 1) && (r == [] || !IsDigit(r[0]))
    ensures AfterWhole(w + r) == Some(r)
  {
    assert (w + r)[0] == w[0];
    if w[0] == ZERO {
      assert (w + r)[1..] == r;
    } else {
      DigitsComplete(w, r);
    }
  }

  /** Every number of the grammar is accepted whole when nothing behind it could continue it. */
  lemma NumberComplete(n: Number, r: seq<byte>)
    requires IsNumber(n) && Stops(r)
    ensures AfterNumber(NumberText(n) + r) == Some(r)
  {
    var e := ExponentText(n.exponent) + r;
    var f := FractionText(n.fraction) + e;
    var sign := if n.negative then [MINUS] else [];
    Assoc4(sign, n.whole, FractionText(n.fraction), ExponentText(n.exponent), r);
    assert NumberText(n) + r == sign + (n.whole + f);
    assert AfterMinus(sign + (n.whole + f)) == n.whole + f;
    WholeComplete(n.whole, f);
    FractionComplete(n.fraction, e);
    ExponentComplete(n.exponent, r);
  }

  // ----- strings

  lemma {:induction false} ScanExtend(t: seq<byte>, r: seq<byte>)
    requires Scan(t) == Some([])
    ensures Scan(t + r) == Some(r)
    decreases |t|
  {
    if t[0] == QUOTE {
      assert t == [QUOTE] && (t + r)[1..] == r;
    } else if t[0] == BACKSLASH {
      assert (t + r)[2..] == t[2..] + r;
      ScanExtend(t[2..], r);
    } else {
      assert (t + r)[1..] == t[1..] + r;
      ScanExtend(t[1..], r);
    }
  }

  lemma {:induction false} ScanSplit(t: seq<byte>) returns (p: seq<byte>)
    requires Scan(t).Some?
    ensures t == p + Scan(t).value && Scan(p) == Some([])
    decreases |t|
  {
    if t[0] == QUOTE {
      p := [QUOTE];
    } else if t[0] == BACKSLASH {
      var q := ScanSplit(t[2..]);
      p := t[..2] + q;
      assert p[2..] == q;
    } else {
      var q := ScanSplit(t[1..]);
      p := [t[0]] + q;
      assert p[1..] == q;
    }
  }

  /** `string_value`: the decoded string and what follows it. */
  function AfterString(dec: Decoder, s: seq<byte>): (r: Option<(seq<byte>, seq<byte>)>)
    ensures r.Some? ==> |r.value.1| < |s|
  {
    if s == [] || s[0] != QUOTE then None
    else
      match Scan(s[1..])
      case None => None
      case Some(rest) =>
        match dec(s[..|s| - |rest|])
        case None => None
        case Some(k) => Some((k, rest))
  }

  lemma StringSound(dec: Decoder, s: seq<byte>) returns (raw: seq<byte>)
    requires AfterString(dec, s).Some?
    ensures IsString(dec, raw) && s == raw + AfterString(dec, s).value.1
    ensures dec(raw) == Some(AfterString(dec, s).value.0)
  {
    var p := ScanSplit(s[1..]);
    raw := [QUOTE] + p;
    assert raw[1..] == p;
    assert s == raw + Scan(s[1..]).value;
    assert s[..|raw|] == raw;
  }

  lemma StringComplete(dec: Decoder, raw: seq<byte>, r: seq<byte>)
    requires IsString(dec, raw)
    ensures AfterString(dec, raw + r) == Some((dec(raw).value, r))
  {
    assert (raw + r)[1..] == raw[1..] + r;
    ScanExtend(raw[1..], r);
    assert (raw + r)[..|raw|] == raw;
  }

  // ----- values

  /** `literal` */
  function AfterWord(s: seq<byte>, w: seq<byte>): Option<seq<byte>> {
    if w <= s then Some(s[|w|..]) else None
  }

  /** The key of a member that is not yet among `keys`, and its colon; nothing for an element. */
  function AfterName(dec: Decoder, s: seq<byte>, keyed: bool, keys: set<seq<byte>>): (r: Option<(set<seq<byte>>, seq<byte>)>)
    ensures r.Some? ==> |r.value.1| <= |s|
  {
    if !keyed then Some((keys, s))
    else
      match AfterString(dec, s)
      case None => None
      case Some((k, t)) =>
        var u := SkipSpace(t);
        if k in keys || u == [] || u[0] != COLON then None else Some((keys + {k}, SkipSpace(u[1..])))
  }

  /** `value`: what follows the value in front, if there is one. */
  function AfterValue(dec: Decoder, s: seq<byte>, depth: nat): (r: Option<seq<byte>>)
    ensures r.Some? ==> |r.value| < |s|
    decreases |s|, 0
  {
    if depth > MAX_NESTING || s == [] then None
    else if s[0] == Opener(true) then AfterOpener(dec, s[1..], depth, true)
    else if s[0] == Opener(false) then AfterOpener(dec, s[1..], depth, false)
    else if s[0] == QUOTE then (match AfterString(dec, s) case None => None case Some(p) => Some(p.1))
    else if s[0] == 0x74 then AfterWord(s, TrueWord())
    else if s[0] == 0x66 then AfterWord(s, FalseWord())
    else if s[0] == 0x6E then AfterWord(s, NullWord())
    else AfterNumber(s)
  }

  /** `object` and `array`, behind the opening character. */
  function AfterOpener(dec: Decoder, s: seq<byte>, depth: nat, keyed: bool): (r: Option<seq<byte>>)
    ensures r.Some? ==> |r.value| < |s|
    decreases |s|, 2
  {
    var t := SkipSpace(s);
    if t != [] && t[0] == Closer(keyed) then Some(t[1..]) else AfterEntries(dec, t, depth, keyed, {})
  }

  /** Their loop, with the keys met so far. */
  function AfterEntries(dec: Decoder, s: seq<byte>, depth: nat, keyed: bool, keys: set<seq<byte>>): (r: Option<seq<byte>>)
    ensures r.Some? ==> |r.value| < |s|
    decreases |s|, 1
  {
    match AfterName(dec, s, keyed, keys)
    case None => None
    case Some((more, t)) =>
      match AfterValue(dec, t, depth + 1)
      case None => None
      case Some(u) =>
        match AfterDelimiter(u, keyed)
        case None => None
        case Some((closed, w)) => if closed then Some(w) else AfterEntries(dec, w, depth, keyed, more)
  }

  /** The delimiter behind a value: whether it closes the whole, and where the next entry begins if it does not. */
  function AfterDelimiter(s: seq<byte>, keyed: bool): (r: Option<(bool, seq<byte>)>)
    ensures r.Some? ==> |r.value.1| < |s|
  {
    var w := SkipSpace(s);
    if w == [] then None
    else if w[0] == Closer(keyed) then Some((true, w[1..]))
    else if w[0] != COMMA then None
    else Some((false, SkipSpace(w[1..])))
  }

  /** One turn of the loop. */
  lemma EntriesStep(dec: Decoder, s: seq<byte>, depth: nat, keyed: bool, keys: set<seq<byte>>, more: set<seq<byte>>,
                    t: seq<byte>, u: seq<byte>)
    requires AfterName(dec, s, keyed, keys) == Some((more, t)) && AfterValue(dec, t, depth + 1) == Some(u)
    ensures AfterEntries(dec, s, depth, keyed, keys)
         == match AfterDelimiter(u, keyed)
            case None => None
            case Some((closed, w)) => if closed then Some(w) else AfterEntries(dec, w, depth, keyed, more)
  {
  }

  /** `valid` */
  predicate Accepts(dec: Decoder, s: seq<byte>) {
    match AfterValue(dec, SkipSpace(s), 0)
    case None => false
    case Some(r) => SkipSpace(r) == []
  }

  // ----- soundness

  lemma NameSound(dec: Decoder, s: seq<byte>, keyed: bool, keys: set<seq<byte>>) returns (l: Option<Label>)
    requires AfterName(dec, s, keyed, keys).Some?
    ensures IsLabel(dec, l, keyed) && s == LabelText(l) + AfterName(dec, s, keyed, keys).value.1
    ensures l.Some? ==> KeyOf(dec, l.value) !in keys
    ensures AfterName(dec, s, keyed, keys).value.0 == keys + if l.Some? then {KeyOf(dec, l.value)} else {}
  {
    if !keyed {
      l := None;
      assert [] + s == s;
    } else {
      var raw := StringSound(dec, s);
      var t := AfterString(dec, s).value.1;
      var b := SpaceSound(t);
      var u := SkipSpace(t);
      var c := SpaceSound(u[1..]);
      l := Some(Label(raw, b, c));
      assert u == [COLON] + u[1..];
      Assoc4(raw, b, [COLON], c, SkipSpace(u[1..]));
    }
  }

  lemma SplitHead(s: seq<byte>)
    requires s != []
    ensures s == [s[0]] + s[1..]
  {
  }

  lemma KeysCons(k: seq<byte>, ks: seq<seq<byte>>)
    requires k !in ks && NoRepeats(ks)
    ensures NoRepeats([k] + ks)
  {
  }

  lemma LastText(l: Option<Label>, v: Json, after: seq<byte>, keyed: bool, r: seq<byte>)
    ensures LabelText(l) + (Text(v) + (after + ([Closer(keyed)] + r))) == EntriesText(Last(l, v, after), keyed) + r
  {
    Assoc4(LabelText(l), Text(v), after, [Closer(keyed)], r);
  }

  lemma MoreText(l: Option<Label>, v: Json, after: seq<byte>, before: seq<byte>, rest: Entries, keyed: bool, r: seq<byte>)
    ensures LabelText(l) + (Text(v) + (after + ([COMMA] + (before + (EntriesText(rest, keyed) + r)))))
         == EntriesText(More(l, v, after, before, rest), keyed) + r
  {
    Assoc3([COMMA], before, EntriesText(rest, keyed), r);
    Assoc4(LabelText(l), Text(v), after, [COMMA] + (before + EntriesText(rest, keyed)), r);
  }

  lemma FullText(keyed: bool, gap: seq<byte>, es: Entries, r: seq<byte>)
    ensures [Opener(keyed)] + (gap + (EntriesText(es, keyed) + r)) == Text(Full(keyed, gap, es)) + r
  {
    Assoc3([Opener(keyed)], gap, EntriesText(es, keyed), r);
  }

  lemma EmptyText(keyed: bool, gap: seq<byte>, r: seq<byte>)
    ensures [Opener(keyed)] + (gap + ([Closer(keyed)] + r)) == Text(Empty(keyed, gap)) + r
  {
    Assoc3([Opener(keyed)], gap, [Closer(keyed)], r);
  }

  /** What a value that was accepted at `depth` satisfies. */
  ghost predicate Good(dec: Decoder, v: Json, depth: nat) {
    Grammatical(dec, v) && UniqueKeys(dec, v) && depth + Height(v) <= MAX_NESTING
  }

  ghost predicate GoodEntries(dec: Decoder, e: Entries, depth: nat, keyed: bool, keys: set<seq<byte>>) {
    && GrammaticalEntries(dec, e, keyed) && UniqueEntries(dec, e)
    && depth + 1 + EntriesHeight(e) <= MAX_NESTING
    && NoRepeats(Keys(dec, e))
    && forall k :: k in Keys(dec, e) ==> k !in keys
  }

  /** One entry in front of good entries, whose keys avoid its own. */
  lemma GoodMore(dec: Decoder, e: Entries, depth: nat, keyed: bool, keys: set<seq<byte>>)
    requires e.More? && IsLabel(dec, e.name, keyed) && Good(dec, e.value, depth + 1)
    requires Spaces(e.after) && Spaces(e.before)
    requires e.name.Some? ==> KeyOf(dec, e.name.value) !in keys
    requires GoodEntries(dec, e.rest, depth, keyed, keys + if e.name.Some? then {KeyOf(dec, e.name.value)} else {})
    ensures GoodEntries(dec, e, depth, keyed, keys)
  {
    if e.name.Some? {
      KeysCons(KeyOf(dec, e.name.value), Keys(dec, e.rest));
    } else {
      assert [] + Keys(dec, e.rest) == Keys(dec, e.rest);
    }
  }

  lemma GoodLast(dec: Decoder, e: Entries, depth: nat, keyed: bool, keys: set<seq<byte>>)
    requires e.Last? && IsLabel(dec, e.name, keyed) && Good(dec, e.value, depth + 1) && Spaces(e.after)
    requires e.name.Some? ==> KeyOf(dec, e.name.value) !in keys
    ensures GoodEntries(dec, e, depth, keyed, keys)
  {
  }

  lemma WordSound(s: seq<byte>, w: seq<byte>)
    requires AfterWord(s, w).Some?
    ensures s == w + AfterWord(s, w).value
  {
  }

  lemma DelimiterSound(s: seq<byte>, keyed: bool) returns (after: seq<byte>, before: seq<byte>)
    requires AfterDelimiter(s, keyed).Some?
    ensures Spaces(after) && Spaces(before)
    ensures var (closed, w) := AfterDelimiter(s, keyed).value;
            s == after + if closed then [Closer(keyed)] + w else [COMMA] + (before + w)
  {
    after := SpaceSound(s);
    var w := SkipSpace(s);
    SplitHead(w);
    before := SpaceSound(w[1..]);
  }

  /** Whatever is accepted as a value is the text of one, not too deep and without repeated keys. */
  lemma {:induction false} ValueSound(dec: Decoder, s: seq<byte>, depth: nat) returns (v: Json)
    requires AfterValue(dec, s, depth).Some?
    ensures Good(dec, v, depth) && s == Text(v) + AfterValue(dec, s, depth).value
    decreases |s|, 0
  {
    if s[0] == Opener(true) {
      SplitHead(s);
      v := OpenerSound(dec, s[1..], depth, true);
    } else if s[0] == Opener(false) {
      SplitHead(s);
      v := OpenerSound(dec, s[1..], depth, false);
    } else if s[0] == QUOTE {
      var raw := StringSound(dec, s);
      v := Str(raw);
    } else if s[0] in {0x74, 0x66, 0x6E} {
      var w := if s[0] == 0x74 then TrueWord() else if s[0] == 0x66 then FalseWord() else NullWord();
      WordSound(s, w);
      v := Word(w);
    } else {
      var n := NumberSound(s);
      v := Num(n);
    }
  }

  lemma {:induction false} OpenerSound(dec: Decoder, s: seq<byte>, depth: nat, keyed: bool) returns (v: Json)
    requires depth <= MAX_NESTING && AfterOpener(dec, s, depth, keyed).Some?
    ensures Good(dec, v, depth) && [Opener(keyed)] + s == Text(v) + AfterOpener(dec, s, depth, keyed).value
    decreases |s|, 2
  {
    var r := AfterOpener(dec, s, depth, keyed).value;
    var gap := SpaceSound(s);
    var t := SkipSpace(s);
    if t != [] && t[0] == Closer(keyed) {
      v := Empty(keyed, gap);
      SplitHead(t);
      EmptyText(keyed, gap, r);
    } else {
      var es := EntriesSound(dec, t, depth, keyed, {});
      v := Full(keyed, gap, es);
      FullText(keyed, gap, es, r);
    }
  }

  lemma {:induction false} EntriesSound(dec: Decoder, s: seq<byte>, depth: nat, keyed: bool, keys: set<seq<byte>>)
    returns (e: Entries)
    requires AfterEntries(dec, s, depth, keyed, keys).Some?
    ensures GoodEntries(dec, e, depth, keyed, keys)
    ensures s == EntriesText(e, keyed) + AfterEntries(dec, s, depth, keyed, keys).value
    decreases |s|, 1
  {
    var r := AfterEntries(dec, s, depth, keyed, keys).value;
    var l := NameSound(dec, s, keyed, keys);
    var (more, t) := AfterName(dec, s, keyed, keys).value;
    var v := ValueSound(dec, t, depth + 1);
    var u := AfterValue(dec, t, depth + 1).value;
    EntriesStep(dec, s, depth, keyed, keys, more, t, u);
    var after, before := DelimiterSound(u, keyed);
    var (closed, w) := AfterDelimiter(u, keyed).value;
    if closed {
      e := Last(l, v, after);
      LastText(l, v, after, keyed, r);
      GoodLast(dec, e, depth, keyed, keys);
    } else {
      var rest := EntriesSound(dec, w, depth, keyed, more);
      e := More(l, v, after, before, rest);
      MoreText(l, v, after, before, rest, keyed, r);
      GoodMore(dec, e, depth, keyed, keys);
    }
  }

  // ----- completeness

  /** A byte that can begin a value: no space, no closer, nothing that could continue a number. */
  predicate Begins(b: byte) { !IsSpace(b) && b != Closer(true) && b != Closer(false) }

  lemma TextBegins(dec: Decoder, v: Json)
    requires Grammatical(dec, v)
    ensures Text(v) != [] && Begins(Text(v)[0])
  {
    match v {
      case Num(n) => NumberBegins(n);
      case Str(_) =>
      case Word(_) =>
      case Empty(_, _) =>
      case Full(_, _, _) =>
    }
  }

  lemma NumberBegins(n: Number)
    requires IsNumber(n)
    ensures NumberText(n) != [] && (NumberText(n)[0] == MINUS || IsDigit(NumberText(n)[0]))
  {
    if n.negative {
      assert NumberText(n)[0] == MINUS;
    } else {
      assert NumberText(n)[0] == n.whole[0];
    }
  }

  lemma EntriesBegin(dec: Decoder, e: Entries, keyed: bool)
    requires GrammaticalEntries(dec, e, keyed)
    ensures EntriesText(e, keyed) != [] && Begins(EntriesText(e, keyed)[0])
  {
    if keyed {
      assert EntriesText(e, keyed)[0] == e.name.value.key[0];
    } else {
      TextBegins(dec, e.value);
      assert EntriesText(e, keyed)[0] == Text(e.value)[0];
    }
  }

  lemma HeadOf(a: seq<byte>, r: seq<byte>)
    requires a != []
    ensures (a + r)[0] == a[0] && a + r != []
  {
  }

  lemma NameComplete(dec: Decoder, l: Option<Label>, keyed: bool, keys: set<seq<byte>>, r: seq<byte>)
    requires IsLabel(dec, l, keyed) && (l.Some? ==> KeyOf(dec, l.value) !in keys)
    requires r != [] && !IsSpace(r[0])
    ensures AfterName(dec, LabelText(l) + r, keyed, keys)
         == Some((keys + if l.Some? then {KeyOf(dec, l.value)} else {}, r))
  {
    if l.None? {
      assert [] + r == r && keys + {} == keys;
    } else {
      var x := l.value;
      var t := x.before + ([COLON] + (x.behind + r));
      Assoc4(x.key, x.before, [COLON], x.behind, r);
      Assoc3(x.key, x.before, [COLON] + x.behind, r);
      StringComplete(dec, x.key, t);
      SpaceComplete(x.before, [COLON] + (x.behind + r));
      assert ([COLON] + (x.behind + r))[1..] == x.behind + r;
      SpaceComplete(x.behind, r);
      assert LabelText(l) + r == x.key + t;
    }
  }

  /** The end of a run of whitespace after a value. */
  lemma AfterStops(after: seq<byte>, c: byte, r: seq<byte>)
    requires Spaces(after) && c in {COMMA, Closer(true), Closer(false)}
    ensures Stops(after + ([c] + r)) && SkipSpace(after + ([c] + r)) == [c] + r
  {
    SpaceComplete(after, [c] + r);
    if after != [] { assert (after + ([c] + r))[0] == after[0]; }
  }

  /** Every good value is accepted, and exactly its text is taken. */
  lemma {:induction false} ValueComplete(dec: Decoder, v: Json, depth: nat, r: seq<byte>)
    requires Good(dec, v, depth) && Stops(r)
    ensures AfterValue(dec, Text(v) + r, depth) == Some(r)
    decreases v, 0
  {
    TextBegins(dec, v);
    HeadOf(Text(v), r);
    match v {
      case Str(raw) => StringComplete(dec, raw, r);
      case Num(n) =>
        NumberBegins(n);
        NumberComplete(n, r);
      case Word(w) => assert w <= w + r && (w + r)[|w|..] == r;
      case Empty(keyed, gap) =>
        EmptyText(keyed, gap, r);
        SpaceComplete(gap, [Closer(keyed)] + r);
        AfterHead(Opener(keyed), gap + ([Closer(keyed)] + r));
        AfterHead(Closer(keyed), r);
      case Full(keyed, gap, es) => OpenerComplete(dec, v, depth, r);
    }
  }

  lemma AfterHead(c: byte, r: seq<byte>)
    ensures ([c] + r)[1..] == r && ([c] + r)[0] == c
  {
  }

  lemma {:induction false} OpenerComplete(dec: Decoder, v: Json, depth: nat, r: seq<byte>)
    requires v.Full? && Good(dec, v, depth)
    ensures AfterValue(dec, Text(v) + r, depth) == Some(r)
    decreases v.entries, 1
  {
    var t := EntriesText(v.entries, v.keyed) + r;
    FullText(v.keyed, v.gap, v.entries, r);
    AfterHead(Opener(v.keyed), v.gap + t);
    EntriesBegin(dec, v.entries, v.keyed);
    HeadOf(EntriesText(v.entries, v.keyed), r);
    SpaceComplete(v.gap, t);
    EntriesComplete(dec, v.entries, depth, v.keyed, {}, r);
  }

  /** The last entry and its closer. */
  lemma LastStep(dec: Decoder, s: seq<byte>, depth: nat, keyed: bool, keys: set<seq<byte>>, t: seq<byte>, u: seq<byte>,
                 r: seq<byte>, more: set<seq<byte>>)
    requires AfterName(dec, s, keyed, keys) == Some((more, t)) && AfterValue(dec, t, depth + 1) == Some(u)
    requires SkipSpace(u) == [Closer(keyed)] + r
    ensures AfterEntries(dec, s, depth, keyed, keys) == Some(r)
  {
    EntriesStep(dec, s, depth, keyed, keys, more, t, u);
    assert AfterDelimiter(u, keyed) == Some((true, r));
  }

  /** An entry and its comma. */
  lemma MoreStep(dec: Decoder, s: seq<byte>, depth: nat, keyed: bool, keys: set<seq<byte>>, t: seq<byte>, u: seq<byte>,
                 w: seq<byte>, more: set<seq<byte>>)
    requires AfterName(dec, s, keyed, keys) == Some((more, t)) && AfterValue(dec, t, depth + 1) == Some(u)
    requires SkipSpace(u) == [COMMA] + w
    ensures AfterEntries(dec, s, depth, keyed, keys) == AfterEntries(dec, SkipSpace(w), depth, keyed, more)
  {
    EntriesStep(dec, s, depth, keyed, keys, more, t, u);
    assert ([COMMA] + w)[1..] == w;
    assert AfterDelimiter(u, keyed) == Some((false, SkipSpace(w)));
  }

  lemma {:induction false} EntriesComplete(dec: Decoder, e: Entries, depth: nat, keyed: bool, keys: set<seq<byte>>,
                                           r: seq<byte>)
    requires GoodEntries(dec, e, depth, keyed, keys)
    ensures AfterEntries(dec, EntriesText(e, keyed) + r, depth, keyed, keys) == Some(r)
    decreases e, 0
  {
    hide AfterEntries, AfterValue, AfterName, Text, SkipSpace;
    var more := keys + if e.name.Some? then {KeyOf(dec, e.name.value)} else {};
    if e.name.Some? { assert Keys(dec, e)[0] == KeyOf(dec, e.name.value); }
    TextBegins(dec, e.value);
    if e.Last? {
      var u := e.after + ([Closer(keyed)] + r);
      LastText(e.name, e.value, e.after, keyed, r);
      AfterStops(e.after, Closer(keyed), r);
      HeadOf(Text(e.value), u);
      NameComplete(dec, e.name, keyed, keys, Text(e.value) + u);
      ValueComplete(dec, e.value, depth + 1, u);
      LastStep(dec, EntriesText(e, keyed) + r, depth, keyed, keys, Text(e.value) + u, u, r, more);
    } else {
      var tail := EntriesText(e.rest, keyed) + r;
      var u := e.after + ([COMMA] + (e.before + tail));
      MoreText(e.name, e.value, e.after, e.before, e.rest, keyed, r);
      AfterStops(e.after, COMMA, e.before + tail);
      HeadOf(Text(e.value), u);
      NameComplete(dec, e.name, keyed, keys, Text(e.value) + u);
      ValueComplete(dec, e.value, depth + 1, u);
      MoreStep(dec, EntriesText(e, keyed) + r, depth, keyed, keys, Text(e.value) + u, u, e.before + tail, more);
      RestGood(dec, e, depth, keyed, keys, more);
      EntriesBegin(dec, e.rest, keyed);
      HeadOf(EntriesText(e.rest, keyed), r);
      SpaceComplete(e.before, tail);
      EntriesComplete(dec, e.rest, depth, keyed, more, r);
    }
  }

  /** The entries behind the first avoid its key as well. */
  lemma RestGood(dec: Decoder, e: Entries, depth: nat, keyed: bool, keys: set<seq<byte>>, more: set<seq<byte>>)
    requires e.More? && GoodEntries(dec, e, depth, keyed, keys)
    requires more == keys + if e.name.Some? then {KeyOf(dec, e.name.value)} else {}
    ensures GoodEntries(dec, e.rest, depth, keyed, more)
  {
    if e.name.Some? {
      KeysTail(KeyOf(dec, e.name.value), Keys(dec, e.rest), keys);
    } else {
      assert [] + Keys(dec, e.rest) == Keys(dec, e.rest);
    }
  }

  lemma KeysTail(k: seq<byte>, ks: seq<seq<byte>>, keys: set<seq<byte>>)
    requires NoRepeats([k] + ks) && forall x :: x in [k] + ks ==> x !in keys
    ensures NoRepeats(ks) && forall x :: x in ks ==> x !in keys + {k}
  {
    var all := [k] + ks;
    forall i, j | 0 <= i < j < |ks|
      ensures ks[i] != ks[j]
    {
      assert all[i + 1] != all[j + 1];
    }
    forall x | x in ks
      ensures x !in keys + {k}
    {
      var i :| 0 <= i < |ks| && ks[i] == x;
      assert all[0] != all[i + 1] && all[i + 1] in all;
    }
  }

  // ----- the guard is exact

  /** Everything accepted is a JSON text within the depth bound whose objects repeat no decoded key. */
  lemma GuardSound(dec: Decoder, s: seq<byte>) returns (before: seq<byte>, v: Json, behind: seq<byte>)
    requires Accepts(dec, s)
    ensures IsGuardedText(dec, s, before, v, behind)
  {
    before := SpaceSound(s);
    v := ValueSound(dec, SkipSpace(s), 0);
    var r := AfterValue(dec, SkipSpace(s), 0).value;
    behind := SpaceSound(r);
    assert behind + [] == behind;
  }

  /** And every such text is accepted. */
  lemma GuardComplete(dec: Decoder, s: seq<byte>, before: seq<byte>, v: Json, behind: seq<byte>)
    requires IsGuardedText(dec, s, before, v, behind)
    ensures Accepts(dec, s)
  {
    TextBegins(dec, v);
    HeadOf(Text(v), behind);
    SpaceComplete(before, Text(v) + behind);
    ValueComplete(dec, v, 0, behind);
    assert behind + [] == behind;
    SpaceComplete(behind, []);
  }

  /** The guard accepts exactly the guarded texts. */
  lemma GuardExact(dec: Decoder, s: seq<byte>)
    ensures Accepts(dec, s) <==> exists before, v, behind :: IsGuardedText(dec, s, before, v, behind)
  {
    if Accepts(dec, s) {
      var before, v, behind := GuardSound(dec, s);
    }
    if exists before, v, behind :: IsGuardedText(dec, s, before, v, behind) {
      var before, v, behind :| IsGuardedText(dec, s, before, v, behind);
      GuardComplete(dec, s, before, v, behind);
    }
  }
}
