/** JSON texts: the grammar of sections 2 to 7 of RFC 8259, nesting height, and uniqueness of decoded keys. */
module JsonText {
  import opened Bytes
  import opened Hex

  /** Decodes a quoted string; the decoder is a foreign library, and may refuse. */
  type Decoder = seq<byte> -> Option<seq<byte>>

  const QUOTE: byte := 0x22
  const BACKSLASH: byte := 0x5C
  const COMMA: byte := 0x2C
  const COLON: byte := 0x3A
  const MINUS: byte := 0x2D
  const PLUS: byte := 0x2B
  const POINT: byte := 0x2E
  const ZERO: byte := 0x30

  // ----- section 2: whitespace and structural characters

  predicate IsSpace(b: byte) { b == 0x20 || b == 0x09 || b == 0x0A || b == 0x0D }

  predicate Spaces(w: seq<byte>) { forall i :: 0 <= i < |w| ==> IsSpace(w[i]) }

  function Opener(keyed: bool): byte { if keyed then 0x7B else 0x5B }

  function Closer(keyed: bool): byte { if keyed then 0x7D else 0x5D }

  // ----- section 6: numbers

  predicate Digits(ds: seq<byte>) { forall i :: 0 <= i < |ds| ==> IsDigit(ds[i]) }

  datatype Exponent = Exponent(mark: byte, sign: seq<byte>, digits: seq<byte>)

  datatype Number = Number(negative: bool, whole: seq<byte>, fraction: Option<seq<byte>>, exponent: Option<Exponent>)

  predicate IsNumber(n: Number) {
    && Digits(n.whole) && n.whole != [] && (n.whole[0] == ZERO ==> |n.whole| == 1)
    && (n.fraction.Some? ==> n.fraction.value != [] && Digits(n.fraction.value))
    && (n.exponent.Some? ==>
          && n.exponent.value.mark in {0x65, 0x45}
          && n.exponent.value.sign in {[], [PLUS], [MINUS]}
          && n.exponent.value.digits != [] && Digits(n.exponent.value.digits))
  }

  function FractionText(f: Option<seq<byte>>): seq<byte> { if f.None? then [] else [POINT] + f.value }

  function ExponentText(e: Option<Exponent>): seq<byte> {
    if e.None? then [] else [e.value.mark] + (e.value.sign + e.value.digits)
  }

  function NumberText(n: Number): seq<byte> {
    (if n.negative then [MINUS] else []) + (n.whole + (FractionText(n.fraction) + ExponentText(n.exponent)))
  }

  // ----- section 7: strings

  /** The end of a quoted string whose opening quote has been read: what follows its closing quote. */
  function Scan(t: seq<byte>): (r: Option<seq<byte>>)
    ensures r.Some? ==> |r.value| < |t|
    decreases |t|
  {
    if t == [] then None
    else if t[0] == QUOTE then Some(t[1..])
    else if t[0] < 0x20 then None
    else if t[0] == BACKSLASH then (if |t| < 2 then None else Scan(t[2..]))
    else Scan(t[1..])
  }

  /** A quote, a body without unescaped quotes or control characters, and the closing quote. */
  predicate Delimited(raw: seq<byte>) { raw != [] && raw[0] == QUOTE && Scan(raw[1..]) == Some([]) }

  /** A string token: delimited, and accepted by the decoder. */
  predicate IsString(dec: Decoder, raw: seq<byte>) { Delimited(raw) && dec(raw).Some? }

  /** The body of a string as section 7 has it. */
  predicate RfcBody(t: seq<byte>)
    decreases |t|
  {
    if t == [] then true
    else if t[0] == BACKSLASH then
      |t| >= 2 && (if t[1] == 0x75 then |t| >= 6 && HexDigits(t[2..6]) && RfcBody(t[6..])
                   else t[1] in {QUOTE, BACKSLASH, 0x2F, 0x62, 0x66, 0x6E, 0x72, 0x74} && RfcBody(t[2..]))
    else t[0] >= 0x20 && t[0] != QUOTE && RfcBody(t[1..])
  }

  predicate HexDigits(t: seq<byte>) {
    forall i :: 0 <= i < |t| ==> IsLowerHex(t[i]) || 0x41 <= t[i] <= 0x46
  }

  /** Plain characters are passed over one by one. */
  lemma {:induction false} ScanPlain(p: seq<byte>, t: seq<byte>)
    requires forall i :: 0 <= i < |p| ==> p[i] >= 0x20 && p[i] != QUOTE && p[i] != BACKSLASH
    ensures Scan(p + t) == Scan(t)
  {
    if p == [] {
      assert p + t == t;
    } else {
      assert (p + t)[1..] == p[1..] + t;
      ScanPlain(p[1..], t);
    }
  }

  /** Every string of section 7 is delimited, so that only the decoder decides. */
  lemma {:induction false} RfcIsDelimited(t: seq<byte>)
    requires RfcBody(t)
    ensures Delimited([QUOTE] + t + [QUOTE])
    decreases |t|
  {
    assert ([QUOTE] + t + [QUOTE])[1..] == t + [QUOTE];
    BodyScans(t);
  }

  lemma {:induction false} BodyScans(t: seq<byte>)
    requires RfcBody(t)
    ensures Scan(t + [QUOTE]) == Some([])
    decreases |t|
  {
    if t == [] {
      assert t + [QUOTE] == [QUOTE];
    } else if t[0] == BACKSLASH {
      assert (t + [QUOTE])[2..] == t[2..] + [QUOTE];
      if t[1] == 0x75 {
        ScanPlain(t[2..6], t[6..] + [QUOTE]);
        assert t[2..] + [QUOTE] == t[2..6] + (t[6..] + [QUOTE]);
        BodyScans(t[6..]);
      } else {
        BodyScans(t[2..]);
      }
    } else {
      assert (t + [QUOTE])[1..] == t[1..] + [QUOTE];
      BodyScans(t[1..]);
    }
  }

  // ----- sections 3 to 5: values, objects and arrays, with their whitespace

  datatype Json =
    | Str(raw: seq<byte>)
    | Num(number: Number)
    | Word(text: seq<byte>)
    | Empty(keyed: bool, gap: seq<byte>)
    | Full(keyed: bool, gap: seq<byte>, entries: Entries)

  /** A member or an element, the whitespace behind its value, and whether another follows. */
  datatype Entries =
    | Last(name: Option<Label>, value: Json, after: seq<byte>)
    | More(name: Option<Label>, value: Json, after: seq<byte>, before: seq<byte>, rest: Entries)

  datatype Label = Label(key: seq<byte>, before: seq<byte>, behind: seq<byte>)

  function Words(): set<seq<byte>> { {TrueWord(), FalseWord(), NullWord()} }

  function TrueWord(): seq<byte> { [0x74, 0x72, 0x75, 0x65] }

  function FalseWord(): seq<byte> { [0x66, 0x61, 0x6C, 0x73, 0x65] }

  function NullWord(): seq<byte> { [0x6E, 0x75, 0x6C, 0x6C] }

  function LabelText(l: Option<Label>): seq<byte> {
    if l.None? then [] else l.value.key + (l.value.before + ([COLON] + l.value.behind))
  }

  function Text(v: Json): seq<byte>
    decreases v, 0
  {
    match v
    case Str(raw) => raw
    case Num(n) => NumberText(n)
    case Word(w) => w
    case Empty(keyed, gap) => [Opener(keyed)] + (gap + [Closer(keyed)])
    case Full(keyed, gap, es) => [Opener(keyed)] + (gap + EntriesText(es, keyed))
  }

  function EntriesText(e: Entries, keyed: bool): seq<byte>
    decreases e, 0
  {
    LabelText(e.name) + (Text(e.value) + (e.after
      + if e.Last? then [Closer(keyed)] else [COMMA] + (e.before + EntriesText(e.rest, keyed))))
  }

  predicate IsLabel(dec: Decoder, l: Option<Label>, keyed: bool) {
    && l.Some? == keyed
    && (l.Some? ==> IsString(dec, l.value.key) && Spaces(l.value.before) && Spaces(l.value.behind))
  }

  /** The value is made by the productions of the grammar. */
  predicate Grammatical(dec: Decoder, v: Json)
    decreases v, 0
  {
    match v
    case Str(raw) => IsString(dec, raw)
    case Num(n) => IsNumber(n)
    case Word(w) => w in Words()
    case Empty(_, gap) => Spaces(gap)
    case Full(keyed, gap, es) => Spaces(gap) && GrammaticalEntries(dec, es, keyed)
  }

  predicate GrammaticalEntries(dec: Decoder, e: Entries, keyed: bool)
    decreases e, 0
  {
    && IsLabel(dec, e.name, keyed)
    && Grammatical(dec, e.value)
    && Spaces(e.after)
    && (e.More? ==> Spaces(e.before) && GrammaticalEntries(dec, e.rest, keyed))
  }

  /** How far below the value its deepest value stands. */
  function Height(v: Json): nat
    decreases v, 0
  {
    if v.Full? then 1 + EntriesHeight(v.entries) else 0
  }

  function EntriesHeight(e: Entries): nat
    decreases e, 0
  {
    if e.Last? || EntriesHeight(e.rest) <= Height(e.value) then Height(e.value) else EntriesHeight(e.rest)
  }

  function KeyOf(dec: Decoder, l: Label): seq<byte> {
    match dec(l.key)
    case Some(k) => k
    case None => []
  }

  /** The decoded keys of an object, in order. */
  function Keys(dec: Decoder, e: Entries): seq<seq<byte>>
    decreases e
  {
    (if e.name.Some? then [KeyOf(dec, e.name.value)] else []) + if e.Last? then [] else Keys(dec, e.rest)
  }

  predicate NoRepeats(ks: seq<seq<byte>>) {
    forall i, j :: 0 <= i < j < |ks| ==> ks[i] != ks[j]
  }

  /** No object at any depth repeats a decoded key. */
  predicate UniqueKeys(dec: Decoder, v: Json)
    decreases v, 0
  {
    v.Full? ==> NoRepeats(Keys(dec, v.entries)) && UniqueEntries(dec, v.entries)
  }

  predicate UniqueEntries(dec: Decoder, e: Entries)
    decreases e, 0
  {
    UniqueKeys(dec, e.value) && (e.More? ==> UniqueEntries(dec, e.rest))
  }

  const MAX_NESTING := 32

  /** The text `s` is the value `v` with whitespace around it, deep at most 32 and free of repeated keys. */
  ghost predicate IsGuardedText(dec: Decoder, s: seq<byte>, before: seq<byte>, v: Json, behind: seq<byte>) {
    && s == before + (Text(v) + behind)
    && Spaces(before) && Spaces(behind)
    && Grammatical(dec, v) && UniqueKeys(dec, v) && Height(v) <= MAX_NESTING
  }
}
