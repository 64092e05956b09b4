/** The canonical JSON form of a refinement outcome (refinement_protocol.cpp) and why it commits to the metrics. */
module Outcome {
  import opened Bytes

  type i64 = x: int | -0x8000_0000_0000_0000 <= x < 0x8000_0000_0000_0000

  const MAX_METRICS := 256
  const MAX_METRIC_NAME_BYTES := 64
  const MAX_FIXTURE_BYTES := 256 * 1024

  function OutcomeSchema(): seq<byte> { Ascii("sage.refinement-eval-outcome-v1") }

  function OutcomeEncoding(): seq<byte> { Ascii("canonical-json-utf8") }

  datatype Metric = Metric(name: seq<byte>, value: i64)

  /** The ordered metric map, listed in the order in which it is iterated. */
  datatype RefinementOutcome = RefinementOutcome(schema: seq<byte>, encoding: seq<byte>, metrics: seq<Metric>)

  predicate IsMetricByte(b: byte) {
    || 'a' as int <= b <= 'z' as int
    || '0' as int <= b <= '9' as int
    || b in [ '_' as int, '-' as int, '.' as int ]
  }

  predicate ValidMetricName(n: seq<byte>) {
    && 0 < |n| <= MAX_METRIC_NAME_BYTES
    && 'a' as int <= n[0] <= 'z' as int
    && forall i :: 0 <= i < |n| ==> IsMetricByte(n[i])
  }

  predicate ValidOutcome(o: RefinementOutcome) {
    && o.schema == OutcomeSchema()
    && o.encoding == OutcomeEncoding()
    && 0 < |o.metrics| <= MAX_METRICS
    && forall i :: 0 <= i < |o.metrics| ==> ValidMetricName(o.metrics[i].name)
  }

  // ----- decimal integers

  function Digits(n: nat): (r: seq<byte>)
    ensures r != []
    ensures forall i :: 0 <= i < |r| ==> '0' as int <= r[i] <= '9' as int
  {
    if n < 10 then [ '0' as int + n ] else Digits(n / 10) + [ '0' as int + n % 10 ]
  }

  /** `std::to_chars`: a minus sign for negative values, then the digits. */
  function Decimal(v: int): (r: seq<byte>)
    ensures r != []
    ensures forall i :: 0 <= i < |r| ==> IsDecimalByte(r[i])
  {
    if v < 0 then [ '-' as int ] + Digits(-v) else Digits(v)
  }

  predicate IsDecimalByte(b: byte) { '0' as int <= b <= '9' as int || b == '-' as int }

  /** The number that decimal digits denote. */
  function FromDigits(s: seq<byte>): int {
    if s == [] then 0 else 10 * FromDigits(s[..|s| - 1]) + (s[|s| - 1] - '0' as int)
  }

  /** The number that a decimal text denotes. */
  function FromDecimal(s: seq<byte>): int {
    if s != [] && s[0] == '-' as int then -FromDigits(s[1..]) else FromDigits(s)
  }

  /** Digits denote their number, and only zero begins with a zero. */
  lemma {:induction false} DigitsDenote(n: nat)
    ensures FromDigits(Digits(n)) == n
    ensures Digits(n)[0] == '0' as int ==> n == 0
    ensures Digits(0) == [ '0' as int ]
  {
    if n < 10 {
      assert Digits(n)[..0] == [] && FromDigits([]) == 0;
    } else {
      DigitsDenote(n / 10);
      assert Digits(n)[..|Digits(n)| - 1] == Digits(n / 10);
    }
  }

  /** What is printed denotes the value, without leading zeros. */
  lemma DecimalDenotes(v: int)
    ensures FromDecimal(Decimal(v)) == v
    ensures v != 0 ==> Decimal(v)[if v < 0 then 1 else 0] != '0' as int
  {
    DigitsDenote(if v < 0 then -v else v);
    if v < 0 { assert Decimal(v)[1..] == Digits(-v); }
  }

  lemma {:induction false} DigitsInjective(m: nat, n: nat)
    requires Digits(m) == Digits(n)
    ensures m == n
  {
    var a, b := Digits(m), Digits(n);
    assert a[|a| - 1] == b[|b| - 1];
    if m >= 10 && n >= 10 {
      assert a[..|a| - 1] == Digits(m / 10) && b[..|b| - 1] == Digits(n / 10);
      DigitsInjective(m / 10, n / 10);
    }
  }

  lemma DecimalInjective(v: int, w: int)
    requires Decimal(v) == Decimal(w)
    ensures v == w
  {
    assert Decimal(v)[0] == Decimal(w)[0];
    if v < 0 && w < 0 {
      assert Digits(-v) == Decimal(v)[1..] && Digits(-w) == Decimal(w)[1..];
      DigitsInjective(-v, -w);
    } else if v >= 0 && w >= 0 {
      DigitsInjective(v, w);
    }
  }

  /** A number ends where the first byte that no number contains begins. */
  lemma DecimalCancel(v: int, s: seq<byte>, w: int, t: seq<byte>)
    requires s != [] && t != [] && !IsDecimalByte(s[0]) && !IsDecimalByte(t[0])
    requires Decimal(v) + s == Decimal(w) + t
    ensures v == w && s == t
  {
    var a, b := Decimal(v), Decimal(w);
    assert (a + s)[|a|] == s[0] && (b + t)[|b|] == t[0];
    assert |a| == |b|;
    Cancel(a, s, b, t);
    DecimalInjective(v, w);
  }

  // ----- canonical bytes

  const QUOTE: byte := '"' as int

  function Opening(): seq<byte> { Ascii("{\"schema\":\"") }

  function Middle(): seq<byte> { Ascii("\",\"encoding\":\"") }

  function Closing(): seq<byte> { Ascii("\",\"metrics\":{") }

  /** What is written first; it repeats the schema and the encoding. */
  function Preamble(): seq<byte> {
    Opening() + (OutcomeSchema() + (Middle() + (OutcomeEncoding() + Closing())))
  }

  /** What is still to be written when the metrics `ms` remain. */
  function Remaining(ms: seq<Metric>, first: bool): seq<byte> {
    if ms == [] then [ '}' as int, '}' as int ]
    else
      (if first then [] else [ ',' as int ]) + ([QUOTE] + (ms[0].name + [QUOTE] + ([ ':' as int ]
        + (Decimal(ms[0].value) + Remaining(ms[1..], false)))))
  }

  function CanonicalBytes(o: RefinementOutcome): Option<seq<byte>> {
    if !ValidOutcome(o) then None
    else
      var b := Preamble() + Remaining(o.metrics, true);
      if |b| > MAX_FIXTURE_BYTES then None else Some(b)
  }

  function Piece(m: Metric, first: bool): seq<byte> {
    (if first then [] else [ ',' as int ]) + [QUOTE] + m.name + [QUOTE] + [ ':' as int ] + Decimal(m.value)
  }

  lemma PieceSplit(m: Metric, rest: seq<byte>, first: bool)
    ensures Piece(m, first) + rest
         == (if first then [] else [ ',' as int ]) + ([QUOTE] + (m.name + [QUOTE] + ([ ':' as int ]
              + (Decimal(m.value) + rest))))
  {
  }

  /** The printing loop of `canonical_refinement_outcome_bytes`. */
  method PrintOutcome(o: RefinementOutcome) returns (r: Option<seq<byte>>)
    ensures r == CanonicalBytes(o)
  {
    if !ValidOutcome(o) { return None; }
    var canonical := Preamble();
    var first := true;
    for i := 0 to |o.metrics|
      invariant first == (i == 0)
      invariant canonical + Remaining(o.metrics[i..], first) == Preamble() + Remaining(o.metrics, true)
    {
      var m := o.metrics[i];
      ghost var rest := Remaining(o.metrics[i + 1..], false);
      assert o.metrics[i..][1..] == o.metrics[i + 1..];
      var piece := Piece(m, first);
      PieceSplit(m, rest, first);
      Associate(canonical, piece, rest);
      canonical := canonical + piece;
      first := false;
    }
    canonical := canonical + [ '}' as int, '}' as int ];
    r := if |canonical| > MAX_FIXTURE_BYTES then None else Some(canonical);
  }

  lemma RemainingStart(ms: seq<Metric>)
    ensures Remaining(ms, false) != [] && !IsDecimalByte(Remaining(ms, false)[0])
  {
  }

  lemma EntryCancel(m: Metric, s: seq<byte>, n: Metric, t: seq<byte>)
    requires ValidMetricName(m.name) && ValidMetricName(n.name)
    requires s != [] && t != [] && !IsDecimalByte(s[0]) && !IsDecimalByte(t[0])
    requires m.name + [QUOTE] + ([ ':' as int ] + (Decimal(m.value) + s))
          == n.name + [QUOTE] + ([ ':' as int ] + (Decimal(n.value) + t))
    ensures m == n && s == t
  {
    CancelUntil(m.name, [ ':' as int ] + (Decimal(m.value) + s), n.name, [ ':' as int ] + (Decimal(n.value) + t), QUOTE);
    Cancel([ ':' as int ], Decimal(m.value) + s, [ ':' as int ], Decimal(n.value) + t);
    DecimalCancel(m.value, s, n.value, t);
  }

  lemma {:induction false} RemainingInjective(ms: seq<Metric>, ns: seq<Metric>, first: bool)
    requires forall i :: 0 <= i < |ms| ==> ValidMetricName(ms[i].name)
    requires forall i :: 0 <= i < |ns| ==> ValidMetricName(ns[i].name)
    requires Remaining(ms, first) == Remaining(ns, first)
    ensures ms == ns
  {
    assert Remaining(ms, first)[0] == Remaining(ns, first)[0];
    if ms != [] && ns != [] {
      var s, t := Remaining(ms[1..], false), Remaining(ns[1..], false);
      var a := ms[0].name + [QUOTE] + ([ ':' as int ] + (Decimal(ms[0].value) + s));
      var b := ns[0].name + [QUOTE] + ([ ':' as int ] + (Decimal(ns[0].value) + t));
      var sep := if first then [] else [ ',' as int ];
      Cancel(sep, [QUOTE] + a, sep, [QUOTE] + b);
      Cancel([QUOTE], a, [QUOTE], b);
      RemainingStart(ms[1..]);
      RemainingStart(ns[1..]);
      EntryCancel(ms[0], s, ns[0], t);
      RemainingInjective(ms[1..], ns[1..], false);
      assert ms == [ms[0]] + ms[1..] && ns == [ns[0]] + ns[1..];
    }
  }

  /** Two outcomes with the same canonical bytes are the same outcome. */
  lemma CanonicalInjective(o: RefinementOutcome, p: RefinementOutcome)
    requires CanonicalBytes(o).Some? && CanonicalBytes(o) == CanonicalBytes(p)
    ensures o == p
  {
    Cancel(Preamble(), Remaining(o.metrics, true), Preamble(), Remaining(p.metrics, true));
    RemainingInjective(o.metrics, p.metrics, true);
  }

  // ----- sizes

  function Pow10(k: nat): nat { if k == 0 then 1 else 10 * Pow10(k - 1) }

  lemma {:induction false} DigitsSize(n: nat, k: nat)
    requires k > 0 && n < Pow10(k)
    ensures |Digits(n)| <= k
  {
    if n >= 10 { DigitsSize(n / 10, k - 1); }
  }

  lemma Pow10Of19()
    ensures Pow10(19) == 10_000_000_000_000_000_000
  {
    assert Pow10(3) == 1_000;
    assert Pow10(6) == 1_000_000;
    assert Pow10(9) == 1_000_000_000;
    assert Pow10(12) == 1_000_000_000_000;
    assert Pow10(15) == 1_000_000_000_000_000;
    assert Pow10(17) == 100_000_000_000_000_000;
  }

  lemma DecimalSize(v: i64)
    ensures |Decimal(v)| <= 20
  {
    Pow10Of19();
    var n: int := v;
    DigitsSize(if n < 0 then -n else n, 19);
  }

  lemma {:induction false} RemainingSize(ms: seq<Metric>, first: bool)
    requires forall i :: 0 <= i < |ms| ==> ValidMetricName(ms[i].name)
    ensures |Remaining(ms, first)| <= 88 * |ms| + 2
  {
    if ms != [] {
      RemainingSize(ms[1..], false);
      DecimalSize(ms[0].value);
    }
  }

  /** Every valid outcome has canonical bytes, and some. */
  lemma CanonicalExists(o: RefinementOutcome)
    requires ValidOutcome(o)
    ensures CanonicalBytes(o).Some? && CanonicalBytes(o).value != []
  {
    RemainingSize(o.metrics, true);
  }
}
