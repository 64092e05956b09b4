/** The canonical outcome bytes are a JSON text: the object that names the schema, the encoding and the metrics. */
module OutcomeJson {
  import opened Bytes
  import Outcome
  import J = JsonText
  import G = JsonGuard

  function Quoted(s: seq<byte>): seq<byte> { [J.QUOTE] + (s + [J.QUOTE]) }

  function Named(s: seq<byte>): Option<J.Label> { Some(J.Label(Quoted(s), [], [])) }

  function NumberOf(v: int): J.Number { J.Number(v < 0, Outcome.Digits(if v < 0 then -v else v), None, None) }

  function MetricEntries(ms: seq<Outcome.Metric>): J.Entries
    requires ms != []
  {
    if |ms| == 1 then J.Last(Named(ms[0].name), J.Num(NumberOf(ms[0].value)), [])
    else J.More(Named(ms[0].name), J.Num(NumberOf(ms[0].value)), [], [], MetricEntries(ms[1..]))
  }

  /** The value an outcome stands for. */
  function ValueOf(o: Outcome.RefinementOutcome): J.Json
    requires o.metrics != []
  {
    J.Full(true, [],
      J.More(Named(Ascii("schema")), J.Str(Quoted(o.schema)), [], [],
        J.More(Named(Ascii("encoding")), J.Str(Quoted(o.encoding)), [], [],
          J.Last(Named(Ascii("metrics")), J.Full(true, [], MetricEntries(o.metrics)), []))))
  }

  // ----- the text

  lemma NumberText(v: int)
    ensures J.NumberText(NumberOf(v)) == Outcome.Decimal(v)
  {
  }

  lemma LabelText(s: seq<byte>)
    ensures J.LabelText(Named(s)) == [J.QUOTE] + (s + [J.QUOTE] + [J.COLON])
  {
  }

  lemma Regroup(q: seq<byte>, n: seq<byte>, c: seq<byte>, d: seq<byte>, t: seq<byte>, z: seq<byte>)
    ensures q + (n + q + c) + (d + t) + z == q + (n + q + (c + (d + (t + z))))
  {
  }

  lemma Behind(t: seq<byte>, z: seq<byte>)
    ensures [] + ([J.COMMA] + ([] + t)) + z == [J.COMMA] + (t + z)
  {
  }

  lemma CommaFirst(ms: seq<Outcome.Metric>)
    requires ms != []
    ensures Outcome.Remaining(ms, false) == [J.COMMA] + Outcome.Remaining(ms, true)
    ensures var m := ms[0];
            Outcome.Remaining(ms, true)
              == [J.QUOTE] + (m.name + [J.QUOTE] + ([J.COLON] + (Outcome.Decimal(m.value) + Outcome.Remaining(ms[1..], false))))
  {
    hide Outcome.Decimal;
    var rest := Outcome.Remaining(ms, true);
    assert [] + rest == rest;
  }

  lemma EntriesUnfold(ms: seq<Outcome.Metric>)
    requires ms != []
    ensures J.EntriesText(MetricEntries(ms), true)
         == J.LabelText(Named(ms[0].name)) + (J.NumberText(NumberOf(ms[0].value)) + ([] +
              if |ms| == 1 then [0x7D] else [J.COMMA] + ([] + J.EntriesText(MetricEntries(ms[1..]), true))))
  {
    hide J.LabelText, J.NumberText, NumberOf, Named;
  }

  lemma {:induction false} EntriesText(ms: seq<Outcome.Metric>)
    requires ms != []
    ensures J.EntriesText(MetricEntries(ms), true) + [0x7D] == Outcome.Remaining(ms, true)
  {
    hide *;
    var m := ms[0];
    NumberText(m.value);
    LabelText(m.name);
    CommaFirst(ms);
    EntriesUnfold(ms);
    var d := Outcome.Decimal(m.value);
    if |ms| == 1 {
      Ending(ms[1..]);
      Regroup([J.QUOTE], m.name, [J.COLON], d, [] + [0x7D], [0x7D]);
    } else {
      var e := J.EntriesText(MetricEntries(ms[1..]), true);
      EntriesText(ms[1..]);
      CommaFirst(ms[1..]);
      Behind(e, [0x7D]);
      Regroup([J.QUOTE], m.name, [J.COLON], d, [] + ([J.COMMA] + ([] + e)), [0x7D]);
    }
  }

  lemma Ending(ms: seq<Outcome.Metric>)
    requires ms == []
    ensures Outcome.Remaining(ms, false) == [] + [0x7D] + [0x7D]
  {
  }

  // ----- the preamble

  lemma OpeningIs()
    ensures Outcome.Opening() == [0x7B] + ([J.QUOTE] + (Ascii("schema") + [J.QUOTE] + [J.COLON])) + [J.QUOTE]
  {
  }

  lemma MiddleIs()
    ensures Outcome.Middle() == [J.QUOTE, J.COMMA] + ([J.QUOTE] + (Ascii("encoding") + [J.QUOTE] + [J.COLON])) + [J.QUOTE]
  {
  }

  lemma ClosingIs()
    ensures Outcome.Closing() == [J.QUOTE, J.COMMA] + ([J.QUOTE] + (Ascii("metrics") + [J.QUOTE] + [J.COLON])) + [0x7B]
  {
  }

  /** One text, grouped as the grammar has it and as the printer writes it. */
  lemma Flat(l: seq<byte>, s: seq<byte>, m: seq<byte>, n: seq<byte>, k: seq<byte>, e: seq<byte>)
    ensures var q, c, o, z := [J.QUOTE], [J.COMMA], [0x7B], [0x7D];
            o + ([] + (l + (q + (s + q) + ([] + (c + ([] + (m + (q + (n + q) + ([] + (c + ([] +
              (k + ((o + ([] + e)) + ([] + z))))))))))))))
              == o + l + q + (s + (([J.QUOTE, J.COMMA] + m + q) + (n + ([J.QUOTE, J.COMMA] + k + o)))) + (e + z)
  {
  }

  lemma MemberText(name: Option<J.Label>, v: J.Json, rest: J.Entries)
    ensures J.EntriesText(J.More(name, v, [], [], rest), true)
         == J.LabelText(name) + (J.Text(v) + ([] + ([J.COMMA] + ([] + J.EntriesText(rest, true)))))
    ensures J.EntriesText(J.Last(name, v, []), true) == J.LabelText(name) + (J.Text(v) + ([] + [0x7D]))
  {
  }

  lemma ObjectText(es: J.Entries, raw: seq<byte>)
    ensures J.Text(J.Full(true, [], es)) == [0x7B] + ([] + J.EntriesText(es, true))
    ensures J.Text(J.Str(raw)) == raw
  {
  }

  lemma Unfold(o: Outcome.RefinementOutcome)
    requires o.metrics != []
    ensures J.Text(ValueOf(o))
         == [0x7B] + ([] + (J.LabelText(Named(Ascii("schema"))) + (Quoted(o.schema) + ([] + ([J.COMMA] + ([] +
              (J.LabelText(Named(Ascii("encoding"))) + (Quoted(o.encoding) + ([] + ([J.COMMA] + ([] +
              (J.LabelText(Named(Ascii("metrics"))) + (([0x7B] + ([] + J.EntriesText(MetricEntries(o.metrics), true)))
              + ([] + [0x7D]))))))))))))))
  {
    hide J.LabelText, J.Text, J.EntriesText, MetricEntries, Ascii, Quoted, Named;
    var metrics := J.Full(true, [], MetricEntries(o.metrics));
    var last := J.Last(Named(Ascii("metrics")), metrics, []);
    var middle := J.More(Named(Ascii("encoding")), J.Str(Quoted(o.encoding)), [], [], last);
    var top := J.More(Named(Ascii("schema")), J.Str(Quoted(o.schema)), [], [], middle);
    ObjectText(MetricEntries(o.metrics), Quoted(o.encoding));
    ObjectText(top, Quoted(o.schema));
    MemberText(Named(Ascii("metrics")), metrics, last);
    MemberText(Named(Ascii("encoding")), J.Str(Quoted(o.encoding)), last);
    MemberText(Named(Ascii("schema")), J.Str(Quoted(o.schema)), middle);
  }

  /** The canonical bytes of an outcome are the text of the object it stands for. */
  lemma CanonicalText(o: Outcome.RefinementOutcome)
    requires Outcome.CanonicalBytes(o).Some?
    ensures o.metrics != [] && Outcome.CanonicalBytes(o).value == J.Text(ValueOf(o))
  {
    hide Ascii, J.LabelText, MetricEntries, Outcome.Remaining, Outcome.Opening, Outcome.Middle, Outcome.Closing, Named;
    OpeningIs();
    MiddleIs();
    ClosingIs();
    Unfold(o);
    EntriesText(o.metrics);
    LabelText(Ascii("schema"));
    LabelText(Ascii("encoding"));
    LabelText(Ascii("metrics"));
    Flat(J.LabelText(Named(Ascii("schema"))), o.schema, J.LabelText(Named(Ascii("encoding"))), o.encoding,
         J.LabelText(Named(Ascii("metrics"))), J.EntriesText(MetricEntries(o.metrics), true));
  }

  // ----- the grammar, for every decoder that takes plain strings as they are

  predicate Plain(s: seq<byte>) { forall i :: 0 <= i < |s| ==> 0x20 <= s[i] < 0x80 && s[i] != J.QUOTE && s[i] != J.BACKSLASH }

  ghost predicate Faithful(dec: J.Decoder) { forall s :: Plain(s) ==> dec(Quoted(s)) == Some(s) }

  lemma PlainString(dec: J.Decoder, s: seq<byte>)
    requires Faithful(dec) && Plain(s)
    ensures J.IsString(dec, Quoted(s)) && J.IsLabel(dec, Named(s), true) && J.KeyOf(dec, Named(s).value) == s
  {
    assert Quoted(s)[1..] == s + [J.QUOTE];
    J.ScanPlain(s, [J.QUOTE]);
    assert [J.QUOTE][1..] == [];
  }

  lemma NumberGrammatical(v: int)
    ensures J.IsNumber(NumberOf(v))
  {
    var n := if v < 0 then -v else v;
    Outcome.DigitsDenote(n);
    if Outcome.Digits(n)[0] == J.ZERO { assert n == 0; }
  }

  lemma NamePlain(n: seq<byte>)
    requires Outcome.ValidMetricName(n)
    ensures Plain(n)
  {
  }

  function Names(ms: seq<Outcome.Metric>): seq<seq<byte>> { seq(|ms|, i requires 0 <= i < |ms| => ms[i].name) }

  lemma {:induction false} MetricsGrammatical(dec: J.Decoder, ms: seq<Outcome.Metric>)
    requires Faithful(dec) && ms != [] && forall i :: 0 <= i < |ms| ==> Outcome.ValidMetricName(ms[i].name)
    ensures var es := MetricEntries(ms);
            && J.GrammaticalEntries(dec, es, true) && J.UniqueEntries(dec, es) && J.EntriesHeight(es) == 0
            && J.Keys(dec, es) == Names(ms)
  {
    hide Outcome.ValidMetricName, J.IsNumber, J.IsLabel, J.KeyOf, Plain, Faithful;
    NamePlain(ms[0].name);
    PlainString(dec, ms[0].name);
    NumberGrammatical(ms[0].value);
    if |ms| > 1 {
      MetricsGrammatical(dec, ms[1..]);
      assert Names(ms) == [ms[0].name] + Names(ms[1..]);
    } else {
      assert Names(ms) == [ms[0].name] + [];
    }
  }

  lemma AsciiPlain(s: string)
    requires forall i :: 0 <= i < |s| ==> ' ' <= s[i] <= '~' && s[i] != '"' && s[i] != '\\'
    ensures Plain(Ascii(s))
  {
  }

  lemma FixedPlain()
    ensures Plain(Ascii("schema")) && Plain(Ascii("encoding")) && Plain(Ascii("metrics"))
    ensures Plain(Outcome.OutcomeSchema()) && Plain(Outcome.OutcomeEncoding())
    ensures J.NoRepeats([Ascii("schema"), Ascii("encoding"), Ascii("metrics")])
  {
    hide Plain;
    AsciiPlain("schema");
    AsciiPlain("encoding");
    AsciiPlain("metrics");
    AsciiPlain("sage.refinement-eval-outcome-v1");
    AsciiPlain("canonical-json-utf8");
    assert |Ascii("schema")| == 6 && |Ascii("encoding")| == 8 && |Ascii("metrics")| == 7;
  }

  /** One member in front of others. */
  lemma MemberGood(dec: J.Decoder, s: seq<byte>, v: J.Json, rest: J.Entries)
    requires Faithful(dec) && Plain(s) && J.Grammatical(dec, v) && J.UniqueKeys(dec, v)
    ensures var e := J.Last(Named(s), v, []);
            && J.GrammaticalEntries(dec, e, true) && J.UniqueEntries(dec, e)
            && J.Keys(dec, e) == [s] && J.EntriesHeight(e) == J.Height(v)
    ensures J.GrammaticalEntries(dec, rest, true) && J.UniqueEntries(dec, rest) ==>
              var e := J.More(Named(s), v, [], [], rest);
              && J.GrammaticalEntries(dec, e, true) && J.UniqueEntries(dec, e)
              && J.Keys(dec, e) == [s] + J.Keys(dec, rest)
              && J.EntriesHeight(e) == if J.EntriesHeight(rest) <= J.Height(v) then J.Height(v) else J.EntriesHeight(rest)
  {
    hide Plain, Faithful, J.KeyOf, J.IsString;
    PlainString(dec, s);
  }

  lemma StringGood(dec: J.Decoder, s: seq<byte>)
    requires Faithful(dec) && Plain(s)
    ensures var v := J.Str(Quoted(s)); J.Grammatical(dec, v) && J.UniqueKeys(dec, v) && J.Height(v) == 0
  {
    PlainString(dec, s);
  }

  lemma ObjectGood(dec: J.Decoder, es: J.Entries)
    requires J.GrammaticalEntries(dec, es, true) && J.UniqueEntries(dec, es) && J.NoRepeats(J.Keys(dec, es))
    ensures var v := J.Full(true, [], es);
            J.Grammatical(dec, v) && J.UniqueKeys(dec, v) && J.Height(v) == 1 + J.EntriesHeight(es)
  {
  }

  lemma ValueGood(dec: J.Decoder, o: Outcome.RefinementOutcome)
    requires Faithful(dec) && Outcome.ValidOutcome(o) && J.NoRepeats(Names(o.metrics))
    ensures J.Grammatical(dec, ValueOf(o)) && J.UniqueKeys(dec, ValueOf(o)) && J.Height(ValueOf(o)) == 2
  {
    hide Ascii, Plain, Faithful, MetricEntries, Quoted, Named, Names, J.Grammatical, J.GrammaticalEntries, J.UniqueKeys,
         J.UniqueEntries, J.Keys, J.Height, J.EntriesHeight, J.NoRepeats;
    FixedPlain();
    MetricsGrammatical(dec, o.metrics);
    var metrics := J.Full(true, [], MetricEntries(o.metrics));
    ObjectGood(dec, MetricEntries(o.metrics));
    var last := J.Last(Named(Ascii("metrics")), metrics, []);
    MemberGood(dec, Ascii("metrics"), metrics, last);
    StringGood(dec, o.encoding);
    var middle := J.More(Named(Ascii("encoding")), J.Str(Quoted(o.encoding)), [], [], last);
    MemberGood(dec, Ascii("encoding"), J.Str(Quoted(o.encoding)), last);
    StringGood(dec, o.schema);
    var top := J.More(Named(Ascii("schema")), J.Str(Quoted(o.schema)), [], [], middle);
    MemberGood(dec, Ascii("schema"), J.Str(Quoted(o.schema)), middle);
    assert J.Keys(dec, top) == [Ascii("schema"), Ascii("encoding"), Ascii("metrics")];
    ObjectGood(dec, top);
  }

  /**
   * The canonical bytes of an outcome with distinct metric names are a JSON text that the duplicate-key guard accepts:
   * an object of three members, the last of which is the object of the metrics.
   */
  lemma CanonicalIsJson(dec: J.Decoder, o: Outcome.RefinementOutcome)
    requires Faithful(dec) && Outcome.CanonicalBytes(o).Some? && J.NoRepeats(Names(o.metrics))
    ensures o.metrics != [] && J.IsGuardedText(dec, Outcome.CanonicalBytes(o).value, [], ValueOf(o), [])
    ensures G.Accepts(dec, Outcome.CanonicalBytes(o).value)
  {
    hide Faithful, ValueOf, Names, J.Grammatical, J.UniqueKeys, J.Height, J.NoRepeats, G.Accepts, J.Text;
    CanonicalText(o);
    var b := Outcome.CanonicalBytes(o).value;
    assert [] + (b + []) == b;
    ValueGood(dec, o);
    G.GuardExact(dec, b);
  }
}
