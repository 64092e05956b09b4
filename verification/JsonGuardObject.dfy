/** The guard object of apple_container_session_runtime.cpp: one position moved over the input by mutual recursion. */
module JsonGuardObject {
  import opened Bytes
  import opened Hex
  import opened JsonText
  import opened JsonGuard

  class DuplicateKeyGuard {
    const input: seq<byte>
    const dec: Decoder
    var position: nat

    predicate Valid()
      reads this
    {
      position <= |input|
    }

    /** What has not been read. */
    function Rest(): (r: seq<byte>)
      requires Valid()
      reads this
      ensures |r| == |input| - position
    {
      input[position..]
    }

    constructor (text: seq<byte>, d: Decoder)
      ensures Valid() && input == text && dec == d && Rest() == text
    {
      input, dec, position := text, d, 0;
    }

    lemma RestNext()
      requires position < |input|
      ensures Rest() != [] && Rest()[0] == input[position] && Rest()[1..] == input[position + 1..]
    {
    }

    method SkipSpaces()
      requires Valid()
      modifies this
      ensures Valid() && Rest() == SkipSpace(old(Rest()))
    {
      while position < |input| && IsSpace(input[position])
        invariant Valid() && SkipSpace(Rest()) == SkipSpace(old(Rest()))
      {
        RestNext();
        position := position + 1;
      }
      if position < |input| { RestNext(); }
    }

    method SkipDigitRun()
      requires Valid()
      modifies this
      ensures Valid() && Rest() == SkipDigits(old(Rest()))
    {
      while position < |input| && IsDigit(input[position])
        invariant Valid() && SkipDigits(Rest()) == SkipDigits(old(Rest()))
      {
        RestNext();
        position := position + 1;
      }
      if position < |input| { RestNext(); }
    }

    /** `string_value` */
    method StringValue() returns (r: Option<seq<byte>>)
      requires Valid()
      modifies this
      ensures Valid()
      ensures match AfterString(dec, old(Rest()))
              case None => r == None
              case Some((k, t)) => r == Some(k) && Rest() == t
    {
      if position >= |input| || input[position] != QUOTE { return None; }
      var begin := position;
      RestNext();
      position := position + 1;
      while position < |input|
        invariant begin < position <= |input|
        invariant Scan(Rest()) == Scan(old(Rest())[1..])
      {
        RestNext();
        var b := input[position];
        position := position + 1;
        if b == QUOTE {
          var decoded := dec(input[begin..position]);
          assert old(Rest())[..|old(Rest())| - |Rest()|] == input[begin..position];
          return decoded;
        }
        if b < 0x20 { return None; }
        if b == BACKSLASH {
          if position >= |input| { return None; }
          position := position + 1;
        }
      }
      return None;
    }

    /** `literal` */
    method Literal(text: seq<byte>) returns (ok: bool)
      requires Valid()
      modifies this
      ensures Valid() && ok == AfterWord(old(Rest()), text).Some?
      ensures ok ==> Rest() == AfterWord(old(Rest()), text).value
    {
      ok := text <= input[position..];
      if ok { position := position + |text|; }
    }

    /** `number` */
    method ReadNumber() returns (ok: bool)
      requires Valid()
      modifies this
      ensures Valid() && ok == AfterNumber(old(Rest())).Some?
      ensures ok ==> Rest() == AfterNumber(old(Rest())).value
    {
      if position < |input| && input[position] == MINUS {
        RestNext();
        position := position + 1;
      }
      assert Rest() == AfterMinus(old(Rest()));
      if position >= |input| { return false; }
      RestNext();
      if input[position] == ZERO {
        position := position + 1;
      } else {
        if input[position] < 0x31 || input[position] > 0x39 { return false; }
        SkipDigitRun();
      }
      assert AfterWhole(AfterMinus(old(Rest()))) == Some(Rest());
      ok := ReadFraction();
      if ok {
        ok := ReadExponent();
      }
    }

    method ReadFraction() returns (ok: bool)
      requires Valid()
      modifies this
      ensures Valid() && ok == AfterFraction(old(Rest())).Some?
      ensures ok ==> Rest() == AfterFraction(old(Rest())).value
    {
      if position >= |input| || input[position] != POINT { return true; }
      RestNext();
      position := position + 1;
      var digits := position;
      SkipDigitRun();
      ok := position != digits;
    }

    method ReadExponent() returns (ok: bool)
      requires Valid()
      modifies this
      ensures Valid() && ok == AfterExponent(old(Rest())).Some?
      ensures ok ==> Rest() == AfterExponent(old(Rest())).value
    {
      if position >= |input| || !(input[position] == 0x65 || input[position] == 0x45) { return true; }
      RestNext();
      position := position + 1;
      if position < |input| && (input[position] == PLUS || input[position] == MINUS) {
        RestNext();
        position := position + 1;
      }
      var digits := position;
      SkipDigitRun();
      ok := position != digits;
    }

    /** `value` */
    method Value(depth: nat) returns (ok: bool)
      requires Valid()
      modifies this
      ensures Valid() && ok == AfterValue(dec, old(Rest()), depth).Some?
      ensures ok ==> Rest() == AfterValue(dec, old(Rest()), depth).value
      decreases |input| - position, 1
    {
      if depth > MAX_NESTING || position >= |input| { return false; }
      RestNext();
      var b := input[position];
      if b == Opener(true) {
        ok := Object(depth);
      } else if b == Opener(false) {
        ok := Array(depth);
      } else if b == QUOTE {
        var r := StringValue();
        ok := r.Some?;
      } else if b == 0x74 {
        ok := Literal(TrueWord());
      } else if b == 0x66 {
        ok := Literal(FalseWord());
      } else if b == 0x6E {
        ok := Literal(NullWord());
      } else {
        ok := ReadNumber();
      }
    }

    /** The key of a member and its colon, as one iteration of `object` begins. */
    method MemberName(keys: set<seq<byte>>) returns (r: Option<set<seq<byte>>>)
      requires Valid()
      modifies this
      ensures Valid()
      ensures match AfterName(dec, old(Rest()), true, keys)
              case None => r == None
              case Some((more, t)) => r == Some(more) && Rest() == t
    {
      var key := StringValue();
      if key.None? || key.value in keys { return None; }
      SkipSpaces();
      if position >= |input| { return None; }
      RestNext();
      if input[position] != COLON { return None; }
      position := position + 1;
      SkipSpaces();
      r := Some(keys + {key.value});
    }

    /** The character behind a value, as an iteration of `object` or `array` ends: closed, or another entry. */
    method Delimiter(keyed: bool) returns (r: Option<bool>)
      requires Valid()
      modifies this
      ensures Valid()
      ensures match AfterDelimiter(old(Rest()), keyed)
              case None => r == None
              case Some((closed, t)) => r == Some(closed) && Rest() == t
    {
      SkipSpaces();
      if position >= |input| { return None; }
      RestNext();
      var delimiter := input[position];
      position := position + 1;
      if delimiter == Closer(keyed) { return Some(true); }
      if delimiter != COMMA { return None; }
      SkipSpaces();
      r := Some(false);
    }

    /** The opening character, and whether the closing one follows at once. */
    method Open(keyed: bool) returns (empty: bool)
      requires Valid() && position < |input|
      modifies this
      ensures Valid() && position > old(position)
      ensures var t := SkipSpace(old(Rest())[1..]);
              && (empty <==> t != [] && t[0] == Closer(keyed))
              && Rest() == if empty then t[1..] else t
    {
      RestNext();
      position := position + 1;
      SkipSpaces();
      empty := position < |input| && input[position] == Closer(keyed);
      if empty {
        RestNext();
        position := position + 1;
      }
    }

    /** `object` */
    method Object(depth: nat) returns (ok: bool)
      requires Valid() && position < |input|
      modifies this
      ensures Valid() && ok == AfterOpener(dec, old(Rest())[1..], depth, true).Some?
      ensures ok ==> Rest() == AfterOpener(dec, old(Rest())[1..], depth, true).value
      decreases |input| - position, 0
    {
      var empty := Open(true);
      if empty { return true; }
      var keys: set<seq<byte>> := {};
      ghost var goal := AfterEntries(dec, Rest(), depth, true, {});
      while true
        invariant Valid() && position > old(position)
        invariant AfterEntries(dec, Rest(), depth, true, keys) == goal
        decreases |input| - position
      {
        ghost var s := Rest();
        var named := MemberName(keys);
        if named.None? { return false; }
        ghost var t := Rest();
        var good := Value(depth + 1);
        if !good { return false; }
        EntriesStep(dec, s, depth, true, keys, named.value, t, Rest());
        var closed := Delimiter(true);
        if closed.None? { return false; }
        if closed.value { return true; }
        keys := named.value;
      }
    }

    /** `array` */
    method Array(depth: nat) returns (ok: bool)
      requires Valid() && position < |input|
      modifies this
      ensures Valid() && ok == AfterOpener(dec, old(Rest())[1..], depth, false).Some?
      ensures ok ==> Rest() == AfterOpener(dec, old(Rest())[1..], depth, false).value
      decreases |input| - position, 0
    {
      var empty := Open(false);
      if empty { return true; }
      ghost var goal := AfterEntries(dec, Rest(), depth, false, {});
      while true
        invariant Valid() && position > old(position)
        invariant AfterEntries(dec, Rest(), depth, false, {}) == goal
        decreases |input| - position
      {
        ghost var s := Rest();
        var good := Value(depth + 1);
        if !good { return false; }
        EntriesStep(dec, s, depth, false, {}, {}, s, Rest());
        var closed := Delimiter(false);
        if closed.None? { return false; }
        if closed.value { return true; }
      }
    }

    /** `valid`, on a fresh guard. */
    method Check() returns (ok: bool)
      requires position == 0
      modifies this
      ensures ok <==> exists before, v, behind :: IsGuardedText(dec, input, before, v, behind)
    {
      GuardExact(dec, input);
      assert Rest() == input;
      SkipSpaces();
      ok := Value(0);
      if ok {
        SkipSpaces();
        ok := position == |input|;
      }
    }
  }
}
