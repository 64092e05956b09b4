/** The streaming hash of sha256.cpp against the padding and compression of FIPS 180-4. */
module Sha256 {
  import opened Bytes
  import opened Hex

  type word = bv32
  type octet = bv8

  // ----- FIPS 180-4

  const ROUND_CONSTANTS: seq<word> := [
    0x428a2f98, 0x71374491, 0xb5c0fbcf, 0xe9b5dba5, 0x3956c25b, 0x59f111f1, 0x923f82a4, 0xab1c5ed5,
    0xd807aa98, 0x12835b01, 0x243185be, 0x550c7dc3, 0x72be5d74, 0x80deb1fe, 0x9bdc06a7, 0xc19bf174,
    0xe49b69c1, 0xefbe4786, 0x0fc19dc6, 0x240ca1cc, 0x2de92c6f, 0x4a7484aa, 0x5cb0a9dc, 0x76f988da,
    0x983e5152, 0xa831c66d, 0xb00327c8, 0xbf597fc7, 0xc6e00bf3, 0xd5a79147, 0x06ca6351, 0x14292967,
    0x27b70a85, 0x2e1b2138, 0x4d2c6dfc, 0x53380d13, 0x650a7354, 0x766a0abb, 0x81c2c92e, 0x92722c85,
    0xa2bfe8a1, 0xa81a664b, 0xc24b8b70, 0xc76c51a3, 0xd192e819, 0xd6990624, 0xf40e3585, 0x106aa070,
    0x19a4c116, 0x1e376c08, 0x2748774c, 0x34b0bcb5, 0x391c0cb3, 0x4ed8aa4a, 0x5b9cca4f, 0x682e6ff3,
    0x748f82ee, 0x78a5636f, 0x84c87814, 0x8cc70208, 0x90befffa, 0xa4506ceb, 0xbef9a3f7, 0xc67178f2
  ]

  function RoundConstant(t: nat): word
    requires t < 64
  {
    ROUND_CONSTANTS[t]
  }

  datatype Chain = Chain(a: word, b: word, c: word, d: word, e: word, f: word, g: word, h: word)

  /** Section 5.3.3. */
  const INITIAL := Chain(0x6a09e667, 0xbb67ae85, 0x3c6ef372, 0xa54ff53a, 0x510e527f, 0x9b05688c, 0x1f83d9ab, 0x5be0cd19)

  /** Section 4.1: addition modulo 2^32. */
  function Add(x: word, y: word): word { x + y }

  /** Section 4.1.2. */
  function Ch(x: word, y: word, z: word): word { (x & y) ^ (!x & z) }

  function Maj(x: word, y: word, z: word): word { (x & y) ^ (x & z) ^ (y & z) }

  function BigSigma0(x: word): word { x.RotateRight(2) ^ x.RotateRight(13) ^ x.RotateRight(22) }

  function BigSigma1(x: word): word { x.RotateRight(6) ^ x.RotateRight(11) ^ x.RotateRight(25) }

  function SmallSigma0(x: word): word { x.RotateRight(7) ^ x.RotateRight(18) ^ (x >> 3) }

  function SmallSigma1(x: word): word { x.RotateRight(17) ^ x.RotateRight(19) ^ (x >> 10) }

  /** Section 5.2.1: the words of a block, most significant byte first. */
  function BlockWord(block: seq<octet>, t: nat): word
    requires |block| == 64 && t < 16
  {
    ((block[4 * t] as word) << 24) | ((block[4 * t + 1] as word) << 16) | ((block[4 * t + 2] as word) << 8)
      | (block[4 * t + 3] as word)
  }

  function Expand(w2: word, w7: word, w15: word, w16: word): word {
    Add(SmallSigma1(w2), Add(w7, Add(SmallSigma0(w15), w16)))
  }

  /** Section 6.2.2, step 1: the message schedule. */
  function Schedule(block: seq<octet>, t: nat): word
    requires |block| == 64
  {
    if t < 16 then BlockWord(block, t)
    else
      Expand(Schedule(block, t - 2), Schedule(block, t - 7), Schedule(block, t - 15), Schedule(block, t - 16))
  }

  function FirstSum(e: word, f: word, g: word, h: word, k: word, w: word): word {
    Add(Add(Add(Add(h, BigSigma1(e)), Ch(e, f, g)), k), w)
  }

  function SecondSum(a: word, b: word, c: word): word { Add(BigSigma0(a), Maj(a, b, c)) }

  function Shift(v: Chain, t1: word, t2: word): Chain {
    Chain(Add(t1, t2), v.a, v.b, v.c, Add(v.d, t1), v.e, v.f, v.g)
  }

  /** Section 6.2.2, step 3: one round on the eight working variables. */
  function Round(v: Chain, k: word, w: word): Chain {
    Shift(v, FirstSum(v.e, v.f, v.g, v.h, k, w), SecondSum(v.a, v.b, v.c))
  }

  function Rounds(v: Chain, block: seq<octet>, n: nat): Chain
    requires |block| == 64 && n <= 64
  {
    if n == 0 then v else Round(Rounds(v, block, n - 1), RoundConstant(n - 1), Schedule(block, n - 1))
  }

  /** Section 6.2.2, step 4. */
  function AddChain(v: Chain, h: Chain): Chain {
    Chain(Add(v.a, h.a), Add(v.b, h.b), Add(v.c, h.c), Add(v.d, h.d), Add(v.e, h.e), Add(v.f, h.f), Add(v.g, h.g),
          Add(v.h, h.h))
  }

  function Compress(h: Chain, block: seq<octet>): Chain
    requires |block| == 64
  {
    AddChain(Rounds(h, block, 64), h)
  }

  /** Section 6.2.2 over all blocks of a padded message. */
  function HashFrom(h: Chain, message: seq<octet>): Chain
    requires |message| % 64 == 0
    decreases |message|
  {
    if message == [] then h else HashFrom(Compress(h, message[..64]), message[64..])
  }

  /** Bytes as eight-bit strings. */
  function Bits(m: seq<byte>): (r: seq<octet>)
    ensures |r| == |m|
  {
    seq(|m|, i requires 0 <= i < |m| => m[i] as octet)
  }

  function Zeros(n: nat): (r: seq<octet>)
    ensures |r| == n
  {
    seq(n, _ => 0)
  }

  /** Section 5.1.1: a one bit, zero bits up to 448 modulo 512, and the 64-bit length in bits. */
  function Padding(n: nat): (r: seq<octet>)
    ensures |r| == 9 + ZeroCount(n)
  {
    [0x80] + Zeros(ZeroCount(n)) + LengthBits(n)
  }

  function ZeroCount(n: nat): nat { (119 - n % 64) % 64 }

  function LengthBits(n: nat): (r: seq<octet>)
    ensures |r| == 8
  {
    Bits(BigEndian(8, 8 * n))
  }

  lemma PaddedLength(n: nat)
    ensures (n + (9 + ZeroCount(n))) % 64 == 0
  {
  }

  function LowByte(w: word): byte { (w & 0xff) as octet as int }

  function WordBytes(w: word): seq<byte> {
    [LowByte(w >> 24), LowByte(w >> 16), LowByte(w >> 8), LowByte(w)]
  }

  function ChainBytes(c: Chain): (r: seq<byte>)
    ensures |r| == 32
  {
    WordBytes(c.a) + WordBytes(c.b) + WordBytes(c.c) + WordBytes(c.d)
      + WordBytes(c.e) + WordBytes(c.f) + WordBytes(c.g) + WordBytes(c.h)
  }

  function FinalChain(m: seq<octet>): Chain {
    PaddedLength(|m|);
    HashFrom(INITIAL, m + Padding(|m|))
  }

  function Digest(m: seq<byte>): (r: seq<byte>)
    ensures |r| == 32
  {
    ChainBytes(FinalChain(Bits(m)))
  }

  function DigestHex(m: seq<byte>): seq<byte> { ToHex(Digest(m)) }

  lemma WholeBlocks(m: nat, n: nat)
    requires m % 64 == 0 && n % 64 == 0
    ensures (m + n) % 64 == 0 && (m >= 64 ==> (m - 64) % 64 == 0)
  {
  }

  lemma {:induction false} HashConcat(h: Chain, a: seq<octet>, b: seq<octet>)
    requires |a| % 64 == 0 && |b| % 64 == 0
    ensures |a + b| % 64 == 0
    ensures HashFrom(h, a + b) == HashFrom(HashFrom(h, a), b)
    decreases |a|
  {
    WholeBlocks(|a|, |b|);
    if a == [] {
      assert a + b == b;
    } else {
      SliceFront(a, b, 64);
      HashConcat(Compress(h, a[..64]), a[64..], b);
    }
  }

  lemma OneBlock(h: Chain, b: seq<octet>)
    requires |b| == 64
    ensures HashFrom(h, b) == Compress(h, b)
  {
    assert b[..64] == b && b[64..] == [];
  }

  /** Hashing whole blocks and then one more. */
  lemma HashBlock(h: Chain, a: seq<octet>, b: seq<octet>)
    requires |a| % 64 == 0 && |b| == 64
    ensures |a + b| % 64 == 0 && HashFrom(h, a + b) == Compress(HashFrom(h, a), b)
  {
    HashConcat(h, a, b);
    OneBlock(HashFrom(h, a), b);
  }

  lemma HashTwo(h: Chain, a: seq<octet>, b: seq<octet>, c: seq<octet>)
    requires |a| % 64 == 0 && |b| == |c| == 64
    ensures |a + b + c| % 64 == 0 && HashFrom(h, a + b + c) == Compress(Compress(HashFrom(h, a), b), c)
  {
    HashBlock(h, a, b);
    HashBlock(h, a + b, c);
  }

  // ----- the stream

  const MAX_INPUT_BYTES: nat := U64_MAX / 8

  /** The chaining value covers the whole blocks of the bytes absorbed; the pending bytes are the rest. */
  ghost predicate Represents(h: Chain, pending: seq<octet>, absorbed: seq<octet>) {
    && |pending| == |absorbed| % 64
    && h == HashFrom(INITIAL, absorbed[..|absorbed| - |pending|])
    && pending == absorbed[|absorbed| - |pending|..]
  }

  lemma PendingGrows(h: Chain, pending: seq<octet>, absorbed: seq<octet>, b: octet)
    requires Represents(h, pending, absorbed) && |pending| < 63
    ensures Represents(h, pending + [b], absorbed + [b])
  {
    var q := |absorbed| - |pending|;
    assert (absorbed + [b])[..q] == absorbed[..q];
  }

  lemma BlockFull(h: Chain, pending: seq<octet>, absorbed: seq<octet>, b: octet)
    requires Represents(h, pending, absorbed) && |pending| == 63
    ensures Represents(Compress(h, pending + [b]), [], absorbed + [b])
  {
    var q := |absorbed| - |pending|;
    var all := absorbed + [b];
    assert all == absorbed[..q] + (pending + [b]);
    HashBlock(INITIAL, absorbed[..q], pending + [b]);
    assert all[..|all|] == all;
  }

  /** A last block: what is pending, zeros up to byte 56, and the length. */
  function LastOf(p: seq<octet>, n: nat): (r: seq<octet>)
    requires |p| <= 56
    ensures |r| == 64
  {
    p + Zeros(56 - |p|) + LengthBits(n)
  }

  lemma Regroup<T>(a: seq<T>, p: seq<T>, one: seq<T>, zeros: seq<T>, length: seq<T>)
    ensures a + p + (one + zeros + length) == a + (p + one + zeros + length)
  {
  }

  /** The length fits behind the one bit: a single last block. */
  lemma PadOne(h: Chain, pending: seq<octet>, absorbed: seq<octet>)
    requires Represents(h, pending, absorbed) && |pending| < 56
    ensures FinalChain(absorbed) == Compress(h, LastOf(pending + [0x80], |absorbed|))
  {
    var n, q := |absorbed|, |absorbed| - |pending|;
    var last := LastOf(pending + [0x80], n);
    assert absorbed == absorbed[..q] + pending && ZeroCount(n) == 55 - |pending|;
    Regroup(absorbed[..q], pending, [0x80], Zeros(ZeroCount(n)), LengthBits(n));
    HashBlock(INITIAL, absorbed[..q], last);
  }

  lemma ZerosSplit(m: nat, n: nat)
    ensures Zeros(m + n) == Zeros(m) + Zeros(n)
  {
  }

  lemma RegroupTwo<T>(a: seq<T>, p: seq<T>, one: seq<T>, z: seq<T>, y: seq<T>, length: seq<T>)
    ensures a + p + (one + (z + y) + length) == a + (p + one + z) + ([] + y + length)
  {
  }

  /** The padding, as the rest of this block and a block of its own. */
  lemma PaddingTwo(front: seq<octet>, pending: seq<octet>)
    requires |front| % 64 == 0 && 56 <= |pending| < 64
    ensures var n := |front| + |pending|;
            front + pending + Padding(n) == front + (pending + [0x80] + Zeros(63 - |pending|)) + LastOf([], n)
  {
    var n := |front| + |pending|;
    assert ZeroCount(n) == 63 - |pending| + 56;
    ZerosSplit(63 - |pending|, 56);
    RegroupTwo(front, pending, [0x80], Zeros(63 - |pending|), Zeros(56), LengthBits(n));
  }

  /** It does not fit: zeros to the end of this block, and the length in a block of its own. */
  lemma PadTwo(h: Chain, pending: seq<octet>, absorbed: seq<octet>)
    requires Represents(h, pending, absorbed) && 56 <= |pending|
    ensures FinalChain(absorbed)
         == Compress(Compress(h, pending + [0x80] + Zeros(63 - |pending|)), LastOf([], |absorbed|))
  {
    var front := absorbed[..|absorbed| - |pending|];
    assert absorbed == front + pending;
    PaddingTwo(front, pending);
    HashTwo(INITIAL, front, pending + [0x80] + Zeros(63 - |pending|), LastOf([], |absorbed|));
  }

  /** The last one or two compressions. */
  function FinalBlocks(h: Chain, pending: seq<octet>, n: nat): Chain
    requires |pending| < 64
  {
    var p := pending + [0x80];
    if |p| <= 56 then Compress(h, LastOf(p, n)) else Compress(Compress(h, p + Zeros(64 - |p|)), LastOf([], n))
  }

  lemma PadFinal(h: Chain, pending: seq<octet>, absorbed: seq<octet>)
    requires Represents(h, pending, absorbed)
    ensures FinalChain(absorbed) == FinalBlocks(h, pending, |absorbed|)
  {
    if |pending| < 56 { PadOne(h, pending, absorbed); } else { PadTwo(h, pending, absorbed); }
  }

  class Stream {
    var state: Chain
    const block: array<octet>
    var blockSize: nat
    var totalBytes: nat
    ghost var absorbed: seq<octet>

    ghost predicate Buffered()
      reads this, block
    {
      block.Length == 64 && blockSize < 64 && Represents(state, block[..blockSize], absorbed)
    }

    ghost predicate Valid()
      reads this, block
    {
      Buffered() && totalBytes == |absorbed| <= MAX_INPUT_BYTES
    }

    constructor ()
      ensures Valid() && absorbed == [] && fresh(block)
    {
      state := INITIAL;
      block := new octet[64](_ => 0);
      blockSize, totalBytes, absorbed := 0, 0, [];
    }

    constructor Copy(other: Stream)
      requires other.Valid()
      ensures Valid() && absorbed == other.absorbed && fresh(block)
    {
      state := other.state;
      block := new octet[64](i requires 0 <= i < 64 && other.block.Length == 64 reads other, other.block => other.block[i]);
      blockSize, totalBytes, absorbed := other.blockSize, other.totalBytes, other.absorbed;
      new;
      assert block[..] == other.block[..];
    }

    /** One byte into the buffer; a full buffer is compressed at once. */
    method Absorb(b: octet)
      requires Buffered()
      modifies this`blockSize, this`absorbed, this`state, block
      ensures Buffered() && absorbed == old(absorbed) + [b]
    {
      ghost var pending := block[..blockSize];
      block[blockSize] := b;
      blockSize := blockSize + 1;
      assert block[..blockSize] == pending + [b];
      if blockSize == 64 {
        assert block[..] == block[..blockSize];
        BlockFull(state, pending, absorbed, b);
        Transform();
        blockSize := 0;
      } else {
        PendingGrows(state, pending, absorbed, b);
      }
      absorbed := absorbed + [b];
    }

    /** Refused exactly when the bit length would no longer fit its 64-bit field. */
    method Update(input: seq<byte>) returns (ok: bool)
      requires Valid()
      modifies this`blockSize, this`totalBytes, this`absorbed, this`state, block
      ensures Valid()
      ensures ok <==> old(totalBytes) + |input| <= MAX_INPUT_BYTES
      ensures absorbed == if ok then old(absorbed) + Bits(input) else old(absorbed)
    {
      if |input| > MAX_INPUT_BYTES - totalBytes { return false; }
      ghost var before, bits := absorbed, Bits(input);
      for i := 0 to |input|
        invariant Buffered() && totalBytes == old(totalBytes) && absorbed == before + bits[..i]
      {
        assert bits[..i + 1] == bits[..i] + [bits[i]];
        Absorb(input[i] as octet);
      }
      assert bits[..|input|] == bits;
      totalBytes := totalBytes + |input|;
      ok := true;
    }

    method FillZeros(to: nat)
      requires block.Length == 64 && blockSize <= to <= 64
      modifies this`blockSize, block
      ensures blockSize == to && block[..to] == old(block[..blockSize]) + Zeros(to - old(blockSize))
    {
      ghost var kept := block[..blockSize];
      while blockSize < to
        invariant |kept| <= blockSize <= to
        invariant block[..blockSize] == kept + Zeros(blockSize - |kept|)
      {
        block[blockSize] := 0;
        blockSize := blockSize + 1;
      }
    }

    method PutLength(bits: u64)
      requires block.Length == 64
      modifies block
      ensures block[..56] == old(block[..56]) && block[56..] == Bits(BigEndian(8, bits))
    {
      ghost var kept := block[..56];
      for index := 0 to 8
        invariant block[..56] == kept
        invariant forall j :: 0 <= j < index ==> block[56 + j] == Bits(BigEndian(8, bits))[j]
      {
        BigEndianAt(8, bits, index);
        block[56 + index] := (bits / Pow256(7 - index) % 256) as octet;
      }
    }

    /** Padding and the last one or two blocks. */
    method Finish() returns (digest: seq<byte>)
      requires Valid()
      modifies this`blockSize, this`state, block
      ensures digest == ChainBytes(FinalChain(absorbed))
    {
      PadFinal(state, block[..blockSize], absorbed);
      PadBlocks();
      digest := ChainBytes(state);
    }

    method PadBlocks()
      requires block.Length == 64 && blockSize < 64 && totalBytes <= MAX_INPUT_BYTES
      modifies this`blockSize, this`state, block
      ensures state == FinalBlocks(old(state), old(block[..blockSize]), totalBytes)
    {
      ghost var p := block[..blockSize] + [0x80];
      block[blockSize] := 0x80;
      blockSize := blockSize + 1;
      assert block[..blockSize] == p;
      if blockSize > 56 {
        FlushBlock(p);
        LastBlock([]);
      } else {
        LastBlock(p);
      }
    }

    method FlushBlock(ghost p: seq<octet>)
      requires block.Length == 64 && blockSize <= 64 && p == block[..blockSize]
      modifies this`blockSize, this`state, block
      ensures blockSize == 0 && state == Compress(old(state), p + Zeros(64 - |p|))
    {
      FillZeros(64);
      assert block[..] == block[..64];
      Transform();
      blockSize := 0;
    }

    /** Zeros up to byte 56, the bit length, and the last compression. */
    method LastBlock(ghost p: seq<octet>)
      requires block.Length == 64 && blockSize <= 56 && p == block[..blockSize] && totalBytes <= MAX_INPUT_BYTES
      modifies this`blockSize, this`state, block
      ensures state == Compress(old(state), LastOf(p, totalBytes))
    {
      FillZeros(56);
      PutLength(totalBytes * 8);
      assert block[..] == block[..56] + block[56..];
      Transform();
    }

    /** A digest is taken from a copy, so the stream can be continued afterwards. */
    method DigestHex() returns (hex: seq<byte>)
      requires Valid()
      ensures hex == ToHex(ChainBytes(FinalChain(absorbed)))
    {
      var copy := new Stream.Copy(this);
      var digest := copy.Finish();
      hex := EncodeDigest(digest);
    }

    /** The compression of the buffered block into the chaining value. */
    method Transform()
      requires block.Length == 64
      modifies this`state
      ensures state == Compress(old(state), block[..])
    {
      var schedule := BuildSchedule(block);
      var v := RunRounds(state, schedule, block[..]);
      state := AddInto(state, v);
    }

    static method AddInto(s: Chain, v: Chain) returns (r: Chain)
      ensures r == AddChain(v, s)
    {
      AddCommutes(v.a, s.a);
      AddCommutes(v.b, s.b);
      AddCommutes(v.c, s.c);
      AddCommutes(v.d, s.d);
      AddCommutes(v.e, s.e);
      AddCommutes(v.f, s.f);
      AddCommutes(v.g, s.g);
      AddCommutes(v.h, s.h);
      r := Chain(Add(s.a, v.a), Add(s.b, v.b), Add(s.c, v.c), Add(s.d, v.d), Add(s.e, v.e), Add(s.f, v.f), Add(s.g, v.g),
                 Add(s.h, v.h));
    }

    static method RunRounds(start: Chain, schedule: seq<word>, ghost data: seq<octet>) returns (v: Chain)
      requires |data| == 64
      requires |schedule| == 64 && forall t :: 0 <= t < 64 ==> schedule[t] == Schedule(data, t)
      ensures v == Rounds(start, data, 64)
    {
      v := start;
      for index := 0 to 64
        invariant v == Rounds(start, data, index)
      {
        RoundsStep(start, data, index);
        v := OneRound(v, RoundConstant(index), schedule[index]);
      }
    }

    /** The body of the round loop, on the eight working variables. */
    static method OneRound(v: Chain, k: word, w: word) returns (r: Chain)
      ensures r == Round(v, k, w)
    {
      var a, b, c, d := v.a, v.b, v.c, v.d;
      var e, f, g, h := v.e, v.f, v.g, v.h;
      var first := Add(Add(Add(Add(h, BigSigma1(e)), Ch(e, f, g)), k), w);
      var second := Add(BigSigma0(a), Maj(a, b, c));
      h := g;
      g := f;
      f := e;
      e := Add(d, first);
      d := c;
      c := b;
      b := a;
      a := Add(first, second);
      r := Chain(a, b, c, d, e, f, g, h);
    }

    /** The sixteen block words, and then each word from four earlier ones. */
    static method BuildSchedule(block: array<octet>) returns (schedule: seq<word>)
      requires block.Length == 64
      ensures |schedule| == 64 && forall t :: 0 <= t < 64 ==> schedule[t] == Schedule(block[..], t)
    {
      ghost var data := block[..];
      var w := new word[64];
      for index := 0 to 16
        invariant forall t :: 0 <= t < index ==> w[t] == Schedule(data, t)
      {
        w[index] := BlockWord(block[..], index);
      }
      for index := 16 to 64
        invariant forall t :: 0 <= t < index ==> w[t] == Schedule(data, t)
      {
        ScheduleStep(data, index);
        w[index] := NextWord(w[index - 16], w[index - 15], w[index - 7], w[index - 2]);
      }
      schedule := w[..];
    }
  }

  /** `sha256_hex` of one input. */
  method Sha256Hex(input: seq<byte>) returns (r: Option<seq<byte>>)
    ensures r == if |input| <= MAX_INPUT_BYTES then Some(DigestHex(input)) else None
  {
    var stream := new Stream();
    var ok := stream.Update(input);
    if !ok { return None; }
    var hex := stream.DigestHex();
    assert stream.absorbed == Bits(input);
    r := Some(hex);
  }

  lemma AddCommutes(x: word, y: word)
    ensures Add(x, y) == Add(y, x)
  {
  }

  /** The additions of the code, in its own order. */
  function NextWord(w16: word, w15: word, w7: word, w2: word): word {
    Add(Add(Add(w16, SmallSigma0(w15)), w7), SmallSigma1(w2))
  }

  lemma AddReverses(a: word, b: word, c: word, d: word)
    ensures Add(a, Add(b, Add(c, d))) == Add(Add(Add(d, c), b), a)
  {
    AddCommutes(a, Add(b, Add(c, d)));
    AddCommutes(b, Add(c, d));
    AddCommutes(c, d);
  }

  lemma RoundsStep(v: Chain, data: seq<octet>, n: nat)
    requires |data| == 64 && n < 64
    ensures Rounds(v, data, n + 1) == Round(Rounds(v, data, n), RoundConstant(n), Schedule(data, n))
  {
  }

  lemma ScheduleStep(data: seq<octet>, t: nat)
    requires |data| == 64 && t >= 16
    ensures Schedule(data, t)
         == NextWord(Schedule(data, t - 16), Schedule(data, t - 15), Schedule(data, t - 7), Schedule(data, t - 2))
  {
    AddReverses(SmallSigma1(Schedule(data, t - 2)), Schedule(data, t - 7), SmallSigma0(Schedule(data, t - 15)),
                Schedule(data, t - 16));
  }
}
