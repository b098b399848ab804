/** The repository's two CRC-32s: rtss_crc32_generate, which runs an MSB-first table over
    reflected bytes, and rtss_gpt_calc_crc32, which runs an LSB-first table from a seed. */
module Crc {
  import opened CrcBits
  import opened CrcWords
  import opened CrcTables

  // ---- the table-driven updates ----

  function ShiftUpByte(c: bv32): bv32 { c << 8 }

  function AtTop(b: bv8): bv32 { (b as bv32) << 24 }

  /** One byte through rtss_gpt_calc_crc32. */
  function LsbUpdate(c: bv32, b: bv8): bv32 {
    Xor32(ShiftDownByte(c), LsbTable(Xor8(Byte0(c), b)))
  }

  /** One byte through rtss_crc32_generate, which reflects it first. */
  function MsbUpdate(c: bv32, b: bv8): bv32 {
    Xor32(ShiftUpByte(c), MsbTable(Byte3(Xor32(c, AtTop(Reverse8(b))))))
  }

  function LsbFold(c: bv32, data: seq<bv8>): bv32
    decreases |data|
  {
    if data == [] then c else LsbFold(LsbUpdate(c, data[0]), data[1..])
  }

  function MsbFold(c: bv32, data: seq<bv8>): bv32
    decreases |data|
  {
    if data == [] then c else MsbFold(MsbUpdate(c, data[0]), data[1..])
  }

  /** What rtss_gpt_calc_crc32 returns; an empty buffer yields 0 whatever the seed. */
  function GptCrc(data: seq<bv8>, seed: bv32): bv32 {
    if data == [] then 0 else Xor32(LsbFold(Xor32(0xFFFFFFFF, seed), data), 0xFFFFFFFF)
  }

  /** What rtss_crc32_generate stores for a non-empty buffer. */
  function EthernetCrc(data: seq<bv8>): bv32 {
    Xor32(Reverse32(MsbFold(0xFFFFFFFF, data)), 0xFFFFFFFF)
  }

  // ---- the two tables drive mirrored registers ----

  lemma ReverseXor(x: bv32, y: bv32)
    ensures Reverse32(Xor32(x, y)) == Xor32(Reverse32(x), Reverse32(y))
  {
  }

  lemma ReverseShiftWord(c: bv32)
    ensures Reverse32(c << 8) == Reverse32(c) >> 8
  {
  }

  lemma ReverseShift(c: bv32)
    ensures Reverse32(ShiftUpByte(c)) == ShiftDownByte(Reverse32(c))
  {
    hide Reverse32;
    ReverseShiftWord(c);
  }

  lemma ReverseIndex(c: bv32, b: bv8)
    ensures Reverse8(Byte3(Xor32(c, AtTop(Reverse8(b))))) == Xor8(Byte0(Reverse32(c)), b)
  {
  }

  lemma ReverseUpdate(c: bv32, b: bv8)
    ensures Reverse32(MsbUpdate(c, b)) == LsbUpdate(Reverse32(c), b)
  {
    hide Reverse32, Reverse8, Xor32, Xor8, ShiftUpByte, ShiftDownByte, Byte0, Byte3, AtTop, LsbTable, MsbTable;
    var i := Byte3(Xor32(c, AtTop(Reverse8(b))));
    ReverseXor(ShiftUpByte(c), MsbTable(i));
    ReverseShift(c);
    MsbEntry(i);
    ReverseIndex(c, b);
  }

  lemma {:induction false} ReverseFold(c: bv32, data: seq<bv8>)
    ensures Reverse32(MsbFold(c, data)) == LsbFold(Reverse32(c), data)
    decreases |data|
  {
    hide Reverse32, MsbUpdate, LsbUpdate;
    if data != [] {
      ReverseUpdate(c, data[0]);
      ReverseFold(MsbUpdate(c, data[0]), data[1..]);
    }
  }

  /** The two implementations compute one function. */
  lemma GeneratorsAgree(data: seq<bv8>)
    requires data != []
    ensures EthernetCrc(data) == GptCrc(data, 0)
  {
    hide LsbFold, MsbFold;
    ReverseFold(0xFFFFFFFF, data);
    assert Reverse32(0xFFFFFFFF) == 0xFFFFFFFF;
    assert Xor32(0xFFFFFFFF, 0) == 0xFFFFFFFF;
  }

  // ---- and that function is the frame check sequence ----

  /** Transmission order: each octet least significant bit first. */
  function MessageBits(data: seq<bv8>): (bits: seq<bool>)
    ensures |bits| == 8 * |data|
  {
    if data == [] then [] else Octet(data[0]) + MessageBits(data[1..])
  }

  function Widen(b: bv8): bv32 { b as bv32 }

  lemma BytesOfWidened(b: bv8)
    ensures Byte0(Widen(b)) == b && Byte1(Widen(b)) == 0
    ensures Byte2(Widen(b)) == 0 && Byte3(Widen(b)) == 0
  {
  }

  lemma BitsWiden(b: bv8)
    ensures Bits(Widen(b)) == Octet(b) + Zeros(24)
  {
    hide Octet, Byte0, Byte1, Byte2, Byte3;
    BytesOfWidened(b);
    ZeroOctet();
  }

  lemma FourSteps(w: bv32)
    ensures Bits(StepWord(StepWord(StepWord(StepWord(w))))) == Steps(Bits(w), 4)
  {
    hide StepWord, Bits, Step;
    var w2 := StepWord(StepWord(w));
    BitsStep(w);
    BitsStep(StepWord(w));
    BitsStep(w2);
    BitsStep(StepWord(w2));
    assert Steps(Bits(w), 4) == Steps(Bits(StepWord(w)), 3) == Steps(Bits(w2), 2);
    assert Steps(Bits(w2), 2) == Steps(Bits(StepWord(w2)), 1);
  }

  lemma {:induction false} StepsAdd(s: Register, m: nat, n: nat)
    ensures Steps(s, m + n) == Steps(Steps(s, m), n)
    decreases m
  {
    if m > 0 {
      StepsAdd(Step(s), m - 1, n);
    }
  }

  lemma TableSteps(i: bv8)
    ensures Bits(LsbTable(i)) == Steps(Octet(i) + Zeros(24), 8)
  {
    hide Bits, Octet, LsbTable, StepWord, Steps;
    LsbEntry(i);
    BitsWiden(i);
    var half := StepWord(StepWord(StepWord(StepWord(Widen(i)))));
    FourSteps(Widen(i));
    FourSteps(half);
    StepsAdd(Bits(Widen(i)), 4, 4);
  }

  lemma BitsUpdate(c: bv32, b: bv8)
    ensures Bits(LsbUpdate(c, b)) == Run(Bits(c), Octet(b))
  {
    hide Octet, LsbTable, Xor32, Xor8, ShiftDownByte, Byte0, Byte1, Byte2, Byte3, Steps, Run, Xor, Shifted;
    var i := Xor8(Byte0(c), b);
    BitsXor(ShiftDownByte(c), LsbTable(i));
    BitsShiftByte(c);
    TableSteps(i);
    OctetXors(Byte0(c), b);
    ByteRun(Bits(c), Octet(b), Octet(i) + Zeros(24));
  }

  lemma {:induction false} BitsFold(c: bv32, data: seq<bv8>)
    ensures Bits(LsbFold(c, data)) == Run(Bits(c), MessageBits(data))
    decreases |data|
  {
    hide Bits, Octet, LsbUpdate;
    if data == [] {
      assert MessageBits(data) == [];
    } else {
      var next := LsbUpdate(c, data[0]);
      BitsUpdate(c, data[0]);
      BitsFold(next, data[1..]);
      RunAppend(Bits(c), Octet(data[0]), MessageBits(data[1..]));
    }
  }

  lemma BitsOfOnes()
    ensures Bits(0xFFFFFFFF) == Ones()
  {
    assert Byte0(0xFFFFFFFF) == 0xFF && Byte1(0xFFFFFFFF) == 0xFF;
    assert Byte2(0xFFFFFFFF) == 0xFF && Byte3(0xFFFFFFFF) == 0xFF;
    assert Octet(0xFF) == seq(8, _ => true);
  }

  lemma GptCrcBits(data: seq<bv8>)
    requires data != []
    ensures Bits(GptCrc(data, 0)) == Xor(Run(Ones(), MessageBits(data)), Ones())
  {
    hide Bits, LsbFold, Run;
    assert Xor32(0xFFFFFFFF, 0) == 0xFFFFFFFF;
    BitsFold(0xFFFFFFFF, data);
    BitsOfOnes();
    BitsXor(LsbFold(0xFFFFFFFF, data), 0xFFFFFFFF);
  }

  /** Both checksums are the frame check sequence of IEEE 802.3 clause 3.2.9: coefficient
      x^31 of the complemented remainder is bit 0 of the word. */
  lemma CrcIsFrameCheck(data: seq<bv8>)
    requires data != []
    ensures Bits(EthernetCrc(data)) == Bits(GptCrc(data, 0)) == FrameCheck(MessageBits(data))
  {
    hide Bits, Run, EthernetCrc, GptCrc;
    GeneratorsAgree(data);
    GptCrcBits(data);
    RunIsRemainder(Ones(), MessageBits(data));
  }

  // ---- error detection ----

  lemma {:induction false} MessageBitsAppend(a: seq<bv8>, b: seq<bv8>)
    ensures MessageBits(a + b) == MessageBits(a) + MessageBits(b)
    decreases |a|
  {
    hide Octet;
    if a == [] {
      assert a + b == b;
    } else {
      assert (a + b)[1..] == a[1..] + b;
      MessageBitsAppend(a[1..], b);
    }
  }

  lemma SameMasks(a: bv8, b: bv8)
    requires a & 0x01 != 0 <==> b & 0x01 != 0
    requires a & 0x02 != 0 <==> b & 0x02 != 0
    requires a & 0x04 != 0 <==> b & 0x04 != 0
    requires a & 0x08 != 0 <==> b & 0x08 != 0
    requires a & 0x10 != 0 <==> b & 0x10 != 0
    requires a & 0x20 != 0 <==> b & 0x20 != 0
    requires a & 0x40 != 0 <==> b & 0x40 != 0
    requires a & 0x80 != 0 <==> b & 0x80 != 0
    ensures a == b
  {
  }

  lemma SameOn(a: bv8, b: bv8, k: nat)
    requires k < 8 && Octet(a) == Octet(b)
    ensures a & Mask(k) != 0 <==> b & Mask(k) != 0
  {
    assert Octet(a)[k] == Octet(b)[k];
  }

  lemma OctetInjective(a: bv8, b: bv8)
    requires Octet(a) == Octet(b)
    ensures a == b
  {
    hide Octet, On;
    SameOn(a, b, 0);
    SameOn(a, b, 1);
    SameOn(a, b, 2);
    SameOn(a, b, 3);
    SameOn(a, b, 4);
    SameOn(a, b, 5);
    SameOn(a, b, 6);
    SameOn(a, b, 7);
    SameMasks(a, b);
  }

  lemma {:induction false} MessageBitsInjective(a: seq<bv8>, b: seq<bv8>)
    requires |a| == |b| && MessageBits(a) == MessageBits(b)
    ensures a == b
    decreases |a|
  {
    hide Octet;
    if a != [] {
      assert MessageBits(a)[..8] == Octet(a[0]) && MessageBits(a)[8..] == MessageBits(a[1..]);
      assert MessageBits(b)[..8] == Octet(b[0]) && MessageBits(b)[8..] == MessageBits(b[1..]);
      OctetInjective(a[0], b[0]);
      MessageBitsInjective(a[1..], b[1..]);
      assert a == [a[0]] + a[1..] && b == [b[0]] + b[1..];
    }
  }

  lemma XorOnesInjective(a: Register, b: Register)
    requires Xor(a, Ones()) == Xor(b, Ones())
    ensures a == b
  {
    forall i | 0 <= i < 32
      ensures a[i] == b[i]
    {
      assert Xor(a, Ones())[i] == Xor(b, Ones())[i];
    }
  }

  /** Any burst confined to 32 consecutive transmitted bits changes the checksum, in
      messages of every length. */
  lemma BurstErrorDetected(sent: seq<bv8>, received: seq<bv8>,
                           before: seq<bool>, u: seq<bool>, v: seq<bool>, after: seq<bool>)
    requires |u| == |v| <= 32 && u != v
    requires MessageBits(sent) == before + u + after
    requires MessageBits(received) == before + v + after
    ensures EthernetCrc(sent) != EthernetCrc(received)
  {
    hide Bits, Run, EthernetCrc, GptCrc, MessageBits;
    assert sent != [] && received != [] by {
      assert |before + u + after| > 0 && |before + v + after| > 0;
    }
    GeneratorsAgree(sent);
    GeneratorsAgree(received);
    GptCrcBits(sent);
    GptCrcBits(received);
    BurstDetected(Ones(), before, u, v, after);
    if EthernetCrc(sent) == EthernetCrc(received) {
      XorOnesInjective(Run(Ones(), MessageBits(sent)), Run(Ones(), MessageBits(received)));
      assert false;
    }
  }

  /** The same for a window of at most four bytes. */
  lemma WindowErrorDetected(before: seq<bv8>, u: seq<bv8>, v: seq<bv8>, after: seq<bv8>)
    requires |u| == |v| <= 4 && u != v
    ensures EthernetCrc(before + u + after) != EthernetCrc(before + v + after)
  {
    hide MessageBits, EthernetCrc;
    MessageBitsAppend(before + u, after);
    MessageBitsAppend(before, u);
    MessageBitsAppend(before + v, after);
    MessageBitsAppend(before, v);
    if MessageBits(u) == MessageBits(v) {
      MessageBitsInjective(u, v);
    }
    BurstErrorDetected(before + u + after, before + v + after,
                       MessageBits(before), MessageBits(u), MessageBits(v), MessageBits(after));
  }

  // ---- chaining ----

  lemma {:induction false} FoldAppend(c: bv32, a: seq<bv8>, b: seq<bv8>)
    ensures LsbFold(c, a + b) == LsbFold(LsbFold(c, a), b)
    decreases |a|
  {
    hide LsbUpdate;
    if a == [] {
      assert a + b == b;
    } else {
      assert (a + b)[1..] == a[1..] + b;
      FoldAppend(LsbUpdate(c, a[0]), a[1..], b);
    }
  }

  lemma Unseed(c: bv32)
    ensures Xor32(0xFFFFFFFF, Xor32(c, 0xFFFFFFFF)) == c
    ensures Xor32(Xor32(0xFFFFFFFF, c), 0xFFFFFFFF) == c
  {
  }

  lemma BytesOfBits(a: bv32, b: bv32)
    requires Byte0(a) == Byte0(b) && Byte1(a) == Byte1(b) && Byte2(a) == Byte2(b) && Byte3(a) == Byte3(b)
    ensures a == b
  {
  }

  lemma FourSlices(p: seq<bool>, q: seq<bool>, r: seq<bool>, s: seq<bool>, all: seq<bool>)
    requires |p| == |q| == |r| == |s| == 8 && all == p + q + r + s
    ensures all[0..8] == p && all[8..16] == q && all[16..24] == r && all[24..32] == s
  {
    var front, back := p + q, r + s;
    assert all == front + back;
    assert front[0..8] == p && front[8..16] == q && back[0..8] == r && back[8..16] == s;
    assert all[0..8] == front[0..8];
    assert all[8..16] == front[8..16];
    assert all[16..24] == back[0..8];
    assert all[24..32] == back[8..16];
  }

  lemma BitsInjective(a: bv32, b: bv32)
    requires Bits(a) == Bits(b)
    ensures a == b
  {
    hide Octet, Byte0, Byte1, Byte2, Byte3;
    var x, y := Bits(a), Bits(b);
    FourSlices(Octet(Byte0(a)), Octet(Byte1(a)), Octet(Byte2(a)), Octet(Byte3(a)), x);
    FourSlices(Octet(Byte0(b)), Octet(Byte1(b)), Octet(Byte2(b)), Octet(Byte3(b)), y);
    OctetInjective(Byte0(a), Byte0(b));
    OctetInjective(Byte1(a), Byte1(b));
    OctetInjective(Byte2(a), Byte2(b));
    OctetInjective(Byte3(a), Byte3(b));
    BytesOfBits(a, b);
  }

  /** Different states stay different over the same bytes. */
  lemma FoldInjective(c: bv32, d: bv32, data: seq<bv8>)
    ensures LsbFold(c, data) == LsbFold(d, data) <==> c == d
  {
    hide Bits, LsbFold, Run, MessageBits;
    BitsFold(c, data);
    BitsFold(d, data);
    if LsbFold(c, data) == LsbFold(d, data) {
      RunInjective(Bits(c), Bits(d), MessageBits(data));
      BitsInjective(c, d);
    }
  }

  lemma XorInjective(x: bv32, y: bv32, z: bv32)
    ensures Xor32(x, z) == Xor32(y, z) <==> x == y
    ensures Xor32(z, x) == Xor32(z, y) <==> x == y
  {
  }

  /** Over the same non-empty bytes, different seeds give different checksums. */
  lemma SeedsDistinguish(data: seq<bv8>, s: bv32, t: bv32)
    requires data != []
    ensures GptCrc(data, s) == GptCrc(data, t) <==> s == t
  {
    hide LsbFold, Xor32;
    XorInjective(s, t, 0xFFFFFFFF);
    FoldInjective(Xor32(0xFFFFFFFF, s), Xor32(0xFFFFFFFF, t), data);
    XorInjective(LsbFold(Xor32(0xFFFFFFFF, s), data), LsbFold(Xor32(0xFFFFFFFF, t), data), 0xFFFFFFFF);
  }

  /** A checksum taken in two pieces, the second seeded with the first, is the checksum of
      the whole if and only if both pieces carry the state on. An empty front yields 0 and
      so loses every other seed; an empty tail yields 0 and so loses every other checksum. */
  lemma Chaining(a: seq<bv8>, b: seq<bv8>, seed: bv32)
    ensures b != [] ==> (GptCrc(a + b, seed) == GptCrc(b, GptCrc(a, seed)) <==> a != [] || seed == 0)
    ensures b == [] ==> (GptCrc(a + b, seed) == GptCrc(b, GptCrc(a, seed)) <==> GptCrc(a, seed) == 0)
  {
    hide LsbFold, Xor32;
    if b == [] {
      assert a + b == a;
    } else if a == [] {
      assert a + b == b;
      SeedsDistinguish(b, seed, 0);
    } else {
      FoldAppend(Xor32(0xFFFFFFFF, seed), a, b);
      Unseed(LsbFold(Xor32(0xFFFFFFFF, seed), a));
    }
  }

  /** Both failures, at one byte: an empty tail after a zero byte, and an empty front with
      the seed 0xFFFFFFFF. */
  lemma ChainingFails()
    ensures GptCrc([0] + [], 0) != GptCrc([], GptCrc([0], 0))
    ensures GptCrc([] + [0], 0xFFFFFFFF) != GptCrc([0], GptCrc([], 0xFFFFFFFF))
  {
    hide LsbFold, Xor32;
    Chaining([], [0], 0xFFFFFFFF);
    ChecksumOfZero();
    Chaining([0], [], 0);
  }

  lemma ChecksumOfZero()
    ensures GptCrc([0], 0) == 0xD202EF8D
  {
    var start := Xor32(0xFFFFFFFF, 0);
    assert start == 0xFFFFFFFF;
    assert LsbFold(LsbUpdate(start, 0), []) == LsbUpdate(start, 0);
    assert Byte0(start) == 0xFF && Xor8(0xFF, 0) == 0xFF && ShiftDownByte(start) == 0x00FFFFFF;
  }
}
