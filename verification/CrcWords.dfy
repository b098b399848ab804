/** Machine words as coefficient sequences. */
module CrcWords {
  import opened CrcBits

  // Word operations are named so that the solver meets them one at a time.

  function Xor8(a: bv8, b: bv8): bv8 { a ^ b }

  function Xor32(a: bv32, b: bv32): bv32 { a ^ b }

  function ShiftDown(w: bv32): bv32 { w >> 1 }

  function ShiftDownByte(w: bv32): bv32 { w >> 8 }

  function Byte0(w: bv32): bv8 { (w & 0xFF) as bv8 }

  function Byte1(w: bv32): bv8 { ((w >> 8) & 0xFF) as bv8 }

  function Byte2(w: bv32): bv8 { ((w >> 16) & 0xFF) as bv8 }

  function Byte3(w: bv32): bv8 { (w >> 24) as bv8 }

  function Mask(k: nat): bv8
    requires k < 8
  {
    if k == 0 then 0x01 else if k == 1 then 0x02 else if k == 2 then 0x04 else if k == 3 then 0x08
    else if k == 4 then 0x10 else if k == 5 then 0x20 else if k == 6 then 0x40 else 0x80
  }

  predicate On(b: bv8, k: nat)
    requires k < 8
  {
    b & Mask(k) != 0
  }

  /** The bits of an octet, least significant first. */
  function Octet(b: bv8): (bits: seq<bool>)
    ensures |bits| == 8
  {
    seq(8, k requires 0 <= k < 8 => On(b, k))
  }

  /** The bits of a word, least significant first. */
  function Bits(w: bv32): Register {
    Octet(Byte0(w)) + Octet(Byte1(w)) + Octet(Byte2(w)) + Octet(Byte3(w))
  }

  ghost predicate XorsTo(a: seq<bool>, b: seq<bool>, c: seq<bool>) {
    |a| == |b| == |c| == 8 && forall k: nat | k < 8 :: c[k] == (a[k] != b[k])
  }

  lemma OneHotXor(a: bv8, b: bv8, m: bv8)
    requires m != 0 && m & (m - 1) == 0
    ensures Xor8(a, b) & m != 0 <==> (a & m != 0) != (b & m != 0)
  {
  }

  lemma OnXor(a: bv8, b: bv8, k: nat)
    requires k < 8
    ensures On(Xor8(a, b), k) == (On(a, k) != On(b, k))
  {
    hide Xor8;
    OneHotXor(a, b, Mask(k));
  }

  lemma OctetXors(a: bv8, b: bv8)
    ensures XorsTo(Octet(a), Octet(b), Octet(Xor8(a, b)))
  {
    hide Xor8, On;
    forall k: nat | k < 8
      ensures Octet(Xor8(a, b))[k] == (Octet(a)[k] != Octet(b)[k])
    {
      OnXor(a, b, k);
    }
  }

  lemma XorQuarters(a0: seq<bool>, a1: seq<bool>, a2: seq<bool>, a3: seq<bool>,
                    b0: seq<bool>, b1: seq<bool>, b2: seq<bool>, b3: seq<bool>,
                    c0: seq<bool>, c1: seq<bool>, c2: seq<bool>, c3: seq<bool>)
    requires XorsTo(a0, b0, c0) && XorsTo(a1, b1, c1) && XorsTo(a2, b2, c2) && XorsTo(a3, b3, c3)
    ensures c0 + c1 + c2 + c3 == Xor(a0 + a1 + a2 + a3, b0 + b1 + b2 + b3)
  {
  }

  lemma Byte0Xor(x: bv32, y: bv32)
    ensures Byte0(Xor32(x, y)) == Xor8(Byte0(x), Byte0(y))
  {
  }

  lemma Byte1Xor(x: bv32, y: bv32)
    ensures Byte1(Xor32(x, y)) == Xor8(Byte1(x), Byte1(y))
  {
  }

  lemma Byte2Xor(x: bv32, y: bv32)
    ensures Byte2(Xor32(x, y)) == Xor8(Byte2(x), Byte2(y))
  {
  }

  lemma Byte3Xor(x: bv32, y: bv32)
    ensures Byte3(Xor32(x, y)) == Xor8(Byte3(x), Byte3(y))
  {
  }

  lemma BitsXor(x: bv32, y: bv32)
    ensures Bits(Xor32(x, y)) == Xor(Bits(x), Bits(y))
  {
    hide Octet, Xor8, Xor32, Byte0, Byte1, Byte2, Byte3, XorsTo, Xor;
    Byte0Xor(x, y);
    Byte1Xor(x, y);
    Byte2Xor(x, y);
    Byte3Xor(x, y);
    OctetXors(Byte0(x), Byte0(y));
    OctetXors(Byte1(x), Byte1(y));
    OctetXors(Byte2(x), Byte2(y));
    OctetXors(Byte3(x), Byte3(y));
    XorQuarters(Octet(Byte0(x)), Octet(Byte1(x)), Octet(Byte2(x)), Octet(Byte3(x)),
                Octet(Byte0(y)), Octet(Byte1(y)), Octet(Byte2(y)), Octet(Byte3(y)),
                Octet(Xor8(Byte0(x), Byte0(y))), Octet(Xor8(Byte1(x), Byte1(y))),
                Octet(Xor8(Byte2(x), Byte2(y))), Octet(Xor8(Byte3(x), Byte3(y))));
  }

  function Slide(lo: bv8, hi: bv8): bv8 { (lo >> 1) | (hi << 7) }

  lemma SlideAt(lo: bv8, hi: bv8, m: bv8, next: bv8)
    requires m & 0x80 == 0 && next == m << 1
    ensures Slide(lo, hi) & m != 0 <==> lo & next != 0
  {
  }

  lemma SlideTop(lo: bv8, hi: bv8)
    ensures Slide(lo, hi) & 0x80 != 0 <==> hi & 0x01 != 0
  {
  }

  lemma OnSlide(lo: bv8, hi: bv8, k: nat)
    requires k < 8
    ensures On(Slide(lo, hi), k) == if k < 7 then On(lo, k + 1) else On(hi, 0)
  {
    hide Slide;
    if k < 7 {
      SlideAt(lo, hi, Mask(k), Mask(k + 1));
    } else {
      SlideTop(lo, hi);
    }
  }

  lemma OctetSlide(lo: bv8, hi: bv8)
    ensures Octet(Slide(lo, hi)) == Octet(lo)[1..] + [Octet(hi)[0]]
  {
    hide On, Slide;
    forall k: nat | k < 8
      ensures Octet(Slide(lo, hi))[k] == if k < 7 then Octet(lo)[k + 1] else Octet(hi)[0]
    {
      OnSlide(lo, hi, k);
    }
  }

  lemma BytesOfShift(w: bv32)
    ensures Byte0(ShiftDown(w)) == Slide(Byte0(w), Byte1(w))
    ensures Byte1(ShiftDown(w)) == Slide(Byte1(w), Byte2(w))
    ensures Byte2(ShiftDown(w)) == Slide(Byte2(w), Byte3(w))
    ensures Byte3(ShiftDown(w)) == Slide(Byte3(w), 0)
  {
  }

  lemma BitsShift(w: bv32)
    ensures Bits(ShiftDown(w)) == Shifted(Bits(w), 1)
  {
    hide Octet, Slide, ShiftDown, Byte0, Byte1, Byte2, Byte3;
    BytesOfShift(w);
    OctetSlide(Byte0(w), Byte1(w));
    OctetSlide(Byte1(w), Byte2(w));
    OctetSlide(Byte2(w), Byte3(w));
    OctetSlide(Byte3(w), 0);
    ZeroOctet();
  }

  lemma ZeroOctet()
    ensures Octet(0) == Zeros(8)
  {
  }

  lemma BytesOfByteShift(w: bv32)
    ensures Byte0(ShiftDownByte(w)) == Byte1(w)
    ensures Byte1(ShiftDownByte(w)) == Byte2(w)
    ensures Byte2(ShiftDownByte(w)) == Byte3(w)
    ensures Byte3(ShiftDownByte(w)) == 0
  {
  }

  lemma BitsShiftByte(w: bv32)
    ensures Bits(ShiftDownByte(w)) == Shifted(Bits(w), 8)
  {
    hide Octet, ShiftDownByte, Byte0, Byte1, Byte2, Byte3;
    BytesOfByteShift(w);
    ZeroOctet();
  }

  /** One shift of the LSB-first register; 0xEDB88320 is G(x) - x^32 read backwards. */
  function StepWord(w: bv32): bv32 {
    if w & 1 == 1 then Xor32(ShiftDown(w), 0xEDB88320) else ShiftDown(w)
  }

  lemma FeedbackByte(b: bv8, at: nat, k: nat)
    requires at + k < 32 && k < 8
    requires (b, at) in {(0x20, 0), (0x83, 8), (0xB8, 16), (0xED, 24)}
    ensures On(b, k) == Coefficient(31 - (at + k))
  {
  }

  lemma FeedbackWord(k: nat)
    requires k < 32
    ensures Bits(0xEDB88320)[k] == Coefficient(31 - k)
  {
    hide On, Coefficient;
    assert Byte0(0xEDB88320) == 0x20 && Byte1(0xEDB88320) == 0x83;
    assert Byte2(0xEDB88320) == 0xB8 && Byte3(0xEDB88320) == 0xED;
    if k < 8 {
      FeedbackByte(0x20, 0, k);
    } else if k < 16 {
      FeedbackByte(0x83, 8, k - 8);
    } else if k < 24 {
      FeedbackByte(0xB8, 16, k - 16);
    } else {
      FeedbackByte(0xED, 24, k - 24);
    }
  }

  lemma LowBit(w: bv32)
    ensures w & 1 == 1 <==> Bits(w)[0]
  {
    assert Octet(Byte0(w))[0] == On(Byte0(w), 0);
    assert On(Byte0(w), 0) == (Byte0(w) & 1 != 0);
  }

  lemma BitsStep(w: bv32)
    ensures Bits(StepWord(w)) == Step(Bits(w))
  {
    hide Bits, ShiftDown, Xor32;
    LowBit(w);
    BitsShift(w);
    BitsXor(ShiftDown(w), 0xEDB88320);
    forall k: nat | k < 32
      ensures Bits(StepWord(w))[k] == Step(Bits(w))[k]
    {
      FeedbackWord(k);
    }
  }
}
