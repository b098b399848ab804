/** The checksum routines as the C code runs them: loops over byte buffers. */
module CrcCode {
  import opened CrcWords
  import opened CrcTables
  import opened Crc

  datatype Status = Success | InvalidParameter | CrcError

  const CHANNELS: bv8 := 1

  // ---- words in byte buffers, little-endian ----

  function Stored(bytes: seq<bv8>, at: nat, w: bv32): (r: seq<bv8>)
    requires at + 4 <= |bytes|
    ensures |r| == |bytes|
  {
    bytes[..at] + [Byte0(w), Byte1(w), Byte2(w), Byte3(w)] + bytes[at + 4..]
  }

  function Joined(b0: bv8, b1: bv8, b2: bv8, b3: bv8): bv32 {
    (b0 as bv32) | ((b1 as bv32) << 8) | ((b2 as bv32) << 16) | ((b3 as bv32) << 24)
  }

  function Loaded(bytes: seq<bv8>, at: nat): bv32
    requires at + 4 <= |bytes|
  {
    Joined(bytes[at], bytes[at + 1], bytes[at + 2], bytes[at + 3])
  }

  lemma JoinedBytes(w: bv32)
    ensures Joined(Byte0(w), Byte1(w), Byte2(w), Byte3(w)) == w
  {
  }

  lemma LoadStored(bytes: seq<bv8>, at: nat, w: bv32)
    requires at + 4 <= |bytes|
    ensures Loaded(Stored(bytes, at, w), at) == w
    ensures Stored(Stored(bytes, at, w), at, 0) == Stored(bytes, at, 0)
  {
    hide Joined, Byte0, Byte1, Byte2, Byte3;
    JoinedBytes(w);
  }

  method StoreWord(a: array<bv8>, at: nat, w: bv32)
    requires at + 4 <= a.Length
    modifies a
    ensures a[..] == Stored(old(a[..]), at, w)
  {
    a[at] := Byte0(w);
    a[at + 1] := Byte1(w);
    a[at + 2] := Byte2(w);
    a[at + 3] := Byte3(w);
  }

  // ---- reflection ----

  /** `v & (1 << i)` as a condition. */
  predicate Test8(v: bv8, i: bv8)
    requires i < 8
  {
    v & (1 << i) != 0
  }

  /** `r |= 1 << i`. */
  function With8(r: bv8, i: bv8): bv8
    requires i < 8
  {
    r | (1 << i)
  }

  /** The i most significant bits of r. */
  function Upper8(r: bv8, i: bv8): bv8
    requires i <= 8
  {
    r & !(0xFF >> i)
  }

  lemma Mirror8(v: bv8, i: bv8)
    requires i < 8
    ensures Test8(v, i) <==> Test8(Reverse8(v), 7 - i)
  {
  }

  lemma UpperNext8(r: bv8, i: bv8)
    requires i < 8
    ensures Upper8(r, i + 1) == if Test8(r, 7 - i) then With8(Upper8(r, i), 7 - i) else Upper8(r, i)
  {
    Eight(i, 0);
  }

  lemma UpperEnds8(r: bv8)
    ensures Upper8(r, 0) == 0
    ensures Upper8(r, 8) == r
  {
  }

  method Reflect8(val: bv8) returns (res: bv8)
    ensures res == Reverse8(val)
  {
    hide Upper8, Test8, With8, Reverse8;
    UpperEnds8(Reverse8(val));
    res := 0;
    var i: bv8 := 0;
    while i < 8
      invariant i <= 8 && res == Upper8(Reverse8(val), i)
      decreases 8 - i
    {
      Mirror8(val, i);
      UpperNext8(Reverse8(val), i);
      if Test8(val, i) {
        res := With8(res, 7 - i);
      }
      i := i + 1;
    }
  }

  /** `v & (1 << i)` as a condition. */
  predicate Test32(v: bv32, i: bv8)
    requires i < 32
  {
    v & (1 << i) != 0
  }

  /** `r |= 1 << i`. */
  function With32(r: bv32, i: bv8): bv32
    requires i < 32
  {
    r | (1 << i)
  }

  /** The i most significant bits of r. */
  function Upper32(r: bv32, i: bv8): bv32
    requires i <= 32
  {
    r & !(0xFFFFFFFF >> i)
  }

  lemma Mirror32(v: bv32, i: bv8)
    requires i < 32
    ensures Test32(v, i) <==> Test32(Reverse32(v), 31 - i)
  {
  }

  predicate UpperStep(r: bv32, i: bv8)
    requires i < 32
  {
    Upper32(r, i + 1) == if Test32(r, 31 - i) then With32(Upper32(r, i), 31 - i) else Upper32(r, i)
  }

  lemma UpperStep0(r: bv32, i: bv8)
    requires 0 <= i < 8
    ensures UpperStep(r, i)
  {
    Eight(i, 0);
  }

  lemma UpperStep1(r: bv32, i: bv8)
    requires 8 <= i < 16
    ensures UpperStep(r, i)
  {
    Eight(i, 8);
  }

  lemma UpperStep2(r: bv32, i: bv8)
    requires 16 <= i < 24
    ensures UpperStep(r, i)
  {
    Eight(i, 16);
  }

  lemma UpperStep3(r: bv32, i: bv8)
    requires 24 <= i < 32
    ensures UpperStep(r, i)
  {
    Eight(i, 24);
  }

  lemma UpperNext32(r: bv32, i: bv8)
    requires i < 32
    ensures UpperStep(r, i)
  {
    if i < 8 { UpperStep0(r, i); }
    else if i < 16 { UpperStep1(r, i); }
    else if i < 24 { UpperStep2(r, i); }
    else { UpperStep3(r, i); }
  }

  lemma UpperEnds32(r: bv32)
    ensures Upper32(r, 0) == 0
    ensures Upper32(r, 32) == r
  {
  }

  method Reflect32(val: bv32) returns (res: bv32)
    ensures res == Reverse32(val)
  {
    hide Upper32, Test32, With32, Reverse32;
    UpperEnds32(Reverse32(val));
    res := 0;
    var i: bv8 := 0;
    while i < 32
      invariant i <= 32 && res == Upper32(Reverse32(val), i)
      decreases 32 - i
    {
      Mirror32(val, i);
      UpperNext32(Reverse32(val), i);
      if Test32(val, i) {
        res := With32(res, 31 - i);
      }
      i := i + 1;
    }
  }

  // ---- rtss_crc32_generate and rtss_crc32_verify ----

  function Window(bytes: seq<bv8>, at: nat, length: nat): seq<bv8>
    requires at + length <= |bytes|
  {
    bytes[at..at + length]
  }

  predicate Rejected(channel: bv8, buffer: array?<bv8>, length: nat, out: array?<bv8>) {
    buffer == null || out == null || length == 0 || channel >= CHANNELS
  }

  lemma UpdateDef(c: bv32, b: bv8)
    ensures MsbUpdate(c, b) == Xor32(ShiftUpByte(c), MsbTable(Byte3(Xor32(c, AtTop(Reverse8(b))))))
  {
  }

  lemma EthernetDef(data: seq<bv8>)
    ensures EthernetCrc(data) == Xor32(Reverse32(MsbFold(0xFFFFFFFF, data)), 0xFFFFFFFF)
  {
  }

  /** The result may be stored anywhere, inside the checksummed bytes included: it is
      written only after the last byte has been read. */
  method Generate(channel: bv8, buffer: array?<bv8>, at: nat, length: nat, out: array?<bv8>, outAt: nat)
    returns (status: Status)
    requires buffer != null ==> at + length <= buffer.Length
    requires out != null ==> outAt + 4 <= out.Length
    modifies if out == null then {} else {out}
    ensures status == if Rejected(channel, buffer, length, out) then InvalidParameter else Success
    ensures out != null ==>
      out[..] == if Rejected(channel, buffer, length, out) then old(out[..])
                 else Stored(old(out[..]), outAt, EthernetCrc(old(Window(buffer[..], at, length))))
  {
    hide Reverse8, Reverse32, Xor32, ShiftUpByte, MsbTable, Byte0, Byte1, Byte2, Byte3, AtTop, MsbUpdate, EthernetCrc;
    if Rejected(channel, buffer, length, out) {
      return InvalidParameter;
    }
    ghost var data := Window(buffer[..], at, length);
    var crc: bv32 := 0xFFFFFFFF;
    var i := 0;
    while i < length
      invariant i <= length && MsbFold(crc, data[i..]) == MsbFold(0xFFFFFFFF, data)
      modifies {}
    {
      var tmp := Reflect8(buffer[at + i]);
      var lutidx := Byte3(Xor32(crc, AtTop(tmp)));
      UpdateDef(crc, data[i]);
      assert data[i..][0] == data[i] && data[i..][1..] == data[i + 1..];
      crc := Xor32(ShiftUpByte(crc), MsbTable(lutidx));
      i := i + 1;
    }
    EthernetDef(data);
    assert data[i..] == [];
    crc := Reflect32(crc);
    StoreWord(out, outAt, Xor32(crc, 0xFFFFFFFF));
    return Success;
  }

  method Verify(channel: bv8, buffer: array?<bv8>, at: nat, length: nat, expected: bv32) returns (status: Status)
    requires buffer != null ==> at + length <= buffer.Length
    ensures status.InvalidParameter? <==> buffer == null || length == 0 || channel >= CHANNELS
    ensures buffer != null && status != InvalidParameter ==>
      (status == Success <==> EthernetCrc(Window(buffer[..], at, length)) == expected)
  {
    hide EthernetCrc, Joined, Byte0, Byte1, Byte2, Byte3;
    var checking := new bv8[4](_ => 0);
    status := Generate(channel, buffer, at, length, checking, 0);
    if status == Success {
      ghost var crc := EthernetCrc(Window(buffer[..], at, length));
      JoinedBytes(crc);
      assert checking[..] == [Byte0(crc), Byte1(crc), Byte2(crc), Byte3(crc)];
      assert checking[0] == Byte0(crc) && checking[1] == Byte1(crc);
      assert checking[2] == Byte2(crc) && checking[3] == Byte3(crc);
      if Joined(checking[0], checking[1], checking[2], checking[3]) != expected {
        status := CrcError;
      }
    }
  }

  // ---- rtss_gpt_calc_crc32 ----

  lemma LsbUpdateDef(c: bv32, b: bv8)
    ensures LsbUpdate(c, b) == Xor32(ShiftDownByte(c), LsbTable(Xor8(Byte0(c), b)))
  {
  }

  method CalcCrc32(data: array?<bv8>, at: nat, nbytes: nat, seed: bv32) returns (crc: bv32)
    requires data != null ==> at + nbytes <= data.Length
    ensures data == null ==> crc == 0
    ensures data != null ==> crc == GptCrc(Window(data[..], at, nbytes), seed)
  {
    hide Xor32, Xor8, ShiftDownByte, Byte0, LsbTable, LsbUpdate;
    crc := 0;
    if data != null && nbytes != 0 {
      ghost var bytes := Window(data[..], at, nbytes);
      ghost var start := Xor32(0xFFFFFFFF, seed);
      crc := Xor32(0xFFFFFFFF, seed);
      var pos := 0;
      while pos < nbytes
        invariant pos <= nbytes && LsbFold(crc, bytes[pos..]) == LsbFold(start, bytes)
      {
        LsbUpdateDef(crc, bytes[pos]);
        assert bytes[pos..][0] == bytes[pos] && bytes[pos..][1..] == bytes[pos + 1..];
        crc := Xor32(ShiftDownByte(crc), LsbTable(Xor8(Byte0(crc), data[at + pos])));
        pos := pos + 1;
      }
      assert bytes[pos..] == [];
      crc := Xor32(crc, 0xFFFFFFFF);
    }
  }
}
