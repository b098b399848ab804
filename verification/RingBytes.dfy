/** Where a ring's operations put and find each byte: offsets from the channel's header. */
module RingBytes {
  import opened Words
  import opened Arithmetic
  import opened Ring

  lemma Around(p: int, n: int)
    requires n > 0 && -n <= p < 2 * n
    ensures p % n == if p < 0 then p + n else if p < n then p else p - n
  {
    if p < 0 {
      ModUnique(p, n, -1, p + n);
    } else if p < n {
      ModUnique(p, n, 0, p);
    } else {
      ModUnique(p, n, 1, p - n);
    }
  }

  /** Byte p of the slots after an insertion: the data lies from slot inIdx on, around the end,
      and every other byte stays. */
  lemma InsertedByte(s: seq<byte>, n: nat, z: nat, inIdx: nat, data: seq<byte>, k: nat, p: nat)
    requires |s| == Size(n, z) && inIdx < n && k < n && |data| == Size(k, z) && p < |s|
    ensures Inserted(s, n, z, inIdx, data, k)[p] ==
      var b := (p - Size(inIdx, z)) % |s|;
      if b < |data| then data[b] else s[p]
  {
    hide Size, Blit;
    SizeSum(inIdx, k, z);
    SizeDiff(n, inIdx, z);
    SizeMono(inIdx, n, z);
    SizeMono(k, n, z);
    var bi := Size(inIdx, z);
    Around(p - bi, |s|);
    if inIdx + k > n {
      SizeMono(n - inIdx, k, z);
      SizeMono(inIdx + k - n, n, z);
      SizeDiff(inIdx + k, n, z);
      var first := Size(n - inIdx, z);
      SizeMono(inIdx + k - n, inIdx, z);
      BlitByte(Blit(s, bi, data[..first]), 0, data[first..], p);
      BlitByte(s, bi, data[..first], p);
    } else {
      SizeMono(inIdx + k, n, z);
      BlitByte(s, bi, data, p);
    }
  }

  lemma BlitByte(m: seq<byte>, at: nat, d: seq<byte>, p: nat)
    requires at + |d| <= |m| && p < |m|
    ensures Blit(m, at, d)[p] == if at <= p < at + |d| then d[p - at] else m[p]
  {
  }

  /** Byte b of what an extraction takes. */
  lemma ExtractedByte(s: seq<byte>, n: nat, z: nat, outIdx: nat, k: nat, b: nat)
    requires |s| == Size(n, z) && outIdx < n && k < n && b < Size(k, z)
    ensures |s| > 0 && Extracted(s, n, z, outIdx, k)[b] == s[(Size(outIdx, z) + b) % |s|]
  {
    hide Size;
    SizeSum(outIdx, k, z);
    SizeMono(outIdx, n, z);
    SizeMono(k, n, z);
    SizeDiff(n, outIdx, z);
    Around(Size(outIdx, z) + b, |s|);
    if outIdx + k > n {
      SizeMono(outIdx + k - n, n, z);
      SizeDiff(outIdx + k, n, z);
    } else {
      SizeMono(outIdx + k, n, z);
    }
  }

  /** Every byte of the region after a write of k items: the write index is the word at 48 and
      advances modulo the word at 40; the items lie from 56 on, behind that index; nothing else
      changes. */
  lemma PushedByte(m: seq<byte>, r: nat, data: seq<byte>, k: nat, i: nat)
    requires Fits(m, r) && k <= Free(m, r) && |data| == Size(k, ItemSize(m, r)) && ItemSize(m, r) > 0
    requires i < |m|
    ensures var t, n, z := Pushed(m, r, data, k), GetU32(m, r + 40), GetU32(m, r + 44);
      var x, all := GetU32(m, r + 48), Size(n, z);
      && all > 0 && GetU32(t, r + 48) == (x + k) % n
      && (r + 48 <= i < r + 52 ||
          t[i] == if r + 56 <= i < r + 56 + all && (i - r - 56 - Size(x, z)) % all < |data| then
                    data[(i - r - 56 - Size(x, z)) % all]
                  else m[i])
  {
    hide Size, GetU32, LittleEndian, Inserted, Advance;
    var n, z, x := MaxNum(m, r), ItemSize(m, r), In(m, r);
    var slots := Inserted(Slots(m, r), n, z, x, data, k);
    PushedFacts(m, r, data, k);
    AdvanceIsModulo(x, k, n);
    SomeSize(n, z);
    var t := Pushed(m, r, data, k);
    if r + 56 <= i < r + 56 + Capacity(m, r) {
      InsertedByte(Slots(m, r), n, z, x, data, k, i - r - 56);
      assert t[i] == Slots(t, r)[i - r - 56];
    }
  }

  lemma SomeSize(n: nat, z: nat)
    requires n > 0 && z > 0
    ensures Size(n, z) > 0
  {
  }

  /** A read of k items takes the bytes from 56 on, behind the read index, which is the word at
      52 and advances modulo the word at 40; nothing else changes. */
  lemma TakenByte(m: seq<byte>, r: nat, k: nat, b: nat)
    requires Fits(m, r) && k <= Valid(m, r) && b < Size(k, ItemSize(m, r))
    ensures var n, z := GetU32(m, r + 40), GetU32(m, r + 44);
      && Size(n, z) > 0
      && r + 56 + (Size(GetU32(m, r + 52), z) + b) % Size(n, z) < |m|
      && Taken(m, r, k)[b] == m[r + 56 + (Size(GetU32(m, r + 52), z) + b) % Size(n, z)]
  {
    hide Size, GetU32, Extracted;
    ExtractedByte(Slots(m, r), MaxNum(m, r), ItemSize(m, r), Out(m, r), k, b);
  }

  lemma PoppedByte(m: seq<byte>, r: nat, k: nat, i: nat)
    requires Fits(m, r) && k <= Valid(m, r) && ItemSize(m, r) > 0 && i < |m|
    ensures GetU32(Popped(m, r, k), r + 52) == (GetU32(m, r + 52) + k) % GetU32(m, r + 40)
    ensures r + 52 <= i < r + 56 || Popped(m, r, k)[i] == m[i]
  {
    hide Size, GetU32, LittleEndian;
    AdvanceIsModulo(Out(m, r), k, MaxNum(m, r));
    GetPut(m, r + 52, Advance(Out(m, r), k, MaxNum(m, r)));
  }
}
