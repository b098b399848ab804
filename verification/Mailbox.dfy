/** The mailbox library on one flat byte region: creation, and the channel operations.

    Offsets follow the packed C structures: a 32-byte mailbox header (name 0, magic 16,
    mb_size 20, mb_prio 24, num_of_sub_region 28), then 8 bytes per channel (start, end). */
module Mailbox {
  import opened Words
  import opened Copy
  import Layout
  import opened Ring

  const MAGIC: u32 := 0x4D4C3130

  const E_NULL_INPUT: int := -11
  const E_INVALID_CFG: int := -22
  const E_INVALID_INDEX: int := -33
  const E_INVALID_MAILBOX: int := -44
  const E_NO_ENOUGH_BUF: int := -55
  const E_CORRUPT_MAILBOX: int := -66

  // ---- the header table ----

  function Magic(m: seq<byte>): u32
    requires 40 <= |m|
  {
    GetU32(m, 16)
  }

  function NumRegions(m: seq<byte>): u32
    requires 40 <= |m|
  {
    GetU32(m, 28)
  }

  function Start(m: seq<byte>, i: nat): u32
    requires 40 + 8 * i <= |m|
  {
    GetU32(m, 32 + 8 * i)
  }

  function End(m: seq<byte>, i: nat): u32
    requires 40 + 8 * i <= |m|
  {
    GetU32(m, 36 + 8 * i)
  }

  /** Channel i lies after the table, and its area holds its header and items. */
  ghost predicate ChannelFits(m: seq<byte>, i: nat)
    requires 40 + 8 * i <= |m|
  {
    && HasHeader(m, Start(m, i))
    && Start(m, i) + HEADER + Capacity(m, Start(m, i)) <= End(m, i) + 1 <= |m|
  }

  /** The structure that creation establishes and every operation relies on. */
  ghost predicate Formed(m: seq<byte>) {
    && 40 <= |m|
    && 0 < NumRegions(m) <= Layout.MAX_SUB_REGIONS
    && 32 + 8 * NumRegions(m) <= |m|
    && (forall i | 0 <= i < NumRegions(m) :: 32 + 8 * NumRegions(m) <= Start(m, i) && ChannelFits(m, i))
    && (forall i, j | 0 <= i < j < NumRegions(m) :: End(m, i) < Start(m, j))
  }

  /** A mapped region: either not yet created, or created properly. */
  ghost predicate Mapped(m: seq<byte>) {
    40 <= |m| && (Magic(m) == MAGIC ==> Formed(m))
  }

  /** The checks every operation makes first: magic, index, sanity of the ring. */
  function Guard(m: seq<byte>, i: u32): int
    requires Mapped(m)
  {
    if Magic(m) != MAGIC then E_INVALID_MAILBOX
    else if i >= NumRegions(m) then E_INVALID_INDEX
    else if !Sane(m, Start(m, i)) then E_CORRUPT_MAILBOX
    else 0
  }

  /** A channel the operations accept. */
  ghost predicate Usable(m: seq<byte>, i: u32) {
    Mapped(m) && Guard(m, i) == 0
  }

  lemma UsableFits(m: seq<byte>, i: u32)
    requires Usable(m, i)
    ensures i < NumRegions(m) && Fits(m, Start(m, i)) && Capacity(m, Start(m, i)) < TWO32
  {
    assert ChannelFits(m, i);
  }

  // ---- register access ----

  method GetReg(mb: Memory, at: nat) returns (v: u32)
    requires mb.Memory? && at + 4 <= mb.cells.Length
    ensures v == GetU32(mb.cells[..], at)
  {
    v := Joined(mb.cells[at], mb.cells[at + 1], mb.cells[at + 2], mb.cells[at + 3]);
  }

  method SetReg(mb: Memory, at: nat, v: u32)
    requires mb.Memory? && at + 4 <= mb.cells.Length
    modifies mb.cells
    ensures mb.cells[..] == PutU32(old(mb.cells[..]), at, v)
  {
    var s := LittleEndian(v);
    forall k | 0 <= k < 4 {
      mb.cells[at + k] := s[k];
    }
  }

  // ---- the internal helpers ----

  method SanityCheck(mb: Memory, r: nat) returns (ok: bool)
    requires mb.Memory? && HasHeader(mb.cells[..], r)
    ensures ok == Sane(mb.cells[..], r)
  {
    hide GetU32;
    var maxNum := GetReg(mb, r + 40);
    var maxSize := GetReg(mb, r + 44);
    var writeIndex := GetReg(mb, r + 48);
    var readIndex := GetReg(mb, r + 52);
    ok := !(maxNum > Layout.MAX_ITEMS || maxSize > MAX_SIZE || writeIndex >= maxNum || readIndex >= maxNum);
  }

  method ValidItem(mb: Memory, r: nat) returns (num: u32)
    requires mb.Memory? && HasHeader(mb.cells[..], r) && Sane(mb.cells[..], r)
    ensures num == Valid(mb.cells[..], r)
  {
    hide GetU32, W32;
    var writeIndex := GetReg(mb, r + 48);
    var readIndex := GetReg(mb, r + 52);
    if writeIndex >= readIndex {
      num := W32(writeIndex - readIndex);
    } else {
      var maxNum := GetReg(mb, r + 40);
      num := W32(W32(maxNum - readIndex) + writeIndex);
    }
  }

  method FreeItem(mb: Memory, r: nat) returns (num: u32)
    requires mb.Memory? && HasHeader(mb.cells[..], r) && Sane(mb.cells[..], r)
    ensures num == Free(mb.cells[..], r)
  {
    hide GetU32, W32;
    var writeIndex := GetReg(mb, r + 48);
    var readIndex := GetReg(mb, r + 52);
    var maxNum := GetReg(mb, r + 40);
    if writeIndex >= readIndex {
      num := W32(W32(maxNum - writeIndex) + readIndex);
    } else {
      num := W32(readIndex - writeIndex);
    }
    num := W32(num - 1);
  }

  lemma BlitInner(m: seq<byte>, base: nat, len: nat, off: nat, d: seq<byte>)
    requires base + len <= |m| && off + |d| <= len
    ensures Blit(m, base, Blit(m[base..base + len], off, d)) == Blit(m, base + off, d)
    ensures Blit(m, base + off, d)[base..base + len] == Blit(m[base..base + len], off, d)
  {
  }

  lemma BlitOver(m: seq<byte>, base: nat, a: seq<byte>, b: seq<byte>)
    requires base + |a| <= |m| && |a| == |b|
    ensures Blit(Blit(m, base, a), base, b) == Blit(m, base, b)
  {
  }

  /** Two copies into one window, as one replacement of the window. */
  lemma BlitInnerTwice(m: seq<byte>, base: nat, len: nat, off: nat, d: seq<byte>, e: seq<byte>)
    requires base + len <= |m| && off + |d| <= len && |e| <= len
    ensures Blit(m, base, Blit(Blit(m[base..base + len], off, d), 0, e)) == Blit(Blit(m, base + off, d), base, e)
  {
    hide Blit;
    var window := Blit(m[base..base + len], off, d);
    BlitInner(m, base, len, off, d);
    BlitInner(Blit(m, base + off, d), base, len, 0, e);
    BlitOver(m, base, window, Blit(window, 0, e));
  }

  /** Byte counts of a write stay within the capacity. */
  lemma PushFits(m: seq<byte>, r: nat, k: nat)
    requires Fits(m, r) && k <= Free(m, r)
    ensures var n, z, index := MaxNum(m, r), ItemSize(m, r), In(m, r);
      && Size(index, z) + Size(n - index, z) == Capacity(m, r) && Size(k, z) <= Capacity(m, r)
      && (index + k > n ==> Size(index + k - n, z) <= Capacity(m, r))
  {
    hide GetU32, Size;
    SizeSum(In(m, r), MaxNum(m, r) - In(m, r), ItemSize(m, r));
    SizeMono(k, MaxNum(m, r), ItemSize(m, r));
    if In(m, r) + k > MaxNum(m, r) {
      SizeMono(In(m, r) + k - MaxNum(m, r), MaxNum(m, r), ItemSize(m, r));
    }
  }

  lemma InsertedWraps(s: seq<byte>, n: nat, z: nat, index: nat, data: seq<byte>, k: nat, at: nat, first: nat)
    requires |s| == Size(n, z) && index < n && k < n && |data| == Size(k, z) && index + k > n
    requires at == Size(index, z) && first == Size(n - index, z)
    ensures first <= |data| && at + first <= |s| && |data| - first <= |s|
    ensures Inserted(s, n, z, index, data, k) == Blit(Blit(s, at, data[..first]), 0, data[first..])
  {
    hide Size, Blit;
    SizeMono(n - index, k, z);
    SizeDiff(n, index, z);
    SizeMono(index, n, z);
    SizeMono(k, n, z);
  }

  /** The two copies of a write that runs past the last slot, and the index store. */
  lemma PushWraps(m: seq<byte>, r: nat, data: seq<byte>, k: nat, ring: nat, at: nat, first: nat, rest: nat)
    requires Fits(m, r) && k <= Free(m, r) && |data| == Size(k, ItemSize(m, r)) && ItemSize(m, r) > 0
    requires In(m, r) + k > MaxNum(m, r) && ring == r + HEADER
    requires at == Size(In(m, r), ItemSize(m, r)) && first == Size(MaxNum(m, r) - In(m, r), ItemSize(m, r))
    requires rest == Size(In(m, r) + k - MaxNum(m, r), ItemSize(m, r))
    ensures ring + at + first <= |m| && ring + rest <= |m| && first + rest == |data|
    ensures var copied := Blit(Blit(m, ring + at, data[..first]), ring, data[first..]);
      Pushed(m, r, data, k) == PutU32(copied, r + 48, Advance(In(m, r), k, MaxNum(m, r)))
  {
    hide GetU32, Size, Blit, LittleEndian, Advance, Inserted;
    var n, z, index := MaxNum(m, r), ItemSize(m, r), In(m, r);
    PushFits(m, r, k);
    SizeMono(n - index, k, z);
    SizeDiff(k, n - index, z);
    InsertedWraps(Slots(m, r), n, z, index, data, k, at, first);
    BlitInnerTwice(m, ring, Capacity(m, r), at, data[..first], data[first..]);
  }

  /** The one copy of a write that does not, and the index store. */
  lemma PushStraight(m: seq<byte>, r: nat, data: seq<byte>, k: nat, ring: nat, at: nat)
    requires Fits(m, r) && k <= Free(m, r) && |data| == Size(k, ItemSize(m, r)) && ItemSize(m, r) > 0
    requires In(m, r) + k <= MaxNum(m, r) && ring == r + HEADER && at == Size(In(m, r), ItemSize(m, r))
    ensures ring + at + |data| <= |m|
    ensures Pushed(m, r, data, k) == PutU32(Blit(m, ring + at, data), r + 48, Advance(In(m, r), k, MaxNum(m, r)))
  {
    hide GetU32, Size, Blit, LittleEndian, Advance;
    SizeSum(In(m, r), k, ItemSize(m, r));
    SizeMono(In(m, r) + k, MaxNum(m, r), ItemSize(m, r));
    BlitInner(m, ring, Capacity(m, r), at, data);
  }

  lemma PushNothing(m: seq<byte>, r: nat, data: seq<byte>, k: nat)
    requires Fits(m, r) && k <= Free(m, r) && |data| == Size(k, ItemSize(m, r)) && ItemSize(m, r) == 0
    ensures Pushed(m, r, data, k) == m
  {
  }

  /** The two copies of a write that runs past the last slot. */
  method CopyIn(mb: Memory, at: nat, ring: nat, src: Memory, first: u32, rest: u32)
    requires mb.Memory? && src.Memory? && mb.cells != src.cells
    requires at + first <= mb.cells.Length && ring + rest <= mb.cells.Length
    requires first + rest <= src.cells.Length
    modifies mb.cells
    ensures mb.cells[..] ==
      var data := src.cells[..first + rest];
      Blit(Blit(old(mb.cells[..]), at, data[..first]), ring, data[first..])
  {
    hide Blit;
    ghost var data := src.cells[..first + rest];
    assert src.cells[0..0 + first] == data[..first];
    CopyBytes(mb, at, src, 0, first);
    assert src.cells[first..first + rest] == data[first..];
    CopyBytes(mb, ring, src, first, rest);
  }

  /** The two copies of a read that runs past the last slot. */
  method CopyOut(dest: Memory, mb: Memory, at: nat, ring: nat, first: u32, rest: u32)
    requires mb.Memory? && dest.Memory? && mb.cells != dest.cells
    requires at + first <= mb.cells.Length && ring + rest <= mb.cells.Length
    requires first + rest <= dest.cells.Length
    modifies dest.cells
    ensures dest.cells[..] ==
      Blit(old(dest.cells[..]), 0, mb.cells[..][at..at + first] + mb.cells[..][ring..ring + rest])
  {
    hide Blit;
    assert mb.cells[..][at..at + first] == mb.cells[at..at + first];
    assert mb.cells[..][ring..ring + rest] == mb.cells[ring..ring + rest];
    BlitTwice(dest.cells[..], 0, mb.cells[at..at + first], mb.cells[ring..ring + rest]);
    CopyBytes(dest, 0, mb, at, first);
    CopyBytes(dest, first, mb, ring, rest);
  }

  /** The one copy of a read that does not. */
  method CopyStraight(dest: Memory, mb: Memory, at: nat, all: u32)
    requires mb.Memory? && dest.Memory? && mb.cells != dest.cells
    requires at + all <= mb.cells.Length && all <= dest.cells.Length
    modifies dest.cells
    ensures dest.cells[..] == Blit(old(dest.cells[..]), 0, mb.cells[..][at..at + all])
  {
    hide Blit;
    assert mb.cells[..][at..at + all] == mb.cells[at..at + all];
    CopyBytes(dest, 0, mb, at, all);
  }

  /** `set_reg(&base->..._index, (index + item_num) % item_ring_buffer_size)`. */
  method Publish(mb: Memory, at: nat, index: u32, itemNum: u32, n: u32)
    requires mb.Memory? && at + 4 <= mb.cells.Length && index < n <= Layout.MAX_ITEMS && itemNum < n
    modifies mb.cells
    ensures mb.cells[..] == PutU32(old(mb.cells[..]), at, Advance(index, itemNum, n))
  {
    AdvanceIsModulo(index, itemNum, n);
    SetReg(mb, at, W32(index + itemNum) % n);
  }

  /** The copies of LibMB_Write_Item: what is missing to the appended ring is the index store. */
  method PutItems(mb: Memory, r: nat, src: Memory, itemNum: u32, itemSize: u32, index: u32, n: u32)
    requires mb.Memory? && src.Memory? && mb.cells != src.cells
    requires Fits(mb.cells[..], r) && Capacity(mb.cells[..], r) < TWO32
    requires itemNum <= Free(mb.cells[..], r) && itemSize > 0
    requires itemSize == ItemSize(mb.cells[..], r) && index == In(mb.cells[..], r) && n == MaxNum(mb.cells[..], r)
    requires Size(itemNum, itemSize) <= src.cells.Length
    modifies mb.cells
    ensures PutU32(mb.cells[..], r + 48, Advance(index, itemNum, n)) ==
      old(Pushed(mb.cells[..], r, src.cells[..Size(itemNum, itemSize)], itemNum))
  {
    hide GetU32, W32, Blit, LittleEndian, Size, Capacity, Pushed, Valid, Advance;
    ghost var m := mb.cells[..];
    var ring := r + HEADER;
    ghost var data := src.cells[..Size(itemNum, itemSize)];
    PushFits(m, r, itemNum);
    var at := W32(Size(index, itemSize));
    if W32(index + itemNum) > n {
      var num := W32(n - index);
      var first := W32(Size(num, itemSize));
      num := W32(W32(index + itemNum) - n);
      var rest := W32(Size(num, itemSize));
      PushWraps(m, r, data, itemNum, ring, at, first, rest);
      assert src.cells[..first + rest] == data;
      CopyIn(mb, ring + at, ring, src, first, rest);
    } else {
      var all := W32(Size(itemNum, itemSize));
      PushStraight(m, r, data, itemNum, ring, at);
      assert src.cells[0..all] == data;
      CopyBytes(mb, ring + at, src, 0, all);
    }
  }

  /** LibMB_Write_Item: one or two copies, then the write index is published. */
  method WriteItem(mb: Memory, r: nat, src: Memory, itemNum: u32)
    requires mb.Memory? && src.Memory? && mb.cells != src.cells
    requires Fits(mb.cells[..], r) && Capacity(mb.cells[..], r) < TWO32
    requires itemNum <= Free(mb.cells[..], r)
    requires Size(itemNum, ItemSize(mb.cells[..], r)) <= src.cells.Length
    modifies mb.cells
    ensures mb.cells[..] ==
      var m := old(mb.cells[..]);
      Pushed(m, r, src.cells[..Size(itemNum, ItemSize(m, r))], itemNum)
  {
    hide GetU32, W32, Blit, LittleEndian, Size, Capacity, Pushed, Valid, Advance;
    var itemSize := GetReg(mb, r + 44);
    var index := GetReg(mb, r + 48);
    var n := GetReg(mb, r + 40);
    if n == 0 || itemSize == 0 || index >= n {
      PushNothing(mb.cells[..], r, src.cells[..Size(itemNum, itemSize)], itemNum);
      return;
    }
    PutItems(mb, r, src, itemNum, itemSize, index, n);
    Publish(mb, r + 48, index, itemNum, n);
  }

  lemma SlotBytes(m: seq<byte>, r: nat, at: nat, n: nat)
    requires Fits(m, r) && at + n <= Capacity(m, r)
    ensures Slots(m, r)[at..at + n] == m[r + HEADER + at..r + HEADER + at + n]
  {
    hide GetU32, Capacity, Sane;
    Subslice(m, r + HEADER, Capacity(m, r), at, n);
  }

  /** Where the two copies of a read that runs past the last slot come from. */
  lemma TakeWraps(m: seq<byte>, r: nat, k: nat, ring: nat, at: nat, first: nat, rest: nat)
    requires Fits(m, r) && k <= Valid(m, r) && Out(m, r) + k > MaxNum(m, r) && ring == r + HEADER
    requires at == Size(Out(m, r), ItemSize(m, r)) && first == Size(MaxNum(m, r) - Out(m, r), ItemSize(m, r))
    requires rest == Size(Out(m, r) + k - MaxNum(m, r), ItemSize(m, r))
    ensures ring + at + first <= |m| && ring + rest <= |m| && first + rest == Size(k, ItemSize(m, r))
    ensures Taken(m, r, k) == m[ring + at..ring + at + first] + m[ring..ring + rest]
  {
    hide GetU32, Size;
    var n, z, index := MaxNum(m, r), ItemSize(m, r), Out(m, r);
    TakeFits(m, r, k);
    SizeDiff(k, n - index, z);
    SlotBytes(m, r, at, first);
    SlotBytes(m, r, 0, rest);
    var s := Slots(m, r);
    assert s[at..] == s[at..at + first] && s[..rest] == s[0..0 + rest];
  }

  /** Where the one copy of a read that does not comes from. */
  lemma TakeStraight(m: seq<byte>, r: nat, k: nat, ring: nat, at: nat, all: nat)
    requires Fits(m, r) && k <= Valid(m, r) && Out(m, r) + k <= MaxNum(m, r) && ring == r + HEADER
    requires at == Size(Out(m, r), ItemSize(m, r)) && all == Size(k, ItemSize(m, r))
    ensures ring + at + all <= |m| && Taken(m, r, k) == m[ring + at..ring + at + all]
  {
    hide GetU32, Size;
    SizeSum(Out(m, r), k, ItemSize(m, r));
    SizeMono(Out(m, r) + k, MaxNum(m, r), ItemSize(m, r));
    SlotBytes(m, r, at, all);
  }

  /** The byte counts the code computes stay below the capacity. */
  lemma TakeFits(m: seq<byte>, r: nat, k: nat)
    requires Fits(m, r) && k <= Valid(m, r)
    ensures var n, z, index := MaxNum(m, r), ItemSize(m, r), Out(m, r);
      && Size(index, z) + Size(n - index, z) == Capacity(m, r) && Size(k, z) <= Capacity(m, r)
      && (index + k > n ==> Size(index + k - n, z) <= Capacity(m, r))
      && (z > 0 ==> Popped(m, r, k) == PutU32(m, r + 52, Advance(index, k, n)))
  {
    hide GetU32, Size;
    SizeSum(Out(m, r), MaxNum(m, r) - Out(m, r), ItemSize(m, r));
    SizeMono(k, MaxNum(m, r), ItemSize(m, r));
    if Out(m, r) + k > MaxNum(m, r) {
      SizeMono(Out(m, r) + k - MaxNum(m, r), MaxNum(m, r), ItemSize(m, r));
    }
  }

  /** The copies of LibMB_Read_Item: the front of the queue goes to the buffer. */
  method GetItems(mb: Memory, r: nat, dest: Memory, itemNum: u32, itemSize: u32, index: u32, n: u32)
    requires mb.Memory? && dest.Memory? && mb.cells != dest.cells
    requires Fits(mb.cells[..], r) && Capacity(mb.cells[..], r) < TWO32
    requires itemNum <= Valid(mb.cells[..], r)
    requires itemSize == ItemSize(mb.cells[..], r) && index == Out(mb.cells[..], r) && n == MaxNum(mb.cells[..], r)
    requires Size(itemNum, itemSize) <= dest.cells.Length
    modifies dest.cells
    ensures dest.cells[..] == Blit(old(dest.cells[..]), 0, Taken(mb.cells[..], r, itemNum))
  {
    hide GetU32, W32, Blit, LittleEndian, Size, Capacity, Taken, Valid;
    ghost var m := mb.cells[..];
    var ring := r + HEADER;
    TakeFits(m, r, itemNum);
    var at := W32(Size(index, itemSize));
    if W32(index + itemNum) > n {
      var num := W32(n - index);
      var first := W32(Size(num, itemSize));
      num := W32(W32(index + itemNum) - n);
      var rest := W32(Size(num, itemSize));
      TakeWraps(m, r, itemNum, ring, at, first, rest);
      CopyOut(dest, mb, ring + at, ring, first, rest);
    } else {
      var all := W32(Size(itemNum, itemSize));
      TakeStraight(m, r, itemNum, ring, at, all);
      CopyStraight(dest, mb, ring + at, all);
    }
  }

  /** LibMB_Read_Item: one or two copies, then the read index is published. */
  method ReadItem(mb: Memory, r: nat, dest: Memory, itemNum: u32)
    requires mb.Memory? && dest.Memory? && mb.cells != dest.cells
    requires Fits(mb.cells[..], r) && Capacity(mb.cells[..], r) < TWO32
    requires itemNum <= Valid(mb.cells[..], r)
    requires Size(itemNum, ItemSize(mb.cells[..], r)) <= dest.cells.Length
    modifies mb.cells, dest.cells
    ensures mb.cells[..] == Popped(old(mb.cells[..]), r, itemNum)
    ensures dest.cells[..] == Blit(old(dest.cells[..]), 0, Taken(old(mb.cells[..]), r, itemNum))
  {
    hide GetU32, W32, Blit, LittleEndian, Size, Capacity, Taken, Popped, Valid, Advance;
    ghost var m := mb.cells[..];
    var itemSize := GetReg(mb, r + 44);
    var index := GetReg(mb, r + 52);
    var n := GetReg(mb, r + 40);
    if n == 0 || itemSize == 0 || index >= n {
      TakeNothing(m, r, itemNum);
      BlitNothing(dest.cells[..], 0);
      return;
    }
    TakeFits(m, r, itemNum);
    GetItems(mb, r, dest, itemNum, itemSize, index, n);
    assert mb.cells[..] == m;
    Publish(mb, r + 52, index, itemNum, n);
  }

  lemma TakeNothing(m: seq<byte>, r: nat, k: nat)
    requires Fits(m, r) && k <= Valid(m, r) && ItemSize(m, r) == 0
    ensures Taken(m, r, k) == [] && Popped(m, r, k) == m
  {
  }
}
