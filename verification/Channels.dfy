/** The channel operations of the mailbox library, and what any run of them leaves alone. */
module Channels {
  import opened Words
  import opened Copy
  import opened Ring
  import opened Mailbox

  /** The checks each operation makes before it touches a ring; r is the ring's offset. */
  method Enter(mb: Memory, i: u32) returns (err: int, r: nat)
    requires mb.Memory? && Mapped(mb.cells[..])
    ensures err == Guard(mb.cells[..], i)
    ensures err == 0 ==> Usable(mb.cells[..], i) && r == Start(mb.cells[..], i)
  {
    hide GetU32;
    r := 0;
    var magic := GetReg(mb, 16);
    if magic != MAGIC {
      return E_INVALID_MAILBOX, 0;
    }
    var num := GetReg(mb, 28);
    if i >= num {
      return E_INVALID_INDEX, 0;
    }
    r := GetReg(mb, 32 + 8 * i);
    assert ChannelFits(mb.cells[..], i);
    var ok := SanityCheck(mb, r);
    err := if ok then 0 else E_CORRUPT_MAILBOX;
  }

  method Validate(mb: Memory) returns (ret: int)
    requires mb.Memory? ==> 40 <= mb.cells.Length
    ensures ret == if mb.Null? then -11 else if Magic(mb.cells[..]) != MAGIC then -44 else 0
  {
    if mb.Null? {
      return E_NULL_INPUT;
    }
    var magic := GetReg(mb, 16);
    ret := if magic != MAGIC then E_INVALID_MAILBOX else 0;
  }

  function ItemsReply(m: seq<byte>, i: u32): int
    requires Mapped(m)
  {
    if Guard(m, i) != 0 then Guard(m, i) else Valid(m, Start(m, i))
  }

  function RoomReply(m: seq<byte>, i: u32): int
    requires Mapped(m)
  {
    if Guard(m, i) != 0 then Guard(m, i) else Free(m, Start(m, i))
  }

  method GetValidItemNum(mb: Memory, i: u32) returns (ret: int)
    requires mb.Memory? ==> Mapped(mb.cells[..])
    ensures mb.Null? ==> ret == -11
    ensures mb.Memory? ==> ret == ItemsReply(mb.cells[..], i)
  {
    hide GetU32, Valid, Capacity, ToInt32;
    if mb.Null? {
      return E_NULL_INPUT;
    }
    var err, r := Enter(mb, i);
    if err != 0 {
      return err;
    }
    UsableFits(mb.cells[..], i);
    var num := ValidItem(mb, r);
    ret := ToInt32(num);
  }

  method GetFreeItemNum(mb: Memory, i: u32) returns (ret: int)
    requires mb.Memory? ==> Mapped(mb.cells[..])
    ensures mb.Null? ==> ret == -11
    ensures mb.Memory? ==> ret == RoomReply(mb.cells[..], i)
  {
    hide GetU32, Valid, Capacity, ToInt32;
    if mb.Null? {
      return E_NULL_INPUT;
    }
    var err, r := Enter(mb, i);
    if err != 0 {
      return err;
    }
    UsableFits(mb.cells[..], i);
    var num := FreeItem(mb, r);
    ret := ToInt32(num);
  }

  // ---- write, read, reset as functions of the region ----

  function WriteResult(m: seq<byte>, i: u32, k: u32): int
    requires Mapped(m)
  {
    if Guard(m, i) != 0 then Guard(m, i)
    else if k <= Free(m, Start(m, i)) then k
    else E_NO_ENOUGH_BUF
  }

  function ReadCount(m: seq<byte>, i: u32, k: u32): (c: nat)
    requires Usable(m, i)
    ensures c <= k && c <= Valid(m, Start(m, i)) && (c == k || c == Valid(m, Start(m, i)))
  {
    var v := Valid(m, Start(m, i));
    if v < k then v else k
  }

  function ReadResult(m: seq<byte>, i: u32, k: u32): int
    requires Mapped(m)
  {
    if Guard(m, i) != 0 then Guard(m, i) else ReadCount(m, i, k)
  }

  method Write(mb: Memory, src: Memory, itemNum: u32, i: u32) returns (ret: int)
    requires mb.Memory? ==> Mapped(mb.cells[..])
    requires mb.Memory? && src.Memory? ==> mb.cells != src.cells
    requires mb.Memory? && src.Memory? && WriteResult(mb.cells[..], i, itemNum) >= 0 ==>
      Size(itemNum, ItemSize(mb.cells[..], Start(mb.cells[..], i))) <= src.cells.Length
    modifies mb.Cells()
    ensures mb.Null? || src.Null? ==> ret == -11
    ensures mb.Memory? && src.Memory? ==> ret == old(WriteResult(mb.cells[..], i, itemNum))
    ensures mb.Memory? && ret < 0 ==> mb.cells[..] == old(mb.cells[..])
    ensures mb.Memory? && ret >= 0 ==> (src.Memory? &&
      var m := old(mb.cells[..]);
      var r := Start(m, i);
      mb.cells[..] == Pushed(m, r, src.cells[..Size(itemNum, ItemSize(m, r))], itemNum))
  {
    hide GetU32, Pushed, Size, Capacity, ToInt32;
    if mb.Null? || src.Null? {
      return E_NULL_INPUT;
    }
    var err, r := Enter(mb, i);
    if err != 0 {
      return err;
    }
    UsableFits(mb.cells[..], i);
    var free := FreeItem(mb, r);
    if itemNum <= free {
      WriteItem(mb, r, src, itemNum);
      ret := ToInt32(itemNum);
    } else {
      ret := E_NO_ENOUGH_BUF;
    }
  }

  method Read(mb: Memory, dest: Memory, itemNum: u32, i: u32) returns (ret: int)
    requires mb.Memory? ==> Mapped(mb.cells[..])
    requires mb.Memory? && dest.Memory? ==> mb.cells != dest.cells
    requires mb.Memory? && dest.Memory? && Guard(mb.cells[..], i) == 0 ==>
      Size(ReadCount(mb.cells[..], i, itemNum), ItemSize(mb.cells[..], Start(mb.cells[..], i))) <= dest.cells.Length
    modifies mb.Cells(), dest.Cells()
    ensures mb.Null? || dest.Null? ==> ret == -11
    ensures mb.Memory? && dest.Memory? ==> ret == old(ReadResult(mb.cells[..], i, itemNum))
    ensures ret < 0 ==> (mb.Memory? ==> mb.cells[..] == old(mb.cells[..]))
    ensures ret < 0 ==> (dest.Memory? ==> dest.cells[..] == old(dest.cells[..]))
    ensures ret >= 0 ==> (mb.Memory? && dest.Memory? &&
      var m := old(mb.cells[..]);
      var r := Start(m, i);
      && mb.cells[..] == Popped(m, r, ret)
      && dest.cells[..] == Blit(old(dest.cells[..]), 0, Taken(m, r, ret)))
  {
    hide GetU32, Popped, Taken, Size, Capacity, Blit, ToInt32;
    if mb.Null? || dest.Null? {
      return E_NULL_INPUT;
    }
    ghost var m := mb.cells[..];
    var err, r := Enter(mb, i);
    if err != 0 {
      return err;
    }
    UsableFits(m, i);
    var valid := ValidItem(mb, r);
    var readNum := if valid < itemNum then valid else itemNum;
    ret := 0;
    if readNum > 0 {
      ReadItem(mb, r, dest, readNum);
      ret := ToInt32(readNum);
    } else {
      ReadNothing(m, r, dest.cells[..]);
    }
  }

  lemma ReadNothing(m: seq<byte>, r: nat, d: seq<byte>)
    requires Fits(m, r)
    ensures Popped(m, r, 0) == m && Taken(m, r, 0) == [] && Blit(d, 0, Taken(m, r, 0)) == d
  {
    SizeNone(ItemSize(m, r));
    var v := Advance(Out(m, r), 0, MaxNum(m, r));
    PutSame(m, r + 52);
  }

  lemma PutSame(m: seq<byte>, at: nat)
    requires at + 4 <= |m|
    ensures PutU32(m, at, GetU32(m, at)) == m
  {
    JoinedBack(m[at], m[at + 1], m[at + 2], m[at + 3]);
  }

  lemma JoinedBack(b0: byte, b1: byte, b2: byte, b3: byte)
    ensures LittleEndian(Joined(b0, b1, b2, b3)) == [b0, b1, b2, b3]
  {
    var v: int := Joined(b0, b1, b2, b3);
    var v1: int := b1 + 0x100 * b2 + 0x1_0000 * b3;
    var v2: int := b2 + 0x100 * b3;
    assert v / 0x100 == v1 && v % 0x100 == b0;
    assert v1 / 0x100 == v2 && v1 % 0x100 == b1;
    assert v2 / 0x100 == b3 && v2 % 0x100 == b2;
  }

  function AfterReset(m: seq<byte>, i: u32): seq<byte>
    requires Mapped(m)
  {
    if Guard(m, i) != 0 then m else Emptied(m, Start(m, i))
  }

  method ChanReset(mb: Memory, i: u32) returns (ret: int)
    requires mb.Memory? ==> Mapped(mb.cells[..])
    modifies mb.Cells()
    ensures mb.Null? ==> ret == -11
    ensures mb.Memory? ==> ret == old(Guard(mb.cells[..], i))
    ensures mb.Memory? ==> mb.cells[..] == old(AfterReset(mb.cells[..], i))
  {
    hide GetU32, LittleEndian, PutU32, Sane, Capacity;
    if mb.Null? {
      return E_NULL_INPUT;
    }
    var err, r := Enter(mb, i);
    if err != 0 {
      return err;
    }
    UsableFits(mb.cells[..], i);
    SetReg(mb, r + 48, 0);
    SetReg(mb, r + 52, 0);
    ret := 0;
  }
}
