/** Runs of operations on one channel: what they leave alone, and where the bytes go. */
module Isolation {
  import opened Words
  import opened Ring
  import opened Mailbox
  import opened Channels

  /** A call on one channel: k items from a source buffer, at most k items, or a reset. */
  datatype Op = WriteOp(source: seq<byte>, k: u32) | ReadOp(k: u32) | ResetOp

  /** The source buffer of a write holds the items it announces. */
  ghost predicate Supplied(m: seq<byte>, i: u32, op: Op) {
    Usable(m, i) && op.WriteOp? ==> Size(op.k, ItemSize(m, Start(m, i))) <= |op.source|
  }

  /** The region after one call: what Channels.Write, Read and ChanReset leave behind. */
  function After(m: seq<byte>, i: u32, op: Op): (t: seq<byte>)
    requires Mapped(m) && Supplied(m, i, op)
    ensures |t| == |m|
  {
    if Guard(m, i) != 0 then m else
    UsableFits(m, i);
    var r := Start(m, i);
    match op
    case WriteOp(source, k) =>
      if WriteResult(m, i, k) >= 0 then Pushed(m, r, source[..Size(k, ItemSize(m, r))], k) else m
    case ReadOp(k) => Popped(m, r, ReadCount(m, i, k))
    case ResetOp => Emptied(m, r)
  }

  /** Byte x belongs to the indices or the items of channel i. */
  ghost predicate Owned(m: seq<byte>, i: u32, x: nat)
    requires Usable(m, i)
  {
    UsableFits(m, i);
    Start(m, i) + 48 <= x < Start(m, i) + HEADER + Capacity(m, Start(m, i))
  }

  ghost predicate OnlyOwned(m: seq<byte>, t: seq<byte>, i: u32)
    requires Usable(m, i)
  {
    |t| == |m| && forall x: nat | x < |m| && !Owned(m, i, x) :: t[x] == m[x]
  }

  lemma PushedWindow(m: seq<byte>, r: nat, data: seq<byte>, k: nat)
    requires Fits(m, r) && k <= Free(m, r) && |data| == Size(k, ItemSize(m, r))
    ensures var t := Pushed(m, r, data, k);
      forall x | 0 <= x < |m| && !(r + 48 <= x < r + HEADER + Capacity(m, r)) :: t[x] == m[x]
  {
    hide Size, GetU32, LittleEndian, Inserted, Advance;
  }

  lemma OneCall(m: seq<byte>, i: u32, op: Op)
    requires Usable(m, i) && Supplied(m, i, op)
    ensures OnlyOwned(m, After(m, i, op), i)
  {
    hide Size, GetU32, Pushed, Capacity, Advance, Sane, LittleEndian;
    UsableFits(m, i);
    var r := Start(m, i);
    if op.WriteOp? && WriteResult(m, i, op.k) >= 0 {
      PushedWindow(m, r, op.source[..Size(op.k, ItemSize(m, r))], op.k);
    }
  }

  /** The areas of two channels do not meet. */
  lemma Apart(m: seq<byte>, i: nat, j: nat)
    requires Formed(m) && i < NumRegions(m) && j < NumRegions(m) && i != j
    ensures End(m, i) < Start(m, j) || End(m, j) < Start(m, i)
  {
    hide GetU32;
  }

  /** The header table: bytes 0 .. 32 + 8n. */
  lemma TableKept(m: seq<byte>, t: seq<byte>, i: u32)
    requires Usable(m, i) && OnlyOwned(m, t, i)
    ensures Magic(t) == Magic(m) && NumRegions(t) == NumRegions(m)
    ensures t[..32 + 8 * NumRegions(m)] == m[..32 + 8 * NumRegions(m)]
    ensures forall j | 0 <= j < NumRegions(m) :: Start(t, j) == Start(m, j) && End(t, j) == End(m, j)
  {
    hide GetU32, Capacity, Sane, ChannelFits;
    var table := 32 + 8 * NumRegions(m);
    UsableFits(m, i);
    assert forall x: nat | x < table :: t[x] == m[x];
    SameU32(m, t, 16);
    SameU32(m, t, 28);
    forall j | 0 <= j < NumRegions(m)
      ensures Start(t, j) == Start(m, j) && End(t, j) == End(m, j)
    {
      SameU32(m, t, 32 + 8 * j);
      SameU32(m, t, 36 + 8 * j);
    }
  }

  /** Every other channel keeps each byte of its area. */
  lemma AreaKept(m: seq<byte>, t: seq<byte>, i: u32, j: nat)
    requires Usable(m, i) && OnlyOwned(m, t, i) && j < NumRegions(m) && j != i
    ensures ChannelFits(m, j)
    ensures t[Start(m, j)..End(m, j) + 1] == m[Start(m, j)..End(m, j) + 1]
  {
    hide GetU32, Sane;
    UsableFits(m, i);
    Apart(m, i, j);
    assert ChannelFits(m, i) && ChannelFits(m, j);
  }

  lemma HeaderKept(m: seq<byte>, t: seq<byte>, i: u32, j: nat)
    requires Usable(m, i) && OnlyOwned(m, t, i) && j < NumRegions(m)
    ensures ChannelFits(m, j) && SameShape(m, t, Start(m, j))
  {
    hide GetU32, Sane, Capacity;
    UsableFits(m, i);
    assert ChannelFits(m, j);
    if j != i {
      Apart(m, i, j);
      assert ChannelFits(m, i);
    }
  }

  lemma FormedKept(m: seq<byte>, t: seq<byte>, i: u32)
    requires Usable(m, i) && OnlyOwned(m, t, i)
    ensures Formed(t) && Mapped(t)
  {
    hide GetU32, Sane, Capacity;
    TableKept(m, t, i);
    forall j | 0 <= j < NumRegions(m)
      ensures 32 + 8 * NumRegions(m) <= Start(t, j) && ChannelFits(t, j)
    {
      HeaderKept(m, t, i, j);
      ShapeFields(m, t, Start(m, j));
    }
  }

  /** A call leaves the channel usable, or refuses and changes nothing. */
  lemma CallKeepsUsable(m: seq<byte>, i: u32, op: Op)
    requires Usable(m, i) && Supplied(m, i, op)
    ensures Usable(After(m, i, op), i)
    ensures Start(After(m, i, op), i) == Start(m, i)
    ensures ItemSize(After(m, i, op), Start(m, i)) == ItemSize(m, Start(m, i))
    ensures Capacity(After(m, i, op), Start(m, i)) == Capacity(m, Start(m, i))
    ensures MaxNum(After(m, i, op), Start(m, i)) == MaxNum(m, Start(m, i))
  {
    hide Size, GetU32, Pushed, Popped, Emptied, Sane, Capacity;
    var t := After(m, i, op);
    UsableFits(m, i);
    var r := Start(m, i);
    OneCall(m, i, op);
    TableKept(m, t, i);
    FormedKept(m, t, i);
    HeaderKept(m, t, i, i);
    ShapeFields(m, t, r);
    match op {
      case WriteOp(source, k) =>
        if WriteResult(m, i, k) >= 0 {
          var data := source[..Size(k, ItemSize(m, r))];
          if ItemSize(m, r) == 0 { PushNothing(m, r, data, k); } else { PushAppends(m, r, data, k); }
        }
      case ReadOp(k) =>
        if ItemSize(m, r) == 0 { TakeNothing(m, r, ReadCount(m, i, k)); } else { PopTakes(m, r, ReadCount(m, i, k)); }
      case ResetOp => EmptiedIsEmpty(m, r);
    }
  }

  /** Supplied for every call of a run; no call changes the item size. */
  ghost predicate AllSupplied(m: seq<byte>, i: u32, ops: seq<Op>) {
    forall n | 0 <= n < |ops| :: Supplied(m, i, ops[n])
  }

  lemma StillSupplied(m: seq<byte>, i: u32, op: Op, ops: seq<Op>)
    requires Mapped(m) && AllSupplied(m, i, [op] + ops)
    ensures Supplied(m, i, op) && Mapped(After(m, i, op)) && AllSupplied(After(m, i, op), i, ops)
  {
    hide Size, GetU32, Pushed, Popped, Emptied, Sane, Capacity, After;
    assert Supplied(m, i, ([op] + ops)[0]);
    forall n | 0 <= n < |ops|
      ensures Supplied(m, i, ops[n])
    {
      assert Supplied(m, i, ([op] + ops)[n + 1]);
    }
    if Usable(m, i) {
      CallKeepsUsable(m, i, op);
    } else {
      RefusedCall(m, i, op);
    }
  }

  /** A call on a channel that fails the checks changes nothing. */
  lemma RefusedCall(m: seq<byte>, i: u32, op: Op)
    requires Mapped(m) && Guard(m, i) != 0
    ensures After(m, i, op) == m
  {
  }

  function Run(m: seq<byte>, i: u32, ops: seq<Op>): (t: seq<byte>)
    requires Mapped(m) && AllSupplied(m, i, ops)
    ensures |t| == |m|
    decreases |ops|
  {
    if ops == [] then m else
    assert ops == [ops[0]] + ops[1..];
    StillSupplied(m, i, ops[0], ops[1..]);
    Run(After(m, i, ops[0]), i, ops[1..])
  }

  lemma OwnedSame(m: seq<byte>, t: seq<byte>, i: u32, x: nat)
    requires Usable(m, i) && Usable(t, i) && Start(t, i) == Start(m, i)
    requires Capacity(t, Start(m, i)) == Capacity(m, Start(m, i))
    ensures Owned(t, i, x) == Owned(m, i, x)
  {
  }

  /** Any run of calls on channel i changes its own indices and items at most. */
  lemma {:induction false} RunStaysInside(m: seq<byte>, i: u32, ops: seq<Op>)
    requires Usable(m, i) && AllSupplied(m, i, ops)
    ensures Usable(Run(m, i, ops), i) && OnlyOwned(m, Run(m, i, ops), i)
    decreases |ops|
  {
    hide Size, GetU32, Guard, Mapped, After, Capacity, Owned;
    if ops != [] {
      assert ops == [ops[0]] + ops[1..];
      StillSupplied(m, i, ops[0], ops[1..]);
      var u := After(m, i, ops[0]);
      OneCall(m, i, ops[0]);
      CallKeepsUsable(m, i, ops[0]);
      RunStaysInside(u, i, ops[1..]);
      forall x: nat
        ensures Owned(u, i, x) == Owned(m, i, x)
      {
        OwnedSame(m, u, i, x);
      }
    }
  }

  /** Isolation: whatever is called on channel i, the header table and every other channel
      keep every byte, and the mailbox stays well formed. */
  lemma ChannelsAreIsolated(m: seq<byte>, i: u32, ops: seq<Op>)
    requires Usable(m, i) && AllSupplied(m, i, ops)
    ensures var t := Run(m, i, ops);
      && Formed(t)
      && t[..32 + 8 * NumRegions(m)] == m[..32 + 8 * NumRegions(m)]
      && (forall j | 0 <= j < NumRegions(m) && j != i ::
            ChannelFits(m, j) && t[Start(m, j)..End(m, j) + 1] == m[Start(m, j)..End(m, j) + 1])
  {
    hide Size, GetU32, Guard, Capacity, Owned, OnlyOwned, Run, Sane;
    var t := Run(m, i, ops);
    RunStaysInside(m, i, ops);
    FormedKept(m, t, i);
    TableKept(m, t, i);
    UsableFits(m, i);
    forall j | 0 <= j < NumRegions(m) && j != i
      ensures ChannelFits(m, j) && t[Start(m, j)..End(m, j) + 1] == m[Start(m, j)..End(m, j) + 1]
    {
      AreaKept(m, t, i, j);
    }
  }

  // ---- conservation over a run ----

  /** The bytes one call accepts into the ring. */
  function BytesIn(m: seq<byte>, i: u32, op: Op): seq<byte>
    requires Usable(m, i) && Supplied(m, i, op)
  {
    if op.WriteOp? && WriteResult(m, i, op.k) >= 0 then op.source[..Size(op.k, ItemSize(m, Start(m, i)))] else []
  }

  /** The bytes one call hands out. */
  function BytesOut(m: seq<byte>, i: u32, op: Op): seq<byte>
    requires Usable(m, i)
  {
    UsableFits(m, i);
    if op.ReadOp? then Taken(m, Start(m, i), ReadCount(m, i, op.k)) else []
  }

  function AllBytesIn(m: seq<byte>, i: u32, ops: seq<Op>): seq<byte>
    requires Usable(m, i) && AllSupplied(m, i, ops)
    decreases |ops|
  {
    if ops == [] then [] else
    assert ops == [ops[0]] + ops[1..];
    StillSupplied(m, i, ops[0], ops[1..]);
    CallKeepsUsable(m, i, ops[0]);
    BytesIn(m, i, ops[0]) + AllBytesIn(After(m, i, ops[0]), i, ops[1..])
  }

  function AllBytesOut(m: seq<byte>, i: u32, ops: seq<Op>): seq<byte>
    requires Usable(m, i) && AllSupplied(m, i, ops)
    decreases |ops|
  {
    if ops == [] then [] else
    assert ops == [ops[0]] + ops[1..];
    StillSupplied(m, i, ops[0], ops[1..]);
    CallKeepsUsable(m, i, ops[0]);
    BytesOut(m, i, ops[0]) + AllBytesOut(After(m, i, ops[0]), i, ops[1..])
  }

  /** The bytes waiting in channel i. */
  function Waiting(m: seq<byte>, i: u32): seq<byte>
    requires Usable(m, i)
  {
    UsableFits(m, i);
    Queue(m, Start(m, i))
  }

  lemma CallConserves(m: seq<byte>, i: u32, op: Op)
    requires Usable(m, i) && Supplied(m, i, op) && !op.ResetOp? && ItemSize(m, Start(m, i)) > 0
    ensures Usable(After(m, i, op), i)
    ensures BytesOut(m, i, op) + Waiting(After(m, i, op), i) == Waiting(m, i) + BytesIn(m, i, op)
  {
    hide Size, GetU32, Pushed, Popped, Queue, Taken, Sane, Capacity;
    CallKeepsUsable(m, i, op);
    UsableFits(m, i);
    var r := Start(m, i);
    if op.ReadOp? {
      PopTakes(m, r, ReadCount(m, i, op.k));
    } else if WriteResult(m, i, op.k) >= 0 {
      PushAppends(m, r, op.source[..Size(op.k, ItemSize(m, r))], op.k);
    }
  }

  /** First in, first out, nothing lost, nothing made up: after any run of writes and reads,
      what was handed out followed by what still waits is what waited at the start followed
      by what was accepted. */
  lemma {:induction false} RunConserves(m: seq<byte>, i: u32, ops: seq<Op>)
    requires Usable(m, i) && AllSupplied(m, i, ops) && ItemSize(m, Start(m, i)) > 0
    requires forall n | 0 <= n < |ops| :: !ops[n].ResetOp?
    ensures Usable(Run(m, i, ops), i)
    ensures AllBytesOut(m, i, ops) + Waiting(Run(m, i, ops), i) == Waiting(m, i) + AllBytesIn(m, i, ops)
    decreases |ops|
  {
    hide Size, GetU32, Guard, Mapped, After, Capacity, Waiting, BytesIn, BytesOut;
    if ops != [] {
      assert ops == [ops[0]] + ops[1..];
      var op, rest := ops[0], ops[1..];
      StillSupplied(m, i, op, rest);
      var u := After(m, i, op);
      CallKeepsUsable(m, i, op);
      CallConserves(m, i, op);
      RunConserves(u, i, rest);
      Regroup(BytesOut(m, i, op), AllBytesOut(u, i, rest), Waiting(Run(u, i, rest), i), Waiting(u, i),
              AllBytesIn(u, i, rest), Waiting(m, i), BytesIn(m, i, op));
    }
  }

  lemma Regroup(r0: seq<byte>, r1: seq<byte>, w2: seq<byte>, w1: seq<byte>, a1: seq<byte>, w0: seq<byte>, a0: seq<byte>)
    requires r1 + w2 == w1 + a1 && r0 + w1 == w0 + a0
    ensures r0 + r1 + w2 == w0 + (a0 + a1)
  {
    assert r0 + r1 + w2 == r0 + (r1 + w2);
    assert r0 + (w1 + a1) == (r0 + w1) + a1;
  }

  /** With a zero item size every accepted write is lost: the call reports k items and the
      mailbox is unchanged. A positive item size makes the k items waiting. */
  lemma AcceptedItemsWait(m: seq<byte>, i: u32, source: seq<byte>, k: u32)
    requires Usable(m, i) && Supplied(m, i, WriteOp(source, k)) && WriteResult(m, i, k) >= 0
    ensures Usable(After(m, i, WriteOp(source, k)), i)
    ensures var t := After(m, i, WriteOp(source, k));
      Valid(t, Start(m, i)) == Valid(m, Start(m, i)) + k <==> (k == 0 || ItemSize(m, Start(m, i)) > 0)
  {
    hide Size, GetU32, Pushed, Capacity, Sane, Valid;
    var op := WriteOp(source, k);
    CallKeepsUsable(m, i, op);
    UsableFits(m, i);
    var r := Start(m, i);
    var data := source[..Size(k, ItemSize(m, r))];
    if ItemSize(m, r) == 0 {
      PushNothing(m, r, data, k);
    } else {
      PushAppends(m, r, data, k);
    }
  }

  /** The replies on a usable channel, through its queue of bytes: what waits, what there is
      room for, when a write is taken, and how much a read gives. */
  lemma RepliesThroughQueue(m: seq<byte>, i: u32, k: u32)
    requires Usable(m, i) && ItemSize(m, Start(m, i)) > 0
    ensures var z, all := ItemSize(m, Start(m, i)), Size(MaxNum(m, Start(m, i)) - 1, ItemSize(m, Start(m, i)));
      && ItemsReply(m, i) >= 0 && Size(ItemsReply(m, i), z) == |Waiting(m, i)|
      && RoomReply(m, i) >= 0 && Size(RoomReply(m, i), z) == all - |Waiting(m, i)|
      && WriteResult(m, i, k) == (if |Waiting(m, i)| + Size(k, z) <= all then k else -55)
      && ReadResult(m, i, k) == (if Size(k, z) <= |Waiting(m, i)| then k else ItemsReply(m, i))
  {
    hide Size, GetU32, Capacity, Sane, Valid, Free, Queue;
    UsableFits(m, i);
    var r := Start(m, i);
    var z := ItemSize(m, r);
    QueueLength(m, r);
    SizeSum(Valid(m, r), Free(m, r), z);
    SizeOrder(k, Free(m, r), z);
    SizeOrder(k, Valid(m, r), z);
  }

  lemma SizeOrder(a: nat, b: nat, z: nat)
    requires z > 0
    ensures Size(a, z) <= Size(b, z) <==> a <= b
  {
    hide Size;
    if a <= b {
      SizeMono(a, b, z);
    } else {
      SizeMono(b + 1, a, z);
      SizeSum(b, 1, z);
      SizeOne(z);
    }
  }

  /** The common checks, field by field. */
  lemma GuardNumbers(m: seq<byte>, i: u32)
    requires Mapped(m)
    ensures Magic(m) == MAGIC && i < NumRegions(m) ==> 40 + 8 * i <= |m| && HasHeader(m, Start(m, i))
    ensures Guard(m, i) ==
      if GetU32(m, 16) != 0x4D4C_3130 then -44
      else if i >= GetU32(m, 28) then -33
      else
        var r := GetU32(m, 32 + 8 * i);
        var max, z, in_, out := GetU32(m, r + 40), GetU32(m, r + 44), GetU32(m, r + 48), GetU32(m, r + 52);
        if max <= 0x10_0000 && z <= 0x80_0000 && in_ < max && out < max then 0 else -66
  {
    hide GetU32, Capacity;
    if Magic(m) == MAGIC && i < NumRegions(m) {
      assert ChannelFits(m, i);
    }
  }
}
