/** Calls on any channels in any order: each channel sees its own calls only. */
module Interleaved {
  import opened Words
  import opened Copy
  import opened Ring
  import opened Mailbox
  import opened Channels
  import opened Isolation

  // ---- what a ring does depends on its own area ----

  lemma SameField(m: seq<byte>, r: nat, e: nat, off: nat)
    requires r + off + 4 <= e <= |m|
    ensures GetU32(m[r..e], off) == GetU32(m, r + off)
  {
    hide Joined;
    var a := m[r..e];
    assert a[off] == m[r + off] && a[off + 1] == m[r + off + 1];
    assert a[off + 2] == m[r + off + 2] && a[off + 3] == m[r + off + 3];
  }

  /** The area from r to e holds the ring. */
  ghost predicate Covers(m: seq<byte>, r: nat, e: nat) {
    Fits(m, r) && r + HEADER + Capacity(m, r) <= e <= |m|
  }

  lemma LocalFields(m: seq<byte>, r: nat, e: nat)
    requires HasHeader(m, r) && r + HEADER <= e <= |m|
    ensures var a := m[r..e];
      && MaxNum(a, 0) == MaxNum(m, r) && ItemSize(a, 0) == ItemSize(m, r)
      && In(a, 0) == In(m, r) && Out(a, 0) == Out(m, r) && Capacity(a, 0) == Capacity(m, r)
      && Sane(a, 0) == Sane(m, r)
  {
    hide GetU32, Size;
    SameField(m, r, e, 40);
    SameField(m, r, e, 44);
    SameField(m, r, e, 48);
    SameField(m, r, e, 52);
  }

  lemma LocalRing(m: seq<byte>, r: nat, e: nat)
    requires Covers(m, r, e)
    ensures var a := m[r..e];
      && Covers(a, 0, e - r) && Slots(a, 0) == Slots(m, r) && Queue(a, 0) == Queue(m, r)
      && Valid(a, 0) == Valid(m, r) && Free(a, 0) == Free(m, r)
  {
    hide GetU32, Size, Queued;
    var a := m[r..e];
    LocalFields(m, r, e);
    Subslice(m, r, e - r, HEADER, Capacity(m, r));
  }

  lemma LocalPut(m: seq<byte>, r: nat, e: nat, off: nat, v: u32)
    requires r + off + 4 <= e <= |m|
    ensures PutU32(m, r + off, v)[r..e] == PutU32(m[r..e], off, v)
  {
    hide LittleEndian;
    BlitInner(m, r, e - r, off, LittleEndian(v));
  }

  lemma LocalPushed(m: seq<byte>, r: nat, e: nat, data: seq<byte>, k: nat)
    requires Covers(m, r, e) && k <= Free(m, r) && |data| == Size(k, ItemSize(m, r))
    ensures var a := m[r..e];
      && Fits(a, 0) && k <= Free(a, 0) && ItemSize(a, 0) == ItemSize(m, r)
      && Pushed(m, r, data, k)[r..e] == Pushed(a, 0, data, k)
  {
    hide GetU32, Size, Inserted, LittleEndian, Advance, Blit, Valid;
    LocalFields(m, r, e);
    LocalRing(m, r, e);
    if ItemSize(m, r) > 0 {
      var n, z := MaxNum(m, r), ItemSize(m, r);
      var slots := Inserted(Slots(m, r), n, z, In(m, r), data, k);
      BlitInner(m, r, e - r, HEADER, slots);
      LocalPut(Blit(m, r + HEADER, slots), r, e, 48, Advance(In(m, r), k, n));
    }
  }

  lemma LocalPopped(m: seq<byte>, r: nat, e: nat, k: nat)
    requires Covers(m, r, e) && k <= Valid(m, r)
    ensures var a := m[r..e];
      && Fits(a, 0) && k <= Valid(a, 0)
      && Popped(m, r, k)[r..e] == Popped(a, 0, k) && Taken(m, r, k) == Taken(a, 0, k)
  {
    hide GetU32, Size, Extracted, LittleEndian, Advance, Valid, PutU32;
    LocalFields(m, r, e);
    LocalRing(m, r, e);
    LocalPut(m, r, e, 52, Advance(Out(m, r), k, MaxNum(m, r)));
  }

  lemma LocalEmptied(m: seq<byte>, r: nat, e: nat)
    requires Covers(m, r, e)
    ensures Emptied(m, r)[r..e] == Emptied(m[r..e], 0)
  {
    hide GetU32, PutU32;
    LocalPut(m, r, e, 48, 0);
    LocalPut(PutU32(m, r + 48, 0), r, e, 52, 0);
  }

  // ---- two mailboxes that look alike from one channel ----

  ghost predicate Created(m: seq<byte>) {
    Formed(m) && Magic(m) == MAGIC
  }

  function Area(m: seq<byte>, i: nat): seq<byte>
    requires Formed(m) && i < NumRegions(m)
  {
    assert ChannelFits(m, i);
    m[Start(m, i)..End(m, i) + 1]
  }

  /** The same table, and the same bytes in the area of channel i. */
  ghost predicate Alike(m: seq<byte>, t: seq<byte>, i: u32) {
    && Created(m) && Created(t) && |t| == |m| && NumRegions(t) == NumRegions(m)
    && (forall j | 0 <= j < NumRegions(m) :: Start(t, j) == Start(m, j) && End(t, j) == End(m, j))
    && (i < NumRegions(m) ==> Area(t, i) == Area(m, i))
  }

  /** What a call hands back: its result, and the bytes a read delivers. */
  datatype Reply = Reply(code: int, bytes: seq<byte>)

  function ReplyTo(m: seq<byte>, i: u32, op: Op): Reply
    requires Mapped(m)
  {
    if Guard(m, i) != 0 then Reply(Guard(m, i), [])
    else
      UsableFits(m, i);
      match op
      case WriteOp(_, k) => Reply(WriteResult(m, i, k), [])
      case ReadOp(k) => Reply(ReadCount(m, i, k), Taken(m, Start(m, i), ReadCount(m, i, k)))
      case ResetOp => Reply(0, [])
  }

  /** A usable channel's ring, seen in its area alone. */
  lemma AreaOfRing(m: seq<byte>, i: u32)
    requires Created(m) && i < NumRegions(m)
    ensures Guard(m, i) == 0 <==> Sane(m, Start(m, i))
    ensures HasHeader(m, Start(m, i)) && |Area(m, i)| >= HEADER && Sane(Area(m, i), 0) == Sane(m, Start(m, i))
    ensures Usable(m, i) ==> Covers(m, Start(m, i), End(m, i) + 1) && Covers(Area(m, i), 0, |Area(m, i)|)
    ensures ItemSize(Area(m, i), 0) == ItemSize(m, Start(m, i))
  {
    hide GetU32, Size, Sane;
    assert ChannelFits(m, i);
    LocalFields(m, Start(m, i), End(m, i) + 1);
    if Usable(m, i) {
      UsableFits(m, i);
      LocalRing(m, Start(m, i), End(m, i) + 1);
    }
  }

  lemma AlikeGuard(m: seq<byte>, t: seq<byte>, i: u32)
    requires Alike(m, t, i)
    ensures Guard(t, i) == Guard(m, i)
  {
    hide GetU32, Size, Sane;
    if i < NumRegions(m) {
      AreaOfRing(m, i);
      AreaOfRing(t, i);
    }
  }

  /** A call's effect inside the area, and its reply, come from the area. */
  lemma LocalCall(m: seq<byte>, i: u32, op: Op)
    requires Created(m) && Usable(m, i) && Supplied(m, i, op)
    requires Fits(Area(m, i), 0) && HasHeader(m, Start(m, i)) && ItemSize(Area(m, i), 0) == ItemSize(m, Start(m, i))
    ensures Created(After(m, i, op)) && NumRegions(After(m, i, op)) == NumRegions(m)
    ensures Area(After(m, i, op), i) == LocalAfter(Area(m, i), op) && ReplyTo(m, i, op) == LocalReply(Area(m, i), op)
  {
    hide GetU32, Size, Sane, Pushed, Popped, Emptied, Taken, Capacity, Valid;
    UsableFits(m, i);
    var r, e := Start(m, i), End(m, i) + 1;
    AreaOfRing(m, i);
    LocalRing(m, r, e);
    OneCall(m, i, op);
    TableKept(m, After(m, i, op), i);
    FormedKept(m, After(m, i, op), i);
    match op {
      case WriteOp(source, k) =>
        if k <= Free(m, r) {
          LocalPushed(m, r, e, source[..Size(k, ItemSize(m, r))], k);
        }
      case ReadOp(k) => LocalPopped(m, r, e, ReadCount(m, i, k));
      case ResetOp => LocalEmptied(m, r, e);
    }
  }

  /** The call on an area that holds one ring. */
  function LocalAfter(a: seq<byte>, op: Op): seq<byte>
    requires Fits(a, 0) && (op.WriteOp? ==> Size(op.k, ItemSize(a, 0)) <= |op.source|)
  {
    match op
    case WriteOp(source, k) => if k <= Free(a, 0) then Pushed(a, 0, source[..Size(k, ItemSize(a, 0))], k) else a
    case ReadOp(k) => Popped(a, 0, if Valid(a, 0) < k then Valid(a, 0) else k)
    case ResetOp => Emptied(a, 0)
  }

  function LocalReply(a: seq<byte>, op: Op): Reply
    requires Fits(a, 0)
  {
    match op
    case WriteOp(_, k) => Reply(if k <= Free(a, 0) then k else E_NO_ENOUGH_BUF, [])
    case ReadOp(k) =>
      var c := if Valid(a, 0) < k then Valid(a, 0) else k;
      Reply(c, Taken(a, 0, c))
    case ResetOp => Reply(0, [])
  }

  lemma CallOnAlike(m: seq<byte>, t: seq<byte>, i: u32, op: Op)
    requires Alike(m, t, i) && Supplied(m, i, op)
    ensures Supplied(t, i, op) && ReplyTo(t, i, op) == ReplyTo(m, i, op)
    ensures Alike(After(m, i, op), After(t, i, op), i)
  {
    hide GetU32, Size, Sane, After, ReplyTo, LocalAfter, LocalReply, Area;
    AlikeGuard(m, t, i);
    if Guard(m, i) == 0 {
      AreaOfRing(m, i);
      AreaOfRing(t, i);
      LocalCall(m, i, op);
      LocalCall(t, i, op);
      OneCall(m, i, op);
      OneCall(t, i, op);
      TableKept(m, After(m, i, op), i);
      TableKept(t, After(t, i, op), i);
    } else {
      RefusedCall(m, i, op);
      RefusedCall(t, i, op);
      RefusedReply(m, i, op);
      RefusedReply(t, i, op);
    }
  }

  lemma RefusedReply(m: seq<byte>, i: u32, op: Op)
    requires Mapped(m) && Guard(m, i) != 0
    ensures ReplyTo(m, i, op) == Reply(Guard(m, i), [])
  {
  }

  /** A call on another channel. */
  lemma CallElsewhere(m: seq<byte>, i: u32, j: u32, op: Op)
    requires Created(m) && j != i && Supplied(m, j, op)
    ensures Alike(m, After(m, j, op), i)
  {
    hide GetU32, Size, Sane, After, Capacity;
    if Guard(m, j) == 0 {
      var t := After(m, j, op);
      UsableFits(m, j);
      OneCall(m, j, op);
      TableKept(m, t, j);
      FormedKept(m, t, j);
      if i < NumRegions(m) {
        AreaKept(m, t, j, i);
      }
    } else {
      RefusedCall(m, j, op);
    }
  }

  lemma AlikeTwice(m: seq<byte>, t: seq<byte>, u: seq<byte>, i: u32)
    requires Alike(m, t, i) && Alike(m, u, i)
    ensures Alike(u, t, i)
  {
    hide GetU32, Formed;
  }

  // ---- runs over all channels ----

  datatype Call = Call(channel: u32, op: Op)

  function AfterCall(m: seq<byte>, c: Call): (t: seq<byte>)
    requires Created(m) && Supplied(m, c.channel, c.op)
    ensures Created(t)
  {
    CallElsewhere(m, if c.channel == 0 then 1 else 0, c.channel, c.op);
    After(m, c.channel, c.op)
  }

  /** The source buffers of all writes hold what they announce. */
  ghost predicate EverySupplied(m: seq<byte>, calls: seq<Call>) {
    forall n | 0 <= n < |calls| :: Supplied(m, calls[n].channel, calls[n].op)
  }

  lemma SuppliedElsewhere(m: seq<byte>, t: seq<byte>, i: u32, op: Op)
    requires Alike(m, t, i) && Supplied(m, i, op)
    ensures Supplied(t, i, op)
  {
    hide GetU32, Size, Sane, After, ReplyTo;
    CallOnAlike(m, t, i, op);
  }

  lemma StillEverySupplied(m: seq<byte>, c: Call, calls: seq<Call>)
    requires Created(m) && EverySupplied(m, [c] + calls)
    ensures Supplied(m, c.channel, c.op) && EverySupplied(AfterCall(m, c), calls)
  {
    hide GetU32, Size, Sane, After, Capacity, Formed, Guard;
    CreatedIsMapped(m);
    assert Supplied(m, ([c] + calls)[0].channel, ([c] + calls)[0].op);
    forall n | 0 <= n < |calls|
      ensures Supplied(AfterCall(m, c), calls[n].channel, calls[n].op)
    {
      assert Supplied(m, ([c] + calls)[n + 1].channel, ([c] + calls)[n + 1].op);
      if calls[n].channel == c.channel {
        StillSuppliedHere(m, c.channel, c.op, calls[n].op);
      } else {
        CallElsewhere(m, calls[n].channel, c.channel, c.op);
        SuppliedElsewhere(m, AfterCall(m, c), calls[n].channel, calls[n].op);
      }
    }
  }

  lemma CreatedIsMapped(m: seq<byte>)
    requires Created(m)
    ensures Mapped(m)
  {
  }

  lemma StillSuppliedHere(m: seq<byte>, i: u32, op: Op, later: Op)
    requires Mapped(m) && Supplied(m, i, op) && Supplied(m, i, later)
    ensures Supplied(After(m, i, op), i, later)
  {
    hide *;
    var ops := [op] + [later];
    assert AllSupplied(m, i, [op] + [later]) by { TwoSupplied(m, i, op, later); }
    StillSupplied(m, i, op, [later]);
    OneSupplied(After(m, i, op), i, later);
  }

  lemma TwoSupplied(m: seq<byte>, i: u32, op: Op, later: Op)
    requires Supplied(m, i, op) && Supplied(m, i, later)
    ensures AllSupplied(m, i, [op] + [later])
  {
    hide Supplied;
  }

  lemma OneSupplied(m: seq<byte>, i: u32, op: Op)
    requires AllSupplied(m, i, [op])
    ensures Supplied(m, i, op)
  {
    hide Supplied;
    assert Supplied(m, i, [op][0]);
  }

  function RunAll(m: seq<byte>, calls: seq<Call>): (t: seq<byte>)
    requires Created(m) && EverySupplied(m, calls)
    ensures Created(t)
    decreases |calls|
  {
    if calls == [] then m else
    assert calls == [calls[0]] + calls[1..];
    StillEverySupplied(m, calls[0], calls[1..]);
    RunAll(AfterCall(m, calls[0]), calls[1..])
  }

  /** The replies that the callers of channel i get. */
  function RepliesAt(m: seq<byte>, calls: seq<Call>, i: u32): seq<Reply>
    requires Created(m) && EverySupplied(m, calls)
    decreases |calls|
  {
    if calls == [] then [] else
    assert calls == [calls[0]] + calls[1..];
    StillEverySupplied(m, calls[0], calls[1..]);
    (if calls[0].channel == i then [ReplyTo(m, i, calls[0].op)] else [])
      + RepliesAt(AfterCall(m, calls[0]), calls[1..], i)
  }

  /** The calls on channel i. */
  function Own(calls: seq<Call>, i: u32): seq<Op> {
    if calls == [] then [] else (if calls[0].channel == i then [calls[0].op] else []) + Own(calls[1..], i)
  }

  /** The replies of a run on channel i alone. */
  function Replies(m: seq<byte>, i: u32, ops: seq<Op>): seq<Reply>
    requires Mapped(m) && AllSupplied(m, i, ops)
    decreases |ops|
  {
    if ops == [] then [] else
    assert ops == [ops[0]] + ops[1..];
    StillSupplied(m, i, ops[0], ops[1..]);
    [ReplyTo(m, i, ops[0])] + Replies(After(m, i, ops[0]), i, ops[1..])
  }

  lemma RunStarts(m: seq<byte>, i: u32, op: Op, ops: seq<Op>)
    requires Mapped(m) && AllSupplied(m, i, [op] + ops)
    ensures Supplied(m, i, op) && Mapped(After(m, i, op)) && AllSupplied(After(m, i, op), i, ops)
    ensures Run(m, i, [op] + ops) == Run(After(m, i, op), i, ops)
    ensures Replies(m, i, [op] + ops) == [ReplyTo(m, i, op)] + Replies(After(m, i, op), i, ops)
  {
    hide After, ReplyTo, Mapped, Guard, Supplied, AllSupplied;
    StillSupplied(m, i, op, ops);
    assert ([op] + ops)[0] == op && ([op] + ops)[1..] == ops;
  }

  lemma {:induction false} OwnSupplied(m: seq<byte>, t: seq<byte>, calls: seq<Call>, i: u32)
    requires Alike(m, t, i) && EverySupplied(m, calls)
    ensures Mapped(t) && AllSupplied(t, i, Own(calls, i))
    decreases |calls|
  {
    hide GetU32, Size, Sane, Capacity, Guard, Alike, Supplied;
    AlikeCreated(m, t, i);
    if calls != [] {
      var rest := calls[1..];
      assert EverySupplied(m, rest) by {
        assert forall n | 0 <= n < |rest| :: rest[n] == calls[n + 1];
      }
      OwnSupplied(m, t, rest, i);
      if calls[0].channel == i {
        SuppliedElsewhere(m, t, i, calls[0].op);
        var own := [calls[0].op] + Own(rest, i);
        forall n | 0 <= n < |own|
          ensures Supplied(t, i, own[n])
        {
          if n > 0 {
            assert own[n] == Own(rest, i)[n - 1];
          }
        }
      }
    }
  }

  lemma AlikeCreated(m: seq<byte>, t: seq<byte>, i: u32)
    requires Alike(m, t, i)
    ensures Created(m) && Created(t) && Mapped(m) && Mapped(t)
  {
  }

  /** Whatever is called on the other channels in between, channel i ends with the area, and its
      callers get the replies, that its own calls alone would have led to. */
  lemma {:induction false} OwnCallsDecide(m: seq<byte>, t: seq<byte>, calls: seq<Call>, i: u32)
    requires Alike(m, t, i) && EverySupplied(m, calls)
    ensures Mapped(t) && AllSupplied(t, i, Own(calls, i))
    ensures Alike(RunAll(m, calls), Run(t, i, Own(calls, i)), i)
    ensures RepliesAt(m, calls, i) == Replies(t, i, Own(calls, i))
    decreases |calls|
  {
    hide GetU32, Size, Sane, Capacity, Guard, Alike, Supplied, After, ReplyTo;
    hide EverySupplied, AllSupplied, Created, Mapped;
    AlikeCreated(m, t, i);
    OwnSupplied(m, t, calls, i);
    if calls != [] {
      var c, rest := calls[0], calls[1..];
      assert calls == [c] + rest;
      StillEverySupplied(m, c, rest);
      var u := AfterCall(m, c);
      if c.channel == i {
        RunStarts(t, i, c.op, Own(rest, i));
        CallOnAlike(m, t, i, c.op);
        OwnCallsDecide(u, After(t, i, c.op), rest, i);
      } else {
        CallElsewhere(m, i, c.channel, c.op);
        AlikeTwice(m, t, u, i);
        OwnCallsDecide(u, t, rest, i);
        assert Own(calls, i) == Own(rest, i);
        assert RepliesAt(m, calls, i) == RepliesAt(u, rest, i);
      }
    }
  }

  /** The same for one mailbox, in terms of the channel's queue. */
  lemma ChannelsInterleave(m: seq<byte>, calls: seq<Call>, i: u32)
    requires Created(m) && EverySupplied(m, calls) && Usable(m, i)
    ensures AllSupplied(m, i, Own(calls, i))
    ensures RepliesAt(m, calls, i) == Replies(m, i, Own(calls, i))
    ensures Usable(RunAll(m, calls), i) && Usable(Run(m, i, Own(calls, i)), i)
    ensures Waiting(RunAll(m, calls), i) == Waiting(Run(m, i, Own(calls, i)), i)
  {
    hide GetU32, Size, Sane, Capacity, RunAll, Run, RepliesAt, Replies, Own, EverySupplied, AllSupplied, Formed, Queue;
    assert Alike(m, m, i);
    OwnCallsDecide(m, m, calls, i);
    RunStaysInside(m, i, Own(calls, i));
    WaitingAlike(RunAll(m, calls), Run(m, i, Own(calls, i)), i);
  }

  lemma WaitingAlike(m: seq<byte>, t: seq<byte>, i: u32)
    requires Alike(m, t, i) && Usable(t, i)
    ensures Usable(m, i) && Waiting(m, i) == Waiting(t, i)
  {
    hide GetU32, Size, Sane, Capacity, Queue;
    AlikeGuard(m, t, i);
    UsableFits(t, i);
    UsableFits(m, i);
    AreaOfRing(m, i);
    AreaOfRing(t, i);
    LocalRing(m, Start(m, i), End(m, i) + 1);
    LocalRing(t, Start(t, i), End(t, i) + 1);
  }
}
