/** Runs of byte-level calls on one channel carry a byte stream. */
module Streams {
  import opened Words
  import opened Ring
  import opened Mailbox
  import opened Isolation
  import opened Device
  import opened MailboxApi

  /** A call of rtss_mb_write_batch or rtss_mb_read_timed that passes its handle checks. */
  datatype Call = Batch(data: seq<byte>) | Timed(sz: nat, polls: seq<Poll>)

  ghost predicate Ready(m: seq<byte>, i: u32) {
    Usable(m, i) && ItemBytes(m, i) > 0
  }

  /** The read succeeds. */
  predicate Delivers(m: seq<byte>, i: u32, sz: nat, polls: seq<Poll>)
    requires Ready(m, i)
  {
    sz >= ItemBytes(m, i) && WaitError(m, i, polls) == 0
  }

  function CallAfter(m: seq<byte>, i: u32, c: Call): seq<byte>
    requires Ready(m, i)
  {
    match c
    case Batch(data) => AfterBatch(m, i, data)
    case Timed(sz, polls) =>
      if sz < ItemBytes(m, i) then m
      else if WaitError(m, i, polls) != 0 then AfterWait(m, i, polls)
      else AfterTake(AfterWait(m, i, polls), i, sz)
  }

  /** Bytes taken from writers while a reader waits. */
  function BytesWhileWaiting(m: seq<byte>, i: u32, polls: seq<Poll>): seq<byte>
    requires Ready(m, i)
    decreases |polls|
  {
    if Items(m, i) > 0 || polls == [] || !polls[0].Woken? then [] else
    BatchKeeps(m, i, polls[0].data);
    BatchBytes(m, i, polls[0].data) + BytesWhileWaiting(AfterBatch(m, i, polls[0].data), i, polls[1..])
  }

  function Written(m: seq<byte>, i: u32, c: Call): seq<byte>
    requires Ready(m, i)
  {
    match c
    case Batch(data) => BatchBytes(m, i, data)
    case Timed(sz, polls) => if sz < ItemBytes(m, i) then [] else BytesWhileWaiting(m, i, polls)
  }

  function Delivered(m: seq<byte>, i: u32, c: Call): seq<byte>
    requires Ready(m, i)
  {
    match c
    case Batch(_) => []
    case Timed(sz, polls) => if Delivers(m, i, sz, polls) then BytesTaken(AfterWait(m, i, polls), i, sz) else []
  }

  lemma {:induction false} WaitConserves(m: seq<byte>, i: u32, polls: seq<Poll>)
    requires Ready(m, i)
    ensures Waiting(AfterWait(m, i, polls), i) == Waiting(m, i) + BytesWhileWaiting(m, i, polls)
    decreases |polls|
  {
    hide Size, GetU32, Capacity, AfterBatch, Mapped, Guard, Waiting, BatchBytes, Items, ItemBytes;
    if !(Items(m, i) > 0 || polls == [] || !polls[0].Woken?) {
      BatchConserves(m, i, polls[0].data);
      WaitConserves(AfterBatch(m, i, polls[0].data), i, polls[1..]);
    }
  }

  lemma TakeConserves(m: seq<byte>, i: u32, sz: nat)
    requires Ready(m, i)
    ensures Ready(AfterTake(m, i, sz), i) && ItemBytes(AfterTake(m, i, sz), i) == ItemBytes(m, i)
    ensures BytesTaken(m, i, sz) + Waiting(AfterTake(m, i, sz), i) == Waiting(m, i)
  {
    hide Size, GetU32, Capacity, Mapped, Guard, Waiting, Valid, Popped, Taken;
    var op := ReadOp(ItemsToRead(m, i, sz));
    TakeIsRead(m, i, sz);
    CallKeepsUsable(m, i, op);
    CallConserves(m, i, op);
    assert AfterTake(m, i, sz) == After(m, i, op);
    assert BytesIn(m, i, op) == [];
  }

  /** Each call: what it delivers and what then waits are what waited and what it wrote. */
  lemma CallCarries(m: seq<byte>, i: u32, c: Call)
    requires Ready(m, i)
    ensures Ready(CallAfter(m, i, c), i)
    ensures Delivered(m, i, c) + Waiting(CallAfter(m, i, c), i) == Waiting(m, i) + Written(m, i, c)
  {
    hide Size, GetU32, Capacity, Mapped, Guard, Waiting, AfterBatch, AfterTake, AfterWait, BatchBytes, BytesTaken;
    match c {
      case Batch(data) => BatchConserves(m, i, data);
      case Timed(sz, polls) =>
        if sz >= ItemBytes(m, i) {
          WaitConserves(m, i, polls);
          TakeConserves(AfterWait(m, i, polls), i, sz);
        }
    }
  }

  function CallsAfter(m: seq<byte>, i: u32, cs: seq<Call>): seq<byte>
    requires Ready(m, i)
    decreases |cs|
  {
    if cs == [] then m else
    CallCarries(m, i, cs[0]);
    CallsAfter(CallAfter(m, i, cs[0]), i, cs[1..])
  }

  function AllWritten(m: seq<byte>, i: u32, cs: seq<Call>): seq<byte>
    requires Ready(m, i)
    decreases |cs|
  {
    if cs == [] then [] else
    CallCarries(m, i, cs[0]);
    Written(m, i, cs[0]) + AllWritten(CallAfter(m, i, cs[0]), i, cs[1..])
  }

  function AllDelivered(m: seq<byte>, i: u32, cs: seq<Call>): seq<byte>
    requires Ready(m, i)
    decreases |cs|
  {
    if cs == [] then [] else
    CallCarries(m, i, cs[0]);
    Delivered(m, i, cs[0]) + AllDelivered(CallAfter(m, i, cs[0]), i, cs[1..])
  }

  /** The same over a whole run of calls. */
  lemma {:induction false} CallsCarry(m: seq<byte>, i: u32, cs: seq<Call>)
    requires Ready(m, i)
    ensures Ready(CallsAfter(m, i, cs), i)
    ensures AllDelivered(m, i, cs) + Waiting(CallsAfter(m, i, cs), i) == Waiting(m, i) + AllWritten(m, i, cs)
    decreases |cs|
  {
    hide Waiting, CallAfter, Written, Delivered, Guard, Mapped, GetU32, Capacity, ItemBytes;
    if cs != [] {
      var u := CallAfter(m, i, cs[0]);
      CallCarries(m, i, cs[0]);
      CallsCarry(u, i, cs[1..]);
      Regroup(Delivered(m, i, cs[0]), AllDelivered(u, i, cs[1..]), Waiting(CallsAfter(u, i, cs[1..]), i),
              Waiting(u, i), AllWritten(u, i, cs[1..]), Waiting(m, i), Written(m, i, cs[0]));
    }
  }

  /** Starting empty, the bytes delivered are a prefix of the bytes written, and the rest is
      exactly what still waits. */
  lemma DeliveredIsPrefix(m: seq<byte>, i: u32, cs: seq<Call>)
    requires Ready(m, i) && Items(m, i) == 0
    ensures AllDelivered(m, i, cs) <= AllWritten(m, i, cs)
    ensures Ready(CallsAfter(m, i, cs), i)
    ensures Waiting(CallsAfter(m, i, cs), i) == AllWritten(m, i, cs)[|AllDelivered(m, i, cs)|..]
  {
    hide GetU32, Capacity, Queue, Valid, CallsAfter, AllDelivered, AllWritten;
    UsableFits(m, i);
    QueueLength(m, Start(m, i));
    assert Waiting(m, i) == [];
    CallsCarry(m, i, cs);
    assert AllDelivered(m, i, cs) + Waiting(CallsAfter(m, i, cs), i) == AllWritten(m, i, cs);
  }

  /** A successful read delivers between one item and sz bytes, in whole items, and leaves an
      item only if the buffer has no room for it. */
  lemma ReadsWholeItems(m: seq<byte>, i: u32, sz: nat, polls: seq<Poll>)
    requires Ready(m, i) && Delivers(m, i, sz, polls) && Genuine(polls)
    ensures var got := Delivered(m, i, Timed(sz, polls));
      exists k: nat :: k > 0 && |got| == Size(k, ItemBytes(m, i)) && |got| <= sz
        && (k == Items(AfterWait(m, i, polls), i) || |got| + ItemBytes(m, i) > sz)
  {
    hide Size, GetU32, Capacity, Mapped, Guard, Valid, Items, ItemBytes;
    var t := AfterWait(m, i, polls);
    WaitedForItems(m, i, polls);
    ReadsAllThatFits(t, i, sz, 1);
    var k := ItemsToRead(t, i, sz);
    Commute(1, ItemBytes(m, i));
    SizeSum(k, 1, ItemBytes(m, i));
    if k < Items(t, i) {
      ReadsAllThatFits(t, i, sz, k + 1);
    }
  }

  /** The wait ends without error only with items. */
  lemma {:induction false} WaitedForItems(m: seq<byte>, i: u32, polls: seq<Poll>)
    requires Ready(m, i) && WaitError(m, i, polls) == 0 && Genuine(polls)
    ensures Items(AfterWait(m, i, polls), i) > 0
    decreases |polls|
  {
    hide Size, GetU32, Capacity, Mapped, Guard, Items, ItemBytes, AfterBatch;
    if Items(m, i) == 0 {
      BatchKeeps(m, i, polls[0].data);
      WaitedForItems(AfterBatch(m, i, polls[0].data), i, polls[1..]);
    }
  }
}
