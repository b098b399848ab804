/** The byte interface over a channel: rtss_mb_write_batch, rtss_mb_write and
    rtss_mb_read_timed, which count bytes where the ring counts items. */
module MailboxApi {
  import opened Words
  import opened Copy
  import opened Ring
  import opened Mailbox
  import opened Channels
  import opened Isolation
  import opened Creation
  import opened Device
  import Layout

  type size_t = n: nat | n < 0x1_0000_0000_0000_0000

  // ---- whole items in a byte count ----

  /** The whole items in sz bytes. */
  function Whole(sz: nat, z: nat): (k: nat)
    requires z > 0
    ensures Size(k, z) <= sz < Size(k, z) + z
  {
    SizeOfQuotient(sz, z);
    sz / z
  }

  /** Items that fit: k * z <= n * z. */
  lemma WholeBelow(sz: nat, z: nat, n: nat)
    requires z > 0
    ensures sz <= Size(n, z) ==> Whole(sz, z) <= n
    ensures sz < Size(n, z) ==> Whole(sz, z) < n
  {
    hide Size;
    var k := Whole(sz, z);
    if k > n {
      SizeMono(n + 1, k, z);
      SizeSum(n, 1, z);
      Commute(1, z);
    } else if k == n {
      assert Size(k, z) <= sz;
    }
  }

  // ---- writing ----

  /** The check `free * item_size < sz` does not refuse. */
  predicate BatchFits(m: seq<byte>, i: u32, sz: nat)
    requires Usable(m, i)
  {
    UsableFits(m, i);
    0 < sz <= Size(Free(m, Start(m, i)), ItemBytes(m, i))
  }

  /** The check, through the queue: what waits and the new bytes fit in all slots but one. */
  lemma FitsExactly(m: seq<byte>, i: u32, sz: nat)
    requires Usable(m, i) && ItemBytes(m, i) > 0
    ensures HasHeader(m, Start(m, i)) && MaxNum(m, Start(m, i)) > 0
    ensures BatchFits(m, i, sz) <==>
      0 < sz && |Waiting(m, i)| + sz <= Size(MaxNum(m, Start(m, i)) - 1, ItemBytes(m, i))
  {
    hide Size, GetU32, Capacity, Valid, Free, Queue;
    UsableFits(m, i);
    var r := Start(m, i);
    QueueLength(m, r);
    SizeSum(Valid(m, r), Free(m, r), ItemSize(m, r));
  }

  /** A batch that is taken goes behind what waits: its whole items. */
  lemma BatchConserves(m: seq<byte>, i: u32, data: seq<byte>)
    requires Usable(m, i) && ItemBytes(m, i) > 0
    ensures Usable(AfterBatch(m, i, data), i) && ItemBytes(AfterBatch(m, i, data), i) == ItemBytes(m, i)
    ensures Waiting(AfterBatch(m, i, data), i) == Waiting(m, i) + BatchBytes(m, i, data)
  {
    hide Size, GetU32, Capacity, After, Mapped, Guard, Waiting, Valid;
    BatchKeeps(m, i, data);
    if BatchFits(m, i, |data|) {
      var op := BatchOp(m, i, data);
      ItemsFit(m, i, |data|);
      CallConserves(m, i, op);
      assert BytesOut(m, i, op) == [];
      assert BytesIn(m, i, op) == BatchBytes(m, i, data);
    }
  }

  lemma WholeBytes(sz: nat, z: nat)
    requires z > 0
    ensures Size(Whole(sz, z), z) == sz - sz % z
  {
    Commute(sz / z, z);
  }

  /** The whole items at the front. */
  function WholeItems(data: seq<byte>, z: nat): (s: seq<byte>)
    requires z > 0
  {
    data[..|data| - |data| % z]
  }

  /** All slots but one can hold what waits and sz bytes more. */
  predicate HoldsMore(m: seq<byte>, i: u32, sz: nat)
    requires Usable(m, i)
  {
    UsableFits(m, i);
    |Waiting(m, i)| + sz <= (MaxNum(m, Start(m, i)) - 1) * ItemSize(m, Start(m, i))
  }

  /** What a batch on channel i makes of the region m and replies: its whole items go behind
      what waits when there is room for the batch; else -105, and nothing changes. */
  ghost predicate Queues(m: seq<byte>, i: u32, data: seq<byte>, t: seq<byte>, ret: int)
    requires Usable(m, i) && ItemBytes(m, i) > 0
  {
    if HoldsMore(m, i, |data|) then
      && Usable(t, i) && Waiting(t, i) == Waiting(m, i) + WholeItems(data, ItemBytes(m, i))
      && ret == ToInt32(|data| - |data| % ItemBytes(m, i))
    else
      t == m && ret == -105
  }

  lemma BatchQueues(m: seq<byte>, i: u32, data: seq<byte>)
    requires Usable(m, i) && ItemBytes(m, i) > 0 && data != []
    ensures BatchFits(m, i, |data|) <==> HoldsMore(m, i, |data|)
    ensures Queues(m, i, data, AfterBatch(m, i, data),
                   if BatchFits(m, i, |data|) then
                     ToInt32(Size(Whole(|data|, ItemBytes(m, i)), ItemBytes(m, i)))
                   else -105)
  {
    hide GetU32, Capacity, After, Mapped, Guard, Waiting, Valid, BatchFits, ToInt32, Whole, AfterBatch;
    UsableFits(m, i);
    FitsExactly(m, i, |data|);
    BatchConserves(m, i, data);
    WholeBytes(|data|, ItemBytes(m, i));
    BatchUntaken(m, i, data);
  }

  lemma BatchUntaken(m: seq<byte>, i: u32, data: seq<byte>)
    requires Usable(m, i) && ItemBytes(m, i) > 0
    ensures !BatchFits(m, i, |data|) ==> AfterBatch(m, i, data) == m
  {
    hide GetU32, Capacity, Guard, BatchFits, Mapped;
  }

  /** When a batch is taken, without the ring's own room count. */
  lemma TakenExactly(h: Handle, sz: nat)
    requires h.Attached() && WriteRefusal(h, sz) == 0 && Usable(h.mb.cells[..], h.index)
    ensures HasHeader(h.mb.cells[..], Start(h.mb.cells[..], h.index))
    ensures var m := h.mb.cells[..];
      && (BatchTaken(h, sz) <==> |Waiting(m, h.index)| + sz <= (MaxNum(m, Start(m, h.index)) - 1) * h.itemSize)
      && (BatchTaken(h, sz) <==> HoldsMore(m, h.index, sz))
      && (!BatchTaken(h, sz) ==> BatchReply(h, sz) == -105)
      && (BatchTaken(h, sz) ==> BatchReply(h, sz) == ToInt32(sz - sz % h.itemSize))
  {
    hide GetU32, Capacity, Mapped, Guard, Waiting, Valid, BatchFits;
    FitsExactly(h.mb.cells[..], h.index, sz);
    WholeBytes(sz, h.itemSize);
  }

  lemma ItemsFit(m: seq<byte>, i: u32, sz: nat)
    requires Usable(m, i) && ItemBytes(m, i) > 0 && BatchFits(m, i, sz)
    ensures Fits(m, Start(m, i)) && Whole(sz, ItemBytes(m, i)) <= Free(m, Start(m, i)) < TWO32
    ensures WriteResult(m, i, Whole(sz, ItemBytes(m, i))) == Whole(sz, ItemBytes(m, i))
  {
    hide Size, GetU32, Capacity, Valid;
    UsableFits(m, i);
    WholeBelow(sz, ItemBytes(m, i), Free(m, Start(m, i)));
  }

  lemma BatchIsSupplied(m: seq<byte>, i: u32, data: seq<byte>)
    requires Usable(m, i) && ItemBytes(m, i) > 0 && BatchFits(m, i, |data|)
    ensures Whole(|data|, ItemBytes(m, i)) < TWO32
    ensures Supplied(m, i, WriteOp(data, Whole(|data|, ItemBytes(m, i))))
  {
    hide Size, GetU32, Capacity, Valid;
    ItemsFit(m, i, |data|);
  }

  /** A batch that fits, as one write of its whole items. */
  function BatchOp(m: seq<byte>, i: u32, data: seq<byte>): (op: Op)
    requires Usable(m, i) && ItemBytes(m, i) > 0 && BatchFits(m, i, |data|)
    ensures Supplied(m, i, op)
  {
    hide Size, GetU32, Capacity, Valid, BatchFits, ItemBytes, Guard, Mapped;
    BatchIsSupplied(m, i, data);
    WriteOp(data, Whole(|data|, ItemBytes(m, i)))
  }

  function AfterBatch(m: seq<byte>, i: u32, data: seq<byte>): (t: seq<byte>)
    requires Usable(m, i) && ItemBytes(m, i) > 0
  {
    if BatchFits(m, i, |data|) then After(m, i, BatchOp(m, i, data)) else m
  }

  /** The bytes a batch puts into the stream: its whole items, or nothing. */
  function BatchBytes(m: seq<byte>, i: u32, data: seq<byte>): (s: seq<byte>)
    requires Usable(m, i) && ItemBytes(m, i) > 0
  {
    if BatchFits(m, i, |data|) then data[..Size(Whole(|data|, ItemBytes(m, i)), ItemBytes(m, i))] else []
  }

  /** The handle checks of a write. */
  function WriteRefusal(h: Handle, sz: nat): int
    reads h
  {
    if sz == 0 then -EINVAL
    else if h.fd < 0 || h.itemSize == 0 then -EBADF
    else if h.mode != TX then -EPERM
    else 0
  }

  function BatchReply(h: Handle, sz: nat): int
    reads h, h.mb.Cells()
    requires h.Attached()
  {
    var m := h.mb.cells[..];
    if WriteRefusal(h, sz) != 0 then WriteRefusal(h, sz)
    else if Guard(m, h.index) != 0 then -EIO
    else if !BatchFits(m, h.index, sz) then -ENOBUFS
    else ToInt32(Size(Whole(sz, h.itemSize), h.itemSize))
  }

  /** The writer may touch the ring and its bytes are taken. */
  ghost predicate BatchTaken(h: Handle, sz: nat)
    reads h, h.mb.Cells()
    requires h.Attached()
  {
    WriteRefusal(h, sz) == 0 && Usable(h.mb.cells[..], h.index) && BatchFits(h.mb.cells[..], h.index, sz)
  }

  function Footprint(h: Handle?): set<object>
    reads h
  {
    if h == null then {} else h.mb.Cells()
  }

  /** rtss_mb_write_batch: all whole items of the buffer or nothing. */
  method WriteBatch(h: Handle?, buf: Memory, sz: size_t) returns (ret: int)
    requires h != null ==> h.Attached()
    requires buf.Memory? ==> sz <= buf.cells.Length
    requires h != null && h.mb.Memory? && buf.Memory? ==> h.mb.cells != buf.cells
    modifies Footprint(h)
    ensures h == null || buf.Null? ==> ret == -22
    ensures h != null && buf.Memory? ==> ret == old(BatchReply(h, sz))
    ensures h != null && (buf.Null? || !old(BatchTaken(h, sz))) ==> h.mb.cells[..] == old(h.mb.cells[..])
    ensures h != null && buf.Memory? && old(BatchTaken(h, sz)) ==>
      h.mb.cells[..] == old(AfterBatch(h.mb.cells[..], h.index, buf.cells[..sz]))
    ensures h != null && buf.Memory? ==>
      && (sz == 0 ==> ret == -22)
      && (sz > 0 && (h.fd < 0 || h.itemSize == 0) ==> ret == -9)
      && (sz > 0 && h.fd >= 0 && h.itemSize > 0 && h.mode != 1 ==> ret == -1)
      && (old(WriteRefusal(h, sz) == 0 && !Usable(h.mb.cells[..], h.index)) ==> ret == -5)
    ensures h != null && buf.Memory? && old(WriteRefusal(h, sz) == 0 && Usable(h.mb.cells[..], h.index)) ==>
      Queues(old(h.mb.cells[..]), h.index, old(buf.cells[..sz]), h.mb.cells[..], ret)
  {
    hide GetU32, Size, Guard, Capacity, Mapped, Valid, Pushed, ToInt32, WriteResult, Waiting, Queues;
    if h == null || buf.Null? {
      return -EINVAL;
    }
    if sz == 0 {
      return -EINVAL;
    }
    if h.fd < 0 {
      return -EBADF;
    }
    if h.itemSize == 0 {
      return -EBADF;
    }
    if h.mode != TX {
      return -EPERM;
    }
    ghost var m := h.mb.cells[..];
    ValidateIsFirst(m, h.index);
    var valid := Validate(h.mb);
    if valid != 0 {
      return -EIO;
    }
    var free := GetFreeItemNum(h.mb, h.index);
    RoomIsFree(m, h.index);
    if free < 0 {
      return -EIO;
    }
    BatchQueues(m, h.index, buf.cells[..sz]);
    if Size(free, h.itemSize) < sz {
      return -ENOBUFS;
    }
    ItemsFit(m, h.index, sz);
    var items := Whole(sz, h.itemSize);
    var written := Channels.Write(h.mb, buf, items, h.index);
    BatchIsPush(m, h.index, buf.cells[..], sz);
    ret := ToInt32(Size(written, h.itemSize));
  }

  lemma ValidateIsFirst(m: seq<byte>, i: u32)
    requires Mapped(m)
    ensures 40 <= |m| && (Magic(m) != MAGIC ==> Guard(m, i) != 0)
  {
  }

  lemma RoomIsFree(m: seq<byte>, i: u32)
    requires Mapped(m)
    ensures RoomReply(m, i) < 0 <==> Guard(m, i) != 0
    ensures Guard(m, i) == 0 ==>
      (HasHeader(m, Start(m, i)) && Sane(m, Start(m, i)) && RoomReply(m, i) == Free(m, Start(m, i)))
  {
    hide GetU32, Capacity, Valid;
    if Guard(m, i) == 0 {
      UsableFits(m, i);
    }
  }

  lemma BatchIsPush(m: seq<byte>, i: u32, bytes: seq<byte>, sz: nat)
    requires Usable(m, i) && ItemBytes(m, i) > 0 && sz <= |bytes| && BatchFits(m, i, sz)
    ensures Fits(m, Start(m, i)) && Whole(sz, ItemBytes(m, i)) <= Free(m, Start(m, i))
    ensures var k := Whole(sz, ItemBytes(m, i));
      Pushed(m, Start(m, i), bytes[..Size(k, ItemBytes(m, i))], k) == AfterBatch(m, i, bytes[..sz])
  {
    hide Size, GetU32, Capacity, Pushed, Whole;
    ItemsFit(m, i, sz);
    var n := Size(Whole(sz, ItemBytes(m, i)), ItemBytes(m, i));
    assert bytes[..sz][..n] == bytes[..n];
  }

  /** rtss_mb_write: a batch, then the interrupt, whose outcome is errno (0 for success).
      The items stay in the ring when the interrupt fails. */
  method Write(h: Handle?, buf: Memory, sz: size_t, errno: int) returns (ret: int, sent: bool)
    requires h != null ==> h.Attached()
    requires buf.Memory? ==> sz <= buf.cells.Length
    requires h != null && h.mb.Memory? && buf.Memory? ==> h.mb.cells != buf.cells
    requires 0 <= errno
    modifies Footprint(h)
    ensures h == null || buf.Null? ==> ret == -EINVAL && !sent
    ensures h != null && buf.Memory? ==> sent == (old(BatchReply(h, sz)) > 0)
    ensures h != null && buf.Memory? ==>
      ret == if sent && errno != 0 then -errno else old(BatchReply(h, sz))
    ensures h != null && (buf.Null? || !old(BatchTaken(h, sz))) ==> h.mb.cells[..] == old(h.mb.cells[..])
    ensures h != null && buf.Memory? && old(BatchTaken(h, sz)) ==>
      h.mb.cells[..] == old(AfterBatch(h.mb.cells[..], h.index, buf.cells[..sz]))
  {
    hide GetU32, Size, Guard, Capacity, Mapped, BatchReply, BatchTaken, AfterBatch;
    sent := false;
    ret := WriteBatch(h, buf, sz);
    if ret <= 0 {
      return;
    }
    sent := true;
    if errno != 0 {
      ret := -errno;
    }
  }

  /** The count that a batch reports is the number of bytes taken exactly while that number
      fits an int; beyond, it is negative and rtss_mb_write sends no interrupt. */
  lemma ReportedCount(h: Handle, sz: nat)
    requires h.Attached() && BatchTaken(h, sz)
    ensures var n := Size(Whole(sz, h.itemSize), h.itemSize);
      && n < TWO32
      && (BatchReply(h, sz) == n <==> n < 0x8000_0000)
      && (BatchReply(h, sz) < 0 <==> n >= 0x8000_0000)
  {
    hide Size, GetU32, Capacity, Whole;
    var m := h.mb.cells[..];
    UsableFits(m, h.index);
    ItemsFit(m, h.index, sz);
    CapacityBounds(m, Start(m, h.index), Whole(sz, h.itemSize));
  }

  lemma CapacityBounds(m: seq<byte>, r: nat, k: nat)
    requires HasHeader(m, r) && Sane(m, r) && k <= MaxNum(m, r)
    ensures Size(k, ItemSize(m, r)) <= Capacity(m, r)
  {
    hide GetU32;
    SizeMono(k, MaxNum(m, r), ItemSize(m, r));
  }

  // ---- reading ----

  /** What one poll of the event counter brings. Woken: POLLIN with the counter read, or no
      known event; either way the ring is looked at again, and meanwhile the writer may have
      made a batch call (none when the data is empty). */
  datatype Poll =
    | Interrupted
    | PollFailed(errno: int)
    | Expired
    | CounterFailed(errno: int)
    | HungUp
    | Woken(data: seq<byte>)

  /** Errors that end the wait. */
  function PollError(p: Poll): int {
    match p
    case Interrupted => -EINTR
    case PollFailed(e) => -e
    case Expired => -ETIMEDOUT
    case CounterFailed(e) => -e
    case HungUp => -ECONNRESET
    case Woken(_) => 0
  }

  /** A failed call reports a positive errno. */
  predicate Genuine(polls: seq<Poll>) {
    forall k | 0 <= k < |polls| && !polls[k].Woken? :: PollError(polls[k]) < 0
  }

  /** The region when the wait for items ends; a list of polls that runs out is a time-out. */
  function AfterWait(m: seq<byte>, i: u32, polls: seq<Poll>): (t: seq<byte>)
    requires Usable(m, i) && ItemBytes(m, i) > 0
    ensures Usable(t, i) && ItemBytes(t, i) == ItemBytes(m, i)
    decreases |polls|
  {
    if Items(m, i) > 0 || polls == [] || !polls[0].Woken? then m else
    BatchKeeps(m, i, polls[0].data);
    AfterWait(AfterBatch(m, i, polls[0].data), i, polls[1..])
  }

  /** How the wait ends: 0 when items are there. */
  function WaitError(m: seq<byte>, i: u32, polls: seq<Poll>): int
    requires Usable(m, i) && ItemBytes(m, i) > 0
    decreases |polls|
  {
    if Items(m, i) > 0 then 0
    else if polls == [] then -ETIMEDOUT
    else if !polls[0].Woken? then PollError(polls[0])
    else
      BatchKeeps(m, i, polls[0].data);
      WaitError(AfterBatch(m, i, polls[0].data), i, polls[1..])
  }

  /** The error of each way to wait in vain on an empty ring, and after a wake-up that brings
      nothing the next one decides. */
  lemma WaitInVain(m: seq<byte>, i: u32, e: int, rest: seq<Poll>)
    requires Usable(m, i) && ItemBytes(m, i) > 0 && Waiting(m, i) == []
    ensures WaitError(m, i, []) == -110
    ensures WaitError(m, i, [Expired] + rest) == -110
    ensures WaitError(m, i, [Interrupted] + rest) == -4
    ensures WaitError(m, i, [HungUp] + rest) == -104
    ensures WaitError(m, i, [PollFailed(e)] + rest) == -e == WaitError(m, i, [CounterFailed(e)] + rest)
    ensures WaitError(m, i, [Woken([])] + rest) == WaitError(m, i, rest)
  {
    hide Size, GetU32, Capacity, Guard, Mapped, Waiting, Valid;
    NoItems(m, i);
    assert ([Woken([])] + rest)[1..] == rest;
  }

  lemma NoItems(m: seq<byte>, i: u32)
    requires Usable(m, i) && ItemBytes(m, i) > 0
    ensures Items(m, i) == 0 <==> Waiting(m, i) == []
  {
    hide GetU32, Capacity, Valid, Queue;
    UsableFits(m, i);
    QueueLength(m, Start(m, i));
  }

  function Items(m: seq<byte>, i: u32): nat
    requires Usable(m, i)
  {
    UsableFits(m, i);
    Valid(m, Start(m, i))
  }

  lemma BatchKeeps(m: seq<byte>, i: u32, data: seq<byte>)
    requires Usable(m, i) && ItemBytes(m, i) > 0
    ensures Usable(AfterBatch(m, i, data), i)
    ensures ItemBytes(AfterBatch(m, i, data), i) == ItemBytes(m, i)
    ensures |AfterBatch(m, i, data)| == |m|
  {
    hide Size, GetU32, Capacity, After, Mapped, Guard;
    if BatchFits(m, i, |data|) {
      CallKeepsUsable(m, i, BatchOp(m, i, data));
    }
  }

  /** The items a read takes: all that wait when they fit, else the whole items in sz. */
  function ItemsToRead(m: seq<byte>, i: u32, sz: nat): (k: nat)
    requires Usable(m, i) && ItemBytes(m, i) > 0
    ensures k <= Items(m, i)
  {
    WholeBelow(sz, ItemBytes(m, i), Items(m, i));
    if Size(Items(m, i), ItemBytes(m, i)) > sz then Whole(sz, ItemBytes(m, i)) else Items(m, i)
  }

  /** That is the largest number of waiting items whose bytes fit the buffer. */
  lemma ReadsAllThatFits(m: seq<byte>, i: u32, sz: nat, k: nat)
    requires Usable(m, i) && ItemBytes(m, i) > 0 && k <= Items(m, i)
    ensures Size(k, ItemBytes(m, i)) <= sz <==> k <= ItemsToRead(m, i, sz)
  {
    hide Size, GetU32, Capacity, Items;
    var z := ItemBytes(m, i);
    var n := ItemsToRead(m, i, sz);
    if k <= n {
      SizeMono(k, n, z);
    } else {
      SizeMono(n + 1, k, z);
      SizeSum(n, 1, z);
      Commute(1, z);
    }
  }

  function AfterTake(m: seq<byte>, i: u32, sz: nat): (t: seq<byte>)
    requires Usable(m, i) && ItemBytes(m, i) > 0
    ensures |t| == |m|
  {
    UsableFits(m, i);
    Popped(m, Start(m, i), ItemsToRead(m, i, sz))
  }

  function BytesTaken(m: seq<byte>, i: u32, sz: nat): (s: seq<byte>)
    requires Usable(m, i) && ItemBytes(m, i) > 0
    ensures |s| == Size(ItemsToRead(m, i, sz), ItemBytes(m, i)) <= sz
  {
    UsableFits(m, i);
    ReadsAllThatFits(m, i, sz, ItemsToRead(m, i, sz));
    Taken(m, Start(m, i), ItemsToRead(m, i, sz))
  }

  function ReadRefusal(h: Handle, sz: nat, ms: int): int
    reads h
  {
    if sz == 0 || ms < -1 then -EINVAL
    else if h.fd < 0 then -EBADF
    else if h.mode != RX then -EPERM
    else if h.itemSize == 0 then -EBADF
    else if sz < h.itemSize then -EMSGSIZE
    else 0
  }

  /** The wait is reached. */
  ghost predicate MayWait(h: Handle, sz: nat, ms: int)
    reads h, h.mb.Cells()
    requires h.Attached()
  {
    ReadRefusal(h, sz, ms) == 0 && Usable(h.mb.cells[..], h.index)
  }

  function ReadReply(h: Handle, sz: nat, ms: int, polls: seq<Poll>): int
    reads h, h.mb.Cells()
    requires h.Attached()
  {
    var m := h.mb.cells[..];
    if ReadRefusal(h, sz, ms) != 0 then ReadRefusal(h, sz, ms)
    else if Guard(m, h.index) != 0 then -EIO
    else if WaitError(m, h.index, polls) != 0 || Items(AfterWait(m, h.index, polls), h.index) == 0 then
      WaitError(m, h.index, polls)
    else ToInt32(|BytesTaken(AfterWait(m, h.index, polls), h.index, sz)|)
  }

  /** A read takes what it takes, and reports the number of bytes exactly while that number
      fits an int; beyond, it is negative, and the bytes are gone from the ring all the same. */
  lemma ReportedRead(h: Handle, sz: nat, ms: int, polls: seq<Poll>)
    requires h.Attached() && MayWait(h, sz, ms)
    requires WaitError(h.mb.cells[..], h.index, polls) == 0
    ensures var t := AfterWait(h.mb.cells[..], h.index, polls);
      Items(t, h.index) > 0 ==>
        (var n := |BytesTaken(t, h.index, sz)|;
         && n < TWO32
         && (ReadReply(h, sz, ms, polls) == n <==> n < 0x8000_0000)
         && (ReadReply(h, sz, ms, polls) < 0 <==> n >= 0x8000_0000))
  {
    hide Size, GetU32, Capacity, Whole, AfterWait, Taken, Valid;
    var t := AfterWait(h.mb.cells[..], h.index, polls);
    UsableFits(t, h.index);
    CapacityBounds(t, Start(t, h.index), ItemsToRead(t, h.index, sz));
  }

  /** The writer's batch call while the reader waits. */
  method PeerBatch(mb: Memory, i: u32, data: seq<byte>)
    requires mb.Memory? && Usable(mb.cells[..], i) && ItemBytes(mb.cells[..], i) > 0
    modifies mb.cells
    ensures mb.cells[..] == old(AfterBatch(mb.cells[..], i, data))
  {
    hide GetU32, Size, Guard, Capacity, Mapped, Valid, Pushed, ToInt32, WriteResult;
    ghost var m := mb.cells[..];
    RoomIsFree(m, i);
    var z := PeerItemSize(mb, i);
    var room := GetFreeItemNum(mb, i);
    if 0 < |data| <= Size(room, z) {
      ItemsFit(m, i, |data|);
      var copy := new byte[|data|](k requires 0 <= k < |data| => data[k]);
      assert copy[..] == data && data[..|data|] == data;
      BatchIsPush(m, i, copy[..], |data|);
      var _ := Channels.Write(mb, Memory(0, copy), Whole(|data|, z), i);
    }
  }

  method PeerItemSize(mb: Memory, i: u32) returns (z: u32)
    requires mb.Memory? && Usable(mb.cells[..], i)
    ensures z == ItemBytes(mb.cells[..], i)
  {
    hide GetU32, Capacity;
    UsableFits(mb.cells[..], i);
    var _, r := Enter(mb, i);
    z := GetReg(mb, r + 44);
  }

  /** rtss_mb_read_timed: looks at the ring before every wait. */
  method ReadTimed(h: Handle?, buf: Memory, sz: size_t, ms: int, polls: seq<Poll>) returns (ret: int)
    requires h != null ==> h.Attached()
    requires buf.Memory? ==> sz <= buf.cells.Length
    requires h != null && h.mb.Memory? && buf.Memory? ==> h.mb.cells != buf.cells
    requires Genuine(polls)
    modifies Footprint(h), buf.Cells()
    ensures h == null || buf.Null? ==> ret == -22
    ensures h != null && buf.Memory? ==> ret == old(ReadReply(h, sz, ms, polls))
    ensures h != null && buf.Memory? ==>
      && (sz == 0 || ms < -1 ==> ret == -22)
      && (sz > 0 && ms >= -1 && h.fd < 0 ==> ret == -9)
      && (sz > 0 && ms >= -1 && h.fd >= 0 && h.mode != 0 ==> ret == -1)
      && (sz > 0 && ms >= -1 && h.fd >= 0 && h.mode == 0 && h.itemSize == 0 ==> ret == -9)
      && (sz > 0 && ms >= -1 && h.fd >= 0 && h.mode == 0 && sz < h.itemSize ==> ret == -90)
      && (old(ReadRefusal(h, sz, ms) == 0 && !Usable(h.mb.cells[..], h.index)) ==> ret == -5)
    ensures h != null && buf.Memory? && !old(MayWait(h, sz, ms)) ==> h.mb.cells[..] == old(h.mb.cells[..])
    ensures h != null && buf.Memory? && old(MayWait(h, sz, ms)) ==>
      (var t := old(AfterWait(h.mb.cells[..], h.index, polls));
       if old(WaitError(h.mb.cells[..], h.index, polls)) != 0 then
         h.mb.cells[..] == t && buf.cells[..] == old(buf.cells[..])
       else
         && h.mb.cells[..] == AfterTake(t, h.index, sz)
         && buf.cells[..] == Blit(old(buf.cells[..]), 0, BytesTaken(t, h.index, sz)))
  {
    hide GetU32, Size, Guard, Capacity, Mapped, Valid, Popped, Taken, ToInt32, Blit, AfterBatch, Whole;
    if h == null || buf.Null? {
      return -EINVAL;
    }
    if sz == 0 {
      return -EINVAL;
    }
    if ms < -1 {
      return -EINVAL;
    }
    if h.fd < 0 {
      return -EBADF;
    }
    if h.mode != RX {
      return -EPERM;
    }
    if h.itemSize == 0 {
      return -EBADF;
    }
    if sz < h.itemSize {
      return -EMSGSIZE;
    }
    ghost var m0 := h.mb.cells[..];
    ItemsAreValid(m0, h.index);
    var num := GetValidItemNum(h.mb, h.index);
    if num < 0 {
      return -EIO;
    }
    var k: nat := 0;
    while num == 0
      invariant k <= |polls|
      invariant Usable(h.mb.cells[..], h.index) && ItemBytes(h.mb.cells[..], h.index) == h.itemSize > 0
      invariant num == Items(h.mb.cells[..], h.index)
      invariant buf.cells[..] == old(buf.cells[..])
      invariant AfterWait(m0, h.index, polls) == AfterWait(h.mb.cells[..], h.index, polls[k..])
      invariant WaitError(m0, h.index, polls) == WaitError(h.mb.cells[..], h.index, polls[k..])
      decreases |polls| - k
    {
      if k == |polls| {
        return -ETIMEDOUT;
      }
      if !polls[k].Woken? {
        return PollError(polls[k]);
      }
      ghost var m := h.mb.cells[..];
      BatchKeeps(m, h.index, polls[k].data);
      PeerBatch(h.mb, h.index, polls[k].data);
      assert polls[k..][1..] == polls[k + 1..];
      ItemsAreValid(h.mb.cells[..], h.index);
      num := GetValidItemNum(h.mb, h.index);
      k := k + 1;
    }
    ghost var t := h.mb.cells[..];
    if Size(num, h.itemSize) > sz {
      num := Whole(sz, h.itemSize);
    }
    TakeIsRead(t, h.index, sz);
    var items := Channels.Read(h.mb, buf, num, h.index);
    ret := ToInt32(Size(items, h.itemSize));
  }

  lemma ItemsAreValid(m: seq<byte>, i: u32)
    requires Mapped(m)
    ensures ItemsReply(m, i) < 0 <==> Guard(m, i) != 0
    ensures Guard(m, i) == 0 ==> ItemsReply(m, i) == Items(m, i)
  {
    hide GetU32, Capacity, Valid;
    if Guard(m, i) == 0 {
      UsableFits(m, i);
    }
  }

  lemma TakeIsRead(m: seq<byte>, i: u32, sz: nat)
    requires Usable(m, i) && ItemBytes(m, i) > 0
    ensures var k := ItemsToRead(m, i, sz);
      && k < TWO32 && ReadCount(m, i, k) == k && Fits(m, Start(m, i)) && k <= Valid(m, Start(m, i))
      && AfterTake(m, i, sz) == Popped(m, Start(m, i), k)
      && BytesTaken(m, i, sz) == Taken(m, Start(m, i), k)
      && ItemSize(m, Start(m, i)) == ItemBytes(m, i)
      && Size(k, ItemBytes(m, i)) <= sz
  {
    hide GetU32, Capacity, Valid, Size, Popped, Taken;
    UsableFits(m, i);
    ReadsAllThatFits(m, i, sz, ItemsToRead(m, i, sz));
  }

  /** Which side may do what, from the configuration: on a channel configured with mode 0, and
      on no other, the client's writes pass the mode test, and on all others its reads; the
      other call is refused with -1. */
  lemma ModeDecides(h: Handle, memory: Memory, name: seq<byte>, mb: Layout.MailboxConfig,
                    cs: seq<Layout.ChannelConfig>, i: u32, sz: nat, ms: int)
    requires h.OpenedOn(memory, name) && CreatedAs(memory.cells[..], mb, cs)
    requires i == h.index && i < |cs| && cs[i].itemMaxNum <= Layout.MAX_ITEMS
    requires h.fd >= 0 && cs[i].itemMaxSize > 0 && sz >= cs[i].itemMaxSize && ms >= -1
    ensures WriteRefusal(h, sz) == if cs[i].mode == 0 then 0 else -1
    ensures ReadRefusal(h, sz, ms) == if cs[i].mode == 0 then -1 else 0
  {
    hide CreatedAs, GetU32, Search;
    OpenedHandle(h, memory, name, mb, cs, i);
  }
}
