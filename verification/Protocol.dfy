/** One writer and one reader on one ring, step by step.

    A step is one access to shared memory: a load or store of an index, one byte of an item,
    one operation on the event counter. The barriers around every access make the steps
    sequentially consistent. Fields marked history are not in the program; no step depends
    on them. The sanity checks before each operation only load indices and are not steps. */
module Protocol {
  import opened Words
  import opened Arithmetic
  import opened Ring

  /** The writer's place in rtss_mb_write; the first pair of loads is LibMB_Get_FreeItemNum,
      the second the check in LibMB_Write. */
  datatype Writer =
    | WIdle
    | WRoomIn(data: seq<byte>)
    | WRoomOut(data: seq<byte>, w: nat)
    | WCheckIn(items: seq<byte>, k: nat)
    | WCheckOut(items: seq<byte>, k: nat, w: nat)
    | WItem(items: seq<byte>, k: nat)
    | WCopy(items: seq<byte>, k: nat, w: nat, j: nat)
    | WTrigger

  /** The reader's place in rtss_mb_read_timed. seen: history, the items published when w was
      loaded. */
  datatype Reader =
    | RIdle
    | RItemsIn(room: nat)
    | RItemsOut(room: nat, w: nat, seen: nat)
    | RPoll(room: nat)
    | RDrain(room: nat)
    | RCheckIn(want: nat)
    | RCheckOut(want: nat, w: nat, seen: nat)
    | RItem(k: nat)
    | RCopy(k: nat, r: nat, got: seq<byte>)

  /** n slots of z bytes. event is the event counter; deferred records that the last
      publication was not followed by a successful trigger. published, taken (items) and
      produced, consumed (bytes) are history. */
  datatype State = State(
    n: nat, z: nat, ring: seq<byte>, inIdx: nat, outIdx: nat, event: nat, deferred: bool,
    writer: Writer, reader: Reader,
    published: nat, taken: nat, produced: seq<byte>, consumed: seq<byte>)

  /** What the scheduler, the two clients and the kernel choose. */
  datatype Action =
    | BeginWrite(data: seq<byte>)
    | WriterStep
    | TriggerFails
    | SendTrigger
    | BeginRead(room: nat)
    | ReaderStep
    | PollEnds
    | PollSpurious

  ghost predicate Sized(s: State) {
    s.n > 0 && s.z > 0 && |s.ring| == Size(s.n, s.z) && s.inIdx < s.n && s.outIdx < s.n
  }

  function Index(p: nat, n: nat): (i: nat)
    requires n > 0
    ensures i < n
  {
    p % n
  }

  /** Where byte j of k items starting at slot w lives: LibMB_Write_Item and LibMB_Read_Item
      split the copy at the last slot. */
  function CopyAddress(n: nat, z: nat, w: nat, k: nat, j: nat): (a: int)
    requires w < n
  {
    if w + k > n && j >= Size(n - w, z) then j - Size(n - w, z) else Size(w, z) + j
  }

  function WriterDoes(s: State): (t: State)
    requires Sized(s) && LocalsInRange(s)
  {
    match s.writer
    case WIdle => s
    case WRoomIn(data) => s.(writer := WRoomOut(data, s.inIdx))
    case WRoomOut(data, w) =>
      var k := |data| / s.z;
      if Size(FreeItems(s.n, w, s.outIdx), s.z) < |data| then s.(writer := WIdle)
      else
        SizeOfQuotient(|data|, s.z);
        s.(writer := WCheckIn(data[..Size(k, s.z)], k))
    case WCheckIn(items, k) => s.(writer := WCheckOut(items, k, s.inIdx))
    case WCheckOut(items, k, w) =>
      s.(writer := if k <= FreeItems(s.n, w, s.outIdx) then WItem(items, k) else WIdle)
    case WItem(items, k) => s.(writer := WCopy(items, k, s.inIdx, 0))
    case WCopy(items, k, w, j) =>
      if j < |items| then
        s.(ring := s.ring[CopyAddress(s.n, s.z, w, k, j) := items[j]], writer := WCopy(items, k, w, j + 1))
      else
        s.(inIdx := (w + k) % s.n, writer := if k == 0 then WIdle else WTrigger,
           published := s.published + k, produced := s.produced + items)
    case WTrigger => s.(event := s.event + 1, deferred := false, writer := WIdle)
  }

  function ReaderDoes(s: State): (t: State)
    requires Sized(s) && LocalsInRange(s)
  {
    match s.reader
    case RIdle => s
    case RItemsIn(room) => s.(reader := RItemsOut(room, s.inIdx, s.published))
    case RItemsOut(room, w, _) =>
      var v := ValidItems(s.n, w, s.outIdx);
      s.(reader := if v == 0 then RPoll(room) else RCheckIn(if v > room then room else v))
    case RPoll(room) => if s.event > 0 then s.(reader := RDrain(room)) else s
    case RDrain(room) => s.(event := 0, reader := RItemsIn(room))
    case RCheckIn(want) => s.(reader := RCheckOut(want, s.inIdx, s.published))
    case RCheckOut(want, w, _) =>
      var v := ValidItems(s.n, w, s.outIdx);
      var k := if v < want then v else want;
      s.(reader := if k > 0 then RItem(k) else RIdle)
    case RItem(k) => s.(reader := RCopy(k, s.outIdx, []))
    case RCopy(k, r, got) =>
      if |got| < Size(k, s.z) then
        s.(reader := RCopy(k, r, got + [s.ring[CopyAddress(s.n, s.z, r, k, |got|)]]))
      else
        s.(outIdx := (r + k) % s.n, reader := RIdle, taken := s.taken + k, consumed := s.consumed + got)
  }

  /** Locals stay within what the steps index with. */
  ghost predicate LocalsInRange(s: State)
    requires Sized(s)
  {
    && (match s.writer
        case WRoomOut(_, w) => w < s.n
        case WCheckOut(_, _, w) => w < s.n
        case WCopy(items, k, w, j) =>
          && w < s.n && k < s.n && j <= |items| == Size(k, s.z)
          && (j < |items| ==> 0 <= CopyAddress(s.n, s.z, w, k, j) < |s.ring|)
        case _ => true)
    && (match s.reader
        case RItemsOut(_, w, _) => w < s.n
        case RCheckOut(_, w, _) => w < s.n
        case RCopy(k, r, got) =>
          && r < s.n && k < s.n && |got| <= Size(k, s.z)
          && (|got| < Size(k, s.z) ==> 0 <= CopyAddress(s.n, s.z, r, k, |got|) < |s.ring|)
        case _ => true)
  }

  /** The state after one action; an action that is not enabled changes nothing. */
  function Do(s: State, a: Action): State
    requires Sized(s) && LocalsInRange(s)
  {
    match a
    case BeginWrite(data) => if s.writer.WIdle? && data != [] then s.(writer := WRoomIn(data)) else s
    case WriterStep => WriterDoes(s)
    case TriggerFails => if s.writer.WTrigger? then s.(writer := WIdle, deferred := true) else s
    case SendTrigger => if s.writer.WIdle? then s.(event := s.event + 1, deferred := false) else s
    case BeginRead(room) => if s.reader.RIdle? && room > 0 then s.(reader := RItemsIn(room)) else s
    case ReaderStep => ReaderDoes(s)
    case PollEnds => if s.reader.RPoll? then s.(reader := RIdle) else s
    case PollSpurious => if s.reader.RPoll? then s.(reader := RItemsIn(s.reader.room)) else s
  }

  ghost predicate Initial(s: State) {
    && Sized(s) && s.inIdx == s.outIdx == s.event == s.published == s.taken == 0
    && s.writer.WIdle? && s.reader.RIdle? && !s.deferred && s.produced == s.consumed == []
  }

  // ---- the invariant ----

  /** The indices are the item counts modulo n, and at most n - 1 items wait. */
  ghost predicate Counts(s: State) {
    && Sized(s)
    && s.inIdx == Index(s.published, s.n) && s.outIdx == Index(s.taken, s.n)
    && s.taken <= s.published < s.taken + s.n
  }

  /** Stream byte p lives at address p modulo the ring. */
  function Byte(s: State, p: nat): byte
    requires Sized(s) && |s.ring| > 0
  {
    s.ring[Index(p, |s.ring|)]
  }

  /** Every published byte not yet taken is in its place. */
  ghost predicate Stream(s: State)
    requires Counts(s) && |s.ring| > 0
  {
    && |s.produced| == Size(s.published, s.z)
    && Size(s.taken, s.z) <= |s.produced|
    && s.consumed == s.produced[..Size(s.taken, s.z)]
    && forall p: nat | Size(s.taken, s.z) <= p < |s.produced| :: Byte(s, p) == s.produced[p]
  }

  ghost predicate WriterOk(s: State)
    requires Counts(s) && |s.ring| > 0
  {
    match s.writer
    case WIdle => true
    case WRoomIn(data) => data != []
    case WRoomOut(data, w) => data != [] && w == s.inIdx
    case WCheckIn(items, k) => |items| == Size(k, s.z) && s.published + k < s.taken + s.n
    case WCheckOut(items, k, w) =>
      |items| == Size(k, s.z) && s.published + k < s.taken + s.n && w == s.inIdx
    case WItem(items, k) => |items| == Size(k, s.z) && s.published + k < s.taken + s.n
    case WCopy(items, k, w, j) =>
      && |items| == Size(k, s.z) && s.published + k < s.taken + s.n && w == s.inIdx && j <= |items|
      && forall i: nat | i < j :: Byte(s, Size(s.published, s.z) + i) == items[i]
    case WTrigger => true
  }

  ghost predicate ReaderOk(s: State)
    requires Counts(s) && |s.ring| > 0
  {
    match s.reader
    case RIdle => true
    case RItemsIn(room) => room > 0
    case RItemsOut(room, w, seen) => room > 0 && w == Index(seen, s.n) && s.taken <= seen <= s.published
    case RPoll(room) => room > 0
    case RDrain(room) => room > 0
    case RCheckIn(want) => 0 < want && s.taken + want <= s.published
    case RCheckOut(want, w, seen) =>
      0 < want && w == Index(seen, s.n) && s.taken + want <= seen <= s.published
    case RItem(k) => 0 < k && s.taken + k <= s.published
    case RCopy(k, r, got) =>
      && 0 < k && s.taken + k <= s.published && r == s.outIdx && |got| <= Size(k, s.z)
      && Size(s.taken, s.z) + |got| <= |s.produced|
      && got == s.produced[Size(s.taken, s.z)..Size(s.taken, s.z) + |got|]
  }

  /** A publication the event counter does not yet tell of. */
  predicate Owed(s: State) {
    s.writer.WTrigger? || s.deferred
  }

  /** A reader that has seen an empty ring, or is about to, has not missed anything. */
  ghost predicate WakeOk(s: State) {
    match s.reader
    case RItemsOut(_, _, seen) => seen == s.published || Owed(s) || s.event > 0
    case RPoll(_) => s.taken == s.published || Owed(s) || s.event > 0
    case _ => true
  }

  ghost predicate Inv(s: State) {
    Counts(s) && |s.ring| > 0 && Stream(s) && WriterOk(s) && ReaderOk(s) && WakeOk(s)
  }

  // ---- arithmetic ----

  lemma QuotientBelow(sz: nat, z: nat, f: nat)
    requires z > 0 && sz <= Size(f, z)
    ensures sz / z <= f
  {
    hide Size;
    SizeOfQuotient(sz, z);
    if sz / z > f {
      SizeMono(f + 1, sz / z, z);
      SizeSum(f, 1, z);
      assert Size(1, z) == z by { SizeOne(z); }
    }
  }

  lemma SizePositive(n: nat, z: nat)
    requires n > 0 && z > 0
    ensures Size(n, z) > 0
  {
    SizeMono(1, n, z);
    SizeOne(z);
  }

  /** Positions less than a ring apart have different addresses. */
  lemma IndexApart(a: nat, b: nat, n: nat)
    requires a < b < a + n
    ensures Index(a, n) != Index(b, n)
  {
    var q := a / n;
    assert a == n * q + a % n;
    if a % n == b % n {
      assert b == n * (b / n) + b % n;
      var d := b / n - q;
      assert b - a == n * d;
      if d >= 1 {
        MulAtLeast(n, d);
      } else if d <= -1 {
        MulAtLeast(n, -d);
      }
    }
  }

  /** The code's valid-item count from indices of two counts. */
  lemma ValidOfIndices(n: nat, p: nat, t: nat)
    requires n > 0 && t <= p < t + n
    ensures ValidItems(n, Index(p, n), Index(t, n)) == p - t
  {
    var q, r := t / n, t % n;
    assert t == n * q + r;
    var x := r + (p - t);
    if x < n {
      ModUnique(p, n, q, x);
    } else {
      Successor(n, q);
      ModUnique(p, n, q + 1, x - n);
    }
  }

  lemma IndexAdvances(n: nat, p: nat, k: nat)
    requires n > 0
    ensures (Index(p, n) + k) % n == Index(p + k, n)
  {
    var q := p / n;
    assert p == n * q + p % n;
    var y := p % n + k;
    var c := y / n;
    assert y == n * c + y % n;
    assert p + k == n * (q + c) + y % n by {
      assert n * (q + c) == n * q + n * c;
    }
    ModUnique(p + k, n, q + c, y % n);
  }

  lemma SizeOfPosition(n: nat, z: nat, q: nat, w: nat)
    ensures Size(n * q + w, z) == Size(n, z) * q + Size(w, z)
  {
    assert (n * q + w) * z == n * q * z + w * z;
    assert n * q * z == n * z * q;
  }

  /** The two-piece copy walks through the addresses of consecutive stream positions. */
  lemma AddressOfPosition(n: nat, z: nat, p: nat, k: nat, j: nat)
    requires n > 0 && z > 0 && k < n && j < Size(k, z)
    ensures Size(n, z) > 0
    ensures CopyAddress(n, z, Index(p, n), k, j) == Index(Size(p, z) + j, Size(n, z))
  {
    hide Size;
    SizePositive(n, z);
    var q, w := p / n, p % n;
    assert p == n * q + w;
    SizeOfPosition(n, z, q, w);
    SizeDiff(n, w, z);
    SizeMono(w, n, z);
    SizeSum(w, k, z);
    SizeMono(k, n, z);
    var at := Size(w, z) + j;
    if w + k <= n {
      SizeMono(w + k, n, z);
    }
    if at < Size(n, z) {
      ModUnique(Size(p, z) + j, Size(n, z), q, at);
    } else {
      Successor(Size(n, z), q);
      ModUnique(Size(p, z) + j, Size(n, z), q + 1, at - Size(n, z));
    }
  }

  // ---- the invariant holds ----

  lemma InitiallyHolds(s: State)
    requires Initial(s)
    ensures Inv(s)
  {
    SizePositive(s.n, s.z);
    SizeNone(s.z);
  }

  lemma InvInRange(s: State)
    requires Inv(s)
    ensures LocalsInRange(s)
  {
    hide Size, Index, CopyAddress, Stream, WakeOk;
    if s.writer.WCopy? && s.writer.j < |s.writer.items| {
      AddressOfPosition(s.n, s.z, s.published, s.writer.k, s.writer.j);
    }
    if s.reader.RCopy? && |s.reader.got| < Size(s.reader.k, s.z) {
      AddressOfPosition(s.n, s.z, s.taken, s.reader.k, |s.reader.got|);
    }
  }

  /** Sizes of counts compare as the counts do. */
  lemma SpanFits(s: State, k: nat)
    requires Counts(s) && s.published + k < s.taken + s.n
    ensures Size(s.taken, s.z) <= Size(s.published, s.z)
    ensures Size(s.published, s.z) + Size(k, s.z) <= Size(s.taken, s.z) + Size(s.n, s.z)
  {
    hide Size;
    SizeMono(s.taken, s.published, s.z);
    SizeSum(s.published, k, s.z);
    SizeSum(s.taken, s.n, s.z);
    SizeMono(s.published + k, s.taken + s.n, s.z);
  }

  /** Writing one free byte changes no other stream byte. */
  lemma ByteKept(s: State, t: State, at: nat, p: nat)
    requires Sized(s) && Sized(t) && |s.ring| > 0 && p < at < p + |s.ring|
    requires t.ring == s.ring[Index(at, |s.ring|) := Byte(t, at)] && |t.ring| == |s.ring|
    ensures Byte(t, p) == Byte(s, p)
  {
    IndexApart(p, at, |s.ring|);
  }

  lemma CopyStepHolds(s: State)
    requires Inv(s) && LocalsInRange(s) && s.writer.WCopy? && s.writer.j < |s.writer.items|
    ensures Inv(WriterDoes(s))
  {
    hide Size, Index, CopyAddress, WakeOk;
    var t := WriterDoes(s);
    var base := Size(s.published, s.z);
    var at := base + s.writer.j;
    AddressOfPosition(s.n, s.z, s.published, s.writer.k, s.writer.j);
    SpanFits(s, s.writer.k);
    assert Counts(t) && Byte(t, at) == s.writer.items[s.writer.j];
    forall p: nat | Size(s.taken, s.z) <= p < at
      ensures Byte(t, p) == Byte(s, p)
    {
      ByteKept(s, t, at, p);
    }
    WakeSame(s, t);
  }

  lemma WakeSame(s: State, t: State)
    requires WakeOk(s) && t.reader == s.reader && t.published == s.published && t.taken == s.taken
    requires t.event >= s.event && (Owed(s) ==> Owed(t) || t.event > 0)
    ensures WakeOk(t)
  {
  }

  lemma PublishStream(s: State)
    requires Inv(s) && LocalsInRange(s) && s.writer.WCopy? && s.writer.j == |s.writer.items|
    ensures Counts(WriterDoes(s)) && Stream(WriterDoes(s))
  {
    hide Size, Index, CopyAddress, WakeOk, ReaderOk;
    var t := WriterDoes(s);
    var k := s.writer.k;
    SpanFits(s, k);
    SizeSum(s.published, k, s.z);
    IndexIsMod(s, k);
    assert t.consumed == t.produced[..Size(t.taken, t.z)];
    forall p: nat | Size(s.taken, s.z) <= p < |t.produced|
      ensures Byte(t, p) == t.produced[p]
    {
      if p >= |s.produced| {
        assert Byte(s, Size(s.published, s.z) + (p - |s.produced|)) == s.writer.items[p - |s.produced|];
      }
    }
  }

  /** More has been published: what the reader is doing stays right. */
  lemma ReaderKept(s: State, t: State)
    requires Counts(s) && Counts(t) && |s.ring| > 0 && t.ring == s.ring && ReaderOk(s)
    requires t.n == s.n && t.z == s.z && t.outIdx == s.outIdx && t.taken == s.taken && t.reader == s.reader
    requires t.published >= s.published && s.produced <= t.produced
    ensures ReaderOk(t)
  {
    hide Size, Index;
  }

  lemma PublishHolds(s: State)
    requires Inv(s) && LocalsInRange(s) && s.writer.WCopy? && s.writer.j == |s.writer.items|
    ensures Inv(WriterDoes(s))
  {
    hide Size, Index, CopyAddress, Stream, ReaderOk;
    var t := WriterDoes(s);
    PublishStream(s);
    ReaderKept(s, t);
  }

  lemma IndexIsMod(s: State, k: nat)
    requires Sized(s)
    ensures (Index(s.published, s.n) + k) % s.n == Index(s.published + k, s.n)
    ensures (Index(s.taken, s.n) + k) % s.n == Index(s.taken + k, s.n)
  {
    IndexAdvances(s.n, s.published, k);
    IndexAdvances(s.n, s.taken, k);
  }

  lemma RoomStepHolds(s: State)
    requires Inv(s) && LocalsInRange(s) && (s.writer.WRoomOut? || s.writer.WCheckOut?)
    ensures Inv(WriterDoes(s))
  {
    hide Size, Index, Stream;
    var t := WriterDoes(s);
    ValidOfIndices(s.n, s.published, s.taken);
    if s.writer.WRoomOut? && !t.writer.WIdle? {
      QuotientBelow(|s.writer.data|, s.z, FreeItems(s.n, s.inIdx, s.outIdx));
      SizeOfQuotient(|s.writer.data|, s.z);
    }
    StreamSame(s, t);
    WakeSame(s, t);
  }

  /** Steps that touch neither ring nor counts. */
  lemma StreamSame(s: State, t: State)
    requires Counts(s) && |s.ring| > 0 && Stream(s)
    requires t.n == s.n && t.z == s.z && t.ring == s.ring && t.inIdx == s.inIdx && t.outIdx == s.outIdx
    requires t.published == s.published && t.taken == s.taken && t.produced == s.produced && t.consumed == s.consumed
    ensures Counts(t) && Stream(t)
  {
    hide Size, Index;
    assert forall p: nat :: Byte(t, p) == Byte(s, p);
  }

  lemma WriterStepHolds(s: State)
    requires Inv(s) && LocalsInRange(s)
    ensures Inv(WriterDoes(s))
  {
    hide Size, Index, Stream, CopyAddress, Inv;
    if s.writer.WCopy? {
      if s.writer.j < |s.writer.items| { CopyStepHolds(s); } else { PublishHolds(s); }
    } else if s.writer.WRoomOut? || s.writer.WCheckOut? {
      RoomStepHolds(s);
    } else {
      SimpleWriterStep(s);
    }
  }

  lemma SimpleWriterStep(s: State)
    requires Inv(s) && LocalsInRange(s) && !s.writer.WCopy? && !s.writer.WRoomOut? && !s.writer.WCheckOut?
    ensures Inv(WriterDoes(s))
  {
    hide Size, Index, Stream;
    var t := WriterDoes(s);
    StreamSame(s, t);
    WakeSame(s, t);
  }

  lemma ReadByteHolds(s: State)
    requires Inv(s) && LocalsInRange(s) && s.reader.RCopy? && |s.reader.got| < Size(s.reader.k, s.z)
    ensures Inv(ReaderDoes(s))
  {
    hide Size, Index, CopyAddress;
    var t := ReaderDoes(s);
    var p := Size(s.taken, s.z) + |s.reader.got|;
    AddressOfPosition(s.n, s.z, s.taken, s.reader.k, |s.reader.got|);
    SizeSum(s.taken, s.reader.k, s.z);
    SizeMono(s.taken + s.reader.k, s.published, s.z);
    assert p < |s.produced| && s.ring[CopyAddress(s.n, s.z, s.outIdx, s.reader.k, |s.reader.got|)] == Byte(s, p);
    assert t.reader.got == s.produced[Size(s.taken, s.z)..p + 1];
    StreamSame(s, t);
    WriterSame(s, t);
  }

  /** Steps of the reader that leave ring and counts alone do not concern the writer. */
  lemma WriterSame(s: State, t: State)
    requires Counts(s) && Counts(t) && |s.ring| > 0 && WriterOk(s)
    requires t.n == s.n && t.z == s.z && t.ring == s.ring && t.inIdx == s.inIdx && t.writer == s.writer
    requires t.published == s.published && t.taken >= s.taken
    ensures WriterOk(t)
  {
    hide Size, Index;
    assert forall p: nat :: Byte(t, p) == Byte(s, p);
  }

  lemma TakeHolds(s: State)
    requires Inv(s) && LocalsInRange(s) && s.reader.RCopy? && |s.reader.got| == Size(s.reader.k, s.z)
    ensures Inv(ReaderDoes(s))
  {
    hide Size, Index, CopyAddress;
    var t := ReaderDoes(s);
    var k := s.reader.k;
    IndexIsMod(s, k);
    SizeSum(s.taken, k, s.z);
    SizeMono(s.taken, s.taken + k, s.z);
    assert Counts(t);
    assert forall p: nat :: Byte(t, p) == Byte(s, p);
    assert t.consumed == t.produced[..Size(t.taken, t.z)];
    WriterSame(s, t);
  }

  lemma LookHolds(s: State)
    requires Inv(s) && LocalsInRange(s) && (s.reader.RItemsOut? || s.reader.RCheckOut?)
    ensures Inv(ReaderDoes(s))
  {
    hide Size, Index, Stream, WriterOk;
    var t := ReaderDoes(s);
    ValidOfIndices(s.n, s.reader.seen, s.taken);
    StreamSame(s, t);
    WriterSame(s, t);
  }

  lemma SimpleReaderStep(s: State)
    requires Inv(s) && LocalsInRange(s) && !s.reader.RCopy? && !s.reader.RItemsOut? && !s.reader.RCheckOut?
    ensures Inv(ReaderDoes(s))
  {
    hide Size, Index, Stream, WriterOk;
    var t := ReaderDoes(s);
    SizeNone(s.z);
    StreamSame(s, t);
    WriterSame(s, t);
    if s.reader.RItem? {
      StreamBounds(s);
    }
  }

  lemma StreamBounds(s: State)
    requires Inv(s)
    ensures Size(s.taken, s.z) <= |s.produced|
  {
  }

  lemma ReaderStepHolds(s: State)
    requires Inv(s) && LocalsInRange(s)
    ensures Inv(ReaderDoes(s))
  {
    hide Size, Index, Stream, CopyAddress, Inv;
    if s.reader.RCopy? {
      if |s.reader.got| < Size(s.reader.k, s.z) { ReadByteHolds(s); } else { TakeHolds(s); }
    } else if s.reader.RItemsOut? || s.reader.RCheckOut? {
      LookHolds(s);
    } else {
      SimpleReaderStep(s);
    }
  }

  lemma StepHolds(s: State, a: Action)
    requires Inv(s) && LocalsInRange(s)
    ensures Inv(Do(s, a))
  {
    hide Size, Index, Stream, WriterDoes, ReaderDoes;
    match a {
      case WriterStep => WriterStepHolds(s);
      case ReaderStep => ReaderStepHolds(s);
      case _ =>
        var t := Do(s, a);
        StreamSame(s, t);
        if t.writer == s.writer { WriterSame(s, t); }
    }
  }

  // ---- runs ----

  /** One action; an access outside the ring would leave any state at all. */
  ghost predicate Step(s: State, a: Action, t: State) {
    Sized(s) && LocalsInRange(s) ==> t == Do(s, a)
  }

  /** states[0] is initial and each state follows from the one before by its action. */
  ghost predicate Run(states: seq<State>, actions: seq<Action>) {
    && |states| == |actions| + 1 && Initial(states[0])
    && forall k | 0 <= k < |actions| :: Step(states[k], actions[k], states[k + 1])
  }

  lemma {:induction false} RunHolds(states: seq<State>, actions: seq<Action>, k: nat)
    requires Run(states, actions) && k < |states|
    ensures Inv(states[k]) && LocalsInRange(states[k])
  {
    hide Inv, Initial, LocalsInRange, Do;
    if k == 0 {
      InitiallyHolds(states[0]);
    } else {
      RunHolds(states, actions, k - 1);
      InvSized(states[k - 1]);
      StepHolds(states[k - 1], actions[k - 1]);
    }
    InvInRange(states[k]);
  }

  lemma InvSized(s: State)
    requires Inv(s)
    ensures Sized(s)
  {
  }

  // ---- what every run keeps ----

  /** The reader has received a prefix of what the writer has published, whatever the
      interleaving, and at most n - 1 items are between them. */
  lemma ConsumedIsPrefix(states: seq<State>, actions: seq<Action>, k: nat)
    requires Run(states, actions) && k < |states|
    ensures var t := states[k];
      && t.consumed <= t.produced
      && |t.consumed| == Size(t.taken, t.z) && |t.produced| == Size(t.published, t.z)
      && t.taken <= t.published <= t.taken + t.n - 1
  {
    hide Size, Index, Run;
    RunHolds(states, actions, k);
  }

  /** The bytes of two positions that wait in the ring: Queued reads them in order. */
  lemma QueuedAt(ring: seq<byte>, n: nat, z: nat, w: nat, r: nat, i: nat)
    requires n > 0 && z > 0 && |ring| == Size(n, z) && w < n && r < n && i < Size(ValidItems(n, w, r), z)
    ensures 0 <= CopyAddress(n, z, r, ValidItems(n, w, r), i) < |ring|
    ensures i < |Queued(ring, n, z, w, r)|
    ensures Queued(ring, n, z, w, r)[i] == ring[CopyAddress(n, z, r, ValidItems(n, w, r), i)]
  {
    hide Size;
    QueuedLength(ring, n, z, w, r);
    SizeMono(r, n, z);
    SizeMono(w, n, z);
    SizeDiff(n, r, z);
    if w >= r {
      SizeDiff(w, r, z);
      SizeMono(r, w, z);
    } else {
      SizeSum(n - r, w, z);
      SizeNone(z);
    }
  }

  /** The queue that the sequential description reads off the shared
      bytes is exactly what was published and not yet taken, even while a copy is under way. */
  lemma QueueIsInFlight(s: State)
    requires Inv(s)
    ensures Queued(s.ring, s.n, s.z, s.inIdx, s.outIdx) == s.produced[|s.consumed|..]
  {
    hide Size, Index, WriterOk, ReaderOk, CopyAddress, WakeOk, Queued;
    var k := s.published - s.taken;
    ValidOfIndices(s.n, s.published, s.taken);
    QueuedLength(s.ring, s.n, s.z, s.inIdx, s.outIdx);
    SizeDiff(s.published, s.taken, s.z);
    var q := Queued(s.ring, s.n, s.z, s.inIdx, s.outIdx);
    forall i | 0 <= i < |q|
      ensures q[i] == s.produced[|s.consumed| + i]
    {
      QueuedAt(s.ring, s.n, s.z, s.inIdx, s.outIdx, i);
      AddressOfPosition(s.n, s.z, s.taken, k, i);
      assert Byte(s, Size(s.taken, s.z) + i) == s.produced[Size(s.taken, s.z) + i];
    }
  }

  /** The bytes being written and the bytes being read are never the same bytes. */
  lemma CopiesDisjoint(s: State, i: nat, j: nat)
    requires Inv(s) && s.writer.WCopy? && s.reader.RCopy?
    requires i < |s.writer.items| && j < Size(s.reader.k, s.z)
    ensures CopyAddress(s.n, s.z, s.writer.w, s.writer.k, i) != CopyAddress(s.n, s.z, s.reader.r, s.reader.k, j)
  {
    hide Size, Index, CopyAddress, Stream, WakeOk;
    AddressOfPosition(s.n, s.z, s.published, s.writer.k, i);
    AddressOfPosition(s.n, s.z, s.taken, s.reader.k, j);
    SpanFits(s, s.writer.k);
    SizeSum(s.taken, s.reader.k, s.z);
    SizeMono(s.taken + s.reader.k, s.published, s.z);
    IndexApart(Size(s.taken, s.z) + j, Size(s.published, s.z) + i, Size(s.n, s.z));
  }

  /** Loaded indices only understate: the reader counts no more than waits, the writer's
      room is there, and the second check of each operation confirms the first. */
  lemma SnapshotsUnderestimate(s: State)
    requires Inv(s)
    ensures s.reader.RItemsOut? ==>
      ValidItems(s.n, s.reader.w, s.outIdx) <= ValidItems(s.n, s.inIdx, s.outIdx)
    ensures s.reader.RCheckOut? ==>
      s.reader.want <= ValidItems(s.n, s.reader.w, s.outIdx) <= ValidItems(s.n, s.inIdx, s.outIdx)
    ensures s.reader.RItem? || s.reader.RCopy? ==> s.reader.k <= ValidItems(s.n, s.inIdx, s.outIdx)
    ensures s.writer.WCheckIn? || s.writer.WCheckOut? || s.writer.WItem? || s.writer.WCopy? ==>
      s.writer.k <= FreeItems(s.n, s.inIdx, s.outIdx)
  {
    hide Size, Index, CopyAddress, Stream;
    ValidOfIndices(s.n, s.published, s.taken);
    if s.reader.RItemsOut? || s.reader.RCheckOut? {
      ValidOfIndices(s.n, s.reader.seen, s.taken);
    }
  }

  /** After the room check a write is never refused, and after the item check a read is
      never empty and brings exactly what it asked for. */
  lemma SecondChecksPass(s: State)
    requires Inv(s) && LocalsInRange(s)
    ensures s.writer.WCheckOut? ==> WriterDoes(s).writer == WItem(s.writer.items, s.writer.k)
    ensures s.reader.RCheckOut? ==> ReaderDoes(s).reader == RItem(s.reader.want)
  {
    hide Size, Index, CopyAddress, Stream;
    SnapshotsUnderestimate(s);
  }

  /** The same for every state of every run. */
  lemma EveryRunIsSafe(states: seq<State>, actions: seq<Action>, k: nat)
    requires Run(states, actions) && k < |states|
    ensures Inv(states[k]) && LocalsInRange(states[k])
    ensures var t := states[k];
      && Queued(t.ring, t.n, t.z, t.inIdx, t.outIdx) == t.produced[|t.consumed|..]
      && (t.writer.WCopy? && t.reader.RCopy? ==>
            forall i: nat, j: nat | i < |t.writer.items| && j < Size(t.reader.k, t.z) ::
              CopyAddress(t.n, t.z, t.writer.w, t.writer.k, i) != CopyAddress(t.n, t.z, t.reader.r, t.reader.k, j))
      && (t.writer.WCheckOut? ==> WriterDoes(t).writer == WItem(t.writer.items, t.writer.k))
      && (t.reader.RCheckOut? ==> ReaderDoes(t).reader == RItem(t.reader.want))
  {
    hide Size, Index, CopyAddress, Stream, Queued, Run;
    RunHolds(states, actions, k);
    var t := states[k];
    QueueIsInFlight(t);
    SecondChecksPass(t);
    if t.writer.WCopy? && t.reader.RCopy? {
      forall i: nat, j: nat | i < |t.writer.items| && j < Size(t.reader.k, t.z)
        ensures CopyAddress(t.n, t.z, t.writer.w, t.writer.k, i) != CopyAddress(t.n, t.z, t.reader.r, t.reader.k, j)
      {
        CopiesDisjoint(t, i, j);
      }
    }
  }

  /** No lost wake-up: when the reader waits in poll with its counter at zero and items are
      in the ring, the writer is between publishing them and its trigger, or the last
      publication's trigger was deferred or failed. */
  lemma NoLostWakeup(states: seq<State>, actions: seq<Action>, k: nat)
    requires Run(states, actions) && k < |states|
    ensures var t := states[k];
      t.reader.RPoll? && t.event == 0 && t.inIdx != t.outIdx ==> t.writer.WTrigger? || t.deferred
  {
    hide Size, Index, Stream, Run;
    RunHolds(states, actions, k);
  }

  /** A reader that is not asleep, with items waiting: everything but RIdle, a poll with the
      counter at zero, and a look at the ring that already loaded an empty count. */
  predicate Going(s: State) {
    && s.taken < s.published
    && (match s.reader
        case RIdle => false
        case RPoll(_) => s.event > 0
        case RItemsOut(_, _, seen) => seen > s.taken
        case _ => true)
  }

  /** Steps the reader has left, at most. */
  function Left(s: State): int
    requires Sized(s)
  {
    match s.reader
    case RIdle => 0
    case RCopy(k, _, got) => Size(k, s.z) - |got| + 1
    case RItem(_) => Size(s.n, s.z) + 2
    case RCheckOut(_, _, _) => Size(s.n, s.z) + 3
    case RCheckIn(_) => Size(s.n, s.z) + 4
    case RItemsOut(_, _, _) => Size(s.n, s.z) + 5
    case RItemsIn(_) => Size(s.n, s.z) + 6
    case RDrain(_) => Size(s.n, s.z) + 7
    case RPoll(_) => Size(s.n, s.z) + 8
  }

  lemma GoesOn(s: State)
    requires Inv(s) && LocalsInRange(s) && Going(s)
    ensures Inv(ReaderDoes(s)) && Left(ReaderDoes(s)) < Left(s)
    ensures Going(ReaderDoes(s)) || (ReaderDoes(s).reader.RIdle? && ReaderDoes(s).taken > s.taken)
    ensures ReaderDoes(s).taken >= s.taken
  {
    hide Size, Index, Stream, CopyAddress;
    ReaderStepHolds(s);
    match s.reader {
      case RItemsOut(_, _, seen) => ValidOfIndices(s.n, seen, s.taken);
      case RCheckOut(_, _, seen) => ValidOfIndices(s.n, seen, s.taken);
      case RItem(k) => SizeMono(k, s.n, s.z);
      case _ =>
    }
  }

  /** Whatever else happens leaves the reader going, unless poll itself ends. */
  lemma OthersLetGo(s: State, a: Action)
    requires Inv(s) && LocalsInRange(s) && Going(s) && a != ReaderStep && a != PollEnds
    ensures Going(Do(s, a)) && Left(Do(s, a)) <= Left(s) && Do(s, a).taken == s.taken
  {
    hide Size, Index, Stream, CopyAddress, WakeOk, WriterOk;
  }

  lemma TakenGrows(s: State, a: Action)
    requires Sized(s) && LocalsInRange(s)
    ensures Do(s, a).taken >= s.taken
  {
    hide Size, CopyAddress;
  }

  function ReaderSteps(actions: seq<Action>): nat {
    if actions == [] then 0 else (if actions[0] == ReaderStep then 1 else 0) + ReaderSteps(actions[1..])
  }

  /** A stretch of a run: each state follows from the one before by its action. */
  ghost predicate Stretch(states: seq<State>, actions: seq<Action>) {
    && |states| == |actions| + 1 && Inv(states[0])
    && forall k | 0 <= k < |actions| :: Step(states[k], actions[k], states[k + 1])
  }

  lemma StretchStep(states: seq<State>, actions: seq<Action>)
    requires Stretch(states, actions) && actions != []
    ensures LocalsInRange(states[0]) && states[1] == Do(states[0], actions[0])
    ensures Stretch(states[1..], actions[1..])
  {
    hide Inv, LocalsInRange, Do;
    InvInRange(states[0]);
    InvSized(states[0]);
    assert Step(states[0], actions[0], states[1]);
    StepHolds(states[0], actions[0]);
    var rest, later := actions[1..], states[1..];
    forall k | 0 <= k < |rest|
      ensures Step(later[k], rest[k], later[k + 1])
    {
      assert Step(states[k + 1], actions[k + 1], states[k + 2]);
    }
  }

  lemma {:induction false} TakenGrowsOn(states: seq<State>, actions: seq<Action>)
    requires Stretch(states, actions)
    ensures states[|actions|].taken >= states[0].taken
    decreases |actions|
  {
    hide Inv, LocalsInRange, Do, Stretch;
    StretchParts(states, actions);
    if actions != [] {
      StretchStep(states, actions);
      TakenGrows(states[0], actions[0]);
      TakenGrowsOn(states[1..], actions[1..]);
    }
  }

  lemma StretchParts(states: seq<State>, actions: seq<Action>)
    requires Stretch(states, actions)
    ensures |states| == |actions| + 1 && Inv(states[0]) && Sized(states[0])
  {
    InvSized(states[0]);
  }

  /** A reader that is going returns with an item within Left steps of its own, however the
      writer's steps, triggers and spurious wake-ups fall between them. */
  lemma {:induction false} GoingReaderDelivers(states: seq<State>, actions: seq<Action>)
    requires Stretch(states, actions) && Sized(states[0]) && Going(states[0])
    requires PollEnds !in actions && ReaderSteps(actions) >= Left(states[0])
    ensures states[|actions|].taken > states[0].taken
    decreases |actions|
  {
    hide Inv, LocalsInRange, Do, Stretch, Going, Left;
    StretchParts(states, actions);
    LeftPositive(states[0]);
    var rest := actions[1..];
    StretchStep(states, actions);
    StretchParts(states[1..], rest);
    var t := states[1];
    if actions[0] == ReaderStep {
      DoReader(states[0]);
      GoesOn(states[0]);
      if t.taken > states[0].taken {
        TakenGrowsOn(states[1..], rest);
      } else {
        GoingReaderDelivers(states[1..], rest);
      }
    } else {
      OthersLetGo(states[0], actions[0]);
      GoingReaderDelivers(states[1..], rest);
    }
  }

  lemma DoReader(s: State)
    requires Sized(s) && LocalsInRange(s)
    ensures Do(s, ReaderStep) == ReaderDoes(s)
  {
  }

  lemma LeftPositive(s: State)
    requires Inv(s) && Going(s)
    ensures Left(s) > 0
  {
    hide Size, Index, Stream, CopyAddress, WakeOk, WriterOk;
  }

  /** A sleeping reader with items in the ring needs one trigger, whatever happened before and
      whatever happens after: the ring's bytes and eight more of its own steps return an item. */
  lemma TriggerReleases(states: seq<State>, actions: seq<Action>, k: nat, m: nat)
    requires Run(states, actions) && k < m <= |actions|
    requires states[k].reader.RPoll? && states[k].inIdx != states[k].outIdx
    requires states[k].writer.WIdle? && actions[k] == SendTrigger
    requires PollEnds !in actions[k + 1..m]
    requires ReaderSteps(actions[k + 1..m]) >= Size(states[k].n, states[k].z) + 8
    ensures states[m].taken > states[k].taken
  {
    hide Size, Index, Stream;
    RunHolds(states, actions, k);
    RunHolds(states, actions, k + 1);
    assert Step(states[k], actions[k], states[k + 1]);
    var later, rest := states[k + 1..m + 1], actions[k + 1..m];
    forall j | 0 <= j < |rest|
      ensures Step(later[j], rest[j], later[j + 1])
    {
      assert Step(states[k + 1 + j], actions[k + 1 + j], states[k + 1 + j + 1]);
    }
    GoingReaderDelivers(later, rest);
  }
}
