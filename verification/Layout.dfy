/** How channels are laid out in one mailbox region: LibMB_ChanMapInit computes offsets,
    LibMB_Boundary_Check accepts or refuses them. */
module Layout {
  import opened Words
  import opened Arithmetic

  const MAX_SUB_REGIONS: u32 := 253
  const MAX_ITEMS: u32 := 0x10_0000
  const RGN_HEADER: u32 := 56
  const MB_HEADER: u32 := 40
  const AREA: u32 := 8

  type Name = s: seq<byte> | |s| == 16 witness seq(16, _ => 0)

  datatype MailboxConfig = MailboxConfig(name: Name, mbSize: u32, mbPrio: u32, numSubRegions: u32)

  datatype ChannelConfig = ChannelConfig(
    name: Name, sender: u32, receiver: u32, prot: u32, sig: u32, mode: u32, prio: u32,
    start: u32, end: u32, itemMaxNum: u32, itemMaxSize: u32)

  /** Size of the mailbox header with its table of n areas, as the code computes it. */
  function TableSize(n: u32): u32 {
    AlignDown4(W32(MB_HEADER + AREA * W32(n - 1) + 3))
  }

  lemma TableSizeExact(n: u32)
    requires 0 < n <= MAX_SUB_REGIONS
    ensures TableSize(n) == MB_HEADER + AREA * (n - 1)
  {
    var padded := MB_HEADER + AREA * (n - 1) + 3;
    assert W32(n - 1) == n - 1 && W32(padded) == padded;
    assert padded == 4 * (2 * n + 8) + 3;
    assert padded % 4 == 3;
  }

  // ---- LibMB_Boundary_Check ----

  /** The true number of item bytes of a channel. */
  function Bytes(c: ChannelConfig): (n: nat) {
    assert 0 <= c.itemMaxNum * c.itemMaxSize by { MulMonotone(c.itemMaxNum, 0, c.itemMaxSize); }
    c.itemMaxNum * c.itemMaxSize
  }

  /** `valid_range`: the 32-bit product, divided back, is not the item size. */
  predicate ProductRefused(c: ChannelConfig) {
    c.itemMaxNum != 0 && W32(Bytes(c)) / c.itemMaxNum != c.itemMaxSize
  }

  /** `start_addr_offset + hsz + valid_size` in 32 bits. */
  function LastByte(c: ChannelConfig): u32 {
    W32(W32(c.start + (RGN_HEADER - 1)) + W32(Bytes(c)))
  }

  predicate ChannelAccepted(c: ChannelConfig) {
    && c.itemMaxNum <= MAX_ITEMS
    && c.start < c.end
    && !ProductRefused(c)
    && LastByte(c) > c.start
    && LastByte(c) <= c.end
  }

  /** Gap i lies between area i-1 (the header table for i = 0) and area i (the end of the
      mailbox for i = n). */
  predicate GapAccepted(mb: MailboxConfig, cs: seq<ChannelConfig>, i: nat)
    requires mb.numSubRegions == |cs| > 0 && i <= |cs|
  {
    var end := if i == 0 then TableSize(mb.numSubRegions) else cs[i - 1].end;
    var limit := if i == |cs| then mb.mbSize else cs[i].start;
    end < limit <= mb.mbSize
  }

  predicate Accepted(mb: MailboxConfig, cs: seq<ChannelConfig>)
    requires mb.numSubRegions == |cs|
  {
    && 0 < |cs| <= MAX_SUB_REGIONS
    && (forall i | 0 <= i < |cs| :: ChannelAccepted(cs[i]))
    && (forall i | 0 <= i <= |cs| :: GapAccepted(mb, cs, i))
  }

  method BoundaryCheck(mb: MailboxConfig, cs: seq<ChannelConfig>) returns (ret: bool)
    requires mb.numSubRegions == |cs|
    ensures ret == Accepted(mb, cs)
  {
    hide Bytes, ProductRefused, W32;
    ret := true;
    if mb.numSubRegions <= MAX_SUB_REGIONS && mb.numSubRegions > 0 {
      var hsz := RGN_HEADER - 1;
      var i: nat := 0;
      while i < mb.numSubRegions
        invariant i <= |cs| && ret && forall k | 0 <= k < i :: ChannelAccepted(cs[k])
      {
        var start := cs[i].start;
        var end := cs[i].end;
        var validSize := W32(Bytes(cs[i]));
        if cs[i].itemMaxNum > MAX_ITEMS || start >= end || ProductRefused(cs[i])
           || W32(W32(start + hsz) + validSize) <= start || W32(W32(start + hsz) + validSize) > end {
          assert !ChannelAccepted(cs[i]);
          ret := false;
          break;
        }
        i := i + 1;
      }
      var chan := W32(mb.numSubRegions - 1);
      hsz := AlignDown4(W32(MB_HEADER + AREA * chan + 3));
      if ret {
        i := 0;
        while i < mb.numSubRegions + 1
          invariant i <= |cs| + 1 && ret && forall k | 0 <= k < i :: GapAccepted(mb, cs, k)
        {
          var currentEnd, currentLimit;
          if i == 0 {
            currentEnd, currentLimit := hsz, cs[0].start;
          } else if i == mb.numSubRegions {
            currentEnd, currentLimit := cs[i - 1].end, mb.mbSize;
          } else {
            currentEnd, currentLimit := cs[i - 1].end, cs[i].start;
          }
          if currentEnd >= currentLimit || currentLimit > mb.mbSize {
            assert !GapAccepted(mb, cs, i);
            ret := false;
            break;
          }
          i := i + 1;
        }
      }
    } else {
      ret := false;
    }
  }

  // ---- what acceptance means in bytes ----

  /** The area holds its header and all its items; end is its last byte. */
  ghost predicate Contained(c: ChannelConfig) {
    c.start + RGN_HEADER + Bytes(c) <= c.end + 1
  }

  /** The bound under which the code's wrap guard is exact. */
  predicate NoWrap(c: ChannelConfig) {
    Bytes(c) + (RGN_HEADER - 1) < TWO32
  }

  lemma DivideProduct(n: int, s: int, k: int)
    requires 0 < n < TWO32 && 0 <= s && k >= 1 && n * s - k * TWO32 >= 0
    ensures (n * s - k * TWO32) / n < s
  {
    var w := n * s - k * TWO32;
    var q := w / n;
    assert w == n * q + w % n;
    if q >= s {
      MulMonotone(n, s, q);
    }
  }

  lemma DivideExact(n: int, s: int)
    requires 0 < n && 0 <= s
    ensures n * s / n == s
  {
    var q := n * s / n;
    assert n * s == n * q + (n * s) % n;
    Successor(n, q);
    Successor(n, s);
    if q < s {
      MulMonotone(n, q + 1, s);
    } else if q > s {
      MulMonotone(n, s + 1, q);
    }
  }

  /** The division guard catches exactly the products that wrap. */
  lemma ProductGuardExact(n: u32, s: u32)
    ensures (n != 0 && W32(n * s) / n != s) <==> n * s >= TWO32
  {
    if n != 0 {
      var p := n * s;
      MulMonotone(n, 0, s);
      if p < TWO32 {
        DivideExact(n, s);
      } else {
        var k := p / TWO32;
        assert p == TWO32 * k + W32(p);
        DivideProduct(n, s, k);
      }
    }
  }

  lemma WrappedLast(start: u32, end: u32, p: u32)
    requires start < W32(W32(start + 55) + p) <= end
    ensures start + 56 + p <= end + 1 <==> p + 55 < TWO32
  {
    var exact := start + 55 + p;
    WrapSum(start + 55, p);
    if exact >= TWO32 {
      assert W32(exact) == exact - TWO32 || W32(exact) == exact - 2 * TWO32;
    }
  }

  /** For an accepted channel the area is big enough exactly when the item bytes plus the
      area header do not exceed 32 bits. */
  lemma ContainedExactly(c: ChannelConfig)
    requires ChannelAccepted(c)
    ensures Contained(c) <==> NoWrap(c)
  {
    var p := Bytes(c);
    ProductGuardExact(c.itemMaxNum, c.itemMaxSize);
    MulMonotone(c.itemMaxNum, 0, c.itemMaxSize);
    assert W32(p) == p;
    WrappedLast(c.start, c.end, p);
  }

  /** Conversely, a containing area with a permitted number of items passes. */
  lemma ContainedIsAccepted(c: ChannelConfig)
    requires c.itemMaxNum <= MAX_ITEMS && Contained(c)
    ensures ChannelAccepted(c)
  {
    var p := Bytes(c);
    MulMonotone(c.itemMaxNum, 0, c.itemMaxSize);
    assert p < TWO32;
    ProductGuardExact(c.itemMaxNum, c.itemMaxSize);
    assert W32(p) == p;
    assert W32(c.start + 55) == c.start + 55;
  }

  /** 65537 items of 65535 bytes in an area of 55 bytes, and a mailbox of 99 bytes around it. */
  function MissedChannel(): ChannelConfig {
    ChannelConfig(seq(16, _ => 0), 0, 0, 0, 0, 0, 0, 44, 98, 65537, 65535)
  }

  function MissedMailbox(): MailboxConfig {
    MailboxConfig(seq(16, _ => 0), 99, 0, 1)
  }

  /** The whole check accepts it, although the items need 2^32 - 1 bytes. */
  lemma WrapGuardMisses()
    ensures Accepted(MissedMailbox(), [MissedChannel()]) && !Contained(MissedChannel())
  {
    TableSizeExact(1);
    assert Bytes(MissedChannel()) == TWO32 - 1;
    assert ChannelAccepted(MissedChannel());
  }

  /** The geometry a mailbox needs: header table and areas in order, apart, inside. */
  ghost predicate Geometry(mb: MailboxConfig, cs: seq<ChannelConfig>)
    requires mb.numSubRegions == |cs|
  {
    && 0 < |cs| <= 253
    && (forall i | 0 <= i < |cs| :: 40 + 8 * (|cs| - 1) < cs[i].start)
    && (forall i | 0 <= i < |cs| :: Contained(cs[i]) && cs[i].end < mb.mbSize)
    && (forall i, j | 0 <= i < j < |cs| :: cs[i].end < cs[j].start)
  }

  lemma {:induction false} GapsOrder(mb: MailboxConfig, cs: seq<ChannelConfig>, i: nat, j: nat)
    requires mb.numSubRegions == |cs| && Accepted(mb, cs) && i < j <= |cs|
    ensures cs[i].end < if j == |cs| then mb.mbSize else cs[j].start
    decreases j
  {
    assert GapAccepted(mb, cs, j);
    if i + 1 < j {
      GapsOrder(mb, cs, i, j - 1);
      assert ChannelAccepted(cs[j - 1]);
    }
  }

  lemma {:induction false} TableBefore(mb: MailboxConfig, cs: seq<ChannelConfig>, i: nat)
    requires mb.numSubRegions == |cs| && Accepted(mb, cs) && i < |cs|
    ensures TableSize(mb.numSubRegions) < cs[i].start
  {
    assert GapAccepted(mb, cs, 0);
    if i > 0 {
      assert ChannelAccepted(cs[0]);
      GapsOrder(mb, cs, 0, i);
    }
  }

  /** When no channel's bytes exceed the bound, the check accepts exactly the sound
      geometries with permitted item counts. */
  lemma AcceptedIffGeometry(mb: MailboxConfig, cs: seq<ChannelConfig>)
    requires mb.numSubRegions == |cs|
    requires forall i | 0 <= i < |cs| :: NoWrap(cs[i])
    ensures Accepted(mb, cs) <==>
            Geometry(mb, cs) && forall i | 0 <= i < |cs| :: cs[i].itemMaxNum <= 0x10_0000
  {
    if 0 < |cs| <= MAX_SUB_REGIONS {
      TableSizeExact(|cs|);
      if Accepted(mb, cs) {
        forall i | 0 <= i < |cs|
          ensures MB_HEADER + AREA * (|cs| - 1) < cs[i].start && Contained(cs[i]) && cs[i].end < mb.mbSize
        {
          TableBefore(mb, cs, i);
          GapsOrder(mb, cs, i, |cs|);
          ContainedExactly(cs[i]);
        }
        forall i, j | 0 <= i < j < |cs|
          ensures cs[i].end < cs[j].start
        {
          GapsOrder(mb, cs, i, j);
        }
      }
      if Geometry(mb, cs) && forall i | 0 <= i < |cs| :: cs[i].itemMaxNum <= MAX_ITEMS {
        forall i | 0 <= i < |cs|
          ensures ChannelAccepted(cs[i])
        {
          ContainedIsAccepted(cs[i]);
        }
        forall i | 0 <= i <= |cs|
          ensures GapAccepted(mb, cs, i)
        {
          if i < |cs| {
            assert ChannelAccepted(cs[i]);
          }
        }
      }
    }
  }

  // ---- LibMB_ChanMapInit ----

  /** Unwrapped positions: a four-byte gap after the header table, then area after area. */
  function PlannedStart(cs: seq<ChannelConfig>, i: nat): int
    requires i < |cs|
    decreases i
  {
    if i == 0 then MB_HEADER + AREA * (|cs| - 1) + 4
    else PlannedStart(cs, i - 1) + 55 + Bytes(cs[i - 1]) + 1
  }

  function PlannedEnd(cs: seq<ChannelConfig>, i: nat): int
    requires i < |cs|
  {
    PlannedStart(cs, i) + 55 + Bytes(cs[i])
  }

  /** The configuration array as the code leaves it: offsets reduced to 32 bits, all other
      fields as they were. */
  function LaidOut(cs: seq<ChannelConfig>, i: nat): ChannelConfig
    requires i < |cs|
  {
    cs[i].(start := W32(PlannedStart(cs, i)), end := W32(PlannedEnd(cs, i)))
  }

  method ChanMapInit(mb: MailboxConfig, cs: array<ChannelConfig>) returns (ret: int)
    requires 0 < mb.numSubRegions == cs.Length
    modifies cs
    ensures mb.numSubRegions > MAX_SUB_REGIONS ==> ret == -11 && cs[..] == old(cs[..])
    ensures mb.numSubRegions <= MAX_SUB_REGIONS ==>
      && (forall i | 0 <= i < cs.Length :: cs[i] == LaidOut(old(cs[..]), i))
      && ret == if mb.mbSize < LaidOut(old(cs[..]), cs.Length - 1).end then -22 else 0
  {
    hide W32, Bytes, LaidOut;
    if mb.numSubRegions > MAX_SUB_REGIONS {
      return -11;
    }
    ghost var before := cs[..];
    var chan: nat := W32(mb.numSubRegions - 1);
    var hsz: u32 := AlignDown4(W32(MB_HEADER + AREA * chan + 3));
    TableSizeExact(mb.numSubRegions);
    chan := 0;
    while chan < mb.numSubRegions
      invariant chan <= cs.Length && |before| == cs.Length
      invariant hsz == if chan == 0 then MB_HEADER + AREA * (cs.Length - 1) else 55
      invariant forall i | 0 <= i < chan :: cs[i] == LaidOut(before, i)
      invariant forall i | chan <= i < cs.Length :: cs[i] == before[i]
    {
      var bytes := W32(Bytes(cs[chan]));
      var start;
      if chan == 0 {
        start := W32(hsz + 4);
        MappedFirst(before);
        hsz := RGN_HEADER - 1;
      } else {
        start := W32(cs[chan - 1].end + 1);
        MappedNext(before, chan);
      }
      cs[chan] := cs[chan].(start := start, end := W32(W32(start + hsz) + bytes));
      chan := chan + 1;
    }
    ret := 0;
    if mb.mbSize < cs[chan - 1].end {
      ret := -22;
    }
  }

  lemma WrapSum(a: int, b: int)
    ensures W32(W32(a) + W32(b)) == W32(a + b)
  {
  }

  lemma EndWraps(cs: seq<ChannelConfig>, i: nat)
    requires i < |cs|
    ensures W32(PlannedEnd(cs, i)) == W32(W32(W32(PlannedStart(cs, i)) + 55) + W32(Bytes(cs[i])))
  {
    hide Bytes, W32;
    WrapSum(PlannedStart(cs, i), 55);
    WrapSum(PlannedStart(cs, i) + 55, Bytes(cs[i]));
  }

  lemma MappedFirst(cs: seq<ChannelConfig>)
    requires 0 < |cs| <= MAX_SUB_REGIONS
    ensures var start := W32(MB_HEADER + AREA * (|cs| - 1) + 4);
            LaidOut(cs, 0) == cs[0].(start := start, end := W32(W32(start + 55) + W32(Bytes(cs[0]))))
  {
    hide Bytes, W32;
    EndWraps(cs, 0);
  }

  lemma MappedNext(cs: seq<ChannelConfig>, i: nat)
    requires 0 < i < |cs|
    ensures var start := W32(LaidOut(cs, i - 1).end + 1);
            LaidOut(cs, i) == cs[i].(start := start, end := W32(W32(start + 55) + W32(Bytes(cs[i]))))
  {
    hide Bytes, W32;
    WrapSum(PlannedEnd(cs, i - 1), 1);
    EndWraps(cs, i);
  }

  lemma {:induction false} PlannedOrder(cs: seq<ChannelConfig>, i: nat, j: nat)
    requires i <= j < |cs|
    ensures 40 + 8 * (|cs| - 1) + 4 <= PlannedStart(cs, i) <= PlannedEnd(cs, i)
    ensures PlannedEnd(cs, i) <= PlannedEnd(cs, j)
    ensures i < j ==> PlannedEnd(cs, i) < PlannedStart(cs, j)
    decreases j
  {
    if i < j {
      PlannedOrder(cs, i, j - 1);
    } else if i > 0 {
      PlannedOrder(cs, i - 1, i - 1);
    }
  }

  lemma MappedPosition(cs: seq<ChannelConfig>, i: nat)
    requires i < |cs| && PlannedEnd(cs, |cs| - 1) < TWO32
    ensures LaidOut(cs, i).start == PlannedStart(cs, i) && LaidOut(cs, i).end == PlannedEnd(cs, i)
    ensures Contained(LaidOut(cs, i)) && NoWrap(LaidOut(cs, i))
    ensures MB_HEADER + AREA * (|cs| - 1) < LaidOut(cs, i).start
  {
    PlannedOrder(cs, i, |cs| - 1);
  }

  /** A map within 32 bits wastes nothing: the first area begins four bytes behind the table,
      each area is as long as its 56-byte descriptor and its items, and the next one follows at
      once. */
  lemma MapIsTight(cs: seq<ChannelConfig>, i: nat)
    requires i < |cs| && PlannedEnd(cs, |cs| - 1) < TWO32
    ensures LaidOut(cs, 0).start == 44 + 8 * (|cs| - 1)
    ensures LaidOut(cs, i).end + 1 - LaidOut(cs, i).start == 56 + cs[i].itemMaxNum * cs[i].itemMaxSize
    ensures i + 1 < |cs| ==> LaidOut(cs, i + 1).start == LaidOut(cs, i).end + 1
  {
    hide Contained, NoWrap, LaidOut;
    MappedPosition(cs, 0);
    MappedPosition(cs, i);
    if i + 1 < |cs| {
      MappedPosition(cs, i + 1);
    }
  }

  lemma MapGeometry(mb: MailboxConfig, cs: seq<ChannelConfig>, mapped: seq<ChannelConfig>)
    requires 0 < mb.numSubRegions == |cs| == |mapped| <= MAX_SUB_REGIONS
    requires forall i | 0 <= i < |cs| :: mapped[i] == LaidOut(cs, i)
    requires PlannedEnd(cs, |cs| - 1) < TWO32
    ensures Geometry(mb, mapped) <==> PlannedEnd(cs, |cs| - 1) < mb.mbSize
  {
    hide PlannedStart, PlannedEnd, Contained, NoWrap;
    forall i | 0 <= i < |cs|
      ensures MB_HEADER + AREA * (|cs| - 1) < mapped[i].start && Contained(mapped[i])
      ensures mapped[i].end <= PlannedEnd(cs, |cs| - 1)
    {
      MappedPosition(cs, i);
      PlannedOrder(cs, i, |cs| - 1);
    }
    forall i, j | 0 <= i < j < |cs|
      ensures mapped[i].end < mapped[j].start
    {
      MappedPosition(cs, i);
      MappedPosition(cs, j);
      PlannedOrder(cs, i, j);
    }
    MappedPosition(cs, |cs| - 1);
    assert mapped[|cs| - 1].end == PlannedEnd(cs, |cs| - 1);
  }

  lemma SmallMapAccepted(mb: MailboxConfig, cs: seq<ChannelConfig>, mapped: seq<ChannelConfig>)
    requires 0 < mb.numSubRegions == |cs| == |mapped| <= MAX_SUB_REGIONS
    requires forall i | 0 <= i < |cs| :: mapped[i] == LaidOut(cs, i)
    requires PlannedEnd(cs, |cs| - 1) < TWO32
    ensures Accepted(mb, mapped) <==> PlannedEnd(cs, |cs| - 1) < mb.mbSize && CountsPermitted(cs)
    ensures forall i | 0 <= i < |cs| :: NoWrap(mapped[i])
  {
    hide PlannedStart, PlannedEnd, Contained, NoWrap, Accepted, Geometry;
    forall i | 0 <= i < |cs|
      ensures NoWrap(mapped[i]) && mapped[i].itemMaxNum == cs[i].itemMaxNum
    {
      MappedPosition(cs, i);
    }
    MapGeometry(mb, cs, mapped);
    AcceptedIffGeometry(mb, mapped);
  }

  predicate CountsPermitted(cs: seq<ChannelConfig>) {
    forall i | 0 <= i < |cs| :: cs[i].itemMaxNum <= MAX_ITEMS
  }

  /** An accepted map of channels within the bound has not overflowed anywhere. */
  lemma {:induction false} AcceptedMapIsPlanned(mb: MailboxConfig, cs: seq<ChannelConfig>, mapped: seq<ChannelConfig>,
                                                k: nat)
    requires 0 < mb.numSubRegions == |cs| == |mapped| <= MAX_SUB_REGIONS
    requires forall i | 0 <= i < |cs| :: mapped[i] == LaidOut(cs, i)
    requires Accepted(mb, mapped) && k < |cs| && forall i | 0 <= i < |cs| :: NoWrap(cs[i])
    ensures PlannedEnd(cs, k) == mapped[k].end < mb.mbSize
  {
    hide Bytes;
    if k > 0 {
      AcceptedMapIsPlanned(mb, cs, mapped, k - 1);
    }
    assert mapped[k].start == PlannedStart(cs, k);
    assert Bytes(mapped[k]) == Bytes(cs[k]) by { SameBytes(mapped[k], cs[k]); }
    assert ChannelAccepted(mapped[k]);
    ContainedExactly(mapped[k]);
    GapsOrder(mb, mapped, k, |cs|);
  }

  lemma SameBytes(c: ChannelConfig, d: ChannelConfig)
    requires c.itemMaxNum == d.itemMaxNum && c.itemMaxSize == d.itemMaxSize
    ensures Bytes(c) == Bytes(d)
  {
  }

  lemma {:induction false} PlannedEndBounds(cs: seq<ChannelConfig>, i: nat)
    requires i < |cs| && PlannedEnd(cs, |cs| - 1) < TWO32
    ensures NoWrap(cs[i])
  {
    hide Bytes;
    PlannedOrder(cs, i, |cs| - 1);
  }

  /** The map's positions are reduced to 32 bits without a check. The creation check catches
      that: together with the bound on each channel, acceptance means that the unreduced last
      end lies strictly inside the mailbox, one byte less than LibMB_ChanMapInit itself asks
      for, and that the item counts are permitted. */
  lemma MapAccepted(mb: MailboxConfig, cs: seq<ChannelConfig>, mapped: seq<ChannelConfig>)
    requires 0 < mb.numSubRegions == |cs| == |mapped| <= MAX_SUB_REGIONS
    requires forall i | 0 <= i < |cs| :: mapped[i] == LaidOut(cs, i)
    ensures Accepted(mb, mapped) && (forall i | 0 <= i < |cs| :: NoWrap(cs[i])) <==>
            PlannedEnd(cs, |cs| - 1) < mb.mbSize && CountsPermitted(cs)
  {
    hide PlannedStart, PlannedEnd, NoWrap, Accepted;
    if PlannedEnd(cs, |cs| - 1) < mb.mbSize {
      SmallMapAccepted(mb, cs, mapped);
      forall i | 0 <= i < |cs|
        ensures NoWrap(cs[i])
      {
        PlannedEndBounds(cs, i);
      }
    }
    if Accepted(mb, mapped) && forall i | 0 <= i < |cs| :: NoWrap(cs[i]) {
      AcceptedMapIsPlanned(mb, cs, mapped, |cs| - 1);
      SmallMapAccepted(mb, cs, mapped);
    }
  }

  /** LibMB_ChanMapInit's verdict on the size is right if and only if nothing overflowed or it
      refuses. */
  lemma MapVerdict(mb: MailboxConfig, cs: seq<ChannelConfig>)
    requires 0 < mb.numSubRegions == |cs| <= MAX_SUB_REGIONS
    ensures var last := |cs| - 1;
      (mb.mbSize < LaidOut(cs, last).end <==> mb.mbSize < PlannedEnd(cs, last)) <==>
        (PlannedEnd(cs, last) < TWO32 || mb.mbSize < LaidOut(cs, last).end)
  {
    hide PlannedStart, PlannedEnd;
    PlannedOrder(cs, |cs| - 1, |cs| - 1);
  }

  /** 0x10000 items of 0x10000 bytes: their product is 0 in 32 bits. */
  function WrappedItems(): ChannelConfig {
    ChannelConfig(seq(16, _ => 0), 0, 0, 0, 0, 0, 0, 0, 0, 0x1_0000, 0x1_0000)
  }

  /** The map lays them out in a mailbox of 100 bytes and finds no fault; creation refuses. */
  lemma MapOverflows()
    ensures LaidOut([WrappedItems()], 0).end == 99 && PlannedEnd([WrappedItems()], 0) == TWO32 + 99
    ensures !Accepted(MailboxConfig(seq(16, _ => 0), 100, 0, 1), [LaidOut([WrappedItems()], 0)])
  {
    hide Accepted;
    var cs := [WrappedItems()];
    assert Bytes(WrappedItems()) == TWO32;
    assert PlannedStart(cs, 0) == 44 && PlannedEnd(cs, 0) == TWO32 + 99;
    WrappedRefused();
  }

  lemma WrappedRefused()
    ensures !Accepted(MailboxConfig(seq(16, _ => 0), 100, 0, 1), [LaidOut([WrappedItems()], 0)])
  {
    var c := [LaidOut([WrappedItems()], 0)][0];
    assert Bytes(c) == TWO32;
    assert ProductRefused(c);
    assert !ChannelAccepted(c);
  }

  /** One channel with one four-byte item: the map puts it into bytes 44 to 103. */
  function OneItem(): ChannelConfig {
    ChannelConfig(seq(16, _ => 0), 0, 0, 0, 0, 0, 0, 0, 0, 1, 4)
  }

  /** A mailbox of 103 bytes is enough for the map, not for the creation check; one byte more
      is enough for both. */
  lemma MapRefused()
    ensures LaidOut([OneItem()], 0).end == 103
    ensures !Accepted(MailboxConfig(seq(16, _ => 0), 103, 0, 1), [LaidOut([OneItem()], 0)])
    ensures Accepted(MailboxConfig(seq(16, _ => 0), 104, 0, 1), [LaidOut([OneItem()], 0)])
  {
    hide Accepted;
    var cs := [OneItem()];
    assert Bytes(OneItem()) == 4;
    assert PlannedStart(cs, 0) == 44 && PlannedEnd(cs, 0) == 103;
    MapAccepted(MailboxConfig(seq(16, _ => 0), 103, 0, 1), cs, [LaidOut(cs, 0)]);
    MapAccepted(MailboxConfig(seq(16, _ => 0), 104, 0, 1), cs, [LaidOut(cs, 0)]);
  }
}
