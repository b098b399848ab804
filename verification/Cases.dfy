/** Two created mailboxes at which a write does not do what its reply suggests. */
module Cases {
  import opened Words
  import opened Ring
  import opened Mailbox
  import opened Channels
  import opened Isolation
  import opened Creation
  import opened Device
  import opened MailboxApi
  import Layout

  function Zeros(n: nat): (s: seq<byte>)
    ensures |s| == n
  {
    seq(n, _ => 0)
  }

  function NoName(): Layout.Name {
    seq(16, _ => 0)
  }

  /** The header and the table entry of a mailbox with one channel. */
  function Front(mb: Layout.MailboxConfig, c: Layout.ChannelConfig): (s: seq<byte>)
    ensures |s| == 40
  {
    mb.name + LittleEndian(MAGIC) + LittleEndian(mb.mbSize) + LittleEndian(mb.mbPrio) + LittleEndian(1)
      + LittleEndian(c.start) + LittleEndian(c.end)
  }

  /** A mailbox of one channel as creation leaves it in zeroed memory. */
  function FreshMailbox(mb: Layout.MailboxConfig, c: Layout.ChannelConfig): (m: seq<byte>)
    requires 40 <= c.start && c.start + HEADER <= mb.mbSize
    ensures |m| == mb.mbSize
  {
    Front(mb, c) + Zeros(c.start - 40) + Descriptor(c) + Zeros(mb.mbSize - c.start - HEADER)
  }

  lemma FrontField(mb: Layout.MailboxConfig, c: Layout.ChannelConfig, at: nat, v: u32)
    requires 40 <= c.start && c.start + HEADER <= mb.mbSize && at + 4 <= 40
    requires Front(mb, c)[at..at + 4] == LittleEndian(v)
    ensures GetU32(FreshMailbox(mb, c), at) == v
  {
    hide Front, LittleEndian, GetU32, Descriptor;
    assert FreshMailbox(mb, c)[at..at + 4] == Front(mb, c)[at..at + 4];
    FieldRead(FreshMailbox(mb, c), at, v);
  }

  lemma FreshIsCreated(mb: Layout.MailboxConfig, c: Layout.ChannelConfig)
    requires mb.numSubRegions == 1 && Layout.Accepted(mb, [c]) && Layout.NoWrap(c)
    ensures 40 <= c.start && c.start + HEADER <= mb.mbSize
    ensures CreatedAs(FreshMailbox(mb, c), mb, [c]) && Formed(FreshMailbox(mb, c))
  {
    hide LittleEndian, GetU32, Descriptor, FreshMailbox, Layout.Accepted, Layout.NoWrap, Layout.Bytes, Formed;
    AcceptedIsApart(mb, [c]);
    FreshHolds(mb, c);
    CreatedIsFormed(FreshMailbox(mb, c), mb, [c]);
  }

  lemma FreshHolds(mb: Layout.MailboxConfig, c: Layout.ChannelConfig)
    requires mb.numSubRegions == 1 && Layout.Geometry(mb, [c])
    ensures 40 <= c.start && c.start + HEADER <= mb.mbSize
    ensures CreatedAs(FreshMailbox(mb, c), mb, [c])
  {
    hide LittleEndian, GetU32, Descriptor;
    assert Layout.Contained([c][0]);
    var m, f := FreshMailbox(mb, c), Front(mb, c);
    assert f[16..20] == LittleEndian(MAGIC) && f[20..24] == LittleEndian(mb.mbSize);
    assert f[24..28] == LittleEndian(mb.mbPrio) && f[28..32] == LittleEndian(1);
    assert f[32..36] == LittleEndian(c.start) && f[36..40] == LittleEndian(c.end);
    FrontField(mb, c, 16, MAGIC);
    FrontField(mb, c, 20, mb.mbSize);
    FrontField(mb, c, 24, mb.mbPrio);
    FrontField(mb, c, 28, 1);
    FrontField(mb, c, 32, c.start);
    FrontField(mb, c, 36, c.end);
    assert m[..16] == f[..16] == mb.name;
    assert m[c.start..c.start + HEADER] == Descriptor(c);
    assert Holds(m, 0, c);
  }

  // ---- item size 0 ----

  /** Two items of no bytes, in a mailbox of 100 bytes. */
  function EmptyItems(): Layout.ChannelConfig {
    Layout.ChannelConfig(NoName(), 0, 0, 0, 0, 0, 0, 44, 99, 2, 0)
  }

  function SmallMailbox(): Layout.MailboxConfig {
    Layout.MailboxConfig(NoName(), 100, 0, 1)
  }

  lemma SmallIsAccepted()
    ensures SmallMailbox().numSubRegions == 1
    ensures Layout.Accepted(SmallMailbox(), [EmptyItems()]) && Layout.NoWrap(EmptyItems())
  {
    Layout.TableSizeExact(1);
    assert Layout.Bytes(EmptyItems()) == 0;
  }

  /** Any write that fits a channel of empty items is reported and lost. */
  lemma EmptyWriteLost(m: seq<byte>, i: u32, k: u32)
    requires Usable(m, i) && HasHeader(m, Start(m, i)) && ItemSize(m, Start(m, i)) == 0 && k <= Free(m, Start(m, i))
    ensures Supplied(m, i, WriteOp([], k)) && WriteResult(m, i, k) == k && After(m, i, WriteOp([], k)) == m
  {
    hide GetU32, Size, Capacity, Pushed, Valid;
    UsableFits(m, i);
    SizeNothing(k);
    PushNothing(m, Start(m, i), [], k);
  }

  /** The configuration is accepted; a write of one item then reports one item and changes
      nothing. */
  lemma EmptyItemLost()
    ensures Layout.Accepted(SmallMailbox(), [EmptyItems()])
    ensures var m := FreshMailbox(SmallMailbox(), EmptyItems());
      && Usable(m, 0) && Items(m, 0) == 0 && Supplied(m, 0, WriteOp([], 1))
      && WriteResult(m, 0, 1) == 1 && After(m, 0, WriteOp([], 1)) == m
  {
    hide *;
    SmallIsAccepted();
    FreshIsCreated(SmallMailbox(), EmptyItems());
    EmptyItemLostIn(FreshMailbox(SmallMailbox(), EmptyItems()));
  }

  lemma EmptyItemLostIn(m: seq<byte>)
    requires CreatedAs(m, SmallMailbox(), [EmptyItems()]) && Formed(m)
    ensures Usable(m, 0) && Items(m, 0) == 0 && Supplied(m, 0, WriteOp([], 1))
    ensures WriteResult(m, 0, 1) == 1 && After(m, 0, WriteOp([], 1)) == m
  {
    hide GetU32, Size, Capacity, Formed, CreatedAs, After, Guard, Mapped;
    FreshChannel(m, SmallMailbox(), EmptyItems());
    EmptyWriteLost(m, 0, 1);
  }

  lemma SizeNothing(k: nat)
    ensures Size(k, 0) == 0
  {
  }

  /** The ring of a created mailbox's only channel. */
  lemma FreshChannel(m: seq<byte>, mb: Layout.MailboxConfig, c: Layout.ChannelConfig)
    requires CreatedAs(m, mb, [c]) && Formed(m)
    requires 0 < c.itemMaxNum <= Layout.MAX_ITEMS && c.itemMaxSize <= MAX_SIZE
    ensures Usable(m, 0) && Start(m, 0) == c.start && Fits(m, c.start)
    ensures ItemBytes(m, 0) == ItemSize(m, c.start) == c.itemMaxSize
    ensures Items(m, 0) == Valid(m, c.start) == 0 && Free(m, c.start) == c.itemMaxNum - 1
  {
    hide GetU32, Descriptor, Capacity;
    CreatedChannelAnswers(m, mb, [c], 0);
    assert Holds(m, 0, [c][0]);
    DescriptorFields(m, 0, c);
    UsableFits(m, 0);
  }

  // ---- a batch of 2 GiB ----

  /** 300 items of 8 MiB, and a mailbox around them. */
  function LargeItems(): Layout.ChannelConfig {
    Layout.ChannelConfig(NoName(), 0, 0, 0, 0, 0, 0, 44, 2_516_582_499, 300, 0x80_0000)
  }

  function LargeMailbox(): Layout.MailboxConfig {
    Layout.MailboxConfig(NoName(), 2_516_582_500, 0, 1)
  }

  lemma LargeIsAccepted()
    ensures Layout.Accepted(LargeMailbox(), [LargeItems()]) && Layout.NoWrap(LargeItems())
  {
    Layout.TableSizeExact(1);
    assert Layout.Bytes(LargeItems()) == 2_516_582_400;
  }

  lemma LargeSizes()
    ensures Size(299, 0x80_0000) == 2_508_193_792
    ensures Whole(0x8000_0000, 0x80_0000) == 256 && Size(256, 0x80_0000) == 0x8000_0000
    ensures ToInt32(0x8000_0000) == -0x8000_0000
  {
  }

  /** The fresh ring takes a batch of 2^31 bytes, and the reply to it is -2^31. */
  lemma LargeBatchIsNegative(h: Handle)
    requires h.Attached() && h.index == 0 && WriteRefusal(h, 0x8000_0000) == 0
    requires h.mb.cells[..] == FreshMailbox(LargeMailbox(), LargeItems())
    ensures BatchTaken(h, 0x8000_0000) && BatchReply(h, 0x8000_0000) == -0x8000_0000
  {
    hide GetU32, LittleEndian, Descriptor, FreshMailbox, Size, Capacity, Formed, Whole, ToInt32, Guard, Mapped;
    LargeIsAccepted();
    FreshIsCreated(LargeMailbox(), LargeItems());
    FreshChannel(h.mb.cells[..], LargeMailbox(), LargeItems());
    LargeSizes();
  }

  lemma LargeBatchWaits(m: seq<byte>, data: seq<byte>)
    requires m == FreshMailbox(LargeMailbox(), LargeItems()) && |data| == 0x8000_0000
    ensures Usable(m, 0) && ItemBytes(m, 0) == 0x80_0000
    ensures var t := AfterBatch(m, 0, data);
      Usable(t, 0) && ItemBytes(t, 0) == 0x80_0000 && Items(t, 0) == 256
  {
    hide GetU32, LittleEndian, Descriptor, FreshMailbox, Size, Capacity, Formed, Whole, Guard, Mapped;
    hide After, Valid, Free;
    LargeIsAccepted();
    FreshIsCreated(LargeMailbox(), LargeItems());
    FreshChannel(m, LargeMailbox(), LargeItems());
    LargeSizes();
    var op := BatchOp(m, 0, data);
    ItemsFit(m, 0, |data|);
    CallKeepsUsable(m, 0, op);
    AcceptedItemsWait(m, 0, data, op.k);
  }

  /** When that batch is read back in one call, the items leave the ring and the reply is -2^31. */
  lemma LargeReadIsNegative(h: Handle, data: seq<byte>)
    requires h.Attached() && h.index == 0 && ReadRefusal(h, 0x8000_0000, 0) == 0 && |data| == 0x8000_0000
    requires var m := FreshMailbox(LargeMailbox(), LargeItems());
      Usable(m, 0) && ItemBytes(m, 0) > 0 && h.mb.cells[..] == AfterBatch(m, 0, data)
    ensures MayWait(h, 0x8000_0000, 0) && ReadReply(h, 0x8000_0000, 0, []) == -0x8000_0000
    ensures Items(h.mb.cells[..], 0) == ItemsToRead(h.mb.cells[..], 0, 0x8000_0000) == 256
  {
    hide GetU32, FreshMailbox, Size, Capacity, Formed, Whole, Guard, Mapped, ToInt32, Valid, AfterBatch, Taken;
    LargeBatchWaits(FreshMailbox(LargeMailbox(), LargeItems()), data);
    LargeSizes();
  }

  // ---- a name that fills its field ----

  /** The name AAAAAAAAAAAAAAAA. */
  function FullName(): Layout.Name {
    seq(16, _ => 0x41)
  }

  /** One item of four bytes, in a mailbox of 104 bytes. */
  function FullNamed(): Layout.ChannelConfig {
    Layout.ChannelConfig(FullName(), 0, 0, 0, 0, 0, 0, 44, 103, 1, 4)
  }

  function TightMailbox(): Layout.MailboxConfig {
    Layout.MailboxConfig(NoName(), 104, 0, 1)
  }

  lemma {:induction false} TextOfFull(name: seq<byte>)
    requires forall k | 0 <= k < |name| :: name[k] != 0
    ensures Text(name) == name
  {
    if name != [] {
      TextOfFull(name[1..]);
    }
  }

  lemma FullIsAccepted()
    ensures TightMailbox().numSubRegions == 1
    ensures Layout.Accepted(TightMailbox(), [FullNamed()]) && Layout.NoWrap(FullNamed())
  {
    Layout.TableSizeExact(1);
    assert Layout.Bytes(FullNamed()) == 4;
  }

  /** The channel is created, and opening it by its configured name is refused. */
  lemma FullNameRefused()
    ensures Layout.Accepted(TightMailbox(), [FullNamed()])
    ensures var m := FreshMailbox(TightMailbox(), FullNamed());
      Mapped(m) && OpenReply(m, FullName()) == -ENAMETOOLONG
  {
    hide GetU32, FreshMailbox, Formed, Layout.Accepted, Layout.NoWrap, CreatedAs, OpenReply, FullName;
    FullIsAccepted();
    FreshIsCreated(TightMailbox(), FullNamed());
    FullNameIsFull();
    assert [FullNamed()][0] == FullNamed();
    NameFindsChannel(FreshMailbox(TightMailbox(), FullNamed()), TightMailbox(), [FullNamed()], 0);
  }

  lemma FullNameIsFull()
    ensures Text(FullName()) == FullName() && FullNamed().name == FullName()
  {
    TextOfFull(FullName());
  }
}
