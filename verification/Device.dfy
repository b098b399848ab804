/** A client's handle of one channel, and finding the channel by name. */
module Device {
  import opened Words
  import opened Copy
  import opened Ring
  import opened Mailbox
  import opened Creation
  import Layout

  const EPERM: int := 1
  const ENOENT: int := 2
  const EINTR: int := 4
  const EIO: int := 5
  const EBADF: int := 9
  const EINVAL: int := 22
  const ENAMETOOLONG: int := 36
  const EMSGSIZE: int := 90
  const ECONNRESET: int := 104
  const ENOBUFS: int := 105
  const ETIMEDOUT: int := 110

  const RX: u32 := 0
  const TX: u32 := 1

  /** The item size of a usable channel. */
  function ItemBytes(m: seq<byte>, i: u32): u32
    requires Usable(m, i)
  {
    UsableFits(m, i);
    ItemSize(m, Start(m, i))
  }

  function ChannelInfoOf(m: seq<byte>, i: u32): Info
    requires Usable(m, i)
  {
    UsableFits(m, i);
    InfoAt(m, Start(m, i))
  }

  /** struct rtss_mb_handle; fd is negative while the channel is closed. */
  class Handle {
    var fd: int
    var mb: Memory
    var index: u32
    var clientId: u32
    var sender: u32
    var prot: u32
    var signal: u32
    var mode: u32
    var priority: u32
    var itemSize: u32
    var dev: seq<byte>

    constructor ()
      ensures fd == -1 && mb.Null?
    {
      fd, mb, index, clientId, sender, prot, signal := -1, Null, 0, 0, 0, 0, 0;
      mode, priority, itemSize, dev := 0, 0, 0, [];
    }

    /** The fields copied from the channel's information. */
    predicate Describes(info: Info)
      reads this
    {
      && sender == info.sender && clientId == info.receiver && prot == info.prot && signal == info.sig
      && mode == info.mode && priority == info.prio && itemSize == info.maxItemSize
    }

    method Bind(memory: Memory, i: u32, chan: ChannelInfo)
      modifies this
      ensures mb == memory && index == i && Describes(chan.Value())
      ensures fd == old(fd) && dev == old(dev)
    {
      mb := memory;
      index := i;
      clientId := chan.receiver;
      sender := chan.sender;
      prot := chan.prot;
      signal := chan.sig;
      mode := chan.mode;
      priority := chan.prio;
      itemSize := chan.maxItemSize;
    }

    /** Bound to the first channel called name. */
    ghost predicate OpenedOn(memory: Memory, name: seq<byte>)
      reads this, memory.Cells()
    {
      && memory.Memory? && Mapped(memory.cells[..])
      && mb == memory && dev == name && index == Search(memory.cells[..], name, 0)
      && Describes(ChannelInfoOf(memory.cells[..], index))
    }

    /** The handle refers to a mapped mailbox and holds its channel's item size. */
    ghost predicate Attached()
      reads this, mb.Cells()
    {
      && mb.Memory? && Mapped(mb.cells[..])
      && (Usable(mb.cells[..], index) ==> ItemBytes(mb.cells[..], index) == itemSize)
    }
  }

  // ---- names ----

  /** The text of a 16-byte name field: up to the first NUL. */
  function Text(name: seq<byte>): (t: seq<byte>)
    ensures |t| <= |name| && forall k | 0 <= k < |t| :: t[k] == name[k] != 0
    ensures |t| < |name| ==> name[|t|] == 0
  {
    if name == [] || name[0] == 0 then [] else [name[0]] + Text(name[1..])
  }

  /** strncmp(dev, name, 16) == 0, for the characters of dev. */
  predicate SameName(dev: seq<byte>, name: seq<byte>) {
    Text(name) == if |dev| < 16 then dev else dev[..16]
  }

  /** The first channel called dev, or the error of the search from channel i on. */
  function Search(m: seq<byte>, dev: seq<byte>, i: nat): (s: int)
    requires Mapped(m)
    ensures s >= 0 ==> i <= s < NumRegions(m) && Usable(m, s)
    decreases NumRegions(m) - i
  {
    if i >= NumRegions(m) then -ENOENT
    else if Guard(m, i) != 0 then -EIO
    else
      UsableFits(m, i);
      if SameName(dev, m[Start(m, i)..Start(m, i) + 16]) then i else Search(m, dev, i + 1)
  }

  function OpenReply(m: seq<byte>, dev: seq<byte>): int
    requires Mapped(m)
  {
    var found := Search(m, dev, 0);
    if found < 0 then found else if |dev| >= 16 then -ENAMETOOLONG else 0
  }

  /** rtssmb_getdevctx. */
  method GetDevCtx(mb: Memory, h: Handle?, dev: seq<byte>) returns (ret: int)
    requires mb.Memory? ==> Mapped(mb.cells[..])
    modifies h
    ensures mb.Null? || h == null ==> ret == -22
    ensures mb.Memory? && h != null ==> ret == OpenReply(mb.cells[..], dev)
    ensures h != null ==> h.fd == old(h.fd)
    ensures ret == 0 ==> h != null && h.OpenedOn(mb, dev)
  {
    hide GetU32, InfoAt, Mapped, Guard, Capacity, Search, SameName, ChannelInfoOf;
    if mb.Null? || h == null {
      return -EINVAL;
    }
    ghost var m := mb.cells[..];
    GuardNeedsTable(m);
    var chan := new ChannelInfo();
    var i: u32 := 0;
    var num := GetReg(mb, 28);
    while i < num
      invariant num == NumRegions(m) && mb.cells[..] == m
      invariant Search(m, dev, 0) == Search(m, dev, i)
      invariant h.fd == old(h.fd)
    {
      SearchStep(m, dev, i);
      ret := GetChanInfo(mb, i, chan);
      if ret != 0 {
        return -EIO;
      }
      ghost var info := ChannelInfoOf(m, i);
      assert chan.Value() == info;
      if SameName(dev, chan.name) {
        h.dev := if |dev| >= 16 then dev[..15] else dev;
        if |dev| >= 16 {
          return -ENAMETOOLONG;
        }
        h.Bind(mb, i, chan);
        assert h.Describes(info);
        return 0;
      }
      i := i + 1;
    }
    SearchEnds(m, dev, i);
    ret := -ENOENT;
  }

  lemma SearchEnds(m: seq<byte>, dev: seq<byte>, i: nat)
    requires Mapped(m) && i >= NumRegions(m)
    ensures Search(m, dev, i) == -ENOENT
  {
  }

  lemma GuardNeedsTable(m: seq<byte>)
    requires Mapped(m)
    ensures 40 <= |m|
  {
  }

  /** One step of the search, in terms of what GetChanInfo returns. */
  lemma SearchStep(m: seq<byte>, dev: seq<byte>, i: u32)
    requires Mapped(m) && i < NumRegions(m)
    ensures Guard(m, i) != 0 ==> Search(m, dev, i) == -EIO
    ensures Guard(m, i) == 0 ==>
      (&& ChannelInfoOf(m, i) == InfoAt(m, Start(m, i))
       && Search(m, dev, i) == if SameName(dev, ChannelInfoOf(m, i).name) then i else Search(m, dev, i + 1))
  {
    hide GetU32, Capacity, SameName;
    if Guard(m, i) == 0 {
      UsableFits(m, i);
    }
  }

  lemma AttachedWhenOpened(h: Handle, mb: Memory, dev: seq<byte>)
    requires h.OpenedOn(mb, dev)
    ensures h.Attached()
  {
    hide GetU32, Capacity, Search;
  }

  lemma InfoName(m: seq<byte>, r: nat)
    requires HasHeader(m, r)
    ensures InfoAt(m, r).name == m[r..r + 16] && InfoAt(m, r).maxItemSize == ItemSize(m, r)
    ensures InfoAt(m, r).maxItemNum == MaxNum(m, r)
  {
  }

  /** Comparing with a name's own text is comparing texts. */
  lemma SameText(a: Layout.Name, b: Layout.Name)
    ensures SameName(Text(a), b) <==> Text(a) == Text(b)
  {
    hide Text;
    var dev := Text(a);
    assert (if |dev| < 16 then dev else dev[..16]) == dev;
  }

  /** A configuration whose channel can be read: it has slots, and items within the limit. */
  predicate Readable(c: Layout.ChannelConfig) {
    0 < c.itemMaxNum && c.itemMaxSize <= MAX_SIZE
  }

  lemma {:induction false} SearchFrom(m: seq<byte>, mb: Layout.MailboxConfig, cs: seq<Layout.ChannelConfig>,
                                      i: u32, from: nat)
    requires CreatedAs(m, mb, cs) && Formed(m) && from <= i < |cs|
    requires forall j | 0 <= j < |cs| :: cs[j].itemMaxNum <= Layout.MAX_ITEMS
    requires forall j | 0 <= j < i :: Text(cs[j].name) != Text(cs[i].name)
    ensures Search(m, Text(cs[i].name), from) == if forall j | from <= j <= i :: Readable(cs[j]) then i else -EIO
    decreases i - from
  {
    hide GetU32, Guard, InfoAt, Holds, Search, Capacity, Sane, Text, SameName, Descriptor;
    var dev := Text(cs[i].name);
    CreatedChannelAnswers(m, mb, cs, from);
    InfoName(m, Start(m, from));
    SearchStep(m, dev, from);
    SameText(cs[i].name, cs[from].name);
    if from < i {
      SearchFrom(m, mb, cs, i, from + 1);
    }
  }

  /** In a freshly created mailbox with distinct names, a client that opens a configured name
      gets that configuration's channel, with its mode exchanged, if and only if this and all
      channels before it can be read and the name leaves room for a NUL; a name that fills all
      16 bytes is found and then refused. */
  lemma NameFindsChannel(m: seq<byte>, mb: Layout.MailboxConfig, cs: seq<Layout.ChannelConfig>, i: u32)
    requires CreatedAs(m, mb, cs) && Formed(m) && i < |cs|
    requires forall j | 0 <= j < |cs| :: cs[j].itemMaxNum <= Layout.MAX_ITEMS
    requires forall j | 0 <= j < i :: Text(cs[j].name) != Text(cs[i].name)
    ensures OpenReply(m, Text(cs[i].name)) ==
            if exists j | 0 <= j <= i :: !Readable(cs[j]) then -5
            else if |Text(cs[i].name)| < 16 then 0 else -36
    ensures OpenReply(m, Text(cs[i].name)) == 0 ==> Search(m, Text(cs[i].name), 0) == i
    ensures HasHeader(m, Start(m, i)) && InfoAt(m, Start(m, i)) == ClientView(cs[i])
  {
    hide CreatedAs, Formed, Search, Guard, InfoAt, ClientView, HasHeader;
    CreatedChannelAnswers(m, mb, cs, i);
    SearchFrom(m, mb, cs, i, 0);
  }

  /** A name that no channel has, in a mailbox whose channels can all be read. */
  lemma {:induction false} UnknownName(m: seq<byte>, dev: seq<byte>, from: u32)
    requires Mapped(m) && from <= NumRegions(m)
    requires forall j: u32 | from <= j < NumRegions(m) :: Guard(m, j) == 0 && !SameName(dev, ChannelInfoOf(m, j).name)
    ensures Search(m, dev, from) == -2 && (from == 0 ==> OpenReply(m, dev) == -2)
    decreases NumRegions(m) - from
  {
    hide GetU32, Guard, SameName, InfoAt, Capacity;
    if from < NumRegions(m) {
      SearchStep(m, dev, from);
      UnknownName(m, dev, from + 1);
    } else {
      SearchEnds(m, dev, from);
    }
  }

  /** A handle opened on channel i of a freshly created mailbox: every field is the
      configuration's, and the mode is the exchanged one. */
  lemma OpenedHandle(h: Handle, memory: Memory, name: seq<byte>,
                     mb: Layout.MailboxConfig, cs: seq<Layout.ChannelConfig>, i: u32)
    requires h.OpenedOn(memory, name) && CreatedAs(memory.cells[..], mb, cs)
    requires i == h.index && i < |cs| && cs[i].itemMaxNum <= Layout.MAX_ITEMS
    ensures h.mb == memory && h.dev == name
    ensures h.sender == cs[i].sender && h.clientId == cs[i].receiver && h.prot == cs[i].prot && h.signal == cs[i].sig
    ensures h.mode == (if cs[i].mode == 0 then 1 else 0)
    ensures h.priority == cs[i].prio && h.itemSize == cs[i].itemMaxSize
  {
    hide CreatedAs, InfoAt, Search, GetU32, Capacity, Guard;
    var m := memory.cells[..];
    GuardNeedsTable(m);
    CreatedIsMagic(m, mb, cs);
    CreatedChannelAnswers(m, mb, cs, i);
  }

  lemma CreatedIsMagic(m: seq<byte>, mb: Layout.MailboxConfig, cs: seq<Layout.ChannelConfig>)
    requires CreatedAs(m, mb, cs) && Mapped(m)
    ensures Formed(m)
  {
    hide Formed, Holds, GetU32;
  }
}
