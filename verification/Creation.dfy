/** LibMB_Create writes the header table and one descriptor per channel; LibMB_Get_ChanInfo
    reads a descriptor back. */
module Creation {
  import opened Words
  import opened Copy
  import opened Layout
  import opened Ring
  import opened Mailbox
  import opened Channels
  import opened Isolation
  import opened Interleaved

  /** The two configuration pointers of LibMB_Create. */
  datatype Request = NullRequest | Request(mb: MailboxConfig, cs: seq<ChannelConfig>)

  /** The 56 bytes of a fresh channel descriptor. */
  function Descriptor(c: ChannelConfig): (d: seq<byte>)
    ensures |d| == 56
  {
    c.name + Owners(c) + Indices(c)
  }

  function Owners(c: ChannelConfig): (d: seq<byte>)
    ensures |d| == 24
  {
    LittleEndian(c.sender) + LittleEndian(c.receiver) + LittleEndian(c.prot) + LittleEndian(c.sig)
      + LittleEndian(c.mode) + LittleEndian(c.prio)
  }

  function Indices(c: ChannelConfig): (d: seq<byte>)
    ensures |d| == 16
  {
    LittleEndian(c.itemMaxNum) + LittleEndian(c.itemMaxSize) + LittleEndian(0) + LittleEndian(0)
  }

  /** Entry i of the table is that of configuration c. */
  ghost predicate Listed(m: seq<byte>, i: nat, c: ChannelConfig) {
    40 + 8 * i <= |m| && Start(m, i) == c.start && End(m, i) == c.end
  }

  /** Entry i of the table and the descriptor it points to are those of configuration c. */
  ghost predicate Holds(m: seq<byte>, i: nat, c: ChannelConfig) {
    && Listed(m, i, c)
    && c.start + HEADER <= |m| && m[c.start..c.start + HEADER] == Descriptor(c)
  }

  // ---- writing ----

  /** Consecutive 32-bit fields stored one after the other. */
  lemma PutAfter(m: seq<byte>, at: nat, d: seq<byte>, v: u32)
    requires at + |d| + 4 <= |m|
    ensures PutU32(Blit(m, at, d), at + |d|, v) == Blit(m, at, d + LittleEndian(v))
  {
    hide LittleEndian;
    BlitTwice(m, at, d, LittleEndian(v));
  }

  lemma BlitGap(m: seq<byte>, at: nat, a: seq<byte>, b: seq<byte>, c: seq<byte>)
    requires at + |a| + |b| + |c| <= |m|
    ensures Blit(Blit(Blit(m, at, a), at + |a| + |b|, c), at + |a|, b) == Blit(m, at, a + b + c)
  {
    var left, right := Blit(Blit(Blit(m, at, a), at + |a| + |b|, c), at + |a|, b), Blit(m, at, a + b + c);
    assert |left| == |right|;
    forall i | 0 <= i < |m|
      ensures left[i] == right[i]
    {
    }
  }

  /** Four consecutive fields. */
  method SetFour(mb: Memory, at: nat, v0: u32, v1: u32, v2: u32, v3: u32)
    requires mb.Memory? && at + 16 <= mb.cells.Length
    modifies mb.cells
    ensures mb.cells[..] == Blit(old(mb.cells[..]), at,
      LittleEndian(v0) + LittleEndian(v1) + LittleEndian(v2) + LittleEndian(v3))
  {
    hide LittleEndian, Blit;
    ghost var m, d0 := mb.cells[..], LittleEndian(v0);
    SetReg(mb, at, v0);
    PutAfter(m, at, d0, v1);
    SetReg(mb, at + 4, v1);
    PutAfter(m, at, d0 + LittleEndian(v1), v2);
    SetReg(mb, at + 8, v2);
    PutAfter(m, at, d0 + LittleEndian(v1) + LittleEndian(v2), v3);
    SetReg(mb, at + 12, v3);
  }

  method SetOwners(mb: Memory, at: nat, c: ChannelConfig)
    requires mb.Memory? && at + 24 <= mb.cells.Length
    modifies mb.cells
    ensures mb.cells[..] == Blit(old(mb.cells[..]), at, Owners(c))
  {
    hide LittleEndian, Blit;
    ghost var m := mb.cells[..];
    ghost var d := LittleEndian(c.sender) + LittleEndian(c.receiver) + LittleEndian(c.prot) + LittleEndian(c.sig);
    SetFour(mb, at, c.sender, c.receiver, c.prot, c.sig);
    PutAfter(m, at, d, c.mode);
    SetReg(mb, at + 16, c.mode);
    PutAfter(m, at, d + LittleEndian(c.mode), c.prio);
    SetReg(mb, at + 20, c.prio);
  }

  method SetName(mb: Memory, at: nat, name: Name)
    requires mb.Memory? && at + 16 <= mb.cells.Length
    modifies mb.cells
    ensures mb.cells[..] == Blit(old(mb.cells[..]), at, name)
  {
    forall k | 0 <= k < 16 {
      mb.cells[at + k] := name[k];
    }
  }

  /** The body of the loop over channels: table entry, then descriptor. */
  method SetChannel(mb: Memory, i: nat, c: ChannelConfig)
    requires mb.Memory? && 40 + 8 * i <= c.start && c.start + HEADER <= mb.cells.Length
    modifies mb.cells
    ensures mb.cells[..] ==
      Blit(PutU32(PutU32(old(mb.cells[..]), 32 + 8 * i, c.start), 36 + 8 * i, c.end), c.start, Descriptor(c))
  {
    hide LittleEndian, Blit, Owners;
    SetReg(mb, 32 + 8 * i, c.start);
    SetReg(mb, 36 + 8 * i, c.end);
    var r: nat := c.start;
    ghost var m := mb.cells[..];
    SetName(mb, r, c.name);
    SetFour(mb, r + 40, c.itemMaxNum, c.itemMaxSize, 0, 0);
    SetOwners(mb, r + 16, c);
    BlitGap(m, r, c.name, Owners(c), Indices(c));
  }

  /** Descriptors lie after the table, inside the mapping. */
  ghost predicate Located(cs: seq<ChannelConfig>, size: nat) {
    forall i | 0 <= i < |cs| :: 32 + 8 * |cs| <= cs[i].start && cs[i].start + HEADER <= size
  }

  /** Each descriptor ends before the next one starts. */
  ghost predicate Apart(cs: seq<ChannelConfig>) {
    forall i, j | 0 <= i < j < |cs| :: cs[i].start + HEADER <= cs[j].start
  }

  /** Bytes that initialisation writes: the table and the descriptors. */
  ghost predicate Structural(cs: seq<ChannelConfig>, x: nat) {
    x < 32 + 8 * |cs| || exists i | 0 <= i < |cs| :: cs[i].start <= x < cs[i].start + HEADER
  }

  lemma FieldRead(m: seq<byte>, at: nat, v: u32)
    requires at + 4 <= |m| && m[at..at + 4] == LittleEndian(v)
    ensures GetU32(m, at) == v
  {
    var s := m[at..at + 4];
    assert s[0] == m[at] && s[1] == m[at + 1] && s[2] == m[at + 2] && s[3] == m[at + 3];
    JoinedLittleEndian(v);
  }

  /** The bytes that pass i of the loop may change. */
  ghost predicate OnlyPass(m: seq<byte>, t: seq<byte>, cs: seq<ChannelConfig>, i: nat)
    requires i < |cs|
  {
    |t| == |m| && forall x: nat | x < |m| && t[x] != m[x] ::
      32 + 8 * i <= x < 40 + 8 * i || cs[i].start <= x < cs[i].start + HEADER
  }

  /** What one pass of the loop establishes and what it keeps. */
  lemma ChannelSet(m: seq<byte>, cs: seq<ChannelConfig>, i: nat, t: seq<byte>)
    requires i < |cs| && Located(cs, |m|) && 40 <= |m|
    requires var c := cs[i];
      t == Blit(PutU32(PutU32(m, 32 + 8 * i, c.start), 36 + 8 * i, c.end), c.start, Descriptor(c))
    ensures Holds(t, i, cs[i]) && OnlyPass(m, t, cs, i)
  {
    hide GetU32, LittleEndian, Blit, Descriptor;
    var c := cs[i];
    var a := PutU32(m, 32 + 8 * i, c.start);
    var b := PutU32(a, 36 + 8 * i, c.end);
    GetPut(m, 32 + 8 * i, c.start);
    GetPut(a, 36 + 8 * i, c.end);
    PutElsewhere(a, 36 + 8 * i, c.end, 32 + 8 * i);
    SameU32(b, t, 32 + 8 * i);
    SameU32(b, t, 36 + 8 * i);
  }

  lemma ListedKept(m: seq<byte>, t: seq<byte>, cs: seq<ChannelConfig>, i: nat, j: nat)
    requires i < |cs| && j < |cs| && i != j && Located(cs, |m|) && Listed(m, j, cs[j]) && OnlyPass(m, t, cs, i)
    ensures Listed(t, j, cs[j])
  {
    hide GetU32;
    SameU32(m, t, 32 + 8 * j);
    SameU32(m, t, 36 + 8 * j);
  }

  lemma HoldsKept(m: seq<byte>, t: seq<byte>, cs: seq<ChannelConfig>, i: nat, j: nat)
    requires i < |cs| && j < |cs| && i != j && Located(cs, |m|) && Apart(cs)
    requires Holds(m, j, cs[j]) && OnlyPass(m, t, cs, i)
    ensures Holds(t, j, cs[j])
  {
    hide GetU32, Descriptor;
    ListedKept(m, t, cs, i, j);
    var r := cs[j].start;
    assert cs[i].start + HEADER <= r || r + HEADER <= cs[i].start;
    assert t[r..r + HEADER] == m[r..r + HEADER];
  }

  /** What the passes so far have set: every table entry, and the descriptors that no later one
      overwrites. */
  ghost predicate SetSoFar(m: seq<byte>, cs: seq<ChannelConfig>, n: nat)
    requires n <= |cs|
  {
    && (forall k | 0 <= k < n :: Listed(m, k, cs[k]))
    && (Apart(cs) ==> forall k | 0 <= k < n :: Holds(m, k, cs[k]))
  }

  lemma OnePass(m: seq<byte>, t: seq<byte>, cs: seq<ChannelConfig>, i: nat)
    requires i < |cs| && Located(cs, |m|) && SetSoFar(m, cs, i) && Holds(t, i, cs[i]) && OnlyPass(m, t, cs, i)
    ensures SetSoFar(t, cs, i + 1)
  {
    hide GetU32, Descriptor, OnlyPass;
    forall k | 0 <= k < i
      ensures Listed(t, k, cs[k])
      ensures Apart(cs) ==> Holds(t, k, cs[k])
    {
      ListedKept(m, t, cs, i, k);
      if Apart(cs) {
        HoldsKept(m, t, cs, i, k);
      }
    }
  }

  lemma NumKept(m: seq<byte>, t: seq<byte>, cs: seq<ChannelConfig>, i: nat)
    requires i < |cs| && 40 <= |m| && Located(cs, |m|) && OnlyPass(m, t, cs, i)
    ensures t[..32] == m[..32]
  {
    forall x: nat | x < 32
      ensures t[x] == m[x]
    {
      assert x < 32 + 8 * i && x < cs[i].start;
    }
  }

  /** The mailbox header before its magic: name, size, priority, number of channels; the
      magic field keeps whatever was there. */
  function Heading(m: seq<byte>, mb: MailboxConfig): (h: seq<byte>)
    requires 40 <= |m|
    ensures |h| == 32
  {
    mb.name + m[16..20] + LittleEndian(mb.mbSize) + LittleEndian(mb.mbPrio) + LittleEndian(mb.numSubRegions)
  }

  lemma HeadingStored(m: seq<byte>, mb: MailboxConfig, t: seq<byte>)
    requires 40 <= |m|
    requires t == PutU32(PutU32(PutU32(Blit(m, 0, mb.name), 28, mb.numSubRegions), 20, mb.mbSize), 24, mb.mbPrio)
    ensures |t| == |m| && t[..32] == Heading(m, mb) && t[32..] == m[32..]
  {
    hide LittleEndian, Blit;
    var a := Blit(m, 0, mb.name);
    var b := PutU32(a, 28, mb.numSubRegions);
    var c := PutU32(b, 20, mb.mbSize);
    assert a[0..16] == mb.name;
    assert t[0..16] == a[0..16] && t[16..20] == a[16..20] == m[16..20];
    assert t[20..24] == c[20..24] == LittleEndian(mb.mbSize);
    assert t[24..28] == LittleEndian(mb.mbPrio);
    assert t[28..32] == b[28..32] == LittleEndian(mb.numSubRegions);
    assert t[..32] == t[0..16] + t[16..20] + t[20..24] + t[24..28] + t[28..32];
  }

  /** All bytes but the table and the descriptors. */
  ghost predicate RestKept(before: seq<byte>, now: seq<byte>, cs: seq<ChannelConfig>) {
    |now| == |before| && forall x: nat | x < |before| && !Structural(cs, x) :: now[x] == before[x]
  }

  lemma RestStillKept(before: seq<byte>, m: seq<byte>, t: seq<byte>, cs: seq<ChannelConfig>, i: nat)
    requires i < |cs| && RestKept(before, m, cs) && OnlyPass(m, t, cs, i)
    ensures RestKept(before, t, cs)
  {
    forall x: nat | x < |before| && !Structural(cs, x)
      ensures t[x] == before[x]
    {
      assert !(cs[i].start <= x < cs[i].start + HEADER);
    }
  }

  /** LibMB_Init_Mailbox. */
  method InitMailbox(memory: Memory, mb: MailboxConfig, cs: seq<ChannelConfig>) returns (ok: bool)
    requires memory.Memory? ==> 40 <= memory.cells.Length
    requires memory.Memory? ==> mb.numSubRegions == |cs| && Located(cs, memory.cells.Length)
    modifies memory.Cells()
    ensures ok == memory.Memory?
    ensures ok ==> memory.cells[..32] == old(Heading(memory.cells[..], mb)) && SetSoFar(memory.cells[..], cs, |cs|)
    ensures ok ==> RestKept(old(memory.cells[..]), memory.cells[..], cs)
  {
    hide LittleEndian, Blit, Holds, Heading, GetU32, SetSoFar, OnlyPass, Listed, RestKept;
    ok := false;
    if memory.Memory? {
      ok := true;
      ghost var before := memory.cells[..];
      SetName(memory, 0, mb.name);
      SetReg(memory, 28, mb.numSubRegions);
      SetReg(memory, 20, mb.mbSize);
      SetReg(memory, 24, mb.mbPrio);
      HeadingStored(before, mb, memory.cells[..]);
      ghost var heading := Heading(before, mb);
      var i: nat := 0;
      HeadingNum(before, mb, memory.cells[..]);
      HeadingOnly(before, memory.cells[..], cs);
      var num := GetReg(memory, 28);
      while i < num
        invariant i <= |cs| == num
        invariant memory.cells[..32] == heading
        invariant SetSoFar(memory.cells[..], cs, i) && RestKept(before, memory.cells[..], cs)
      {
        ghost var now := memory.cells[..];
        SetChannel(memory, i, cs[i]);
        ghost var next := memory.cells[..];
        ChannelSet(now, cs, i, next);
        NumKept(now, next, cs, i);
        assert memory.cells[..32] == next[..32] == now[..32];
        OnePass(now, next, cs, i);
        RestStillKept(before, now, next, cs, i);
        HeadingNum(before, mb, next);
        num := GetReg(memory, 28);
        i := i + 1;
      }
    }
  }

  lemma HeadingOnly(before: seq<byte>, t: seq<byte>, cs: seq<ChannelConfig>)
    requires 40 <= |before| == |t| && t[32..] == before[32..]
    ensures SetSoFar(t, cs, 0) && RestKept(before, t, cs)
  {
    forall x: nat | 32 <= x < |t|
      ensures t[x] == before[x]
    {
      assert t[x] == t[32..][x - 32];
    }
  }

  lemma HeadingNum(before: seq<byte>, mb: MailboxConfig, t: seq<byte>)
    requires 40 <= |before| == |t| && t[..32] == Heading(before, mb)
    ensures GetU32(t, 28) == mb.numSubRegions
  {
    hide LittleEndian, GetU32;
    var h := Heading(before, mb);
    assert t[28..32] == t[..32][28..32] == h[28..32] == LittleEndian(mb.numSubRegions);
    FieldRead(t, 28, mb.numSubRegions);
  }

  // ---- what creation establishes ----

  /** A created mailbox whose header and table are those of the configuration. */
  ghost predicate Headed(m: seq<byte>, mb: MailboxConfig, cs: seq<ChannelConfig>) {
    && 40 <= |m| && mb.numSubRegions == |cs| <= MAX_SUB_REGIONS
    && Magic(m) == MAGIC && NumRegions(m) == |cs|
    && m[..16] == mb.name && GetU32(m, 20) == mb.mbSize && GetU32(m, 24) == mb.mbPrio
    && forall i | 0 <= i < |cs| :: Listed(m, i, cs[i])
  }

  /** A mailbox with these channels, all rings empty. */
  ghost predicate CreatedAs(m: seq<byte>, mb: MailboxConfig, cs: seq<ChannelConfig>) {
    Headed(m, mb, cs) && forall i | 0 <= i < |cs| :: Holds(m, i, cs[i])
  }

  lemma HeadingFields(m: seq<byte>, before: seq<byte>, mb: MailboxConfig, t: seq<byte>)
    requires 40 <= |before| == |m| && m[..32] == Heading(before, mb) && t == PutU32(m, 16, MAGIC)
    ensures Magic(t) == MAGIC && NumRegions(t) == mb.numSubRegions
    ensures t[..16] == mb.name && GetU32(t, 20) == mb.mbSize && GetU32(t, 24) == mb.mbPrio
  {
    hide LittleEndian, GetU32;
    var h := Heading(before, mb);
    GetPut(m, 16, MAGIC);
    assert t[20..24] == m[20..24] == m[..32][20..24] == h[20..24] == LittleEndian(mb.mbSize);
    assert t[24..28] == m[24..28] == m[..32][24..28] == h[24..28] == LittleEndian(mb.mbPrio);
    assert t[28..32] == m[28..32] == m[..32][28..32] == h[28..32] == LittleEndian(mb.numSubRegions);
    assert t[..16] == m[..16] == m[..32][..16] == h[..16] == mb.name;
    FieldRead(t, 20, mb.mbSize);
    FieldRead(t, 24, mb.mbPrio);
    FieldRead(t, 28, mb.numSubRegions);
  }

  lemma AcceptedIsLocated(mb: MailboxConfig, cs: seq<ChannelConfig>, size: nat)
    requires mb.numSubRegions == |cs| && Accepted(mb, cs)
    requires forall i | 0 <= i < |cs| :: cs[i].start + HEADER <= size
    ensures Located(cs, size) && 40 <= size && 0 < |cs| <= MAX_SUB_REGIONS
  {
    hide Bytes;
    TableSizeExact(|cs|);
    forall i | 0 <= i < |cs|
      ensures 32 + 8 * |cs| <= cs[i].start
    {
      TableBefore(mb, cs, i);
    }
    assert cs[0].start + HEADER <= size;
  }

  lemma AcceptedIsApart(mb: MailboxConfig, cs: seq<ChannelConfig>)
    requires mb.numSubRegions == |cs| && Accepted(mb, cs)
    requires forall i | 0 <= i < |cs| :: NoWrap(cs[i])
    ensures Geometry(mb, cs) && Apart(cs)
  {
    hide Bytes, Accepted, NoWrap;
    AcceptedIffGeometry(mb, cs);
  }

  lemma CreatedIsFormed(m: seq<byte>, mb: MailboxConfig, cs: seq<ChannelConfig>)
    requires CreatedAs(m, mb, cs) && Geometry(mb, cs) && mb.mbSize <= |m|
    ensures Formed(m)
  {
    hide GetU32, Size, Bytes, Descriptor;
    forall i | 0 <= i < |cs|
      ensures Holds(m, i, cs[i]) && 32 + 8 * |cs| <= Start(m, i) && ChannelFits(m, i)
    {
      assert Holds(m, i, cs[i]) && Contained(cs[i]);
      DescriptorFields(m, i, cs[i]);
      SizeIsBytes(cs[i]);
    }
    assert Holds(m, |cs| - 1, cs[|cs| - 1]);
    forall i, j | 0 <= i < j < |cs|
      ensures Holds(m, i, cs[i]) && Holds(m, j, cs[j]) && End(m, i) < Start(m, j)
    {
    }
  }

  lemma SizeIsBytes(c: ChannelConfig)
    ensures Size(c.itemMaxNum, c.itemMaxSize) == Bytes(c)
  {
  }

  /** The fields of a held descriptor. */
  lemma DescriptorFields(m: seq<byte>, i: nat, c: ChannelConfig)
    requires Holds(m, i, c)
    ensures MaxNum(m, c.start) == c.itemMaxNum && ItemSize(m, c.start) == c.itemMaxSize
    ensures In(m, c.start) == 0 && Out(m, c.start) == 0
  {
    hide GetU32, LittleEndian, Owners;
    var r: nat := c.start;
    var d := Descriptor(c);
    DescriptorSlice(m, r, d, 40);
    DescriptorSlice(m, r, d, 44);
    DescriptorSlice(m, r, d, 48);
    DescriptorSlice(m, r, d, 52);
    assert d[40..44] == LittleEndian(c.itemMaxNum) && d[44..48] == LittleEndian(c.itemMaxSize);
    assert d[48..52] == LittleEndian(0) && d[52..56] == LittleEndian(0);
    FieldRead(m, r + 40, c.itemMaxNum);
    FieldRead(m, r + 44, c.itemMaxSize);
    FieldRead(m, r + 48, 0);
    FieldRead(m, r + 52, 0);
  }

  lemma DescriptorSlice(m: seq<byte>, r: nat, d: seq<byte>, off: nat)
    requires r + HEADER <= |m| && |d| == HEADER && m[r..r + HEADER] == d && off + 4 <= HEADER
    ensures m[r + off..r + off + 4] == d[off..off + 4]
  {
    Subslice(m, r, HEADER, off, 4);
  }

  /** Conversely, a well-formed mailbox with these channels needs the bound. */
  lemma FormedNeedsBound(m: seq<byte>, mb: MailboxConfig, cs: seq<ChannelConfig>, i: nat)
    requires CreatedAs(m, mb, cs) && Accepted(mb, cs) && Formed(m) && i < |cs|
    ensures NoWrap(cs[i])
  {
    hide GetU32, Size, Bytes, Descriptor;
    assert Holds(m, i, cs[i]) && ChannelFits(m, i);
    DescriptorFields(m, i, cs[i]);
    SizeIsBytes(cs[i]);
    ContainedExactly(cs[i]);
  }

  /** The caller's mapping: at least mb_size bytes, and every descriptor inside. Only items of
      nearly 2^32 bytes let the check accept a descriptor that is not inside mb_size. */
  ghost predicate MappingHolds(memory: Memory, request: Request)
    requires request.Request? ==> request.mb.numSubRegions == |request.cs|
  {
    memory.Memory? && request.Request? && Accepted(request.mb, request.cs) ==>
      && request.mb.mbSize <= memory.cells.Length
      && forall i | 0 <= i < |request.cs| :: request.cs[i].start + HEADER <= memory.cells.Length
  }

  /** Below that size the mapping of mb_size bytes is enough. */
  lemma MappingSuffices(memory: Memory, request: Request)
    requires memory.Memory? && request.Request? && request.mb.numSubRegions == |request.cs|
    requires request.mb.mbSize <= memory.cells.Length && forall i | 0 <= i < |request.cs| :: NoWrap(request.cs[i])
    ensures MappingHolds(memory, request)
  {
    hide Accepted, NoWrap, Bytes;
    if Accepted(request.mb, request.cs) {
      AcceptedIffGeometry(request.mb, request.cs);
      forall i | 0 <= i < |request.cs|
        ensures request.cs[i].start + HEADER <= memory.cells.Length
      {
        assert Contained(request.cs[i]);
      }
    }
  }

  /** LibMB_Create: an accepted configuration gets its header, its table and its descriptors,
      and every other byte stays. The result is a well-formed mailbox with exactly those
      channels if and only if the item bytes + 55 of each are below 2^32. A refused one
      changes nothing. */
  method Create(memory: Memory, request: Request) returns (ret: int)
    requires request.Request? ==> request.mb.numSubRegions == |request.cs|
    requires MappingHolds(memory, request)
    modifies memory.Cells()
    ensures ret == if memory.Null? || request.NullRequest? then -11
                   else if Accepted(request.mb, request.cs) then 0 else -22
    ensures ret != 0 && memory.Memory? ==> memory.cells[..] == old(memory.cells[..])
    ensures ret == 0 ==> Headed(memory.cells[..], request.mb, request.cs)
    ensures ret == 0 ==>
      (CreatedAs(memory.cells[..], request.mb, request.cs) && Formed(memory.cells[..])
       <==> forall i | 0 <= i < |request.cs| :: NoWrap(request.cs[i]))
    ensures ret == 0 ==> RestKept(old(memory.cells[..]), memory.cells[..], request.cs)
  {
    hide Accepted, Geometry, NoWrap, Holds, Heading, LittleEndian, Blit, GetU32, Formed, Located;
    hide SetSoFar, RestKept, Listed;
    if memory.Null? || request.NullRequest? {
      return E_NULL_INPUT;
    }
    var mb, cs := request.mb, request.cs;
    var accepted := BoundaryCheck(mb, cs);
    if !accepted {
      return E_INVALID_CFG;
    }
    AcceptedIsLocated(mb, cs, memory.cells.Length);
    ghost var before := memory.cells[..];
    var initialised := InitMailbox(memory, mb, cs);
    ghost var now := memory.cells[..];
    assert now[..32] == memory.cells[..32];
    SetReg(memory, 16, MAGIC);
    ret := 0;
    MagicSet(now, before, mb, cs, memory.cells[..]);
    CreatedExactly(memory.cells[..], mb, cs);
  }

  lemma MagicSet(now: seq<byte>, before: seq<byte>, mb: MailboxConfig, cs: seq<ChannelConfig>, t: seq<byte>)
    requires 40 <= |before| == |now| && now[..32] == Heading(before, mb) && t == PutU32(now, 16, MAGIC)
    requires mb.numSubRegions == |cs| <= MAX_SUB_REGIONS && cs != [] && Located(cs, |now|) && SetSoFar(now, cs, |cs|)
    requires RestKept(before, now, cs)
    ensures Headed(t, mb, cs) && SetSoFar(t, cs, |cs|) && RestKept(before, t, cs)
  {
    hide GetU32, LittleEndian, Heading, Descriptor;
    HeadingFields(now, before, mb, t);
    forall i | 0 <= i < |cs|
      ensures Listed(t, i, cs[i])
      ensures Apart(cs) ==> Holds(t, i, cs[i])
    {
      assert Listed(now, i, cs[i]);
      SameU32(now, t, 32 + 8 * i);
      SameU32(now, t, 36 + 8 * i);
      if Apart(cs) {
        BlitElsewhere(now, 16, LittleEndian(MAGIC), cs[i].start, cs[i].start + HEADER);
      }
    }
  }

  lemma CreatedExactly(m: seq<byte>, mb: MailboxConfig, cs: seq<ChannelConfig>)
    requires mb.numSubRegions == |cs| && Accepted(mb, cs) && mb.mbSize <= |m|
    requires Headed(m, mb, cs) && SetSoFar(m, cs, |cs|)
    ensures CreatedAs(m, mb, cs) && Formed(m) <==> forall i | 0 <= i < |cs| :: NoWrap(cs[i])
  {
    hide Accepted, Geometry, NoWrap, Holds, Formed, Listed, GetU32;
    if forall i | 0 <= i < |cs| :: NoWrap(cs[i]) {
      AcceptedIsApart(mb, cs);
      CreatedIsFormed(m, mb, cs);
    }
    if CreatedAs(m, mb, cs) && Formed(m) {
      forall i | 0 <= i < |cs|
        ensures NoWrap(cs[i])
      {
        FormedNeedsBound(m, mb, cs, i);
      }
    }
  }

  // ---- LibMB_Get_ChanInfo ----

  datatype Info = Info(name: seq<byte>, sender: u32, receiver: u32, prot: u32, sig: u32,
                       mode: u32, prio: u32, maxItemNum: u32, maxItemSize: u32)

  const READ_MODE: u32 := 0
  const WRITE_MODE: u32 := 1

  /** A channel the creator reads is one the client writes. */
  function Opposite(mode: u32): u32 {
    if mode == READ_MODE then WRITE_MODE else READ_MODE
  }

  /** The caller's mbchan_desc_t. */
  class ChannelInfo {
    var name: Name
    var sender: u32
    var receiver: u32
    var prot: u32
    var sig: u32
    var mode: u32
    var prio: u32
    var maxItemNum: u32
    var maxItemSize: u32

    /** All zeros. */
    constructor ()
      ensures Value() == Info(seq(16, _ => 0), 0, 0, 0, 0, 0, 0, 0, 0)
    {
      name := seq(16, _ => 0);
      sender, receiver, prot, sig, mode, prio, maxItemNum, maxItemSize := 0, 0, 0, 0, 0, 0, 0, 0;
    }

    function Value(): Info
      reads this
    {
      Info(name, sender, receiver, prot, sig, mode, prio, maxItemNum, maxItemSize)
    }
  }

  /** The information bytes 0..48 of a descriptor give. */
  function InfoAt(m: seq<byte>, r: nat): Info
    requires HasHeader(m, r)
  {
    Info(m[r..r + 16], GetU32(m, r + 16), GetU32(m, r + 20), GetU32(m, r + 24), GetU32(m, r + 28),
         Opposite(GetU32(m, r + 32)), GetU32(m, r + 36), MaxNum(m, r), ItemSize(m, r))
  }

  /** The fields of the answer, each from its bytes of the descriptor at r; a channel that the
      creator has as 0 the client has as 1, any other as 0. */
  predicate Answers(chan: ChannelInfo, m: seq<byte>, r: nat)
    reads chan
    requires HasHeader(m, r)
  {
    && chan.name == m[r..r + 16]
    && chan.sender == GetU32(m, r + 16) && chan.receiver == GetU32(m, r + 20)
    && chan.prot == GetU32(m, r + 24) && chan.sig == GetU32(m, r + 28)
    && (if GetU32(m, r + 32) == 0 then chan.mode == 1 else chan.mode == 0)
    && chan.prio == GetU32(m, r + 36)
    && chan.maxItemNum == GetU32(m, r + 40) && chan.maxItemSize == GetU32(m, r + 44)
  }

  method GetChanInfo(mb: Memory, i: u32, chan: ChannelInfo?) returns (ret: int)
    requires mb.Memory? ==> Mapped(mb.cells[..])
    modifies chan
    ensures mb.Null? || chan == null ==> ret == -11
    ensures mb.Memory? && chan != null ==> ret == Guard(mb.cells[..], i)
    ensures chan != null && ret != 0 ==> chan.Value() == old(chan.Value())
    ensures ret == 0 ==> mb.Memory? && chan != null && Usable(mb.cells[..], i)
    ensures ret == 0 ==> chan.Value() == InfoAt(mb.cells[..], Start(mb.cells[..], i))
    ensures ret == 0 ==>
      Fits(mb.cells[..], Start(mb.cells[..], i)) && Answers(chan, mb.cells[..], Start(mb.cells[..], i))
  {
    hide GetU32, Sane, Capacity, Guard, Mapped;
    if mb.Null? || chan == null {
      return E_NULL_INPUT;
    }
    var r;
    ret, r := Enter(mb, i);
    if ret != 0 {
      return;
    }
    UsableFits(mb.cells[..], i);
    var mode := GetReg(mb, r + 32);
    chan.mode := if mode == READ_MODE then WRITE_MODE else READ_MODE;
    chan.name := mb.cells[r..r + 16];
    chan.sender := GetReg(mb, r + 16);
    chan.receiver := GetReg(mb, r + 20);
    chan.prot := GetReg(mb, r + 24);
    chan.sig := GetReg(mb, r + 28);
    chan.prio := GetReg(mb, r + 36);
    chan.maxItemNum := GetReg(mb, r + 40);
    chan.maxItemSize := GetReg(mb, r + 44);
    assert mb.cells[r..r + 16] == mb.cells[..][r..r + 16];
  }

  /** The configuration a client should read back. */
  function ClientView(c: ChannelConfig): Info {
    Info(c.name, c.sender, c.receiver, c.prot, c.sig, Opposite(c.mode), c.prio, c.itemMaxNum, c.itemMaxSize)
  }

  lemma InfoOfDescriptor(m: seq<byte>, i: nat, c: ChannelConfig)
    requires Holds(m, i, c)
    ensures InfoAt(m, c.start) == ClientView(c)
  {
    hide GetU32, LittleEndian, Descriptor, Opposite;
    DescriptorFields(m, i, c);
    OwnerFields(m, i, c);
  }

  lemma OwnerFields(m: seq<byte>, i: nat, c: ChannelConfig)
    requires Holds(m, i, c)
    ensures var r := c.start;
      && m[r..r + 16] == c.name && GetU32(m, r + 16) == c.sender && GetU32(m, r + 20) == c.receiver
      && GetU32(m, r + 24) == c.prot && GetU32(m, r + 28) == c.sig
      && GetU32(m, r + 32) == c.mode && GetU32(m, r + 36) == c.prio
  {
    hide GetU32, LittleEndian, Indices;
    var r: nat := c.start;
    var d := Descriptor(c);
    Subslice(m, r, HEADER, 0, 16);
    assert d[0..16] == c.name;
    OwnerField(m, r, d, 16, c.sender, c);
    OwnerField(m, r, d, 20, c.receiver, c);
    OwnerField(m, r, d, 24, c.prot, c);
    OwnerField(m, r, d, 28, c.sig, c);
    OwnerField(m, r, d, 32, c.mode, c);
    OwnerField(m, r, d, 36, c.prio, c);
  }

  lemma OwnerField(m: seq<byte>, r: nat, d: seq<byte>, off: nat, v: u32, c: ChannelConfig)
    requires r + HEADER <= |m| && d == Descriptor(c) && m[r..r + HEADER] == d && 16 <= off <= 36
    requires Owners(c)[off - 16..off - 12] == LittleEndian(v)
    ensures GetU32(m, r + off) == v
  {
    hide GetU32, LittleEndian, Indices, Owners;
    DescriptorSlice(m, r, d, off);
    assert d[off..off + 4] == Owners(c)[off - 16..off - 12];
    FieldRead(m, r + off, v);
  }

  /** After creation, channel i answers with configuration i, mode exchanged; a channel
      without slots or with too large items is reported corrupt instead. */
  lemma CreatedChannelAnswers(m: seq<byte>, mb: MailboxConfig, cs: seq<ChannelConfig>, i: u32)
    requires CreatedAs(m, mb, cs) && Formed(m) && i < |cs| && cs[i].itemMaxNum <= Layout.MAX_ITEMS
    ensures Guard(m, i) == if 0 < cs[i].itemMaxNum && cs[i].itemMaxSize <= 0x80_0000 then 0 else -66
    ensures HasHeader(m, Start(m, i)) && InfoAt(m, Start(m, i)) == ClientView(cs[i])
    ensures var c, a := cs[i], InfoAt(m, Start(m, i));
      && a.name == c.name && a.sender == c.sender && a.receiver == c.receiver && a.prot == c.prot && a.sig == c.sig
      && a.mode == (if c.mode == 0 then 1 else 0) && a.prio == c.prio
      && a.maxItemNum == c.itemMaxNum && a.maxItemSize == c.itemMaxSize
  {
    hide GetU32, Descriptor, ChannelFits, InfoAt;
    assert Holds(m, i, cs[i]);
    DescriptorFields(m, i, cs[i]);
    InfoOfDescriptor(m, i, cs[i]);
  }

  /** Where creation puts each value: heading, table entry, and descriptor at cs[i].start. */
  lemma CreatedWords(m: seq<byte>, mb: MailboxConfig, cs: seq<ChannelConfig>, i: nat)
    requires CreatedAs(m, mb, cs) && i < |cs|
    ensures m[..16] == mb.name && GetU32(m, 16) == 0x4D4C_3130 && GetU32(m, 20) == mb.mbSize
    ensures GetU32(m, 24) == mb.mbPrio && GetU32(m, 28) == |cs|
    ensures 40 + 8 * i <= |m| && GetU32(m, 32 + 8 * i) == cs[i].start && GetU32(m, 36 + 8 * i) == cs[i].end
    ensures var c := cs[i]; var r := c.start;
      && r + 56 <= |m| && m[r..r + 16] == c.name
      && GetU32(m, r + 16) == c.sender && GetU32(m, r + 20) == c.receiver
      && GetU32(m, r + 24) == c.prot && GetU32(m, r + 28) == c.sig
      && GetU32(m, r + 32) == c.mode && GetU32(m, r + 36) == c.prio
      && GetU32(m, r + 40) == c.itemMaxNum && GetU32(m, r + 44) == c.itemMaxSize
      && GetU32(m, r + 48) == 0 && GetU32(m, r + 52) == 0
  {
    hide GetU32, LittleEndian, Indices, Descriptor;
    assert Holds(m, i, cs[i]);
    DescriptorFields(m, i, cs[i]);
    OwnerFields(m, i, cs[i]);
  }

  /** What LibMB_Get_ChanInfo answers for channel j: an error, or the information. */
  datatype ChanAnswer = NoInfo(code: int) | SomeInfo(info: Info)

  function AnswerOf(m: seq<byte>, j: u32): ChanAnswer
    requires Mapped(m)
  {
    if Guard(m, j) != 0 then NoInfo(Guard(m, j))
    else
      UsableFits(m, j);
      SomeInfo(InfoAt(m, Start(m, j)))
  }

  lemma InfoKept(m: seq<byte>, t: seq<byte>, i: u32, j: nat)
    requires Usable(m, i) && OnlyOwned(m, t, i) && j < NumRegions(m)
    ensures HasHeader(m, Start(m, j)) && HasHeader(t, Start(m, j)) && InfoAt(t, Start(m, j)) == InfoAt(m, Start(m, j))
  {
    hide GetU32, Capacity, Sane, OnlyOwned;
    HeaderKept(m, t, i, j);
    var r := Start(m, j);
    ShapeFields(m, t, r);
    assert t[r..r + 16] == m[r..r + 16];
    SameU32(m, t, r + 16);
    SameU32(m, t, r + 20);
    SameU32(m, t, r + 24);
    SameU32(m, t, r + 28);
    SameU32(m, t, r + 32);
    SameU32(m, t, r + 36);
  }

  /** A call on one channel changes no channel's answer, its own and errors included. */
  lemma CallKeepsAnswer(m: seq<byte>, i: u32, op: Op, j: u32)
    requires Created(m) && Supplied(m, i, op)
    ensures Created(After(m, i, op)) && AnswerOf(After(m, i, op), j) == AnswerOf(m, j)
  {
    hide GetU32, Capacity, Sane, OnlyOwned, After, InfoAt;
    if Guard(m, i) != 0 {
      RefusedCall(m, i, op);
    } else {
      var t := After(m, i, op);
      OneCall(m, i, op);
      TableKept(m, t, i);
      FormedKept(m, t, i);
      if j == i {
        CallKeepsUsable(m, i, op);
        UsableFits(m, i);
        InfoKept(m, t, i, i);
      } else if j < NumRegions(m) {
        CallElsewhere(m, j, i, op);
        AlikeGuard(m, t, j);
        InfoKept(m, t, i, j);
      }
    }
  }

  /** No run of calls on whichever channels changes what any channel answers. */
  lemma {:induction false} AnswersKept(m: seq<byte>, calls: seq<Call>, j: u32)
    requires Created(m) && EverySupplied(m, calls)
    ensures AnswerOf(RunAll(m, calls), j) == AnswerOf(m, j)
    decreases |calls|
  {
    hide GetU32, After, AnswerOf, Supplied;
    if calls != [] {
      assert calls == [calls[0]] + calls[1..];
      StillEverySupplied(m, calls[0], calls[1..]);
      CallKeepsAnswer(m, calls[0].channel, calls[0].op, j);
      AnswersKept(AfterCall(m, calls[0]), calls[1..], j);
    }
  }
}
