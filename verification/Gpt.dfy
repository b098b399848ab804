/** GUID partition tables: locating and verifying a table, and looking partitions up in it. */
module Gpt {
  import opened CrcWords
  import opened CrcTables
  import opened Crc
  import opened CrcCode
  import opened Guids
  import opened Arithmetic
  import Words

  type u32 = Words.u32
  type byte = Words.byte

  const HEADER_SIZE: nat := 92
  const ENTRY_SIZE: nat := 128
  const LBA: nat := 4096

  /** An entry up to and including its last block: what a lookup looks at. */
  const PLACE_BYTES: nat := 48

  // ---- fields ----

  function At(b: seq<bv8>, i: nat): byte
    requires i < |b|
  {
    b[i] as int
  }

  function Half(b: seq<bv8>, at: nat): nat
    requires at + 2 <= |b|
  {
    At(b, at) + 0x100 * At(b, at + 1)
  }

  function Word(b: seq<bv8>, at: nat): u32
    requires at + 4 <= |b|
  {
    Words.Joined(At(b, at), At(b, at + 1), At(b, at + 2), At(b, at + 3))
  }

  function Long(b: seq<bv8>, at: nat): nat
    requires at + 8 <= |b|
  {
    Word(b, at) + 0x1_0000_0000 * Word(b, at + 4)
  }

  function GuidAt(b: seq<bv8>): Guid
    requires 16 <= |b|
  {
    Guid(Word(b, 0), Half(b, 4), Half(b, 6), seq(8, i requires 0 <= i < 8 => At(b, 8 + i)))
  }

  type Header = h: seq<bv8> | |h| == 92 witness seq(92, _ => 0)

  function Zeros(): Header { seq(92, _ => 0) }

  function Signature(): (s: seq<bv8>)
    ensures |s| == 8
  {
    [0x45, 0x46, 0x49, 0x20, 0x50, 0x41, 0x52, 0x54]
  }

  function HeaderSize(h: Header): u32 { Word(h, 12) }
  function AlternateLba(h: Header): nat { Long(h, 32) }
  function EntryLba(h: Header): nat { Long(h, 72) }
  function NumEntries(h: Header): u32 { Word(h, 80) }
  function EntryBytes(h: Header): u32 { Word(h, 84) }
  function EntriesCrc(h: Header): bv32 { Loaded(h, 88) }

  // ---- rtss_gpt_verify_header_crc32 ----

  predicate HeaderVerified(h: Header, seed: bv32) {
    HeaderSize(h) <= HEADER_SIZE && Loaded(h, 16) == GptCrc(Stored(h, 16, 0)[..HeaderSize(h)], seed)
  }

  lemma StoreBack(h: seq<bv8>, at: nat)
    requires at + 4 <= |h|
    ensures Stored(Stored(h, at, 0), at, Loaded(h, at)) == h
  {
    hide Joined, Byte0, Byte1, Byte2, Byte3;
    BytesOfJoined(h[at], h[at + 1], h[at + 2], h[at + 3]);
  }

  lemma BytesOfJoined(b0: bv8, b1: bv8, b2: bv8, b3: bv8)
    ensures var w := Joined(b0, b1, b2, b3);
      Byte0(w) == b0 && Byte1(w) == b1 && Byte2(w) == b2 && Byte3(w) == b3
  {
  }

  /** The checksum field is zeroed for the computation and put back on every path. */
  method VerifyHeaderCrc32(hdr: array<bv8>, seed: bv32) returns (ok: bool)
    requires hdr.Length == HEADER_SIZE
    modifies hdr
    ensures hdr[..] == old(hdr[..])
    ensures ok == HeaderVerified(old(hdr[..]), seed)
  {
    hide Stored, Joined, GptCrc, Word, Byte0, Byte1, Byte2, Byte3;
    var crc := Joined(hdr[16], hdr[17], hdr[18], hdr[19]);
    var size := Word(hdr[..], 12);
    if size > HEADER_SIZE {
      return false;
    }
    ghost var before := hdr[..];
    StoreWord(hdr, 16, 0);
    HeaderSizeKept(before, 0);
    assert hdr[..][0..size] == hdr[..][..size];
    var crc2 := CalcCrc32(hdr, 0, Word(hdr[..], 12), seed);
    StoreBack(before, 16);
    StoreWord(hdr, 16, crc);
    ok := crc == crc2;
  }

  lemma HeaderSizeKept(h: Header, crc: bv32)
    ensures Word(Stored(h, 16, crc), 12) == Word(h, 12)
  {
    hide Byte0, Byte1, Byte2, Byte3;
  }

  // ---- the entry array ----

  /** Reads of the storage: the bytes a read of a size at a byte address yields, fewer than
      asked when it fails. Storage that does not change answers equally each time. */
  type Callback = f: (nat, nat) -> seq<bv8> | (forall a, s :: |f(a, s)| <= s) witness (a: nat, s: nat) => []

  /** The base the verification computes: a 64-bit product cut to 32 bits. */
  function VerifyBase(h: Header, lba: nat): u32 {
    Words.W32(EntryLba(h) * lba % 0x1_0000_0000_0000_0000)
  }

  /** The base the lookup computes: the low half times the block size in 32 bits. */
  function LookupBase(h: Header): u32 {
    Words.W32(EntryLba(h) % 0x1_0000_0000 * LBA)
  }

  lemma CutMultiple(a: int, k: int)
    ensures Words.W32(a + 0x1_0000_0000 * k) == Words.W32(a)
  {
  }

  lemma CutProduct(x: nat)
    ensures Words.W32(x * LBA % 0x1_0000_0000_0000_0000) == Words.W32(x % 0x1_0000_0000 * LBA)
  {
    var hi, lo := x / 0x1_0000_0000, x % 0x1_0000_0000;
    var q, w := x * LBA / 0x1_0000_0000_0000_0000, x * LBA % 0x1_0000_0000_0000_0000;
    var k := hi * LBA - q * 0x1_0000_0000;
    assert w == lo * LBA + 0x1_0000_0000 * k;
    CutMultiple(lo * LBA, k);
  }

  /** Both reach the same byte. */
  lemma BasesAgree(h: Header)
    ensures VerifyBase(h, LBA) == LookupBase(h)
  {
    hide Long;
    CutProduct(EntryLba(h));
  }

  /** Entry i as read from the storage. */
  function Entry(h: Header, cb: Callback, base: u32, i: nat): (e: seq<bv8>)
    ensures |e| <= EntryBytes(h)
  {
    cb(EntryAddress(h, base, i), EntryBytes(h))
  }

  function EntryAddress(h: Header, base: u32, i: nat): u32 {
    Words.W32(base + Words.W32(i * EntryBytes(h)))
  }

  /** The first n entries one after the other. */
  function EntryArray(h: Header, cb: Callback, base: u32, n: nat): seq<bv8> {
    if n == 0 then [] else EntryArray(h, cb, base, n - 1) + Entry(h, cb, base, n - 1)
  }

  /** The checksum of the array as one buffer, started from a seed. */
  function ArrayCrc(data: seq<bv8>, seed: bv32): bv32 {
    Xor32(LsbFold(Xor32(0xFFFFFFFF, seed), data), 0xFFFFFFFF)
  }

  /** For data there is, and for the default seed, it is rtss_gpt_calc_crc32 of the data. */
  lemma ArrayCrcIsCrc(data: seq<bv8>, seed: bv32)
    ensures ArrayCrc(data, seed) == GptCrc(data, seed) <==> (data != [] || seed == 0)
  {
    if data == [] {
      EmptyArray(seed);
    } else {
      hide Xor32, LsbFold;
    }
  }

  lemma EmptyArray(seed: bv32)
    ensures ArrayCrc([], seed) == seed
    ensures GptCrc([], seed) == 0
  {
    Unseed(seed);
    XorSymmetric(0xFFFFFFFF, seed);
  }

  lemma XorSymmetric(a: bv32, b: bv32)
    ensures Xor32(a, b) == Xor32(b, a)
    ensures Xor32(Xor32(a, b), a) == b
  {
  }

  predicate AllRead(h: Header, cb: Callback, base: u32, n: nat) {
    forall i: nat | i < n :: |Entry(h, cb, base, i)| == EntryBytes(h)
  }

  predicate EntriesVerified(h: Header, cb: Callback, workSize: u32, lba: nat, seed: bv32) {
    var base := VerifyBase(h, lba);
    && EntryBytes(h) <= workSize && AllRead(h, cb, base, NumEntries(h))
    && ArrayCrc(EntryArray(h, cb, base, NumEntries(h)), seed) == EntriesCrc(h)
  }

  /** The callback at work: it fills the front of the buffer. */
  method ReadBlock(cb: Callback, buf: array<bv8>, start: nat, size: nat) returns (n: nat)
    requires size <= buf.Length
    modifies buf
    ensures n == |cb(start, size)| && buf[..] == Words.Blit(old(buf[..]), 0, cb(start, size))
  {
    var got := cb(start, size);
    forall k | 0 <= k < |got| {
      buf[k] := got[k];
    }
    n := |got|;
  }

  lemma FoldNothing(c: bv32)
    ensures LsbFold(c, []) == c
  {
  }

  lemma FoldFront(c: bv32, data: seq<bv8>, k: nat)
    requires k < |data|
    ensures LsbFold(c, data[..k + 1]) == LsbUpdate(LsbFold(c, data[..k]), data[k])
  {
    hide LsbUpdate;
    assert data[..k + 1] == data[..k] + [data[k]];
    FoldAppend(c, data[..k], [data[k]]);
  }

  /** The inner loop: n bytes of the buffer folded into crc. */
  method FoldBytes(crc0: bv32, buf: array<bv8>, n: nat) returns (crc: bv32)
    requires n <= buf.Length
    ensures crc == LsbFold(crc0, buf[..n])
  {
    hide Xor32, Xor8, ShiftDownByte, Byte0, LsbTable, LsbUpdate;
    crc := crc0;
    var pos := 0;
    while pos < n
      invariant pos <= n && crc == LsbFold(crc0, buf[..pos])
    {
      LsbUpdateDef(crc, buf[pos]);
      FoldFront(crc0, buf[..n], pos);
      assert buf[..n][..pos] == buf[..pos] && buf[..n][..pos + 1] == buf[..pos + 1];
      crc := Xor32(ShiftDownByte(crc), LsbTable(Xor8(Byte0(crc), buf[pos])));
      pos := pos + 1;
    }
  }

  /** rtss_gpt_verify_partition_entry_crc32: one entry at a time, yet the checksum compared
      is that of the whole array. */
  method VerifyEntriesCrc32(h: Header, buf: array<bv8>, cb: Callback, workSize: u32, lba: nat, seed: bv32)
    returns (ok: bool)
    requires workSize <= buf.Length
    modifies buf
    ensures ok == EntriesVerified(h, cb, workSize, lba, seed)
  {
    hide Xor32, LsbFold, Word, Long, Joined, LsbUpdate, VerifyBase, EntryAddress;
    var num := NumEntries(h);
    var size := EntryBytes(h);
    var base := VerifyBase(h, lba);
    if size > workSize {
      return false;
    }
    var start := Xor32(0xFFFFFFFF, seed);
    var crc := start;
    FoldNothing(start);
    var i := 0;
    while i < num
      invariant i <= num
      invariant AllRead(h, cb, base, i)
      invariant crc == LsbFold(start, EntryArray(h, cb, base, i))
    {
      var n := ReadBlock(cb, buf, EntryAddress(h, base, i), size);
      if n != size {
        assert !AllRead(h, cb, base, num) by { assert |Entry(h, cb, base, i)| != size; }
        return false;
      }
      assert buf[..n] == Entry(h, cb, base, i);
      FoldAppend(start, EntryArray(h, cb, base, i), Entry(h, cb, base, i));
      crc := FoldBytes(crc, buf, n);
      i := i + 1;
    }
    crc := Xor32(crc, 0xFFFFFFFF);
    ok := crc == Joined(h[88], h[89], h[90], h[91]);
  }

  // ---- looking a partition up ----

  datatype Place = Nowhere | Place(start: u32, size: u32)

  /** Base and size of the partition that an entry describes; no size for a range that ends
      before it starts. */
  function EntryPlace(e: seq<bv8>): Place
    requires PLACE_BYTES <= |e|
  {
    var first, last := Long(e, 32), Long(e, 40);
    var size := if last < first then 0 else (last - first + 1) * LBA % 0x1_0000_0000_0000_0000;
    if Words.W32(size) == 0 then Nowhere else Place(Words.W32(first * LBA % 0x1_0000_0000_0000_0000), Words.W32(size))
  }

  /** The scan from entry i on; the work buffer keeps what earlier reads left behind an entry. */
  function Scan(h: Header, cb: Callback, guid: Guid, buf: seq<bv8>, i: nat): Place
    requires PLACE_BYTES <= |buf| && EntryBytes(h) <= |buf|
    decreases NumEntries(h) - i
  {
    if i >= NumEntries(h) then Nowhere else
    var e := Entry(h, cb, LookupBase(h), i);
    if |e| != EntryBytes(h) then Nowhere else
    var now := Words.Blit(buf, 0, e);
    if GuidAt(now) == guid then EntryPlace(now) else Scan(h, cb, guid, now, i + 1)
  }

  /** The first of n entries with a type GUID, or n. */
  function FirstMatch(h: Header, array_: seq<bv8>, guid: Guid, i: nat, n: nat): (k: nat)
    requires PLACE_BYTES <= EntryBytes(h) && |array_| == n * EntryBytes(h) && i <= n
    ensures i <= k <= n
    decreases n - i
  {
    if i == n then n
    else if GuidAt(Slice(array_, i, EntryBytes(h), n)) == guid then i
    else FirstMatch(h, array_, guid, i + 1, n)
  }

  /** Entry i of an array of n entries of z bytes. */
  function Slice(a: seq<bv8>, i: nat, z: nat, n: nat): (e: seq<bv8>)
    requires |a| == n * z && i < n
    ensures |e| == z
  {
    SliceFits(i, z, n);
    a[i * z..i * z + z]
  }

  lemma SliceFits(i: nat, z: nat, n: nat)
    requires i < n
    ensures 0 <= i * z && i * z + z <= n * z
  {
    assert (i + 1) * z == i * z + z;
    assert (i + 1) * z <= n * z by { MulMonotone(z, i + 1, n); }
  }

  /** What a lookup over an array of n entries answers. */
  function Answer(h: Header, array_: seq<bv8>, guid: Guid, n: nat): Place
    requires PLACE_BYTES <= EntryBytes(h) && |array_| == n * EntryBytes(h)
  {
    var k := FirstMatch(h, array_, guid, 0, n);
    if k == n then Nowhere else EntryPlace(Slice(array_, k, EntryBytes(h), n))
  }

  lemma {:induction false} ArrayLength(h: Header, cb: Callback, base: u32, n: nat)
    requires AllRead(h, cb, base, n)
    ensures |EntryArray(h, cb, base, n)| == n * EntryBytes(h)
  {
    hide Word, EntryAddress;
    if n > 0 {
      assert |Entry(h, cb, base, n - 1)| == EntryBytes(h);
      ArrayLength(h, cb, base, n - 1);
      OneMoreEntry(n, EntryBytes(h));
    } else {
      NoEntries(EntryBytes(h));
    }
  }

  lemma OneMoreEntry(n: nat, z: nat)
    ensures n * z == (n - 1) * z + z
  {
  }

  lemma NoEntries(z: nat)
    ensures 0 * z == 0
  {
  }

  lemma SliceOfPrefix(a: seq<bv8>, b: seq<bv8>, i: nat, z: nat, n: nat)
    requires i < n - 1 && |a| == (n - 1) * z && |a + b| == n * z
    ensures Slice(a + b, i, z, n) == Slice(a, i, z, n - 1)
  {
    SliceFits(i, z, n - 1);
  }

  lemma SliceOfLast(a: seq<bv8>, b: seq<bv8>, z: nat, n: nat)
    requires n > 0 && |a| == (n - 1) * z && |b| == z && |a + b| == n * z
    ensures Slice(a + b, n - 1, z, n) == b
  {
  }

  lemma {:induction false} ArraySlices(h: Header, cb: Callback, base: u32, n: nat, i: nat)
    requires AllRead(h, cb, base, n) && i < n
    ensures |EntryArray(h, cb, base, n)| == n * EntryBytes(h)
    ensures Slice(EntryArray(h, cb, base, n), i, EntryBytes(h), n) == Entry(h, cb, base, i)
  {
    hide Word, Slice, EntryAddress;
    ArrayLength(h, cb, base, n);
    ArrayLength(h, cb, base, n - 1);
    var a, b := EntryArray(h, cb, base, n - 1), Entry(h, cb, base, n - 1);
    assert |b| == EntryBytes(h);
    if i == n - 1 {
      SliceOfLast(a, b, EntryBytes(h), n);
    } else {
      ArraySlices(h, cb, base, n - 1, i);
      SliceOfPrefix(a, b, i, EntryBytes(h), n);
    }
  }

  lemma SameWord(a: seq<bv8>, b: seq<bv8>, at: nat)
    requires at + 4 <= |a| && at + 4 <= |b|
    requires forall i | at <= i < at + 4 :: a[i] == b[i]
    ensures Word(a, at) == Word(b, at)
  {
    hide Words.Joined;
    assert a[at] == b[at] && a[at + 1] == b[at + 1] && a[at + 2] == b[at + 2] && a[at + 3] == b[at + 3];
  }

  lemma FieldsOfFront(now: seq<bv8>, e: seq<bv8>)
    requires PLACE_BYTES <= |e| <= |now| && now[..|e|] == e
    ensures GuidAt(now) == GuidAt(e) && EntryPlace(now) == EntryPlace(e)
  {
    hide Word, At;
    forall i | 0 <= i < |e|
      ensures now[i] == e[i]
    {
      assert now[i] == now[..|e|][i];
    }
    SameWord(now, e, 0);
    SameWord(now, e, 32);
    SameWord(now, e, 36);
    SameWord(now, e, 40);
    SameWord(now, e, 44);
    assert Long(now, 32) == Long(e, 32) && Long(now, 40) == Long(e, 40);
    TailOfGuid(now, e);
  }

  lemma TailOfGuid(now: seq<bv8>, e: seq<bv8>)
    requires 16 <= |e| <= |now|
    requires forall i | 4 <= i < 16 :: now[i] == e[i]
    requires Word(now, 0) == Word(e, 0)
    ensures GuidAt(now) == GuidAt(e)
  {
    hide Word;
    assert GuidAt(now).data4 == GuidAt(e).data4;
  }

  lemma {:induction false} ScanFollowsArray(h: Header, cb: Callback, guid: Guid, buf: seq<bv8>, i: nat)
    requires PLACE_BYTES <= EntryBytes(h) <= |buf| && i <= NumEntries(h)
    requires AllRead(h, cb, LookupBase(h), NumEntries(h))
    ensures var n := NumEntries(h);
      var a := EntryArray(h, cb, LookupBase(h), n);
      && |a| == n * EntryBytes(h)
      && var k := FirstMatch(h, a, guid, i, n);
         Scan(h, cb, guid, buf, i) == if k == n then Nowhere else EntryPlace(Slice(a, k, EntryBytes(h), n))
    decreases NumEntries(h) - i
  {
    hide Word, LookupBase, EntryAddress, GuidAt, EntryPlace, Slice;
    var n := NumEntries(h);
    var a := EntryArray(h, cb, LookupBase(h), n);
    ArrayLength(h, cb, LookupBase(h), n);
    if i < n {
      var e := Entry(h, cb, LookupBase(h), i);
      ArraySlices(h, cb, LookupBase(h), n, i);
      assert |e| == EntryBytes(h);
      var now := Words.Blit(buf, 0, e);
      FieldsOfFront(now, e);
      if GuidAt(e) != guid {
        ScanFollowsArray(h, cb, guid, now, i + 1);
      }
    }
  }

  /** Once the entries are verified, a lookup reads the very bytes whose checksum matched and
      answers with the first entry of that type. Entries of the size that the UEFI
      specification permits, and any of at least 48 bytes, are long enough for that. */
  lemma LookupReadsVerifiedEntries(h: Header, cb: Callback, workSize: u32, guid: Guid, buf: seq<bv8>)
    requires EntriesVerified(h, cb, workSize, LBA, 0) && PLACE_BYTES <= EntryBytes(h)
    requires workSize <= |buf|
    ensures var a := EntryArray(h, cb, VerifyBase(h, LBA), NumEntries(h));
      && |a| == NumEntries(h) * EntryBytes(h)
      && GptCrc(a, 0) == EntriesCrc(h)
      && Scan(h, cb, guid, buf, 0) == Answer(h, a, guid, NumEntries(h))
  {
    hide Word, VerifyBase, LookupBase, GptCrc, ArrayCrc, EntryArray, Slice, EntryPlace;
    BasesAgree(h);
    ArrayCrcIsCrc(EntryArray(h, cb, VerifyBase(h, LBA), NumEntries(h)), 0);
    ScanFollowsArray(h, cb, guid, buf, 0);
  }

  /** FirstMatch is the least index with that type. */
  lemma {:induction false} FirstMatchIsFirst(h: Header, a: seq<bv8>, guid: Guid, i: nat, n: nat, k: nat)
    requires PLACE_BYTES <= EntryBytes(h) && |a| == n * EntryBytes(h) && i <= k <= n
    ensures k == FirstMatch(h, a, guid, i, n) <==>
      && (k < n ==> GuidAt(Slice(a, k, EntryBytes(h), n)) == guid)
      && (forall j | i <= j < k :: GuidAt(Slice(a, j, EntryBytes(h), n)) != guid)
    decreases n - i
  {
    hide Word, GuidAt, Slice;
    if i < n {
      if GuidAt(Slice(a, i, EntryBytes(h), n)) != guid && i < k {
        FirstMatchIsFirst(h, a, guid, i + 1, n, k);
      }
    }
  }

  /** Damage to at most four consecutive bytes anywhere in the entries is noticed. */
  lemma DamagedEntriesRejected(h: Header, good: Callback, bad: Callback, workSize: u32,
                               before: seq<bv8>, u: seq<bv8>, v: seq<bv8>, after: seq<bv8>)
    requires EntriesVerified(h, good, workSize, LBA, 0)
    requires EntryArray(h, good, VerifyBase(h, LBA), NumEntries(h)) == before + u + after
    requires EntryArray(h, bad, VerifyBase(h, LBA), NumEntries(h)) == before + v + after
    requires |u| == |v| <= 4 && u != v
    ensures !EntriesVerified(h, bad, workSize, LBA, 0)
  {
    hide Word, VerifyBase, GptCrc, ArrayCrc, EntryArray, EthernetCrc;
    ArrayCrcIsCrc(before + u + after, 0);
    ArrayCrcIsCrc(before + v + after, 0);
    WindowErrorDetected(before, u, v, after);
    GeneratorsAgree(before + u + after);
    GeneratorsAgree(before + v + after);
  }

  // ---- a session: init, lookups, deinit ----

  const TABLE_NULL: u32 := 0
  const TABLE_PRIMARY: u32 := 1
  const TABLE_SECONDARY: u32 := 2

  datatype Storage = NoStorage | Storage(read: Callback)

  /** The read size: the header rounded up to the read alignment. */
  function ReadSize(alignment: u32): (sz: u32)
    requires alignment > 0
  {
    if HEADER_SIZE % alignment != 0 then Words.W32(HEADER_SIZE + alignment - HEADER_SIZE % alignment) else HEADER_SIZE
  }

  lemma ReadSizeCovers(alignment: u32)
    requires alignment > 0
    ensures 92 <= ReadSize(alignment) < 92 + alignment && ReadSize(alignment) % alignment == 0
  {
    var q, r := HEADER_SIZE / alignment, HEADER_SIZE % alignment;
    assert HEADER_SIZE == alignment * q + r;
    if r != 0 {
      if q == 0 {
        assert ReadSize(alignment) == alignment;
      } else {
        MulMonotone(alignment, 1, q);
        assert alignment <= HEADER_SIZE;
        ModUnique(ReadSize(alignment), alignment, q + 1, 0);
      }
    }
  }

  /** The header that a read at a byte address brings, if any. */
  function Candidate(cb: Callback, start: nat, sz: nat): Header
    requires |cb(start, sz)| >= HEADER_SIZE
  {
    cb(start, sz)[..HEADER_SIZE]
  }

  /** A header with the signature whose own checksum and whose entries' checksum match. */
  predicate ValidTable(h: Header, cb: Callback, workSize: u32) {
    h[..8] == Signature() && HeaderVerified(h, 0) && EntriesVerified(h, cb, workSize, LBA, 0)
  }

  predicate Readable(cb: Callback, start: nat, sz: nat) {
    |cb(start, sz)| == sz
  }

  predicate TableAt(cb: Callback, start: nat, sz: nat, workSize: u32)
    requires sz >= HEADER_SIZE
  {
    Readable(cb, start, sz) && ValidTable(Candidate(cb, start, sz), cb, workSize)
  }

  /** The state of the module: the cached header and what init was given. */
  class Session {
    const hdr: array<bv8>
    var initDone: bool
    var storage: Storage
    var workBuf: array?<bv8>
    var workSize: u32
    var blockCount: u32
    var id: u32

    ghost predicate Valid()
      reads this
    {
      && hdr.Length == HEADER_SIZE
      && (workBuf != null ==> workSize <= workBuf.Length && workBuf != hdr)
      && (initDone ==> workBuf != null && storage.Storage?)
    }

    /** What a successful init leaves: lookups rest on this. */
    ghost predicate Ready()
      reads this, hdr
    {
      Valid() && initDone && ENTRY_SIZE <= workSize && ValidTable(hdr[..], storage.read, workSize)
    }

    constructor ()
      ensures Valid() && !initDone && fresh(hdr) && hdr[..] == Zeros() && workBuf == null
    {
      hdr := new bv8[92](_ => 0);
      initDone, storage, workBuf, workSize, blockCount, id := false, NoStorage, null, 0, 0, TABLE_NULL;
      new;
      assert hdr[..] == Zeros();
    }

    /** rtss_gpt_partition_try. alternate: the alternate header address, when it was stored. */
    method Try(start: u32, sz: u32) returns (ok: bool, alternate: Place)
      requires Valid() && workBuf != null && storage.Storage? && HEADER_SIZE <= sz <= workSize
      modifies hdr, workBuf
      ensures ok == TableAt(storage.read, start, sz, workSize)
      ensures ok ==> hdr[..] == Candidate(storage.read, start, sz)
      ensures alternate.Place? <==>
        Readable(storage.read, start, sz) && Candidate(storage.read, start, sz)[..8] == Signature()
      ensures alternate.Place? ==>
        alternate.start == Words.W32(AlternateLba(Candidate(storage.read, start, sz)) * LBA % 0x1_0000_0000_0000_0000)
    {
      hide HeaderVerified, EntriesVerified, Long;
      alternate := Nowhere;
      var n := ReadBlock(storage.read, workBuf, start, sz);
      if n != sz {
        return false, alternate;
      }
      assert workBuf[..n] == storage.read(start, sz);
      forall k | 0 <= k < HEADER_SIZE {
        hdr[k] := workBuf[k];
      }
      ghost var h := Candidate(storage.read, start, sz);
      assert hdr[..] == h;
      assert hdr[..8] == h[..8];
      if hdr[..8] != Signature() {
        return false, alternate;
      }
      alternate := Place(Words.W32(Long(hdr[..], 32) * LBA % 0x1_0000_0000_0000_0000), 0);
      ok := VerifyHeaderCrc32(hdr, 0);
      if !ok {
        return;
      }
      ok := VerifyEntriesCrc32(hdr[..], workBuf, storage.read, workSize, LBA, 0);
    }

    /** rtss_gpt_partition_init: the primary table at block 1, else the one in the last block,
        else a cleared header. A failure does not undo an earlier success: the module stays
        initialised, with the old header when an argument is refused, with none otherwise. */
    method Init(blocks: u32, source: Storage, buf: array?<bv8>, size: u32, alignment: u32) returns (ok: bool)
      requires Valid()
      requires buf != null ==> size <= buf.Length && buf != hdr
      modifies this, hdr, buf
      ensures Valid() && initDone == (ok || old(initDone)) && (ok ==> Ready())
      ensures var given := source.Storage? && buf != null && alignment > 0;
        if !given then
          && !ok && hdr[..] == old(hdr[..])
          && storage == old(storage) && workBuf == old(workBuf) && workSize == old(workSize) && id == old(id)
        else
          && storage == source && workBuf == buf && workSize == size && blockCount == blocks
          && HEADER_SIZE <= ReadSize(alignment)
          && (if ReadSize(alignment) > size || ENTRY_SIZE > size then
                !ok && hdr[..] == old(hdr[..]) && id == old(id)
              else
                Chosen(ok, ReadSize(alignment), Words.W32(Words.W32(blocks - 1) * LBA)))
    {
      hide HeaderVerified, EntriesVerified, Long, ReadSize;
      if source.NoStorage? || buf == null {
        return false;
      }
      if alignment == 0 {
        return false;
      }
      storage, workBuf, workSize, blockCount := source, buf, size, blocks;
      var sz := ReadSize(alignment);
      ReadSizeCovers(alignment);
      if sz > workSize || ENTRY_SIZE > workSize {
        return false;
      }
      var alternate;
      ok, alternate := Try(LBA, sz);
      if ok {
        id := TABLE_PRIMARY;
        initDone := true;
        return;
      }
      ok, alternate := Try(Words.W32(Words.W32(blocks - 1) * LBA), sz);
      if ok {
        id := TABLE_SECONDARY;
        initDone := true;
        return;
      }
      id := TABLE_NULL;
      forall k | 0 <= k < HEADER_SIZE {
        hdr[k] := 0;
      }
      assert hdr[..] == Zeros();
    }

    /** The outcome of the search: which table, and its header. */
    ghost predicate Chosen(ok: bool, sz: nat, last: nat)
      reads this, hdr
      requires Valid() && storage.Storage? && sz >= HEADER_SIZE
    {
      && (ok <==> TableAt(storage.read, LBA, sz, workSize) || TableAt(storage.read, last, sz, workSize))
      && (if !ok then
            id == TABLE_NULL && hdr[..] == Zeros()
          else if TableAt(storage.read, LBA, sz, workSize) then
            id == TABLE_PRIMARY && hdr[..] == Candidate(storage.read, LBA, sz)
          else
            id == TABLE_SECONDARY && hdr[..] == Candidate(storage.read, last, sz))
    }

    method Deinit()
      requires Valid()
      modifies this, hdr
      ensures Valid() && !initDone && hdr[..] == Zeros() && storage.NoStorage? && workBuf == null
    {
      forall k | 0 <= k < HEADER_SIZE {
        hdr[k] := 0;
      }
      assert hdr[..] == Zeros();
      storage, workBuf, workSize := NoStorage, null, 0;
      initDone := false;
    }

    /** rtss_gpt_get_partition_info; the work buffer is large enough for what is looked at, as
        it is after every successful init. */
    method GetPartitionInfo(guid: Guid) returns (found: Place)
      requires Valid() && (initDone && EntryBytes(hdr[..]) <= workSize ==> PLACE_BYTES <= workBuf.Length)
      modifies workBuf
      ensures !initDone || EntryBytes(hdr[..]) > workSize ==> found == Nowhere
      ensures initDone && EntryBytes(hdr[..]) <= workSize ==>
        found == old(Scan(hdr[..], storage.read, guid, workBuf[..], 0))
    {
      hide Word, EntryPlace, GuidAt, LookupBase, EntryAddress;
      if !initDone {
        return Nowhere;
      }
      ghost var h := hdr[..];
      var base := LookupBase(hdr[..]);
      var size := EntryBytes(hdr[..]);
      if size > workSize {
        return Nowhere;
      }
      ghost var answer := Scan(h, storage.read, guid, workBuf[..], 0);
      var i := 0;
      while i < NumEntries(hdr[..])
        invariant hdr[..] == h && workBuf.Length >= workSize
        invariant answer == Scan(h, storage.read, guid, workBuf[..], i)
      {
        var n := ReadBlock(storage.read, workBuf, EntryAddress(hdr[..], base, i), size);
        if n != size {
          return Nowhere;
        }
        if GuidAt(workBuf[..]) == guid {
          return EntryPlace(workBuf[..]);
        }
        i := i + 1;
      }
      return Nowhere;
    }
  }

  /** In a ready session with entries of at least 48 bytes, a lookup answers from the array
      whose checksum the header carries. */
  lemma ReadySessionAnswers(s: Session, guid: Guid)
    requires s.Ready() && PLACE_BYTES <= EntryBytes(s.hdr[..])
    ensures EntryBytes(s.hdr[..]) <= s.workSize
    ensures var h, cb := s.hdr[..], s.storage.read;
      var a := EntryArray(h, cb, VerifyBase(h, LBA), NumEntries(h));
      && |a| == NumEntries(h) * EntryBytes(h) && GptCrc(a, 0) == EntriesCrc(h)
      && Scan(h, cb, guid, s.workBuf[..], 0) == Answer(h, a, guid, NumEntries(h))
  {
    hide Scan, Answer, EntryArray, VerifyBase, Word, GptCrc, HeaderVerified, ArrayCrc, AllRead;
    LookupReadsVerifiedEntries(s.hdr[..], s.storage.read, s.workSize, guid, s.workBuf[..]);
  }

  // ---- rtss_updater_modifygpt: the header of a new table ----

  /** The table file with the header at offset at: the device's alternate and last usable
      blocks are put in. */
  function Moved(b: seq<bv8>, at: nat, device: Header): (r: seq<bv8>)
    requires at + HEADER_SIZE <= |b|
    ensures |r| == |b|
    ensures forall i | 0 <= i < |b| && !(at + 32 <= i < at + 40) && !(at + 48 <= i < at + 56) :: r[i] == b[i]
    ensures r[at + 32..at + 40] == device[32..40] && r[at + 48..at + 56] == device[48..56]
  {
    var one := Words.Blit(b, at + 32, device[32..40]);
    Words.BlitElsewhere(one, at + 48, device[48..56], at + 32, at + 40);
    Words.Blit(one, at + 48, device[48..56])
  }

  function HeaderIn(b: seq<bv8>, at: nat): Header
    requires at + HEADER_SIZE <= |b|
  {
    b[at..at + HEADER_SIZE]
  }

  /** The file after the rewrite: moved fields, and the checksum of as many bytes as the
      header says it has, the checksum field counted as zero. */
  function Rewritten(b: seq<bv8>, at: nat, device: Header): (r: seq<bv8>)
    requires at + HEADER_SIZE <= |b| && at + HeaderSize(HeaderIn(b, at)) <= |b|
    ensures |r| == |b|
  {
    var moved := Moved(b, at, device);
    Stored(moved, at + 16, GptCrc(Window(Stored(moved, at + 16, 0), at, HeaderSize(HeaderIn(b, at))), 0))
  }

  method CopyField(buf: array<bv8>, at: nat, field: seq<bv8>)
    requires at + |field| <= buf.Length
    modifies buf
    ensures buf[..] == Words.Blit(old(buf[..]), at, field)
  {
    forall k | 0 <= k < |field| {
      buf[at + k] := field[k];
    }
  }

  method ModifyGpt(buf: array<bv8>, at: nat, device: Header)
    requires at + HEADER_SIZE <= buf.Length && at + HeaderSize(HeaderIn(buf[..], at)) <= buf.Length
    modifies buf
    ensures buf[..] == Rewritten(old(buf[..]), at, device)
  {
    hide Stored, GptCrc, Word, Words.Blit;
    ghost var b := buf[..];
    CopyField(buf, at + 32, device[32..40]);
    CopyField(buf, at + 48, device[48..56]);
    ghost var moved := buf[..];
    assert moved == Moved(b, at, device);
    StoreWord(buf, at + 16, 0);
    MovedSize(b, at, device, 0);
    assert buf[at..at + HEADER_SIZE] == buf[..][at..at + HEADER_SIZE];
    var crc := CalcCrc32(buf, at, Word(buf[at..at + HEADER_SIZE], 12), 0);
    StoreOver(moved, at + 16, crc);
    StoreWord(buf, at + 16, crc);
  }

  lemma StoreOver(b: seq<bv8>, at: nat, w: bv32)
    requires at + 4 <= |b|
    ensures Stored(Stored(b, at, 0), at, w) == Stored(b, at, w)
  {
    hide Byte0, Byte1, Byte2, Byte3;
  }

  lemma MovedSize(b: seq<bv8>, at: nat, device: Header, crc: bv32)
    requires at + HEADER_SIZE <= |b|
    ensures Word(Stored(Moved(b, at, device), at + 16, crc)[at..at + HEADER_SIZE], 12) == HeaderSize(HeaderIn(b, at))
  {
    hide Byte0, Byte1, Byte2, Byte3, Moved;
    var now := Stored(Moved(b, at, device), at + 16, crc);
    forall i | at + 12 <= i < at + 16
      ensures now[i] == b[i]
    {
    }
    SameWord(now[at..at + HEADER_SIZE], HeaderIn(b, at), 12);
  }

  lemma StoredWindow(b: seq<bv8>, at: nat, off: nat, w: bv32, n: nat)
    requires off + 4 <= HEADER_SIZE && at + HEADER_SIZE <= |b| && n <= HEADER_SIZE
    ensures Stored(b, at + off, w)[at..at + HEADER_SIZE] == Stored(b[at..at + HEADER_SIZE], off, w)
    ensures Window(Stored(b, at + off, w), at, n) == Stored(b[at..at + HEADER_SIZE], off, w)[..n]
  {
    hide Byte0, Byte1, Byte2, Byte3;
  }

  /** The rewritten header passes the library's check exactly when it claims no more bytes
      than the structure has; the two copied fields are the device's. */
  lemma RewrittenVerifies(b: seq<bv8>, at: nat, device: Header)
    requires at + HEADER_SIZE <= |b| && at + HeaderSize(HeaderIn(b, at)) <= |b|
    ensures HeaderVerified(HeaderIn(Rewritten(b, at, device), at), 0) <==> HeaderSize(HeaderIn(b, at)) <= HEADER_SIZE
  {
    hide GptCrc, Word, Joined, Stored, Moved;
    var size := HeaderSize(HeaderIn(b, at));
    var moved := Moved(b, at, device);
    var crc := GptCrc(Window(Stored(moved, at + 16, 0), at, size), 0);
    var h := HeaderIn(Rewritten(b, at, device), at);
    MovedSize(b, at, device, crc);
    if size <= HEADER_SIZE {
      var inner := moved[at..at + HEADER_SIZE];
      StoredWindow(moved, at, 16, crc, size);
      StoredWindow(moved, at, 16, 0, size);
      LoadStored(inner, 16, crc);
      assert h == Stored(inner, 16, crc);
    }
  }

  /** Everything else in the file stays. */
  lemma RewrittenElsewhere(b: seq<bv8>, at: nat, device: Header)
    requires at + HEADER_SIZE <= |b| && at + HeaderSize(HeaderIn(b, at)) <= |b|
    ensures var r := Rewritten(b, at, device);
      && r[at + 32..at + 40] == device[32..40] && r[at + 48..at + 56] == device[48..56]
      && forall i | 0 <= i < |b| ::
           at + 16 <= i < at + 20 || at + 32 <= i < at + 40 || at + 48 <= i < at + 56 || r[i] == b[i]
  {
    hide GptCrc, Word, Byte0, Byte1, Byte2, Byte3, Moved;
    var r, moved := Rewritten(b, at, device), Moved(b, at, device);
    assert r[at + 32..at + 40] == moved[at + 32..at + 40] && r[at + 48..at + 56] == moved[at + 48..at + 56];
  }
}
