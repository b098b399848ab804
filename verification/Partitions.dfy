/** What the bytes of a table mean: its fields, the entries on a disk, the range of an entry,
    and what its own checksum notices. */
module Partitions {
  import opened CrcWords
  import opened Crc
  import opened CrcCode
  import opened Guids
  import opened Gpt
  import opened Arithmetic

  // ---- little-endian fields ----

  /** The number that bytes spell, least significant byte first. */
  function Value(s: seq<bv8>): nat {
    if s == [] then 0 else s[0] as int + 0x100 * Value(s[1..])
  }

  lemma WordIsValue(b: seq<bv8>, at: nat)
    requires at + 4 <= |b|
    ensures Word(b, at) == Value(b[at..at + 4])
  {
    var s := b[at..at + 4];
    ValueOfFour(s);
    assert s[0] == b[at] && s[1] == b[at + 1] && s[2] == b[at + 2] && s[3] == b[at + 3];
  }

  lemma ValueOfTwo(s: seq<bv8>)
    requires |s| == 2
    ensures Value(s) == s[0] as int + 0x100 * s[1] as int
  {
    assert s[1..][1..] == [];
    assert Value(s[1..]) == s[1] as int;
  }

  lemma ValueOfFour(s: seq<bv8>)
    requires |s| == 4
    ensures Value(s) == s[0] as int + 0x100 * s[1] as int + 0x1_0000 * s[2] as int + 0x100_0000 * s[3] as int
  {
    ValueOfTwo(s[2..]);
    assert s[1..][1..] == s[2..];
  }

  lemma ValueOfBoth(s: seq<bv8>, t: seq<bv8>)
    requires |s| == 4
    ensures Value(s + t) == Value(s) + 0x1_0000_0000 * Value(t)
  {
    hide Value;
    var s1 := s[1..];
    var s2 := s1[1..];
    var s3 := s2[1..];
    ValueFront(s, t);
    ValueFront(s1, t);
    ValueFront(s2, t);
    ValueFront(s3, t);
    ValueOfNone();
    assert s3[1..] == [] && [] + t == t;
  }

  lemma ValueFront(s: seq<bv8>, t: seq<bv8>)
    requires s != []
    ensures Value(s) == s[0] as int + 0x100 * Value(s[1..])
    ensures Value(s + t) == s[0] as int + 0x100 * Value(s[1..] + t)
  {
    assert (s + t)[1..] == s[1..] + t;
  }

  lemma ValueOfNone()
    ensures Value([]) == 0
  {
  }

  lemma LongIsValue(b: seq<bv8>, at: nat)
    requires at + 8 <= |b|
    ensures Long(b, at) == Value(b[at..at + 8])
  {
    hide Word, Value;
    WordIsValue(b, at);
    WordIsValue(b, at + 4);
    ValueOfBoth(b[at..at + 4], b[at + 4..at + 8]);
    assert b[at..at + 8] == b[at..at + 4] + b[at + 4..at + 8];
  }

  /** The header's fields, where sections 5.3.1 and 5.3.2 of the UEFI specification put them. */
  lemma HeaderFields(h: Header)
    ensures HeaderSize(h) == Value(h[12..16]) && AlternateLba(h) == Value(h[32..40])
    ensures EntryLba(h) == Value(h[72..80])
    ensures NumEntries(h) == Value(h[80..84]) && EntryBytes(h) == Value(h[84..88])
  {
    hide Word, Long, Value;
    WordIsValue(h, 12);
    LongIsValue(h, 32);
    LongIsValue(h, 72);
    WordIsValue(h, 80);
    WordIsValue(h, 84);
  }

  /** The type GUID at the front of an entry: three little-endian numbers and eight bytes. */
  lemma TypeField(e: seq<bv8>)
    requires 16 <= |e|
    ensures var g := GuidAt(e);
      && g.data1 == Value(e[0..4]) && g.data2 == Value(e[4..6]) && g.data3 == Value(e[6..8])
      && |g.data4| == 8 && forall i | 0 <= i < 8 :: g.data4[i] == e[8 + i] as int
  {
    hide Word, Value;
    WordIsValue(e, 0);
    ValueOfTwo(e[4..6]);
    ValueOfTwo(e[6..8]);
  }

  // ---- the range of an entry ----

  /** The answer for an entry of blocks first to last, in 32 bits: nothing exactly for a range
      that ends before it starts or whose bytes are a multiple of 2^32. */
  lemma EntryRange(e: seq<bv8>)
    requires PLACE_BYTES <= |e|
    ensures var first, last, p := Value(e[32..40]), Value(e[40..48]), EntryPlace(e);
      && (p == Nowhere <==> last < first || (last - first + 1) % 0x10_0000 == 0)
      && (p.Place? ==> p.start == first % 0x10_0000 * 4096 && p.size == (last - first + 1) % 0x10_0000 * 4096)
  {
    hide Long, Value;
    LongIsValue(e, 32);
    LongIsValue(e, 40);
    var first, last := Long(e, 32), Long(e, 40);
    CutBytes(first);
    if first <= last {
      CutBytes(last - first + 1);
    }
  }

  lemma CutBytes(n: nat)
    ensures Words.W32(n * LBA % 0x1_0000_0000_0000_0000) == n % 0x10_0000 * 4096
  {
    CutProduct(n);
    CutLow(n % 0x1_0000_0000);
    CutTwice(n);
  }

  lemma CutLow(x: nat)
    ensures Words.W32(x * LBA) == x % 0x10_0000 * 4096
  {
    var q, r := x / 0x10_0000, x % 0x10_0000;
    assert x * LBA == r * 4096 + 0x1_0000_0000 * q;
    CutMultiple(r * 4096, q);
  }

  lemma CutTwice(n: nat)
    ensures n % 0x1_0000_0000 % 0x10_0000 == n % 0x10_0000
  {
    var q, r := n / 0x1_0000_0000, n % 0x1_0000_0000;
    ModUnique(n, 0x10_0000, 0x1000 * q + r / 0x10_0000, r % 0x10_0000);
  }

  /** For a range below 4 GiB: found if and only if it is no empty range, and then each block
      belongs to the entry exactly when its first byte lies in the place reported. */
  lemma EntryCovers(e: seq<bv8>, b: nat)
    requires PLACE_BYTES <= |e|
    ensures var first, last, p := Value(e[32..40]), Value(e[40..48]), EntryPlace(e);
      (last + 1) * 4096 < 0x1_0000_0000 ==>
        && (p.Place? <==> first <= last)
        && (p.Place? ==> (first <= b <= last <==> p.start <= b * 4096 < p.start + p.size))
  {
    hide EntryPlace, Value;
    EntryRange(e);
  }

  /** In general the place reported covers the blocks of the entry, and them alone, if and only
      if the first block and the number of blocks are below 2^20. */
  lemma CoversExactly(e: seq<bv8>)
    requires PLACE_BYTES <= |e| && EntryPlace(e).Place?
    ensures var first, last, p := Value(e[32..40]), Value(e[40..48]), EntryPlace(e);
      (forall b: nat {:trigger Covered(p, b)} :: first <= b <= last <==> Covered(p, b)) <==>
        first < 0x10_0000 && last - first + 1 < 0x10_0000
  {
    hide EntryPlace, Value;
    var first, last, p := Value(e[32..40]), Value(e[40..48]), EntryPlace(e);
    EntryRange(e);
    var d := last - first + 1;
    if forall b: nat :: first <= b <= last <==> Covered(p, b) {
      assert Covered(p, first % 0x10_0000);
      assert Covered(p, last);
    }
  }

  /** An entry of blocks 0 to 2^20 - 1. */
  function LargeEntry(): (e: seq<bv8>)
    ensures |e| == PLACE_BYTES
  {
    seq(40, _ => 0) + ([0xFF, 0xFF, 0x0F, 0] + [0, 0, 0, 0])
  }

  /** A partition of exactly 4 GiB is reported as not found. */
  lemma LargeEntryHidden()
    ensures var e := LargeEntry();
      Value(e[32..40]) == 0 && Value(e[40..48]) == 0xF_FFFF && EntryPlace(e) == Nowhere
  {
    hide Value, EntryPlace;
    var e := LargeEntry();
    assert e[32..40] == [0, 0, 0, 0] + [0, 0, 0, 0] && e[40..48] == [0xFF, 0xFF, 0x0F, 0] + [0, 0, 0, 0];
    ValueOfFour([0, 0, 0, 0]);
    ValueOfFour([0xFF, 0xFF, 0x0F, 0]);
    ValueOfBoth([0, 0, 0, 0], [0, 0, 0, 0]);
    ValueOfBoth([0xFF, 0xFF, 0x0F, 0], [0, 0, 0, 0]);
    EntryRange(e);
  }

  /** The first byte of block b lies in the place. */
  predicate Covered(p: Place, b: nat) {
    p.Place? && p.start <= b * 4096 < p.start + p.size
  }

  /** The answer over an array is that of its first entry of the type, if it has one. */
  lemma AnswerOfFirst(h: Header, a: seq<bv8>, guid: Guid, n: nat, k: nat)
    requires PLACE_BYTES <= EntryBytes(h) && |a| == n * EntryBytes(h) && k <= n
    requires forall j | 0 <= j < k :: GuidAt(Slice(a, j, EntryBytes(h), n)) != guid
    requires k < n ==> GuidAt(Slice(a, k, EntryBytes(h), n)) == guid
    ensures Answer(h, a, guid, n) == if k == n then Nowhere else EntryPlace(Slice(a, k, EntryBytes(h), n))
  {
    hide Word, GuidAt, Slice, EntryPlace, FirstMatch;
    FirstMatchIsFirst(h, a, guid, 0, n, k);
  }

  /** A lookup in a ready session finds the first entry of the type with its whole range, and
      nothing when there is none: found is what GetPartitionInfo returns. */
  lemma LookupFindsRange(s: Session, guid: Guid, k: nat, b: nat)
    requires s.Ready() && PLACE_BYTES <= EntryBytes(s.hdr[..]) && k <= NumEntries(s.hdr[..])
    requires FirstOfType(s, guid, k)
    ensures EntryBytes(s.hdr[..]) <= s.workSize
    ensures var found := Scan(s.hdr[..], s.storage.read, guid, s.workBuf[..], 0);
      if k == NumEntries(s.hdr[..]) then found == Nowhere else
      var e := VerifiedEntry(s, k);
      var first, last := Value(e[32..40]), Value(e[40..48]);
      && found == EntryPlace(e)
      && ((last + 1) * 4096 < 0x1_0000_0000 ==>
           (found.Place? <==> first <= last) && (found.Place? ==> (first <= b <= last <==> Covered(found, b))))
  {
    hide Scan, Answer, EntryArray, VerifyBase, Word, GptCrc, HeaderVerified, ArrayCrc, AllRead, GuidAt, EntryPlace;
    hide Value, Slice;
    ReadySessionAnswers(s, guid);
    var h := s.hdr[..];
    forall j | 0 <= j < k
      ensures GuidAt(Slice(VerifiedArray(s), j, EntryBytes(h), NumEntries(h))) != guid
    {
      assert GuidAt(VerifiedEntry(s, j)) != guid;
    }
    AnswerOfFirst(h, VerifiedArray(s), guid, NumEntries(h), k);
    if k < NumEntries(h) {
      EntryCovers(VerifiedEntry(s, k), b);
    }
  }

  /** The entries whose checksum a ready session's header carries. */
  ghost function VerifiedArray(s: Session): seq<bv8>
    requires s.Ready()
    reads s, s.hdr
  {
    EntryArray(s.hdr[..], s.storage.read, VerifyBase(s.hdr[..], LBA), NumEntries(s.hdr[..]))
  }

  ghost function VerifiedEntry(s: Session, k: nat): (e: seq<bv8>)
    requires s.Ready() && k < NumEntries(s.hdr[..])
    reads s, s.hdr
    ensures |e| == EntryBytes(s.hdr[..])
  {
    Whole(s);
    Slice(VerifiedArray(s), k, EntryBytes(s.hdr[..]), NumEntries(s.hdr[..]))
  }

  lemma Whole(s: Session)
    requires s.Ready()
    ensures |VerifiedArray(s)| == NumEntries(s.hdr[..]) * EntryBytes(s.hdr[..])
  {
    hide EntryArray, VerifyBase, Word, HeaderVerified, ArrayCrc, AllRead;
    ArrayLength(s.hdr[..], s.storage.read, VerifyBase(s.hdr[..], LBA), NumEntries(s.hdr[..]));
  }

  /** Entry k is the first of a type; there is none when k is their number. */
  ghost predicate FirstOfType(s: Session, guid: Guid, k: nat)
    requires s.Ready() && PLACE_BYTES <= EntryBytes(s.hdr[..]) && k <= NumEntries(s.hdr[..])
    reads s, s.hdr
  {
    && (forall j: nat | j < k :: GuidAt(VerifiedEntry(s, j)) != guid)
    && (k < NumEntries(s.hdr[..]) ==> GuidAt(VerifiedEntry(s, k)) == guid)
  }

  // ---- the entries on a disk ----

  /** Reads of a disk: whole within it. */
  ghost predicate ReadsDisk(cb: Callback, disk: seq<bv8>) {
    forall a: nat, s: nat | a + s <= |disk| :: cb(a, s) == disk[a..a + s]
  }

  /** The first n entries end within the disk and below 4 GiB. */
  ghost predicate EntriesFit(h: Header, disk: seq<bv8>) {
    && EntryLba(h) * 4096 + Extent(h, NumEntries(h)) <= |disk|
    && EntryLba(h) * 4096 + Extent(h, NumEntries(h)) < 0x1_0000_0000
  }

  /** The bytes of n entries. */
  function Extent(h: Header, n: nat): (z: nat)
    ensures z == n * EntryBytes(h)
  {
    ExtentIsNat(n, EntryBytes(h));
    n * EntryBytes(h)
  }

  lemma ExtentIsNat(n: nat, z: nat)
    ensures 0 <= n * z
  {
  }

  /** Below 4 GiB the array that is verified is the NumEntries * EntryBytes bytes from block
      EntryLba on. */
  lemma ArrayOnDisk(h: Header, cb: Callback, disk: seq<bv8>)
    requires ReadsDisk(cb, disk) && EntriesFit(h, disk)
    ensures AllRead(h, cb, VerifyBase(h, LBA), NumEntries(h))
    ensures EntryArray(h, cb, VerifyBase(h, LBA), NumEntries(h)) ==
            disk[EntryLba(h) * 4096..EntryLba(h) * 4096 + Extent(h, NumEntries(h))]
  {
    hide Word, Long, EntryArray, AllRead, ReadsDisk, Extent;
    BaseOnDisk(h, disk);
    PrefixOnDisk(h, cb, disk, NumEntries(h));
  }

  lemma BaseOnDisk(h: Header, disk: seq<bv8>)
    requires EntriesFit(h, disk)
    ensures VerifyBase(h, LBA) == EntryLba(h) * 4096
  {
    hide Word, Long, Extent;
  }

  lemma EntryOnDisk(h: Header, cb: Callback, disk: seq<bv8>, i: nat)
    requires ReadsDisk(cb, disk) && EntriesFit(h, disk) && i < NumEntries(h)
    requires VerifyBase(h, LBA) == EntryLba(h) * 4096
    ensures Extent(h, i) + EntryBytes(h) <= Extent(h, NumEntries(h))
    ensures var at := EntryLba(h) * 4096 + Extent(h, i);
      Entry(h, cb, VerifyBase(h, LBA), i) == disk[at..at + EntryBytes(h)]
  {
    hide Word, Long, VerifyBase;
    SliceFits(i, EntryBytes(h), NumEntries(h));
  }

  lemma {:induction false} PrefixOnDisk(h: Header, cb: Callback, disk: seq<bv8>, n: nat)
    requires ReadsDisk(cb, disk) && EntriesFit(h, disk) && n <= NumEntries(h)
    requires VerifyBase(h, LBA) == EntryLba(h) * 4096
    ensures Extent(h, n) <= Extent(h, NumEntries(h))
    ensures AllRead(h, cb, VerifyBase(h, LBA), n)
    ensures EntryArray(h, cb, VerifyBase(h, LBA), n) == disk[EntryLba(h) * 4096..EntryLba(h) * 4096 + Extent(h, n)]
  {
    hide Word, Long, VerifyBase, Entry, ReadsDisk;
    if n > 0 {
      PrefixOnDisk(h, cb, disk, n - 1);
      EntryOnDisk(h, cb, disk, n - 1);
      OneMoreEntry(n, EntryBytes(h));
    } else {
      NoEntries(EntryBytes(h));
      ExtentIsNat(NumEntries(h), EntryBytes(h));
    }
  }

  // ---- what a header's checksum notices ----

  /** The bytes a header of a size answers for: the checksum's own four count as zero. */
  function Checked(h: Header, size: nat): (s: seq<bv8>)
    requires size <= 92
    ensures |s| == size
  {
    seq(size, i requires 0 <= i < size => if 16 <= i < 20 then 0 else h[i])
  }

  lemma HeaderBytesChecked(h: Header)
    ensures HeaderVerified(h, 0) <==>
      HeaderSize(h) <= 92 && GptCrc(Checked(h, HeaderSize(h)), 0) == Joined(h[16], h[17], h[18], h[19])
  {
    hide Joined, GptCrc, Word;
    ZeroBytes();
    if HeaderSize(h) <= 92 {
      assert Stored(h, 16, 0)[..HeaderSize(h)] == Checked(h, HeaderSize(h));
    }
  }

  lemma ZeroBytes()
    ensures Byte0(0) == 0 && Byte1(0) == 0 && Byte2(0) == 0 && Byte3(0) == 0
    ensures Joined(0x78, 0x56, 0x34, 0x12) == 0x1234_5678
  {
  }

  /** A change of at most four consecutive bytes within the size, off the checksum, that
      leaves the size itself: the header is refused. */
  lemma DamagedHeaderRejected(h: Header, g: Header, at: nat, n: nat)
    requires HeaderVerified(h, 0) && HeaderSize(g) == HeaderSize(h)
    requires n <= 4 && at + n <= HeaderSize(h) && (at + n <= 16 || 20 <= at)
    requires h != g && forall i | 0 <= i < 92 && !(at <= i < at + n) :: h[i] == g[i]
    ensures !HeaderVerified(g, 0)
  {
    hide Joined, GptCrc, Word, Stored;
    HeaderBytesChecked(h);
    HeaderBytesChecked(g);
    var k :| 0 <= k < 92 && h[k] != g[k];
    WindowChangesCrc(Checked(h, HeaderSize(h)), Checked(g, HeaderSize(g)), at, n, k);
  }

  /** A wrong checksum over the right bytes: refused. */
  lemma WrongChecksumRejected(h: Header, g: Header)
    requires HeaderVerified(h, 0)
    requires h[16..20] != g[16..20] && h[..16] == g[..16] && h[20..] == g[20..]
    ensures !HeaderVerified(g, 0)
  {
    hide Joined, GptCrc, Word, Stored;
    forall i | 0 <= i < 92 && !(16 <= i < 20)
      ensures h[i] == g[i]
    {
      assert if i < 16 then h[i] == h[..16][i] && g[i] == g[..16][i]
             else h[i] == h[20..][i - 20] && g[i] == g[20..][i - 20];
    }
    SameWord(h, g, 12);
    if HeaderSize(g) <= 92 {
      HeaderBytesChecked(h);
      HeaderBytesChecked(g);
      assert Checked(h, HeaderSize(h)) == Checked(g, HeaderSize(h));
      BytesOfJoined(h[16], h[17], h[18], h[19]);
      BytesOfJoined(g[16], g[17], g[18], g[19]);
      assert h[16..20] == [h[16], h[17], h[18], h[19]] && g[16..20] == [g[16], g[17], g[18], g[19]];
    }
  }

  lemma WindowChangesCrc(a: seq<bv8>, b: seq<bv8>, at: nat, n: nat, k: nat)
    requires |a| == |b| && at + n <= |a| && n <= 4 && at <= k < at + n && a[k] != b[k]
    requires forall i | 0 <= i < |a| && !(at <= i < at + n) :: a[i] == b[i]
    ensures GptCrc(a, 0) != GptCrc(b, 0)
  {
    hide GptCrc, EthernetCrc;
    var u, v := a[at..at + n], b[at..at + n];
    assert u[k - at] != v[k - at];
    assert a[..at] == b[..at] && a[at + n..] == b[at + n..];
    assert a == a[..at] + u + a[at + n..] && b == a[..at] + v + a[at + n..];
    WindowErrorDetected(a[..at], u, v, a[at + n..]);
    GeneratorsAgree(a);
    GeneratorsAgree(b);
  }

  /** The signature is the text EFI PART. */
  lemma SignatureText()
    ensures |Signature()| == |"EFI PART"| && forall i | 0 <= i < 8 :: Signature()[i] as int == "EFI PART"[i] as int
  {
  }
}
