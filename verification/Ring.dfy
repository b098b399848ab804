/** One channel's ring of items inside the mailbox bytes, as functions of those bytes.

    r is the offset of the channel's 56-byte header; its items follow. */
module Ring {
  import opened Words
  import opened Arithmetic
  import Layout

  const HEADER: nat := 56
  const MAX_SIZE: nat := 0x80_0000

  ghost predicate HasHeader(m: seq<byte>, r: nat) {
    r + HEADER <= |m|
  }

  function MaxNum(m: seq<byte>, r: nat): u32
    requires HasHeader(m, r)
  {
    GetU32(m, r + 40)
  }

  function ItemSize(m: seq<byte>, r: nat): u32
    requires HasHeader(m, r)
  {
    GetU32(m, r + 44)
  }

  function In(m: seq<byte>, r: nat): u32
    requires HasHeader(m, r)
  {
    GetU32(m, r + 48)
  }

  function Out(m: seq<byte>, r: nat): u32
    requires HasHeader(m, r)
  {
    GetU32(m, r + 52)
  }

  /** LibMB_Mailbox_sanity_check. */
  predicate Sane(m: seq<byte>, r: nat)
    requires HasHeader(m, r)
  {
    && MaxNum(m, r) <= Layout.MAX_ITEMS && ItemSize(m, r) <= MAX_SIZE
    && In(m, r) < MaxNum(m, r) && Out(m, r) < MaxNum(m, r)
  }

  /** The bytes of k items of z bytes each; kept as a function so that proofs use only the
      laws below, never the multiplication. */
  function Size(k: nat, z: nat): (b: nat) {
    k * z
  }

  lemma SizeMono(a: nat, b: nat, z: nat)
    requires a <= b
    ensures Size(a, z) <= Size(b, z)
  {
  }

  lemma SizeSum(a: nat, b: nat, z: nat)
    ensures Size(a + b, z) == Size(a, z) + Size(b, z)
  {
  }

  lemma SizeDiff(a: nat, b: nat, z: nat)
    requires b <= a
    ensures Size(a - b, z) == Size(a, z) - Size(b, z)
  {
  }

  lemma SizeNone(z: nat)
    ensures Size(0, z) == 0
  {
  }

  lemma SizeOne(z: nat)
    ensures Size(1, z) == z
  {
  }

  lemma SizeOfQuotient(sz: nat, z: nat)
    requires z > 0
    ensures Size(sz / z, z) <= sz < Size(sz / z, z) + z
  {
    assert sz == z * (sz / z) + sz % z;
    Commute(sz / z, z);
  }

  lemma Commute(k: nat, z: nat)
    ensures Size(k, z) == z * k
  {
  }

  function Capacity(m: seq<byte>, r: nat): (c: nat)
    requires HasHeader(m, r)
  {
    Size(MaxNum(m, r), ItemSize(m, r))
  }

  /** A sane ring whose items lie inside the mailbox bytes. */
  ghost predicate Fits(m: seq<byte>, r: nat) {
    HasHeader(m, r) && Sane(m, r) && r + HEADER + Capacity(m, r) <= |m|
  }

  // ---- item counts ----

  function ValidItems(n: nat, inIdx: nat, outIdx: nat): (v: nat)
    requires inIdx < n && outIdx < n
    ensures v <= n - 1
  {
    if inIdx >= outIdx then inIdx - outIdx else n - outIdx + inIdx
  }

  function Valid(m: seq<byte>, r: nat): (v: nat)
    requires HasHeader(m, r) && Sane(m, r)
    ensures v < MaxNum(m, r)
  {
    ValidItems(MaxNum(m, r), In(m, r), Out(m, r))
  }

  /** LibMB_Free_Item on two indices: one slot is always kept free, so that equal indices
      mean an empty ring. Whatever waits leaves room for the rest. */
  function FreeItems(n: nat, inIdx: nat, outIdx: nat): (f: nat)
    requires inIdx < n && outIdx < n
    ensures ValidItems(n, inIdx, outIdx) + f == n - 1
  {
    (if inIdx >= outIdx then n - inIdx + outIdx else outIdx - inIdx) - 1
  }

  function Free(m: seq<byte>, r: nat): (f: nat)
    requires HasHeader(m, r) && Sane(m, r)
    ensures f + Valid(m, r) == MaxNum(m, r) - 1
  {
    FreeItems(MaxNum(m, r), In(m, r), Out(m, r))
  }

  // ---- the bytes of the ring as a queue ----

  /** The queued bytes of a ring buffer s of n slots of z bytes, oldest first. */
  function Queued(s: seq<byte>, n: nat, z: nat, inIdx: nat, outIdx: nat): seq<byte>
    requires |s| == Size(n, z) && inIdx < n && outIdx < n
  {
    SizeMono(inIdx, n, z);
    SizeMono(outIdx, n, z);
    if inIdx >= outIdx then
      SizeMono(outIdx, inIdx, z);
      s[Size(outIdx, z)..Size(inIdx, z)]
    else
      s[Size(outIdx, z)..] + s[..Size(inIdx, z)]
  }

  lemma QueuedLength(s: seq<byte>, n: nat, z: nat, inIdx: nat, outIdx: nat)
    requires |s| == Size(n, z) && inIdx < n && outIdx < n
    ensures |Queued(s, n, z, inIdx, outIdx)| == Size(ValidItems(n, inIdx, outIdx), z)
  {
    hide Size;
    SizeMono(inIdx, n, z);
    SizeMono(outIdx, n, z);
    if inIdx >= outIdx {
      SizeMono(outIdx, inIdx, z);
      SizeDiff(inIdx, outIdx, z);
    } else {
      SizeDiff(n, outIdx, z);
      SizeSum(n - outIdx, inIdx, z);
    }
  }

  /** The ring buffer after k items have been copied in at slot inIdx, in two pieces when
      they run past the last slot. */
  function Inserted(s: seq<byte>, n: nat, z: nat, inIdx: nat, data: seq<byte>, k: nat): (t: seq<byte>)
    requires |s| == Size(n, z) && inIdx < n && k < n && |data| == Size(k, z)
    ensures |t| == |s|
  {
    SizeSum(inIdx, k, z);
    SizeDiff(n, inIdx, z);
    SizeMono(inIdx, n, z);
    if inIdx + k > n then
      SizeMono(n - inIdx, k, z);
      SizeMono(inIdx + k - n, n, z);
      SizeDiff(inIdx + k, n, z);
      var first := Size(n - inIdx, z);
      Blit(Blit(s, Size(inIdx, z), data[..first]), 0, data[first..])
    else
      SizeMono(inIdx + k, n, z);
      Blit(s, Size(inIdx, z), data)
  }

  /** The k oldest items, read in two pieces when they run past the last slot. */
  function Extracted(s: seq<byte>, n: nat, z: nat, outIdx: nat, k: nat): (d: seq<byte>)
    requires |s| == Size(n, z) && outIdx < n && k < n
    ensures |d| == Size(k, z)
  {
    SizeSum(outIdx, k, z);
    SizeMono(outIdx, n, z);
    SizeDiff(n, outIdx, z);
    if outIdx + k > n then
      SizeMono(outIdx + k - n, n, z);
      SizeDiff(outIdx + k, n, z);
      s[Size(outIdx, z)..] + s[..Size(outIdx + k - n, z)]
    else
      SizeMono(outIdx + k, n, z);
      s[Size(outIdx, z)..Size(outIdx + k, z)]
  }

  function Advance(idx: nat, k: nat, n: nat): (r: nat)
    requires idx < n && k < n
    ensures r < n
  {
    if idx + k >= n then idx + k - n else idx + k
  }

  /** The indices advance modulo the number of slots. */
  lemma AdvanceIsModulo(idx: nat, k: nat, n: nat)
    requires idx < n && k < n
    ensures Advance(idx, k, n) == (idx + k) % n
  {
    if idx + k >= n {
      ModUnique(idx + k, n, 1, idx + k - n);
    } else {
      ModUnique(idx + k, n, 0, idx + k);
    }
  }

  // The four ways an insertion can lie, in byte offsets.

  lemma InsertAhead(s: seq<byte>, bi: nat, bo: nat, data: seq<byte>)
    requires bo <= bi && bi + |data| <= |s|
    ensures Blit(s, bi, data)[bo..bi + |data|] == s[bo..bi] + data
  {
    var t := Blit(s, bi, data);
    assert t[bo..bi + |data|] == t[bo..bi] + t[bi..bi + |data|];
    BlitElsewhere(s, bi, data, bo, bi);
  }

  lemma InsertToEnd(s: seq<byte>, bi: nat, bo: nat, data: seq<byte>)
    requires bo <= bi && bi + |data| == |s|
    ensures Blit(s, bi, data)[bo..] + Blit(s, bi, data)[..0] == s[bo..bi] + data
  {
    InsertAhead(s, bi, bo, data);
  }

  lemma InsertBehind(s: seq<byte>, bi: nat, bo: nat, data: seq<byte>)
    requires bi + |data| <= bo <= |s|
    ensures Blit(s, bi, data)[bo..] + Blit(s, bi, data)[..bi + |data|] == s[bo..] + s[..bi] + data
  {
    var t := Blit(s, bi, data);
    assert t[..bi + |data|] == t[..bi] + t[bi..bi + |data|];
    BlitElsewhere(s, bi, data, bo, |s|);
    BlitElsewhere(s, bi, data, 0, bi);
  }

  lemma InsertAround(s: seq<byte>, bi: nat, bo: nat, head: seq<byte>, tail: seq<byte>)
    requires bo <= bi && bi + |head| == |s| && |tail| <= bo
    ensures var t := Blit(Blit(s, bi, head), 0, tail);
            t[bo..] + t[..|tail|] == s[bo..bi] + (head + tail)
  {
    hide Blit;
    var u := Blit(s, bi, head);
    var t := Blit(u, 0, tail);
    InsertAhead(s, bi, bo, head);
    BlitElsewhere(u, 0, tail, bo, |s|);
    assert t[bo..] == s[bo..bi] + head by {
      assert t[bo..] == t[bo..|s|] && u[bo..bi + |head|] == u[bo..|s|];
    }
    assert t[..|tail|] == t[0..0 + |tail|];
  }

  /** Insertion appends to the queue. */
  lemma InsertAppends(s: seq<byte>, n: nat, z: nat, inIdx: nat, outIdx: nat, data: seq<byte>, k: nat)
    requires |s| == Size(n, z) && inIdx < n && outIdx < n && |data| == Size(k, z)
    requires k <= n - 1 - ValidItems(n, inIdx, outIdx)
    ensures Queued(Inserted(s, n, z, inIdx, data, k), n, z, Advance(inIdx, k, n), outIdx)
         == Queued(s, n, z, inIdx, outIdx) + data
    ensures ValidItems(n, Advance(inIdx, k, n), outIdx) == ValidItems(n, inIdx, outIdx) + k
  {
    hide Size, Blit;
    SizeNone(z);
    SizeSum(inIdx, k, z);
    SizeDiff(n, inIdx, z);
    SizeMono(inIdx, n, z);
    SizeMono(outIdx, n, z);
    if inIdx + k > n {
      SizeMono(n - inIdx, k, z);
      SizeMono(inIdx + k - n, outIdx, z);
      SizeDiff(inIdx + k, n, z);
      SizeMono(outIdx, inIdx, z);
      InsertAround(s, Size(inIdx, z), Size(outIdx, z), data[..Size(n - inIdx, z)], data[Size(n - inIdx, z)..]);
      assert data[..Size(n - inIdx, z)] + data[Size(n - inIdx, z)..] == data;
    } else if inIdx + k == n {
      SizeMono(outIdx, inIdx, z);
      InsertToEnd(s, Size(inIdx, z), Size(outIdx, z), data);
    } else if inIdx >= outIdx {
      SizeMono(outIdx, inIdx, z);
      SizeMono(inIdx + k, n, z);
      InsertAhead(s, Size(inIdx, z), Size(outIdx, z), data);
    } else {
      SizeMono(inIdx + k, outIdx, z);
      InsertBehind(s, Size(inIdx, z), Size(outIdx, z), data);
    }
  }

  lemma SplitAhead(s: seq<byte>, bo: nat, mid: nat, bi: nat)
    requires bo <= mid <= bi <= |s|
    ensures s[bo..mid] + s[mid..bi] == s[bo..bi]
  {
  }

  lemma SplitBehind(s: seq<byte>, bo: nat, mid: nat, bi: nat)
    requires bo <= mid <= |s| && bi <= |s|
    ensures s[bo..mid] + (s[mid..] + s[..bi]) == s[bo..] + s[..bi]
  {
  }

  lemma SplitAround(s: seq<byte>, bo: nat, mid: nat, bi: nat)
    requires bo <= |s| && mid <= bi <= |s|
    ensures s[bo..] + s[..mid] + s[mid..bi] == s[bo..] + s[..bi]
  {
  }

  /** Extraction takes the front of the queue and leaves the rest. */
  lemma ExtractTakes(s: seq<byte>, n: nat, z: nat, inIdx: nat, outIdx: nat, k: nat)
    requires |s| == Size(n, z) && inIdx < n && outIdx < n
    requires k <= ValidItems(n, inIdx, outIdx)
    ensures Extracted(s, n, z, outIdx, k) + Queued(s, n, z, inIdx, Advance(outIdx, k, n))
         == Queued(s, n, z, inIdx, outIdx)
    ensures ValidItems(n, inIdx, Advance(outIdx, k, n)) == ValidItems(n, inIdx, outIdx) - k
  {
    hide Size;
    SizeNone(z);
    SizeSum(outIdx, k, z);
    SizeMono(inIdx, n, z);
    SizeMono(outIdx, n, z);
    if outIdx + k > n {
      SizeMono(outIdx + k - n, inIdx, z);
      SplitAround(s, Size(outIdx, z), Size(outIdx + k - n, z), Size(inIdx, z));
    } else if outIdx + k == n {
      assert s[Size(outIdx, z)..Size(n, z)] == s[Size(outIdx, z)..];
      assert s[0..Size(inIdx, z)] == s[..Size(inIdx, z)];
    } else {
      SizeMono(outIdx + k, n, z);
      SizeMono(outIdx, outIdx + k, z);
      if inIdx >= outIdx {
        SizeMono(outIdx + k, inIdx, z);
        SplitAhead(s, Size(outIdx, z), Size(outIdx + k, z), Size(inIdx, z));
      } else {
        SplitBehind(s, Size(outIdx, z), Size(outIdx + k, z), Size(inIdx, z));
      }
    }
  }

  // ---- the same on the mailbox bytes ----

  function Slots(m: seq<byte>, r: nat): (s: seq<byte>)
    requires Fits(m, r)
    ensures |s| == Capacity(m, r)
  {
    m[r + HEADER..r + HEADER + Capacity(m, r)]
  }

  /** The bytes waiting to be read, oldest first. */
  function Queue(m: seq<byte>, r: nat): seq<byte>
    requires Fits(m, r)
  {
    Queued(Slots(m, r), MaxNum(m, r), ItemSize(m, r), In(m, r), Out(m, r))
  }

  lemma QueueLength(m: seq<byte>, r: nat)
    requires Fits(m, r)
    ensures |Queue(m, r)| == Size(Valid(m, r), ItemSize(m, r))
  {
    hide Size, GetU32;
    QueuedLength(Slots(m, r), MaxNum(m, r), ItemSize(m, r), In(m, r), Out(m, r));
  }

  /** The mailbox after k accepted items. A zero item size makes LibMB_Write_Item return
      before it copies or publishes anything. */
  function Pushed(m: seq<byte>, r: nat, data: seq<byte>, k: nat): (t: seq<byte>)
    requires Fits(m, r) && k <= Free(m, r) && |data| == Size(k, ItemSize(m, r))
    ensures |t| == |m|
  {
    if ItemSize(m, r) == 0 then m
    else
      var n := MaxNum(m, r);
      var slots := Inserted(Slots(m, r), n, ItemSize(m, r), In(m, r), data, k);
      PutU32(Blit(m, r + HEADER, slots), r + 48, Advance(In(m, r), k, n))
  }

  function Taken(m: seq<byte>, r: nat, k: nat): (d: seq<byte>)
    requires Fits(m, r) && k <= Valid(m, r)
    ensures |d| == Size(k, ItemSize(m, r))
  {
    Extracted(Slots(m, r), MaxNum(m, r), ItemSize(m, r), Out(m, r), k)
  }

  /** The mailbox after the k oldest items have been taken. */
  function Popped(m: seq<byte>, r: nat, k: nat): (t: seq<byte>)
    requires Fits(m, r) && k <= Valid(m, r)
    ensures |t| == |m|
  {
    if ItemSize(m, r) == 0 then m
    else PutU32(m, r + 52, Advance(Out(m, r), k, MaxNum(m, r)))
  }

  function Emptied(m: seq<byte>, r: nat): (t: seq<byte>)
    requires HasHeader(m, r)
    ensures |t| == |m|
  {
    PutU32(PutU32(m, r + 48, 0), r + 52, 0)
  }

  /** Bytes 0..48 of the header, which no ring operation changes. */
  ghost predicate SameShape(m: seq<byte>, t: seq<byte>, r: nat)
    requires HasHeader(m, r)
  {
    |t| == |m| && forall i | r <= i < r + 48 :: t[i] == m[i]
  }

  lemma ShapeFields(m: seq<byte>, t: seq<byte>, r: nat)
    requires HasHeader(m, r) && SameShape(m, t, r)
    ensures MaxNum(t, r) == MaxNum(m, r) && ItemSize(t, r) == ItemSize(m, r)
    ensures Capacity(t, r) == Capacity(m, r)
  {
    hide GetU32;
    SameU32(m, t, r + 40);
    SameU32(m, t, r + 44);
  }

  lemma PutElsewhere(m: seq<byte>, at: nat, v: u32, f: nat)
    requires at + 4 <= |m| && f + 4 <= |m| && (f + 4 <= at || at + 4 <= f)
    ensures GetU32(PutU32(m, at, v), f) == GetU32(m, f)
  {
    SameU32(m, PutU32(m, at, v), f);
  }

  lemma PushedFacts(m: seq<byte>, r: nat, data: seq<byte>, k: nat)
    requires Fits(m, r) && k <= Free(m, r) && |data| == Size(k, ItemSize(m, r)) && ItemSize(m, r) > 0
    ensures var t := Pushed(m, r, data, k);
      && SameShape(m, t, r) && Fits(t, r)
      && In(t, r) == Advance(In(m, r), k, MaxNum(m, r)) && Out(t, r) == Out(m, r)
      && Slots(t, r) == Inserted(Slots(m, r), MaxNum(m, r), ItemSize(m, r), In(m, r), data, k)
  {
    hide Size, GetU32, LittleEndian, Inserted, Advance;
    var n, z := MaxNum(m, r), ItemSize(m, r);
    var slots := Inserted(Slots(m, r), n, z, In(m, r), data, k);
    var v := Advance(In(m, r), k, n);
    var u := Blit(m, r + HEADER, slots);
    var t := PutU32(u, r + 48, v);
    assert SameShape(m, t, r);
    ShapeFields(m, t, r);
    GetPut(u, r + 48, v);
    PutElsewhere(u, r + 48, v, r + 52);
    SameU32(m, u, r + 52);
    assert u[r + HEADER..r + HEADER + |slots|] == slots;
    BlitElsewhere(u, r + 48, LittleEndian(v), r + HEADER, r + HEADER + |slots|);
  }

  /** Writing k items appends exactly their bytes to the queue and leaves the header, the
      reader's index and everything outside the ring alone. */
  lemma PushAppends(m: seq<byte>, r: nat, data: seq<byte>, k: nat)
    requires Fits(m, r) && k <= Free(m, r) && |data| == Size(k, ItemSize(m, r)) && ItemSize(m, r) > 0
    ensures var t := Pushed(m, r, data, k);
      && SameShape(m, t, r) && Fits(t, r) && Out(t, r) == Out(m, r)
      && Queue(t, r) == Queue(m, r) + data
      && Valid(t, r) == Valid(m, r) + k
  {
    hide Size, Pushed, Queued, Inserted, GetU32;
    PushedFacts(m, r, data, k);
    ShapeFields(m, Pushed(m, r, data, k), r);
    InsertAppends(Slots(m, r), MaxNum(m, r), ItemSize(m, r), In(m, r), Out(m, r), data, k);
  }

  /** Reading k items hands out the front of the queue and leaves the rest. */
  lemma PopTakes(m: seq<byte>, r: nat, k: nat)
    requires Fits(m, r) && k <= Valid(m, r) && ItemSize(m, r) > 0
    ensures var t := Popped(m, r, k);
      && SameShape(m, t, r) && Fits(t, r) && In(t, r) == In(m, r)
      && Taken(m, r, k) + Queue(t, r) == Queue(m, r)
      && Valid(t, r) == Valid(m, r) - k
  {
    hide Size, Queued, Extracted, GetU32, LittleEndian;
    var t := Popped(m, r, k);
    var v := Advance(Out(m, r), k, MaxNum(m, r));
    ShapeFields(m, t, r);
    GetPut(m, r + 52, v);
    PutElsewhere(m, r + 52, v, r + 48);
    BlitElsewhere(m, r + 52, LittleEndian(v), r + HEADER, r + HEADER + Capacity(m, r));
    ExtractTakes(Slots(m, r), MaxNum(m, r), ItemSize(m, r), In(m, r), Out(m, r), k);
  }

  lemma EmptiedIsEmpty(m: seq<byte>, r: nat)
    requires Fits(m, r)
    ensures var t := Emptied(m, r);
      && SameShape(m, t, r) && Fits(t, r)
      && Valid(t, r) == 0 && Queue(t, r) == [] && Free(t, r) == MaxNum(m, r) - 1
  {
    hide Size, GetU32, LittleEndian, Capacity;
    var u := PutU32(m, r + 48, 0);
    var t := Emptied(m, r);
    ShapeFields(m, t, r);
    GetPut(m, r + 48, 0);
    GetPut(u, r + 52, 0);
    PutElsewhere(u, r + 52, 0, r + 48);
    QueueLength(t, r);
    SizeNone(ItemSize(t, r));
  }
}
