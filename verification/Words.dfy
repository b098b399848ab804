/** Machine integers and byte buffers of the shared mailbox, on mathematical integers:
    every place where C arithmetic may wrap says so with W32. */
module Words {

  const TWO32: int := 0x1_0000_0000

  type u32 = x: int | 0 <= x < 0x1_0000_0000
  type byte = x: int | 0 <= x < 0x100

  /** The value of an unsigned 32-bit expression. */
  function W32(x: int): (w: u32)
    ensures 0 <= x < 0x1_0000_0000 ==> w == x
  {
    x % 0x1_0000_0000
  }

  /** The value of a conversion to int32_t. */
  function ToInt32(x: int): (i: int)
    ensures 0 <= x < 0x8000_0000 ==> i == x
  {
    var w := x % 0x1_0000_0000;
    if w < 0x8000_0000 then w else w - 0x1_0000_0000
  }

  /** m with s written over it from offset at on. */
  function Blit<T>(m: seq<T>, at: nat, s: seq<T>): (r: seq<T>)
    requires at + |s| <= |m|
    ensures |r| == |m|
    ensures r[at..at + |s|] == s
    ensures forall i | 0 <= i < |m| && !(at <= i < at + |s|) :: r[i] == m[i]
  {
    m[..at] + s + m[at + |s|..]
  }

  function LittleEndian(v: u32): (s: seq<byte>)
    ensures |s| == 4
  {
    [v % 0x100, v / 0x100 % 0x100, v / 0x100 / 0x100 % 0x100, v / 0x100 / 0x100 / 0x100]
  }

  function Joined(b0: byte, b1: byte, b2: byte, b3: byte): u32 {
    var low: int := b0;
    low + 0x100 * b1 + 0x1_0000 * b2 + 0x100_0000 * b3
  }

  lemma JoinedLittleEndian(v: u32)
    ensures Joined(v % 0x100, v / 0x100 % 0x100, v / 0x100 / 0x100 % 0x100, v / 0x100 / 0x100 / 0x100) == v
  {
    var q1 := v / 0x100;
    var q2 := q1 / 0x100;
    var q3 := q2 / 0x100;
    assert v == 0x100 * q1 + v % 0x100;
    assert q1 == 0x100 * q2 + q1 % 0x100;
    assert q2 == 0x100 * q3 + q2 % 0x100;
  }

  /** The least significant byte comes first. */
  lemma ByteOrder()
    ensures LittleEndian(0x1234_5678) == [0x78, 0x56, 0x34, 0x12] && Joined(0x78, 0x56, 0x34, 0x12) == 0x1234_5678
  {
  }

  function GetU32(m: seq<byte>, at: nat): u32
    requires at + 4 <= |m|
  {
    Joined(m[at], m[at + 1], m[at + 2], m[at + 3])
  }

  function PutU32(m: seq<byte>, at: nat, v: u32): (r: seq<byte>)
    requires at + 4 <= |m|
    ensures |r| == |m|
    ensures forall i | 0 <= i < |m| && !(at <= i < at + 4) :: r[i] == m[i]
  {
    Blit(m, at, LittleEndian(v))
  }

  lemma GetPut(m: seq<byte>, at: nat, v: u32)
    requires at + 4 <= |m|
    ensures GetU32(PutU32(m, at, v), at) == v
  {
    var r := PutU32(m, at, v);
    var s := LittleEndian(v);
    assert r[at] == r[at..at + 4][0] == s[0];
    assert r[at + 1] == r[at..at + 4][1] == s[1];
    assert r[at + 2] == r[at..at + 4][2] == s[2];
    assert r[at + 3] == r[at..at + 4][3] == s[3];
    JoinedLittleEndian(v);
  }

  lemma BlitElsewhere<T>(m: seq<T>, at: nat, s: seq<T>, lo: nat, hi: nat)
    requires at + |s| <= |m| && lo <= hi <= |m|
    requires hi <= at || at + |s| <= lo
    ensures Blit(m, at, s)[lo..hi] == m[lo..hi]
  {
  }

  lemma BlitTwice<T>(m: seq<T>, at: nat, a: seq<T>, b: seq<T>)
    requires at + |a| + |b| <= |m|
    ensures Blit(Blit(m, at, a), at + |a|, b) == Blit(m, at, a + b)
  {
  }

  lemma BlitNothing<T>(m: seq<T>, at: nat)
    requires at <= |m|
    ensures Blit(m, at, []) == m
  {
  }

  /** A 32-bit field depends on its four bytes only. */
  lemma SameU32(m: seq<byte>, n: seq<byte>, at: nat)
    requires at + 4 <= |m| && at + 4 <= |n|
    requires forall i | at <= i < at + 4 :: m[i] == n[i]
    ensures GetU32(m, at) == GetU32(n, at)
  {
  }

  /** x & ~3 on a 32-bit value. */
  function AlignDown4(x: u32): u32 {
    x - x % 4
  }
}
