/** libmbcopy_bytes: a byte copy that moves 64-bit words while both pointers allow it. */
module Copy {
  import opened Words

  /** A pointer to a byte buffer; base is the address of its first byte. */
  datatype Memory = Null | Memory(base: nat, cells: array<byte>) {
    function Cells(): set<object> {
      if Null? then {} else {cells}
    }
  }

  const WORD: nat := 8

  ghost predicate Disjoint(dest: Memory, d: nat, src: Memory, s: nat, n: nat)
    requires dest.Memory? && src.Memory?
  {
    dest.cells == src.cells ==> d + n <= s || s + n <= d
  }

  /** One volatile load and store of a unit of w bytes: 8 through the word pointers, 1
      through the byte pointers. */
  method CopyUnit(dest: Memory, d: nat, src: Memory, s: nat, w: nat)
    requires dest.Memory? && src.Memory?
    requires d + w <= dest.cells.Length && s + w <= src.cells.Length
    modifies dest.cells
    ensures dest.cells[..] == Blit(old(dest.cells[..]), d, old(src.cells[s..s + w]))
  {
    var unit := src.cells[s..s + w];
    forall k | 0 <= k < w {
      dest.cells[d + k] := unit[k];
    }
  }

  /** What has been copied after the first k bytes. */
  ghost predicate Progress(m: seq<byte>, now: seq<byte>, d: nat, data: seq<byte>, k: nat)
    requires d + |data| <= |m| && k <= |data|
  {
    now == Blit(m, d, data[..k])
  }

  lemma Progressed(m: seq<byte>, now: seq<byte>, next: seq<byte>, d: nat, data: seq<byte>, k: nat, w: nat)
    requires d + |data| <= |m| && k + w <= |data|
    requires Progress(m, now, d, data, k)
    requires next == Blit(now, d + k, data[k..k + w])
    ensures Progress(m, next, d, data, k + w)
  {
    BlitTwice(m, d, data[..k], data[k..k + w]);
    assert data[..k] + data[k..k + w] == data[..k + w];
  }

  method CopyBytes(dest: Memory, d: nat, src: Memory, s: nat, n: u32)
    requires dest.Memory? && src.Memory? ==>
      d + n <= dest.cells.Length && s + n <= src.cells.Length && Disjoint(dest, d, src, s, n)
    modifies dest.Cells()
    ensures dest.Memory? && src.Memory? ==>
      dest.cells[..] == Blit(old(dest.cells[..]), d, old(src.cells[s..s + n]))
    ensures dest.Memory? && src.Null? ==> dest.cells[..] == old(dest.cells[..])
  {
    if dest.Null? || src.Null? {
      return;
    }
    ghost var before := dest.cells[..];
    ghost var data := src.cells[s..s + n];
    if n == 0 {
      return;
    }
    var wordCount: nat := 0;
    var byteCount: nat := n;
    if (dest.base + d) % WORD == 0 && (src.base + s) % WORD == 0 {
      wordCount := n / WORD;
      byteCount := n % WORD;
    }
    var k: nat := 0;
    while wordCount >= 4
      invariant k + WORD * wordCount + byteCount == n
      invariant src.cells[s..s + n] == data
      invariant Progress(before, dest.cells[..], d, data, k)
    {
      k := CopyNext(dest, d, src, s, n, k, WORD, before, data);
      k := CopyNext(dest, d, src, s, n, k, WORD, before, data);
      k := CopyNext(dest, d, src, s, n, k, WORD, before, data);
      k := CopyNext(dest, d, src, s, n, k, WORD, before, data);
      wordCount := wordCount - 4;
    }
    while wordCount > 0
      invariant k + WORD * wordCount + byteCount == n
      invariant src.cells[s..s + n] == data
      invariant Progress(before, dest.cells[..], d, data, k)
    {
      k := CopyNext(dest, d, src, s, n, k, WORD, before, data);
      wordCount := wordCount - 1;
    }
    while byteCount >= 4
      invariant k + byteCount == n
      invariant src.cells[s..s + n] == data
      invariant Progress(before, dest.cells[..], d, data, k)
    {
      k := CopyNext(dest, d, src, s, n, k, 1, before, data);
      k := CopyNext(dest, d, src, s, n, k, 1, before, data);
      k := CopyNext(dest, d, src, s, n, k, 1, before, data);
      k := CopyNext(dest, d, src, s, n, k, 1, before, data);
      byteCount := byteCount - 4;
    }
    while byteCount > 0
      invariant k + byteCount == n
      invariant src.cells[s..s + n] == data
      invariant Progress(before, dest.cells[..], d, data, k)
    {
      k := CopyNext(dest, d, src, s, n, k, 1, before, data);
      byteCount := byteCount - 1;
    }
    assert data[..k] == data;
  }

  lemma Subslice(m: seq<byte>, s: nat, n: nat, k: nat, w: nat)
    requires k + w <= n && s + n <= |m|
    ensures m[s..s + n][k..k + w] == m[s + k..s + k + w]
  {
    var inner, direct := m[s..s + n][k..k + w], m[s + k..s + k + w];
    forall i | 0 <= i < w
      ensures inner[i] == direct[i]
    {
      assert inner[i] == m[s..s + n][k + i] == m[s + k + i];
    }
  }

  lemma SourceKept(dest: Memory, d: nat, src: Memory, s: nat, n: nat, k: nat, w: nat,
                   now: seq<byte>, data: seq<byte>)
    requires dest.Memory? && src.Memory? && k + w <= n == |data|
    requires d + n <= dest.cells.Length == |now| && s + n <= src.cells.Length
    requires Disjoint(dest, d, src, s, n)
    requires dest.cells[..] == Blit(now, d + k, data[k..k + w])
    requires if dest.cells == src.cells then now[s..s + n] == data else src.cells[s..s + n] == data
    ensures src.cells[s..s + n] == data
  {
    if dest.cells == src.cells && n > 0 {
      BlitElsewhere(now, d + k, data[k..k + w], s, s + n);
      assert src.cells[s..s + n] == dest.cells[..][s..s + n];
    }
  }

  /** `*dest++ = *src++` for units of w bytes, k bytes into the copy. */
  method CopyNext(dest: Memory, d: nat, src: Memory, s: nat, n: nat, k: nat, w: nat,
                  ghost before: seq<byte>, ghost data: seq<byte>)
    returns (next: nat)
    requires dest.Memory? && src.Memory? && k + w <= n
    requires d + n <= dest.cells.Length && s + n <= src.cells.Length && Disjoint(dest, d, src, s, n)
    requires |before| == dest.cells.Length && data == src.cells[s..s + n]
    requires Progress(before, dest.cells[..], d, data, k)
    modifies dest.cells
    ensures next == k + w
    ensures src.cells[s..s + n] == data
    ensures Progress(before, dest.cells[..], d, data, next)
  {
    hide Progress, Blit;
    ghost var now := dest.cells[..];
    Subslice(src.cells[..], s, n, k, w);
    assert src.cells[..][s..s + n] == data;
    assert src.cells[s + k..s + k + w] == src.cells[..][s + k..s + k + w];
    CopyUnit(dest, d + k, src, s + k, w);
    Progressed(before, now, dest.cells[..], d, data, k, w);
    SourceKept(dest, d, src, s, n, k, w, now, data);
    next := k + w;
  }
}
