/** Textual GUIDs: decoding, and what the decoder accepts. */
module Guids {

  const STRING_SIZE: nat := 36

  /** A GUID by its fields. */
  datatype Guid = Guid(data1: nat, data2: nat, data3: nat, data4: seq<nat>)

  /** Every field fits its C type. */
  predicate InRange(g: Guid) {
    && g.data1 < 0x1_0000_0000 && g.data2 < 0x1_0000 && g.data3 < 0x1_0000 && |g.data4| == 8
    && forall k | 0 <= k < 8 :: g.data4[k] < 0x100
  }

  datatype Decoded = Malformed | Decoded(guid: Guid)

  // ---- digits ----

  predicate HexDigit(ch: char) {
    '0' <= ch <= '9' || 'a' <= ch <= 'f' || 'A' <= ch <= 'F'
  }

  function Nibble(ch: char): (n: nat)
    requires HexDigit(ch)
    ensures n < 16
  {
    if '0' <= ch <= '9' then (ch as int) - ('0' as int)
    else if 'a' <= ch <= 'f' then (ch as int) - ('a' as int) + 10
    else (ch as int) - ('A' as int) + 10
  }

  /** The digits, in both cases, and what they denote; no other character is one. */
  lemma DigitValues(ch: char, n: nat)
    requires n < 16
    ensures HexDigit("0123456789abcdef"[n]) && Nibble("0123456789abcdef"[n]) == n
    ensures HexDigit("0123456789ABCDEF"[n]) && Nibble("0123456789ABCDEF"[n]) == n
    ensures HexDigit(ch) ==> ch == "0123456789abcdef"[Nibble(ch)] || ch == "0123456789ABCDEF"[Nibble(ch)]
  {
  }

  ghost predicate AllHex(s: string) {
    forall i | 0 <= i < |s| :: HexDigit(s[i])
  }

  /** The number that hex digits denote, most significant first. */
  function HexValue(s: string): (v: nat)
    requires AllHex(s)
  {
    if s == [] then 0 else 16 * HexValue(s[..|s| - 1]) + Nibble(s[|s| - 1])
  }

  function Pow16(n: nat): (p: nat)
    ensures p > 0
  {
    if n == 0 then 1 else 16 * Pow16(n - 1)
  }

  lemma {:induction false} HexValueBound(s: string)
    requires AllHex(s)
    ensures HexValue(s) < Pow16(|s|)
  {
    if s != [] {
      HexValueBound(s[..|s| - 1]);
    }
  }

  lemma FieldWidths()
    ensures Pow16(2) == 0x100 && Pow16(4) == 0x1_0000 && Pow16(8) == 0x1_0000_0000
  {
    assert Pow16(1) == 16;
    assert Pow16(2) == 0x100;
    assert Pow16(3) == 0x1000;
    assert Pow16(4) == 0x1_0000;
    assert Pow16(5) == 0x10_0000;
    assert Pow16(6) == 0x100_0000;
    assert Pow16(7) == 0x1000_0000;
  }

  lemma {:induction false} Pow16Mono(a: nat, b: nat)
    requires a <= b
    ensures Pow16(a) <= Pow16(b)
  {
    if a < b {
      Pow16Mono(a, b - 1);
    }
  }

  /** rtss_gpt_hex2dec on 32-bit values; `value << 4 | nibble` has nothing to carry. */
  method Hex2Dec(s: string, at: nat, count: nat) returns (value: nat)
    requires at + count <= |s| && AllHex(s[at..at + count])
    ensures count <= 8 ==> value == HexValue(s[at..at + count])
  {
    hide HexValue;
    value := 0;
    ghost var digits := s[at..at + count];
    HexNone();
    var i := 0;
    while i < count
      invariant i <= count && (count <= 8 ==> value == HexValue(digits[..i]))
    {
      var ch := s[at + i];
      assert ch == digits[i];
      var nibble;
      if '0' <= ch <= '9' {
        nibble := (ch as int) - ('0' as int);
      } else if 'a' <= ch <= 'f' {
        nibble := (ch as int) - ('a' as int) + 10;
      } else {
        nibble := (ch as int) - ('A' as int) + 10;
      }
      if count <= 8 {
        HexNext(digits, i);
      }
      value := value * 16 % 0x1_0000_0000 + nibble;
      i := i + 1;
    }
    assert digits[..count] == digits;
  }

  lemma HexNone()
    ensures HexValue([]) == 0
  {
  }

  /** One more digit, and no bit of a 32-bit value lost, for up to 8 digits. */
  lemma HexNext(digits: string, i: nat)
    requires i < |digits| <= 8 && AllHex(digits)
    ensures HexValue(digits[..i + 1]) == 16 * HexValue(digits[..i]) + Nibble(digits[i])
    ensures 16 * HexValue(digits[..i]) < 0x1_0000_0000
  {
    var next := digits[..i + 1];
    assert next[..i] == digits[..i];
    HexValueBound(next);
    FieldWidths();
    Pow16Mono(i + 1, 8);
  }

  // ---- decoding ----

  predicate DashPlace(i: int) {
    i == 8 || i == 13 || i == 18 || i == 23
  }

  /** What the decoder accepts: a hex digit is good anywhere, a dash only in its place. */
  predicate Accepted(s: string) {
    |s| == STRING_SIZE && forall i | 0 <= i < STRING_SIZE :: HexDigit(s[i]) || (DashPlace(i) && s[i] == '-')
  }

  /** The n characters from lo on contain no dash place. */
  predicate Plain(lo: nat, n: nat) {
    lo + n <= STRING_SIZE && forall i | lo <= i < lo + n :: !DashPlace(i)
  }

  /** The number in n characters from lo on. */
  function Part(s: string, lo: nat, n: nat): (v: nat)
    requires Accepted(s) && Plain(lo, n)
  {
    HexValue(s[lo..lo + n])
  }

  function Fields(s: string): Guid
    requires Accepted(s)
  {
    Guid(Part(s, 0, 8), Part(s, 9, 4), Part(s, 14, 4), Data4(s))
  }

  function Data4(s: string): (d: seq<nat>)
    requires Accepted(s)
    ensures |d| == 8
  {
    [Part(s, 19, 2), Part(s, 21, 2), Part(s, 24, 2), Part(s, 26, 2),
     Part(s, 28, 2), Part(s, 30, 2), Part(s, 32, 2), Part(s, 34, 2)]
  }

  function Decode(s: string): Decoded {
    if Accepted(s) then Decoded(Fields(s)) else Malformed
  }

  /** rtss_gpt_decode_guid_string; the fields are stored in types of 32, 16 and 8 bits. */
  method DecodeGuidString(s: string) returns (result: Decoded)
    ensures result == Decode(s)
  {
    hide Part, Data4, HexDigit;
    if |s| != STRING_SIZE {
      return Malformed;
    }
    var i := 0;
    while i < STRING_SIZE
      invariant i <= STRING_SIZE
      invariant forall k | 0 <= k < i :: HexDigit(s[k]) || (DashPlace(k) && s[k] == '-')
    {
      if !HexDigit(s[i]) && !(DashPlace(i) && s[i] == '-') {
        return Malformed;
      }
      i := i + 1;
    }
    FieldsInRange(s);
    var data1 := DecodePart(s, 0, 8);
    var data2 := DecodePart(s, 9, 4);
    var data3 := DecodePart(s, 14, 4);
    var first := DecodePart(s, 19, 2);
    var second := DecodePart(s, 21, 2);
    FirstPairs(s);
    assert Fields(s).data4[0] == first && Fields(s).data4[1] == second;
    var data4 := [first % 0x100, second % 0x100];
    i := 0;
    while i < 6
      invariant i <= 6 && |data4| == 2 + i && data4 == Data4(s)[..2 + i]
    {
      var idx := 24 + i * 2;
      PlainPair(i);
      var part := DecodePart(s, idx, 2);
      PairOf(s, i);
      assert Fields(s).data4[2 + i] == part;
      data4 := data4 + [part % 0x100];
      i := i + 1;
    }
    assert Data4(s)[..8] == Data4(s);
    result := Decoded(Guid(data1, data2 % 0x1_0000, data3 % 0x1_0000, data4));
  }

  method DecodePart(s: string, at: nat, count: nat) returns (value: nat)
    requires Accepted(s) && Plain(at, count) && count <= 8
    ensures value == Part(s, at, count)
  {
    value := Hex2Dec(s, at, count);
  }

  lemma PlainPair(i: nat)
    requires i < 6
    ensures Plain(24 + i * 2, 2)
  {
  }

  lemma FirstPairs(s: string)
    requires Accepted(s)
    ensures Data4(s)[0] == Part(s, 19, 2) && Data4(s)[1] == Part(s, 21, 2)
  {
    hide Part;
  }

  lemma PairOf(s: string, i: nat)
    requires Accepted(s) && i < 6
    ensures Part(s, 24 + i * 2, 2) == Data4(s)[2 + i]
  {
    hide HexValue;
  }

  /** No field is truncated when it is stored. */
  lemma FieldsInRange(s: string)
    requires Accepted(s)
    ensures InRange(Fields(s))
  {
    hide HexValue, Pow16, Part;
    FieldWidths();
    PartBound(s, 0, 8);
    PartBound(s, 9, 4);
    PartBound(s, 14, 4);
    PartBound(s, 19, 2);
    PartBound(s, 21, 2);
    PartBound(s, 24, 2);
    PartBound(s, 26, 2);
    PartBound(s, 28, 2);
    PartBound(s, 30, 2);
    PartBound(s, 32, 2);
    PartBound(s, 34, 2);
  }

  lemma PartBound(s: string, lo: nat, n: nat)
    requires Accepted(s) && Plain(lo, n)
    ensures Part(s, lo, n) < Pow16(n)
  {
    hide HexDigit, HexValue, Pow16;
    var digits := s[lo..lo + n];
    assert forall i | 0 <= i < n :: digits[i] == s[lo + i];
    HexValueBound(digits);
  }

  // ---- the canonical text ----

  function Digit(n: nat): (ch: char)
    requires n < 16
    ensures HexDigit(ch) && Nibble(ch) == n && Lower(ch) == ch
  {
    if n < 10 then ('0' as int + n) as char else ('a' as int + n - 10) as char
  }

  /** The n hex digits of v, in lower case. */
  function Digits(v: nat, n: nat): (s: string)
    ensures |s| == n && AllHex(s)
  {
    if n == 0 then [] else Digits(v / 16, n - 1) + [Digit(v % 16)]
  }

  lemma {:induction false} DigitsValue(v: nat, n: nat)
    requires v < Pow16(n)
    ensures HexValue(Digits(v, n)) == v
  {
    if n > 0 {
      DigitsValue(v / 16, n - 1);
      assert Digits(v, n)[..n - 1] == Digits(v / 16, n - 1);
    }
  }

  /** The 8-4-4-4-12 form of RFC 9562, section 4. */
  function Format(g: Guid): (s: string)
    requires InRange(g)
  {
    Front(g) + Back(g)
  }

  function Front(g: Guid): (s: string)
    requires InRange(g)
    ensures |s| == 24
  {
    Digits(g.data1, 8) + "-" + Digits(g.data2, 4) + "-" + Digits(g.data3, 4) + "-"
      + Digits(g.data4[0], 2) + Digits(g.data4[1], 2) + "-"
  }

  function Back(g: Guid): (s: string)
    requires InRange(g)
    ensures |s| == 12
  {
    Digits(g.data4[2], 2) + Digits(g.data4[3], 2) + Digits(g.data4[4], 2)
      + Digits(g.data4[5], 2) + Digits(g.data4[6], 2) + Digits(g.data4[7], 2)
  }

  function Lower(ch: char): char {
    if 'A' <= ch <= 'F' then (ch as int - 'A' as int + 'a' as int) as char else ch
  }

  /** Equal but for the case of hex letters. */
  ghost predicate SameUpToCase(s: string, t: string) {
    |s| == |t| && forall i | 0 <= i < |s| :: Lower(s[i]) == Lower(t[i])
  }

  /** Dashes in their four places, hex digits everywhere else. */
  ghost predicate Canonical(s: string) {
    |s| == STRING_SIZE && forall i | 0 <= i < STRING_SIZE :: if DashPlace(i) then s[i] == '-' else HexDigit(s[i])
  }

  lemma CaseKeepsNibble(a: char, b: char)
    requires HexDigit(a) && HexDigit(b)
    ensures Lower(a) == Lower(b) <==> Nibble(a) == Nibble(b)
  {
  }

  /** Digits of one length denote one number exactly when they agree up to case. */
  lemma {:induction false} HexValueInjective(s: string, t: string)
    requires AllHex(s) && AllHex(t) && |s| == |t|
    ensures HexValue(s) == HexValue(t) <==> SameUpToCase(s, t)
  {
    if s != [] {
      var n := |s| - 1;
      HexValueInjective(s[..n], t[..n]);
      CaseKeepsNibble(s[n], t[n]);
      if SameUpToCase(s, t) {
        assert forall i | 0 <= i < n :: Lower(s[..n][i]) == Lower(s[i]) && Lower(t[..n][i]) == Lower(t[i]);
      } else if SameUpToCase(s[..n], t[..n]) {
        assert forall i | 0 <= i < n :: Lower(s[..n][i]) == Lower(s[i]) && Lower(t[..n][i]) == Lower(t[i]);
      }
    }
  }

  lemma FormatIsCanonical(g: Guid)
    requires InRange(g)
    ensures Canonical(Format(g))
  {
    hide Digits;
  }

  lemma FrontSlices(g: Guid)
    requires InRange(g)
    ensures var s := Front(g);
      && s[0..8] == Digits(g.data1, 8) && s[9..13] == Digits(g.data2, 4) && s[14..18] == Digits(g.data3, 4)
      && s[19..21] == Digits(g.data4[0], 2) && s[21..23] == Digits(g.data4[1], 2)
  {
    hide Digits;
  }

  lemma SixPairs(a: string, b: string, c: string, d: string, e: string, f: string)
    requires |a| == |b| == |c| == |d| == |e| == |f| == 2
    ensures var s := a + b + c + d + e + f;
      && s[0..2] == a && s[2..4] == b && s[4..6] == c && s[6..8] == d && s[8..10] == e && s[10..12] == f
  {
    var x, y := a + b + c, d + e + f;
    var s := a + b + c + d + e + f;
    assert s == x + y;
    assert x[0..2] == a && x[2..4] == b && x[4..6] == c;
    assert y[0..2] == d && y[2..4] == e && y[4..6] == f;
    assert s[0..2] == x[0..2] && s[2..4] == x[2..4] && s[4..6] == x[4..6];
    assert s[6..8] == y[0..2] && s[8..10] == y[2..4] && s[10..12] == y[4..6];
  }

  lemma BackSlices(g: Guid)
    requires InRange(g)
    ensures var s := Back(g);
      && s[0..2] == Digits(g.data4[2], 2) && s[2..4] == Digits(g.data4[3], 2)
      && s[4..6] == Digits(g.data4[4], 2) && s[6..8] == Digits(g.data4[5], 2)
      && s[8..10] == Digits(g.data4[6], 2) && s[10..12] == Digits(g.data4[7], 2)
  {
    hide Digits;
    SixPairs(Digits(g.data4[2], 2), Digits(g.data4[3], 2), Digits(g.data4[4], 2),
             Digits(g.data4[5], 2), Digits(g.data4[6], 2), Digits(g.data4[7], 2));
  }

  lemma FrontPart(g: Guid, lo: nat, n: nat, v: nat)
    requires InRange(g) && Accepted(Format(g)) && Plain(lo, n) && lo + n <= 24
    requires Front(g)[lo..lo + n] == Digits(v, n) && v < Pow16(n)
    ensures Part(Format(g), lo, n) == v
  {
    hide Digits, Front, Back, HexValue;
    assert Format(g)[lo..lo + n] == Front(g)[lo..lo + n];
    DigitsValue(v, n);
  }

  lemma BackPart(g: Guid, lo: nat, v: nat)
    requires InRange(g) && Accepted(Format(g)) && lo + 2 <= 12
    requires Back(g)[lo..lo + 2] == Digits(v, 2) && v < 0x100
    ensures Plain(24 + lo, 2) && Part(Format(g), 24 + lo, 2) == v
  {
    hide Digits, Front, Back, HexValue, Pow16;
    assert Format(g)[24 + lo..24 + lo + 2] == Back(g)[lo..lo + 2];
    FieldWidths();
    DigitsValue(v, 2);
  }

  lemma DecodeFormatted(g: Guid)
    requires InRange(g)
    ensures Accepted(Format(g)) && Fields(Format(g)) == g
  {
    hide Digits, Format, Front, Back, Part, Pow16;
    FormatIsCanonical(g);
    FrontSlices(g);
    BackSlices(g);
    FieldWidths();
    FrontPart(g, 0, 8, g.data1);
    FrontPart(g, 9, 4, g.data2);
    FrontPart(g, 14, 4, g.data3);
    FrontPart(g, 19, 2, g.data4[0]);
    FrontPart(g, 21, 2, g.data4[1]);
    BackPart(g, 0, g.data4[2]);
    BackPart(g, 2, g.data4[3]);
    BackPart(g, 4, g.data4[4]);
    BackPart(g, 6, g.data4[5]);
    BackPart(g, 8, g.data4[6]);
    BackPart(g, 10, g.data4[7]);
    assert Data4(Format(g)) == g.data4;
  }

  ghost predicate Agree(s: string, t: string, lo: nat, n: nat)
    requires lo + n <= |s| && lo + n <= |t|
  {
    forall i | lo <= i < lo + n :: Lower(s[i]) == Lower(t[i])
  }

  lemma PartAgrees(s: string, t: string, lo: nat, n: nat)
    requires Accepted(s) && Accepted(t) && Plain(lo, n)
    ensures Part(s, lo, n) == Part(t, lo, n) <==> Agree(s, t, lo, n)
  {
    hide Lower;
    var a, b := s[lo..lo + n], t[lo..lo + n];
    HexValueInjective(a, b);
    if SameUpToCase(a, b) {
      forall i | lo <= i < lo + n
        ensures Lower(s[i]) == Lower(t[i])
      {
        assert s[i] == a[i - lo] && t[i] == b[i - lo];
      }
    }
  }

  /** Two accepted strings decode to one GUID exactly when they agree, up to letter case,
      outside the four dash places. */
  lemma DecodeDistinguishes(s: string, t: string)
    requires Accepted(s) && Accepted(t)
    ensures Fields(s) == Fields(t) <==> (forall i | 0 <= i < STRING_SIZE && !DashPlace(i) :: Lower(s[i]) == Lower(t[i]))
  {
    hide Part, Lower;
    PartAgrees(s, t, 0, 8);
    PartAgrees(s, t, 9, 4);
    PartAgrees(s, t, 14, 4);
    PartAgrees(s, t, 19, 2);
    PartAgrees(s, t, 21, 2);
    PartAgrees(s, t, 24, 2);
    PartAgrees(s, t, 26, 2);
    PartAgrees(s, t, 28, 2);
    PartAgrees(s, t, 30, 2);
    PartAgrees(s, t, 32, 2);
    PartAgrees(s, t, 34, 2);
    SameData4(s, t);
  }

  lemma SameData4(s: string, t: string)
    requires Accepted(s) && Accepted(t)
    ensures Data4(s) == Data4(t) <==>
      (&& Part(s, 19, 2) == Part(t, 19, 2) && Part(s, 21, 2) == Part(t, 21, 2)
       && Part(s, 24, 2) == Part(t, 24, 2) && Part(s, 26, 2) == Part(t, 26, 2)
       && Part(s, 28, 2) == Part(t, 28, 2) && Part(s, 30, 2) == Part(t, 30, 2)
       && Part(s, 32, 2) == Part(t, 32, 2) && Part(s, 34, 2) == Part(t, 34, 2))
  {
    hide Part;
    var a, b := Data4(s), Data4(t);
    if a == b {
      assert a[0] == b[0] && a[1] == b[1] && a[2] == b[2] && a[3] == b[3];
      assert a[4] == b[4] && a[5] == b[5] && a[6] == b[6] && a[7] == b[7];
    }
  }

  /** Round trip: whatever the case of its letters, the canonical text of a GUID decodes to
      that GUID, and it is the only canonical text that does. */
  lemma CanonicalRoundTrip(g: Guid, s: string)
    requires InRange(g) && Canonical(s)
    ensures Decode(s) == Decoded(g) <==> SameUpToCase(s, Format(g))
  {
    hide HexValue, Fields, Format;
    DecodeFormatted(g);
    FormatIsCanonical(g);
    CanonicalIsAccepted(s);
    DecodeDistinguishes(s, Format(g));
    if forall i | 0 <= i < STRING_SIZE && !DashPlace(i) :: Lower(s[i]) == Lower(Format(g)[i]) {
      forall i | 0 <= i < STRING_SIZE
        ensures Lower(s[i]) == Lower(Format(g)[i])
      {
        if DashPlace(i) {
          assert s[i] == '-' == Format(g)[i];
        }
      }
    }
  }

  lemma CanonicalIsAccepted(s: string)
    requires Canonical(s)
    ensures Accepted(s)
  {
  }

  /** The dashes are optional: with a hex digit in each dash place the text is accepted too,
      and decodes to the same GUID. */
  lemma DashesAreOptional(g: Guid, s: string)
    requires InRange(g) && |s| == STRING_SIZE && AllHex(s)
    requires forall i | 0 <= i < STRING_SIZE && !DashPlace(i) :: s[i] == Format(g)[i]
    ensures Decode(s) == Decoded(g) && !Canonical(s)
  {
    hide HexValue, Fields, Format;
    DecodeFormatted(g);
    DecodeDistinguishes(s, Format(g));
    assert DashPlace(8) && s[8] != '-';
  }

  // ---- one GUID, digit by digit ----

  lemma {:induction false} HexJoin(s: string, n: nat)
    requires n <= |s| && AllHex(s)
    ensures HexValue(s) == HexValue(s[..n]) * Pow16(|s| - n) + HexValue(s[n..])
  {
    if n < |s| {
      var front := s[..|s| - 1];
      HexJoin(front, n);
      assert front[..n] == s[..n] && s[n..][..|s[n..]| - 1] == front[n..];
      assert Pow16(|s| - n) == 16 * Pow16(|front| - n);
      JoinStep(HexValue(s[..n]), Pow16(|front| - n), HexValue(front[n..]), Nibble(s[|s| - 1]));
    } else {
      assert s[..n] == s && s[n..] == [];
    }
  }

  lemma JoinStep(v: nat, p: nat, w: nat, d: nat)
    ensures 16 * (v * p + w) + d == v * (16 * p) + (16 * w + d)
  {
  }

  lemma HexByte(s: string)
    requires |s| == 2 && AllHex(s)
    ensures HexValue(s) == 16 * Nibble(s[0]) + Nibble(s[1])
  {
    assert s[..1][..0] == [];
    assert HexValue(s[..1]) == Nibble(s[0]);
  }

  lemma HexShort(s: string)
    requires |s| == 4 && AllHex(s)
    ensures HexValue(s) == 0x100 * HexValue(s[..2]) + HexValue(s[2..])
  {
    HexJoin(s, 2);
    FieldWidths();
  }

  lemma HexLong(s: string)
    requires |s| == 8 && AllHex(s)
    ensures HexValue(s) == 0x1_0000 * HexValue(s[..4]) + HexValue(s[4..])
  {
    HexJoin(s, 4);
    FieldWidths();
  }

  /** The five groups of s, four dashes between them. */
  ghost predicate Groups(s: string, a: string, b: string, c: string, d: string, e: string) {
    && |s| == 36 && s[0..8] == a && s[9..13] == b && s[14..18] == c && s[19..23] == d && s[24..36] == e
    && s[8] == s[13] == s[18] == s[23] == '-'
    && AllHex(a) && AllHex(b) && AllHex(c) && AllHex(d) && AllHex(e)
  }

  lemma GroupsAccepted(s: string, a: string, b: string, c: string, d: string, e: string)
    requires Groups(s, a, b, c, d, e)
    ensures Accepted(s)
  {
    hide HexDigit;
    forall i | 0 <= i < 36 && !DashPlace(i)
      ensures HexDigit(s[i])
    {
      if i < 8 {
        assert s[i] == a[i];
      } else if i < 13 {
        assert s[i] == b[i - 9];
      } else if i < 18 {
        assert s[i] == c[i - 14];
      } else if i < 23 {
        assert s[i] == d[i - 19];
      } else {
        assert s[i] == e[i - 24];
      }
    }
  }

  /** A GUID in its usual form decodes to the numbers its five groups denote, the last two byte
      by byte. */
  lemma DecodesGroups(s: string, a: string, b: string, c: string, d: string, e: string)
    requires Groups(s, a, b, c, d, e)
    ensures Decode(s) ==
            Decoded(Guid(HexValue(a), HexValue(b), HexValue(c),
                         [HexValue(d[..2]), HexValue(d[2..]), HexValue(e[..2]), HexValue(e[2..4]),
                          HexValue(e[4..6]), HexValue(e[6..8]), HexValue(e[8..10]), HexValue(e[10..])]))
  {
    hide HexValue, HexDigit;
    GroupsAccepted(s, a, b, c, d, e);
    Within(s, 19, d, 0, 2);
    Within(s, 19, d, 2, 4);
    Within(s, 24, e, 0, 2);
    Within(s, 24, e, 2, 4);
    Within(s, 24, e, 4, 6);
    Within(s, 24, e, 6, 8);
    Within(s, 24, e, 8, 10);
    Within(s, 24, e, 10, 12);
    assert d[0..2] == d[..2] && d[2..4] == d[2..] && e[0..2] == e[..2] && e[10..12] == e[10..];
  }

  lemma Within(s: string, at: nat, e: string, lo: nat, hi: nat)
    requires at + |e| <= |s| && s[at..at + |e|] == e && lo <= hi <= |e|
    ensures s[at + lo..at + hi] == e[lo..hi]
  {
    forall k | lo <= k < hi
      ensures s[at + k] == e[k]
    {
      assert s[at..at + |e|][k] == s[at + k];
    }
    var a, b := s[at + lo..at + hi], e[lo..hi];
    forall k | 0 <= k < hi - lo
      ensures a[k] == b[k]
    {
      assert a[k] == s[at + (lo + k)];
    }
  }

  lemma ShortValue(s: string)
    requires |s| == 4 && AllHex(s)
    ensures HexValue(s) == 0x1000 * Nibble(s[0]) + 0x100 * Nibble(s[1]) + 0x10 * Nibble(s[2]) + Nibble(s[3])
  {
    hide HexValue, Nibble, HexDigit;
    HexShort(s);
    HexByte(s[..2]);
    HexByte(s[2..]);
  }

  /** The example that the decoder's documentation gives. */
  lemma ExampleDecodes(s: string)
    requires Groups(s, "8701faa8", "baa0", "43cf", "9c90", "3b30495c558e")
    ensures Decode(s) ==
            Decoded(Guid(0x8701FAA8, 0xBAA0, 0x43CF, [0x9C, 0x90, 0x3B, 0x30, 0x49, 0x5C, 0x55, 0x8E]))
  {
    hide HexValue;
    DecodesGroups(s, "8701faa8", "baa0", "43cf", "9c90", "3b30495c558e");
    HexLong("8701faa8");
    ShortValue("8701faa8"[..4]);
    ShortValue("8701faa8"[4..]);
    ShortValue("baa0");
    ShortValue("43cf");
    ExampleBytes();
  }

  lemma ExampleBytes()
    ensures var d, e := "9c90", "3b30495c558e";
      && AllHex(d) && AllHex(e) && HexValue(d[..2]) == 0x9C && HexValue(d[2..]) == 0x90
      && HexValue(e[..2]) == 0x3B && HexValue(e[2..4]) == 0x30 && HexValue(e[4..6]) == 0x49
      && HexValue(e[6..8]) == 0x5C && HexValue(e[8..10]) == 0x55 && HexValue(e[10..]) == 0x8E
  {
    hide HexValue;
    var d, e := "9c90", "3b30495c558e";
    HexByte(d[..2]);
    HexByte(d[2..]);
    HexByte(e[..2]);
    HexByte(e[2..4]);
    HexByte(e[4..6]);
    HexByte(e[6..8]);
    HexByte(e[8..10]);
    HexByte(e[10..]);
  }
}
