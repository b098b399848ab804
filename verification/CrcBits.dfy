/** The cyclic redundancy check of IEEE 802.3 clause 3.2.9, on bits.

    A register is its 32 coefficients, x^31 first: that is also the order in which the
    bits leave an LSB-first shift register. Bits of a message come in transmission order,
    least significant bit of each octet first. */
module CrcBits {

  type Register = s: seq<bool> | |s| == 32 witness seq(32, _ => false)

  /** The exponents of the generating polynomial G(x). */
  predicate Coefficient(e: int) {
    e in {32, 26, 23, 22, 16, 12, 11, 10, 8, 7, 5, 4, 2, 1, 0}
  }

  function Zeros(n: nat): (z: seq<bool>)
    ensures |z| == n
  {
    seq(n, _ => false)
  }

  function Ones(): Register {
    seq(32, _ => true)
  }

  /** One shift: the outgoing coefficient, if set, brings back G(x) - x^32. */
  function Step(s: Register): Register {
    seq(32, i requires 0 <= i < 32 => (i < 31 && s[i + 1]) != (s[0] && Coefficient(31 - i)))
  }

  function Steps(s: Register, n: nat): Register
    decreases n
  {
    if n == 0 then s else Steps(Step(s), n - 1)
  }

  function Flip(s: Register, bit: bool): Register {
    [s[0] != bit] + s[1..]
  }

  /** The register after the given message bits. */
  function Run(s: Register, bits: seq<bool>): Register
    decreases |bits|
  {
    if bits == [] then s else Run(Step(Flip(s, bits[0])), bits[1..])
  }

  function Xor(a: Register, b: Register): Register {
    seq(32, i requires 0 <= i < 32 => a[i] != b[i])
  }

  lemma {:induction false} RunAppend(s: Register, a: seq<bool>, b: seq<bool>)
    ensures Run(s, a + b) == Run(Run(s, a), b)
    decreases |a|
  {
    if a == [] {
      assert a + b == b;
    } else {
      assert (a + b)[1..] == a[1..] + b;
      RunAppend(Step(Flip(s, a[0])), a[1..], b);
    }
  }

  // ---- one step is linear and loses nothing ----

  lemma StepLinear(a: Register, b: Register)
    ensures Step(Xor(a, b)) == Xor(Step(a), Step(b))
  {
  }

  lemma StepInjective(a: Register, b: Register)
    requires Step(a) == Step(b)
    ensures a == b
  {
    assert Step(a)[31] == a[0] && Step(b)[31] == b[0];
    forall i | 1 <= i < 32
      ensures a[i] == b[i]
    {
      assert Step(a)[i - 1] == Step(b)[i - 1];
    }
  }

  lemma FlipInjective(a: Register, b: Register, bit: bool)
    requires Flip(a, bit) == Flip(b, bit)
    ensures a == b
  {
    forall i | 0 <= i < 32
      ensures a[i] == b[i]
    {
      assert Flip(a, bit)[i] == Flip(b, bit)[i];
    }
  }

  lemma {:induction false} RunInjective(a: Register, b: Register, bits: seq<bool>)
    requires Run(a, bits) == Run(b, bits)
    ensures a == b
    decreases |bits|
  {
    if bits != [] {
      var x, y := Flip(a, bits[0]), Flip(b, bits[0]);
      RunInjective(Step(x), Step(y), bits[1..]);
      StepInjective(x, y);
      FlipInjective(a, b, bits[0]);
    }
  }

  // ---- a byte at a time ----

  /** The first bits of a register, taken in all at once. */
  function Padded(bits: seq<bool>): Register
    requires |bits| <= 32
  {
    bits + Zeros(32 - |bits|)
  }

  function Shifted(s: Register, n: nat): Register
    requires n <= 32
  {
    s[n..] + Zeros(n)
  }

  lemma {:induction false} RunAtOnce(s: Register, bits: seq<bool>)
    requires |bits| <= 32
    ensures Run(s, bits) == Steps(Xor(s, Padded(bits)), |bits|)
    decreases |bits|
  {
    if bits == [] {
      assert Xor(s, Padded(bits)) == s;
    } else {
      var rest := [false] + bits[1..];
      assert Xor(s, Padded(bits)) == Xor(Flip(s, bits[0]), Padded(rest));
      StepLinear(Flip(s, bits[0]), Padded(rest));
      assert Step(Padded(rest)) == Padded(bits[1..]);
      RunAtOnce(Step(Flip(s, bits[0])), bits[1..]);
    }
  }

  /** Coefficients that have not reached the outgoing end are only shifted. */
  lemma {:induction false} StepsSplit(a: Register, hi: Register, n: nat)
    requires n <= 32 && forall i | 0 <= i < n :: !hi[i]
    ensures Steps(Xor(a, hi), n) == Xor(Steps(a, n), Shifted(hi, n))
    decreases n
  {
    if n == 0 {
      assert Shifted(hi, 0) == hi;
    } else {
      StepLinear(a, hi);
      var next := Step(hi);
      assert next == Shifted(hi, 1);
      StepsSplit(Step(a), next, n - 1);
      assert Shifted(next, n - 1) == Shifted(hi, n);
    }
  }

  /** What a byte-indexed table computes: only the outgoing eight coefficients matter. */
  lemma ByteRun(s: Register, bits: seq<bool>, out: Register)
    requires |bits| == 8
    requires forall i | 0 <= i < 32 :: out[i] == (i < 8 && s[i] != bits[i])
    ensures Run(s, bits) == Xor(Shifted(s, 8), Steps(out, 8))
  {
    RunAtOnce(s, bits);
    var hi := Zeros(8) + s[8..];
    assert Xor(s, Padded(bits)) == Xor(out, hi);
    StepsSplit(out, hi, 8);
    assert Shifted(hi, 8) == Shifted(s, 8);
    assert Xor(Steps(out, 8), Shifted(s, 8)) == Xor(Shifted(s, 8), Steps(out, 8));
  }

  // ---- burst errors ----

  ghost predicate DiffersAtOrAbove(a: Register, b: Register, k: int) {
    exists i :: 0 <= i < 32 && k <= i && a[i] != b[i]
  }

  /** A difference between two registers moves down one place per bit, whatever the two
      messages feed in, unless the feedback sends it back to the top. */
  lemma DifferenceMoves(a: Register, b: Register, p: bool, q: bool, k: int)
    requires 1 <= k && DiffersAtOrAbove(a, b, k)
    ensures DiffersAtOrAbove(Step(Flip(a, p)), Step(Flip(b, q)), k - 1)
  {
    var x, y := Flip(a, p), Flip(b, q);
    var i :| 0 <= i < 32 && k <= i && a[i] != b[i];
    assert x[i] != y[i];
    if x[0] != y[0] {
      assert Step(x)[31] == x[0] && Step(y)[31] == y[0];
    } else {
      assert Step(x)[i - 1] != Step(y)[i - 1];
    }
  }

  lemma {:induction false} DifferenceSurvives(a: Register, b: Register, u: seq<bool>, v: seq<bool>, k: int)
    requires |u| == |v| <= k && DiffersAtOrAbove(a, b, k)
    ensures Run(a, u) != Run(b, v)
    decreases |u|
  {
    if u == [] {
      assert a != b;
    } else {
      DifferenceMoves(a, b, u[0], v[0], k);
      DifferenceSurvives(Step(Flip(a, u[0])), Step(Flip(b, v[0])), u[1..], v[1..], k - 1);
    }
  }

  /** Two different bit strings of at most 32 bits never lead one register to the same
      register. */
  lemma {:induction false} BurstSeparates(s: Register, u: seq<bool>, v: seq<bool>)
    requires |u| == |v| <= 32 && u != v
    ensures Run(s, u) != Run(s, v)
    decreases |u|
  {
    var x, y := Step(Flip(s, u[0])), Step(Flip(s, v[0]));
    if u[0] == v[0] {
      assert u == [u[0]] + u[1..] && v == [v[0]] + v[1..];
      BurstSeparates(x, u[1..], v[1..]);
    } else {
      assert x[31] != y[31];
      DifferenceSurvives(x, y, u[1..], v[1..], 31);
    }
  }

  /** Bit strings that differ only within a window of 32 bits leave different remainders. */
  lemma BurstDetected(s: Register, before: seq<bool>, u: seq<bool>, v: seq<bool>, after: seq<bool>)
    requires |u| == |v| <= 32 && u != v
    ensures Run(s, before + u + after) != Run(s, before + v + after)
  {
    RunAppend(s, before + u, after);
    RunAppend(s, before, u);
    RunAppend(s, before + v, after);
    RunAppend(s, before, v);
    BurstSeparates(Run(s, before), u, v);
    if Run(s, before + u + after) == Run(s, before + v + after) {
      RunInjective(Run(s, before + u), Run(s, before + v), after);
    }
  }

  // ---- division by G(x) ----

  /** Subtracts G(x) from the leading 33 coefficients. */
  function Subtract(dividend: seq<bool>): (d: seq<bool>)
    requires |dividend| >= 33
    ensures |d| == |dividend|
  {
    seq(|dividend|, i requires 0 <= i < |dividend| => dividend[i] != (i <= 32 && Coefficient(32 - i)))
  }

  /** Schoolbook long division over GF(2): the remainder modulo G(x). */
  function Remainder(dividend: seq<bool>): Register
    requires |dividend| >= 32
    decreases |dividend|
  {
    if |dividend| == 32 then dividend
    else if dividend[0] then Remainder(Subtract(dividend)[1..])
    else Remainder(dividend[1..])
  }

  /** The message times x^32 with the first 32 bits exclusive-ored with s. */
  function Dividend(s: Register, message: seq<bool>): (d: seq<bool>)
    ensures |d| == |message| + 32
  {
    var padded := message + Zeros(32);
    seq(|padded|, i requires 0 <= i < |padded| => padded[i] != (i < 32 && s[i]))
  }

  /** The frame check sequence of clause 3.2.9: complement the first 32 bits, multiply by
      x^32, divide by G(x), complement the remainder. */
  function FrameCheck(message: seq<bool>): Register {
    Xor(Remainder(Dividend(Ones(), message)), Ones())
  }

  lemma {:induction false} RunIsRemainder(s: Register, message: seq<bool>)
    ensures Run(s, message) == Remainder(Dividend(s, message))
    decreases |message|
  {
    var d := Dividend(s, message);
    if message == [] {
      assert d == s;
    } else {
      var next := Step(Flip(s, message[0]));
      assert d[0] == Flip(s, message[0])[0];
      var reduced := if d[0] then Subtract(d)[1..] else d[1..];
      assert reduced == Dividend(next, message[1..]);
      RunIsRemainder(next, message[1..]);
    }
  }
}
