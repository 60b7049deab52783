/**
 * Wire-level vocabulary of the Firmata protocol as the client uses it: the
 * command bytes (a MIDI-derived message-type table), the pin modes, the
 * 7-bit data-byte codec (to7Bit / from7Bit), and bit tests on bytes and on
 * Go `int` values.
 */
module Protocol {

  // Command bytes.  The two "message" commands are families: their low
  // nibble carries a port (digital) or a channel (analog).
  const DigitalMessage: bv8 := 0x90
  const AnalogMessage: bv8 := 0xE0
  const EnableAnalogInput: bv8 := 0xC0   // report-analog
  const EnableDigitalInput: bv8 := 0xD0  // report-digital
  const SetPinMode: bv8 := 0xF4
  const ReportVersion: bv8 := 0xF9
  const StartSysEx: bv8 := 0xF0
  const EndSysEx: bv8 := 0xF7

  // The pin modes the guards look up, as the Firmata protocol numbers them.
  const Output: bv8 := 0x01
  const Analog: bv8 := 0x02

  /** The errors the core returns, one per `fmt.Errorf` site, plus a failed transport write. */
  datatype Error =
    | NotAnalog                               // analog accessor on a digital value
    | NotDigital                              // digital accessor on an analog value
    | UnsupportedMode(modePin: bv8, mode: bv8) // mode missing from the pin's capabilities
    | InvalidPin(pin: int)                    // pin rejected by a range guard
    | WriteFailed(reason: string)             // the transport's own write error

  /** A byte whose high bit is clear: the only bytes a Firmata data field may carry. */
  predicate IsDataByte(b: bv8) {
    b < 0x80
  }

  /** Bit `i` of a byte, read by shifting it down to position 0. */
  predicate BitOf(b: bv8, i: nat)
    requires i < 8
  {
    (b >> i) & 1 == 1
  }

  function Pow2(i: nat): (r: nat)
    ensures r >= 1
  {
    if i == 0 then 1 else 2 * Pow2(i - 1)
  }

  /**
   * Bit `i` of a Go `int` in two's complement.  Dafny's `/` and `%` are
   * Euclidean, so for a positive divisor this is floor division and the
   * result agrees with Go's `x & (1 << i) != 0` on negative values too.
   */
  predicate Bit(x: int, i: nat) {
    (x / Pow2(i)) % 2 == 1
  }

  /**
   * to7Bit: splits a byte into the two 7-bit data bytes of a fixed
   * 3-byte message, least significant part first.
   */
  function To7Bit(v: bv8): (r: (bv8, bv8))
    ensures IsDataByte(r.0) && r.1 <= 1
    ensures r.0 as int + 128 * r.1 as int == v as int
  {
    (v & 0x7F, v >> 7)
  }

  /**
   * from7Bit: joins two data bytes into one value, `lsb | msb << 7`.  Any
   * byte values are accepted; with two data bytes the result is their
   * 14-bit concatenation.
   */
  function From7Bit(lsb: bv8, msb: bv8): (r: int)
    ensures 0 <= r < 0x8000
    ensures IsDataByte(lsb) && IsDataByte(msb) ==> r == lsb as int + 128 * msb as int
  {
    ((lsb as bv16) | ((msb as bv16) << 7)) as int
  }

  /** Decoding what To7Bit encoded gives back the byte. */
  lemma From7BitTo7Bit(v: bv8)
    ensures From7Bit(To7Bit(v).0, To7Bit(v).1) == v as int
  {
  }

  /**
   * A data byte and a top bit decode to the byte `lsb | msb << 7`, and
   * encoding that byte gives back the pair.
   */
  lemma To7BitFrom7Bit(lsb: bv8, msb: bv8)
    requires IsDataByte(lsb) && msb <= 1
    ensures From7Bit(lsb, msb) == (lsb | (msb << 7)) as int
    ensures To7Bit(lsb | (msb << 7)) == (lsb, msb)
  {
  }

  /** The bit test on an `int` and the bit test on the same value as a byte agree. */
  lemma {:induction false} BitOfByte(b: bv8, i: nat)
    requires i < 8
    ensures Bit(b as int, i) <==> BitOf(b, i)
    decreases i
  {
    if i == 0 {
      LowBit(b);
    } else {
      BitOfByte(b >> 1, i - 1);
      BitHalf(b, i);
      BitOfHalf(b, i);
    }
  }

  /** Bit `i` of a byte's value is bit `i - 1` of half of it. */
  lemma BitHalf(b: bv8, i: nat)
    requires 0 < i < 8
    ensures Bit(b as int, i) <==> Bit((b >> 1) as int, i - 1)
  {
    HalfByte(b);
    DivDiv(b as int, Pow2(i - 1));
  }

  /** Bit `i` of a byte is bit `i - 1` of the byte shifted down once. */
  lemma BitOfHalf(b: bv8, i: nat)
    requires 0 < i < 8
    ensures BitOf(b, i) <==> BitOf(b >> 1, i - 1)
  {
    assert b >> i == (b >> 1) >> (i - 1);
  }

  /** Bits 0 to 7 of an `int` do not depend on its multiples of 256. */
  lemma LowBitsIgnoreHigh(x: int, q: int, i: nat)
    requires i < 8
    ensures Bit(x + 256 * q, i) <==> Bit(x, i)
  {
    var p, h := Pow2(i), Pow2(7 - i);
    Pow2Split(i);
    ShiftQuotient(x, q, p, 2 * h);
    assert (x + 256 * q) / p == x / p + 2 * (h * q);
    EvenShift(x / p, h * q);
  }

  /** 2^i * 2 * 2^(7-i) is 256. */
  lemma Pow2Split(i: nat)
    requires i < 8
    ensures Pow2(i) * (2 * Pow2(7 - i)) == 256
  {
    Pow2Add(i, 8 - i);
    Pow2Eight();
    assert Pow2(8 - i) == 2 * Pow2(7 - i);
  }

  /** Dividing by a factor `p` of 256 moves a multiple of 256 into the quotient. */
  lemma ShiftQuotient(x: int, q: int, p: int, m: int)
    requires p > 0 && p * m == 256
    ensures (x + 256 * q) / p == x / p + m * q
  {
    var a, r := x / p, x % p;
    assert x == p * a + r;
    assert 256 * q == p * (m * q) by {
      assert p * (m * q) == (p * m) * q;
    }
    assert x + 256 * q == p * (a + m * q) + r by {
      assert p * (a + m * q) == p * a + p * (m * q);
    }
    DivUnique(x + 256 * q, p, a + m * q, r);
  }

  /** Adding an even number keeps the parity. */
  lemma EvenShift(a: int, k: int)
    ensures (a + 2 * k) % 2 == a % 2
  {
  }

  // Arithmetic helpers.

  lemma {:induction false} Pow2Add(i: nat, j: nat)
    ensures Pow2(i) * Pow2(j) == Pow2(i + j)
    decreases i
  {
    if i > 0 {
      Pow2Add(i - 1, j);
      assert Pow2(i) * Pow2(j) == 2 * (Pow2(i - 1) * Pow2(j));
    }
  }

  lemma Pow2Eight()
    ensures Pow2(8) == 256
  {
    assert Pow2(2) == 4;
    assert Pow2(4) == 16;
    assert Pow2(6) == 64;
  }

  lemma HalfByte(b: bv8)
    ensures (b >> 1) as int == b as int / 2
  {
  }

  lemma LowBit(b: bv8)
    ensures (b & 1 == 1) <==> b as int % 2 == 1
  {
  }

  lemma MulAtLeast(d: int, k: int)
    requires d > 0 && k >= 1
    ensures d * k >= d
  {
    assert d * k == d + d * (k - 1);
  }

  /** Division is determined by any quotient-remainder decomposition. */
  lemma DivUnique(x: int, d: int, q: int, r: int)
    requires d > 0 && 0 <= r < d && x == d * q + r
    ensures x / d == q
  {
    var q', r' := x / d, x % d;
    assert x == d * q' + r';
    var k := q - q';
    assert d * q == d * q' + d * k;
    assert d * k == r' - r;
    if k >= 1 {
      MulAtLeast(d, k);
    } else if k <= -1 {
      MulAtLeast(d, -k);
    }
  }

  lemma DivDiv(x: int, p: int)
    requires p > 0
    ensures x / (2 * p) == (x / 2) / p
  {
    var q := x / 2;
    var q2, r2 := q / p, q % p;
    assert x == 2 * q + x % 2;
    assert q == p * q2 + r2;
    assert x == (2 * p) * q2 + (2 * r2 + x % 2);
    DivUnique(x, 2 * p, q2, 2 * r2 + x % 2);
  }
}
