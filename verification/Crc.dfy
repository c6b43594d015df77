/**
 * The CRC16-Modbus checksum of internal/alphaess/decoder.go, and the damage it is bound to detect.
 *
 * A register is an integer below 2^16, so `crc & 1` is `crc % 2` and `crc >> 1` is `crc / 2`;
 * only the exclusive or needs a definition of its own.
 */
module Crc {
  import opened Bytes

  const POLYNOMIAL: int := 0xa001
  const INITIAL: uint16 := 0xffff
  const BYTE_BITS: nat := 8

  type uint16 = x: int | 0 <= x < 0x1_0000

  /** Bitwise exclusive or of two natural numbers. */
  function Xor(x: nat, y: nat): nat
    decreases x + y
  {
    if x == 0 && y == 0 then 0
    else 2 * Xor(x / 2, y / 2) + (if x % 2 != y % 2 then 1 else 0)
  }

  /** One shift of the register. */
  function Round(crc: uint16): uint16 {
    XorBelow(crc / 2, POLYNOMIAL, 16);
    if crc % 2 != 0 then Xor(crc / 2, POLYNOMIAL) else crc / 2
  }

  function Rounds(crc: uint16, n: nat): uint16 {
    if n == 0 then crc else Round(Rounds(crc, n - 1))
  }

  /** The register after one more data byte. */
  function ByteStep(crc: uint16, b: byte): uint16 {
    XorBelow(crc, b, 16);
    Rounds(Xor(crc, b), BYTE_BITS)
  }

  /** The register after `data`, starting from `crc`. */
  function Register(crc: uint16, data: Bytes): uint16
    decreases data
  {
    if data == [] then crc else Register(ByteStep(crc, data[0]), data[1..])
  }

  function Checksum(data: Bytes): uint16 {
    Register(INITIAL, data)
  }

  // ---------------------------------------------------------------- what the checksum is

  /** A polynomial over GF(2): its coefficients, that of the highest power first. */
  type Polynomial = seq<bool>

  /** x^16 + x^15 + x^2 + 1. */
  const GENERATOR: Polynomial :=
    [true, true, false, false, false, false, false, false, false,
     false, false, false, false, false, true, false, true]

  /** A polynomial of `n` equal coefficients. */
  function All(bit: bool, n: nat): (p: Polynomial)
    ensures |p| == n
  {
    if n == 0 then [] else [bit] + All(bit, n - 1)
  }

  /** The polynomial `p` with `q` added to its highest coefficients. */
  function Added(p: Polynomial, q: Polynomial): (r: Polynomial)
    requires |q| <= |p|
    ensures |r| == |p|
  {
    if q == [] then p else [p[0] != q[0]] + Added(p[1..], q[1..])
  }

  /** What long division by the generator leaves. */
  function Remainder(p: Polynomial): Polynomial
    decreases |p|
  {
    if |p| <= 16 then p
    else Remainder((if p[0] then Added(p, GENERATOR) else p)[1..])
  }

  /** The low `n` bits of a number, lowest first. */
  function Bits(x: nat, n: nat): (p: Polynomial)
    ensures |p| == n
  {
    if n == 0 then [] else [x % 2 == 1] + Bits(x / 2, n - 1)
  }

  /** The bits in the order in which a serial line transmits them. */
  function Transmitted(data: Bytes): Polynomial {
    if data == [] then [] else Bits(data[0], 8) + Transmitted(data[1..])
  }

  /**
   * Section 6.2.2 of MODBUS over Serial Line: the transmitted bits, preset with sixteen ones and
   * moved up by sixteen places, leave the checksum as the remainder, its lowest bit first.
   */
  predicate IsModbusChecksum(crc: nat, data: Bytes) {
    crc < 0x1_0000 && Bits(crc, 16) == Remainder(Added(Transmitted(data) + All(false, 16), All(true, 16)))
  }

  /** The nested loops of the source compute the checksum. */
  method Crc16Modbus(data: Bytes) returns (crc: uint16)
    ensures crc == Checksum(data)
    ensures IsModbusChecksum(crc, data)
  {
    ChecksumIsRemainder(data);
    hide IsModbusChecksum;
    ChecksumIsRemainder(data);
    crc := INITIAL;
    for i := 0 to |data|
      invariant Register(crc, data[i..]) == Checksum(data)
    {
      assert data[i..][1..] == data[i + 1..];
      XorBelow(crc, data[i], 16);
      crc := Xor(crc, data[i]);
      ghost var mixed := crc;
      for k := 0 to BYTE_BITS
        invariant crc == Rounds(mixed, k)
      {
        XorBelow(crc / 2, POLYNOMIAL, 16);
        if crc % 2 != 0 {
          crc := Xor(crc / 2, POLYNOMIAL);
        } else {
          crc := crc / 2;
        }
      }
    }
  }

  // ---------------------------------------------------------------- exclusive or

  function Pow2(n: nat): (p: nat)
    ensures p > 0
  {
    if n == 0 then 1 else 2 * Pow2(n - 1)
  }

  lemma Pow2Values()
    ensures Pow2(8) == 0x100 && Pow2(12) == 0x1000 && Pow2(15) == 0x8000 && Pow2(16) == 0x1_0000
  {
    assert Pow2(4) == 16;
    assert Pow2(8) == 16 * Pow2(4);
    assert Pow2(12) == 16 * Pow2(8);
    assert Pow2(15) == 8 * Pow2(12);
  }

  lemma {:induction false} XorBelowPow2(x: nat, y: nat, n: nat)
    requires x < Pow2(n) && y < Pow2(n)
    ensures Xor(x, y) < Pow2(n)
  {
    if n > 0 {
      XorBelowPow2(x / 2, y / 2, n - 1);
    }
  }

  /** The exclusive or of two registers is a register, and of two bytes a byte. */
  lemma XorBelow(x: nat, y: nat, n: nat)
    requires n == 8 || n == 15 || n == 16
    requires var bound := if n == 8 then 0x100 else if n == 15 then 0x8000 else 0x1_0000;
             x < bound && y < bound
    ensures Xor(x, y) < (if n == 8 then 0x100 else if n == 15 then 0x8000 else 0x1_0000)
  {
    Pow2Values();
    XorBelowPow2(x, y, n);
  }

  lemma {:induction false} XorCommutes(x: nat, y: nat)
    ensures Xor(x, y) == Xor(y, x)
    decreases x + y
  {
    if x + y > 0 {
      XorCommutes(x / 2, y / 2);
    }
  }

  lemma {:induction false} XorAssociates(x: nat, y: nat, z: nat)
    ensures Xor(Xor(x, y), z) == Xor(x, Xor(y, z))
    decreases x + y + z
  {
    if x + y + z > 0 {
      XorAssociates(x / 2, y / 2, z / 2);
      XorHalves(x, y);
      XorHalves(y, z);
      XorHalves(Xor(x, y), z);
      XorHalves(x, Xor(y, z));
    }
  }

  lemma XorHalves(x: nat, y: nat)
    ensures Xor(x, y) / 2 == Xor(x / 2, y / 2)
    ensures Xor(x, y) % 2 == (if x % 2 != y % 2 then 1 else 0)
  {
  }

  lemma {:induction false} XorZero(x: nat)
    ensures Xor(x, 0) == x && Xor(0, x) == x && Xor(x, x) == 0
  {
    if x > 0 {
      XorZero(x / 2);
    }
  }

  /** Equal exclusive ors with the same operand come from equal numbers. */
  lemma XorCancels(x: nat, y: nat, m: nat)
    requires Xor(x, m) == Xor(y, m)
    ensures x == y
  {
    XorAssociates(x, m, m);
    XorAssociates(y, m, m);
    XorZero(m);
    XorZero(x);
    XorZero(y);
  }

  /** Numbers whose exclusive or is zero are equal. */
  lemma XorIsZero(x: nat, y: nat)
    requires Xor(x, y) == 0
    ensures x == y
  {
    XorZero(y);
    XorCancels(x, y, y);
  }

  lemma XorSwap(x: nat, y: nat, a: nat, b: nat)
    ensures Xor(Xor(x, a), Xor(y, b)) == Xor(Xor(x, y), Xor(a, b))
  {
    XorAssociates(x, a, Xor(y, b));
    XorAssociates(a, y, b);
    XorCommutes(a, y);
    XorAssociates(y, a, b);
    XorAssociates(x, y, Xor(a, b));
  }

  // ---------------------------------------------------------------- the shift round

  /** The round as one exclusive or, whatever the low bit. */
  function Feedback(x: nat): int {
    if x % 2 != 0 then POLYNOMIAL else 0
  }

  lemma RoundIsXor(x: uint16)
    ensures Round(x) == Xor(x / 2, Feedback(x))
  {
    XorZero(x / 2);
  }

  lemma RoundLinear(x: uint16, y: uint16)
    requires Xor(x, y) < 0x1_0000
    ensures Round(Xor(x, y)) == Xor(Round(x), Round(y))
  {
    RoundIsXor(x);
    RoundIsXor(y);
    RoundIsXor(Xor(x, y));
    XorHalves(x, y);
    XorSwap(x / 2, y / 2, Feedback(x), Feedback(y));
    XorZero(POLYNOMIAL);
    XorZero(0);
  }

  lemma {:induction false} RoundsLinear(x: uint16, y: uint16, n: nat)
    requires Xor(x, y) < 0x1_0000
    ensures Rounds(Xor(x, y), n) == Xor(Rounds(x, n), Rounds(y, n))
  {
    if n > 0 {
      RoundsLinear(x, y, n - 1);
      RoundLinear(Rounds(x, n - 1), Rounds(y, n - 1));
    }
  }

  /** The top bit of the shifted register is the bit shifted out, so nothing is lost. */
  lemma RoundInjective(x: uint16, y: uint16)
    requires Round(x) == Round(y)
    ensures x == y
  {
    RoundIsXor(x);
    RoundIsXor(y);
    if x % 2 == y % 2 {
      XorCancels(x / 2, y / 2, Feedback(x));
    } else {
      XorSwap(x / 2, y / 2, Feedback(x), Feedback(y));
      XorZero(Round(x));
      XorZero(POLYNOMIAL);
      XorIsZero(Xor(x / 2, y / 2), POLYNOMIAL);
      XorBelow(x / 2, y / 2, 15);
    }
  }

  lemma {:induction false} RoundsInjective(x: uint16, y: uint16, n: nat)
    requires Rounds(x, n) == Rounds(y, n)
    ensures x == y
  {
    if n > 0 {
      RoundInjective(Rounds(x, n - 1), Rounds(y, n - 1));
      RoundsInjective(x, y, n - 1);
    }
  }

  lemma {:induction false} RoundsAdd(x: uint16, m: nat, n: nat)
    ensures Rounds(x, m + n) == Rounds(Rounds(x, m), n)
  {
    if n > 0 {
      RoundsAdd(x, m, n - 1);
    }
  }

  /** A register whose low `n` bits are zero is merely shifted by `n` rounds. */
  lemma {:induction false} RoundsShift(g: nat, n: nat)
    requires g * Pow2(n) < 0x1_0000
    ensures Rounds(g * Pow2(n), n) == g
    decreases n
  {
    hide Round, Xor;
    if n > 0 {
      var half := g * Pow2(n - 1);
      assert g * Pow2(n) == 2 * half;
      RoundOfEven(half);
      RoundsAdd(2 * half, 1, n - 1);
      RoundsOnce(2 * half);
      RoundsShift(g, n - 1);
    }
  }

  lemma RoundOfEven(half: nat)
    requires 2 * half < 0x1_0000
    ensures Round(2 * half) == half
  {
    hide Xor;
  }

  lemma RoundsOnce(x: uint16)
    ensures Rounds(x, 1) == Round(x)
  {
    hide Round;
    assert Rounds(x, 0) == x;
  }

  // ---------------------------------------------------------------- error detection

  lemma {:induction false} RegisterAppend(crc: uint16, a: Bytes, b: Bytes)
    ensures Register(crc, a + b) == Register(Register(crc, a), b)
    decreases a
  {
    if a == [] {
      assert a + b == b;
    } else {
      assert (a + b)[1..] == a[1..] + b;
      RegisterAppend(ByteStep(crc, a[0]), a[1..], b);
    }
  }

  /** Once two registers differ, equal further data keeps them different. */
  lemma {:induction false} RegisterKeepsDifference(x: uint16, y: uint16, data: Bytes)
    requires Register(x, data) == Register(y, data)
    ensures x == y
    decreases data
  {
    if data != [] {
      RegisterKeepsDifference(ByteStep(x, data[0]), ByteStep(y, data[0]), data[1..]);
      XorBelow(x, data[0], 16);
      XorBelow(y, data[0], 16);
      RoundsInjective(Xor(x, data[0]), Xor(y, data[0]), BYTE_BITS);
      XorCancels(x, y, data[0]);
    }
  }

  /** The difference of two registers after one byte depends only on the differences before it. */
  lemma StepDifference(x: uint16, y: uint16, a: byte, b: byte)
    ensures Xor(Xor(x, y), Xor(a, b)) < 0x1_0000
    ensures Xor(ByteStep(x, a), ByteStep(y, b)) == Rounds(Xor(Xor(x, y), Xor(a, b)), BYTE_BITS)
  {
    XorBelow(x, a, 16);
    XorBelow(y, b, 16);
    XorBelow(Xor(x, a), Xor(y, b), 16);
    XorSwap(x, y, a, b);
    RoundsLinear(Xor(x, a), Xor(y, b), BYTE_BITS);
  }

  lemma {:induction false} XorDisjoint(a: nat, b: nat, n: nat)
    requires a < Pow2(n)
    ensures Xor(a, b * Pow2(n)) == a + b * Pow2(n)
    decreases n
  {
    if n == 0 {
      XorZero(b);
    } else {
      var p := Pow2(n - 1);
      assert b * Pow2(n) == 2 * (b * p);
      XorHalves(a, b * Pow2(n));
      XorDisjoint(a / 2, b, n - 1);
    }
  }

  lemma {:induction false} Pow2Add(m: nat, n: nat)
    ensures Pow2(m + n) == Pow2(m) * Pow2(n)
  {
    if m > 0 {
      Pow2Add(m - 1, n);
    }
  }

  lemma MulBelow(a: nat, b: nat, c: nat)
    requires a < b && c > 0
    ensures a * c + c <= b * c
  {
    MulMonotone(a + 1, b, c);
    assert (a + 1) * c == a * c + c;
  }

  lemma MulMonotone(a: nat, b: nat, c: nat)
    requires a <= b
    ensures a * c <= b * c
  {
  }

  /**
   * The heart of burst detection: an error pattern of at most 16 consecutive bits, fed through
   * 16 rounds, leaves the register no other way to return to zero than never having left it.
   * The pattern is `g` shifted by `k` bits, and `d` are the bits that spill into a third byte.
   */
  lemma BurstCannotCancel(g: nat, d: nat, k: nat, m: nat, word: uint16)
    requires k + m == BYTE_BITS + BYTE_BITS && g < Pow2(m) && d < Pow2(k)
    requires word == g * Pow2(k) && Rounds(word, k + m) == d
    ensures word == 0 && d == 0
  {
    hide Rounds, Pow2;
    var spill := SpillWord(d, k, m);
    RoundsAdd(word, k, m);
    RoundsShift(g, k);
    RoundsShift(d, m);
    RoundsInjective(Rounds(word, k), spill, m);
  }

  /** `d` below 2^k, moved up by `m` bits, is either zero or at least 2^m. */
  lemma SpillWord(d: nat, k: nat, m: nat) returns (spill: uint16)
    requires k + m == BYTE_BITS + BYTE_BITS && d < Pow2(k)
    ensures spill == d * Pow2(m)
    ensures d == 0 || spill >= Pow2(m)
  {
    Pow2Values();
    Pow2Add(k, m);
    MulBelow(d, Pow2(k), Pow2(m));
    spill := d * Pow2(m);
    if d > 0 {
      MulMonotone(1, d, Pow2(m));
    }
  }

  /** Two byte strings differ by `x` against `y` at one place and agree elsewhere. */
  lemma SameChecksumSameDifference(p: Bytes, x: Bytes, y: Bytes, s: Bytes, c: uint16)
    requires c == Register(INITIAL, p)
    requires Checksum(p + x + s) == Checksum(p + y + s)
    ensures Register(c, x) == Register(c, y)
  {
    RegisterAppend(INITIAL, p + x, s);
    RegisterAppend(INITIAL, p, x);
    RegisterAppend(INITIAL, p + y, s);
    RegisterAppend(INITIAL, p, y);
    RegisterKeepsDifference(Register(c, x), Register(c, y), s);
  }

  /** The difference between the registers after three bytes, if it is none. */
  lemma ThreeByteDifference(c: uint16, x: Bytes, y: Bytes)
    requires |x| == 3 && |y| == 3
    requires Register(c, x) == Register(c, y)
    ensures var d0, d1, d2 := Xor(x[0], y[0]), Xor(x[1], y[1]), Xor(x[2], y[2]);
            d0 < 256 && d1 < 256 && d2 < 256 && Rounds(d0 + 256 * d1, BYTE_BITS + BYTE_BITS) == d2
  {
    hide Xor, Rounds, ByteStep;
    var d0, d1, d2 := Xor(x[0], y[0]), Xor(x[1], y[1]), Xor(x[2], y[2]);
    XorBelow(x[0], y[0], 8);
    XorBelow(x[1], y[1], 8);
    XorBelow(x[2], y[2], 8);
    var u1, v1 := ByteStep(c, x[0]), ByteStep(c, y[0]);
    var u2, v2 := ByteStep(u1, x[1]), ByteStep(v1, y[1]);
    RegisterOfThree(c, x);
    RegisterOfThree(c, y);
    LastStep(u2, v2, x[2], y[2]);
    FirstStep(c, x[0], y[0]);
    StepDifference(u1, v1, x[1], y[1]);
    assert d2 == Rounds(Xor(Rounds(d0, BYTE_BITS), d1), BYTE_BITS);
    TwoBytesAtOnce(d0, d1);
  }

  /** The first differing byte turns its difference into a difference of registers. */
  lemma FirstStep(c: uint16, a: byte, b: byte)
    ensures Xor(a, b) < 256
    ensures Xor(ByteStep(c, a), ByteStep(c, b)) == Rounds(Xor(a, b), BYTE_BITS)
  {
    hide Xor, Rounds, ByteStep;
    XorBelow(a, b, 8);
    StepDifference(c, c, a, b);
    XorZero(c);
    XorZero(Xor(a, b));
  }

  lemma RegisterOfOne(c: uint16, a: byte)
    ensures Register(c, [a]) == ByteStep(c, a)
  {
    hide ByteStep;
    assert [a][1..] == [];
  }

  lemma RegisterOfThree(c: uint16, x: Bytes)
    requires |x| == 3
    ensures Register(c, x) == ByteStep(ByteStep(ByteStep(c, x[0]), x[1]), x[2])
  {
    hide ByteStep, Register;
    assert x == [x[0]] + [x[1]] + [x[2]];
    RegisterAppend(c, [x[0]] + [x[1]], [x[2]]);
    RegisterAppend(c, [x[0]], [x[1]]);
    RegisterOfOne(c, x[0]);
    RegisterOfOne(ByteStep(c, x[0]), x[1]);
    RegisterOfOne(ByteStep(ByteStep(c, x[0]), x[1]), x[2]);
  }

  lemma LastStep(u: uint16, v: uint16, a: byte, b: byte)
    requires ByteStep(u, a) == ByteStep(v, b)
    ensures Xor(u, v) == Xor(a, b)
  {
    hide Xor, Rounds, ByteStep;
    StepDifference(u, v, a, b);
    XorZero(ByteStep(u, a));
    var e := Xor(Xor(u, v), Xor(a, b));
    RoundsShift(0, BYTE_BITS);
    RoundsInjective(e, 0, BYTE_BITS);
    XorIsZero(Xor(u, v), Xor(a, b));
  }

  /** Feeding two difference bytes one after the other is feeding them as one 16-bit word. */
  lemma TwoBytesAtOnce(d0: nat, d1: nat)
    requires d0 < 256 && d1 < 256
    ensures Xor(Rounds(d0, BYTE_BITS), d1) < 0x1_0000
    ensures Rounds(Xor(Rounds(d0, BYTE_BITS), d1), BYTE_BITS) == Rounds(d0 + 256 * d1, BYTE_BITS + BYTE_BITS)
  {
    Pow2Values();
    XorBelow(Rounds(d0, BYTE_BITS), d1, 16);
    RoundsShift(d1, BYTE_BITS);
    XorDisjoint(d0, d1, 8);
    RoundsLinear(d0, 256 * d1, BYTE_BITS);
    RoundsAdd(d0 + 256 * d1, BYTE_BITS, BYTE_BITS);
  }

  /** Two bytes whose low `k` bits are zero are a word of `16 - k` bits, shifted by `k`. */
  lemma BurstWord(d0: nat, d1: nat, k: nat) returns (g: nat)
    requires d0 < 256 && d1 < 256 && k <= 8 && d0 % Pow2(k) == 0
    ensures g < Pow2(16 - k) && g * Pow2(k) == d0 + 256 * d1
  {
    var q, r := Pow2(k), Pow2(8 - k);
    Pow2Values();
    Pow2Add(k, 8 - k);
    Pow2Add(8 - k, 8);
    g := WordOf(d0, d1, q, r);
  }

  lemma WordOf(d0: nat, d1: nat, q: nat, r: nat) returns (g: nat)
    requires d0 < 256 && d1 < 256 && q > 0 && q * r == 256 && d0 % q == 0
    ensures g < r * 256 && g * q == d0 + 256 * d1
  {
    var h := d0 / q;
    MulFits(h, r, q);
    g := h + r * d1;
    MulDistributes(h, r, d1, q);
    MulMonotone(d1, 255, r);
  }

  lemma BurstIsNothing(d0: nat, d1: nat, d2: nat, k: nat)
    requires d0 < 256 && d1 < 256 && k <= 8 && d0 % Pow2(k) == 0 && d2 < Pow2(k)
    requires Rounds(d0 + 256 * d1, BYTE_BITS + BYTE_BITS) == d2
    ensures d0 == 0 && d1 == 0 && d2 == 0
  {
    var m := BYTE_BITS + BYTE_BITS - k;
    var g := BurstWord(d0, d1, k);
    BurstCannotCancel(g, d2, k, m, d0 + 256 * d1);
  }

  lemma MulFits(h: nat, r: nat, q: nat)
    requires h * q < r * q
    ensures h < r
  {
    if h >= r {
      MulMonotone(r, h, q);
      assert false;
    }
  }

  lemma MulDistributes(h: nat, r: nat, d: nat, q: nat)
    requires q * r == 256
    ensures (h + r * d) * q == h * q + 256 * d
  {
    assert (r * d) * q == (q * r) * d;
  }

  /**
   * Three bytes that differ by a burst of at most 16 bits. Bits count in transmission order, low
   * bit of each byte first: the burst starts at bit `k` of the first byte, or later, and ends
   * before bit `k` of the third.
   */
  predicate IsBurst(x: Bytes, y: Bytes, k: nat) {
    |x| == 3 && |y| == 3 && k <= 8 && Xor(x[0], y[0]) % Pow2(k) == 0 && Xor(x[2], y[2]) < Pow2(k)
  }

  /** Two strings of equal length that differ by a burst of at most 16 bits never share a checksum. */
  lemma BurstDetected(p: Bytes, x: Bytes, y: Bytes, s: Bytes, k: nat)
    requires IsBurst(x, y, k)
    requires Checksum(p + x + s) == Checksum(p + y + s)
    ensures x == y
  {
    var d0, d1, d2 := Xor(x[0], y[0]), Xor(x[1], y[1]), Xor(x[2], y[2]);
    var c := Register(INITIAL, p);
    SameChecksumSameDifference(p, x, y, s, c);
    ThreeByteDifference(c, x, y);
    BurstIsNothing(d0, d1, d2, k);
    XorIsZero(x[0], y[0]);
    XorIsZero(x[1], y[1]);
    XorIsZero(x[2], y[2]);
  }

  /** Damage confined to two adjacent bytes always changes the checksum. */
  lemma AdjacentBytesDetected(p: Bytes, x: Bytes, y: Bytes, s: Bytes)
    requires |x| == 2 && |y| == 2
    requires Checksum(p + x + s) == Checksum(p + y + s)
    ensures x == y
  {
    // One more equal byte is appended, so that a third byte always exists.
    RegisterAppend(INITIAL, p + x + s, [0]);
    RegisterAppend(INITIAL, p + y + s, [0]);
    var t := s + [0];
    assert p + x + s + [0] == p + (x + t[..1]) + t[1..];
    assert p + y + s + [0] == p + (y + t[..1]) + t[1..];
    XorZero(t[0]);
    BurstDetected(p, x + t[..1], y + t[..1], t[1..], 0);
    assert x == (x + t[..1])[..2] && y == (y + t[..1])[..2];
  }

  // ---------------------------------------------------------------- the stored checksum

  /** Equal low bytes leave a difference in the high byte only. */
  lemma HighByteDifference(h: byte, g: byte, low: byte)
    ensures Xor(BigEndian16(h, low), BigEndian16(g, low)) == 256 * Xor(h, g)
  {
    hide Xor;
    Pow2Values();
    XorDisjoint(low, h, 8);
    XorDisjoint(low, g, 8);
    XorSwap(low, low, 256 * h, 256 * g);
    XorZero(low);
    XorZero(Xor(256 * h, 256 * g));
    XorOfHighBytes(h, g);
  }

  lemma XorOfHighBytes(x: nat, y: nat)
    ensures Xor(256 * x, 256 * y) == 256 * Xor(x, y)
  {
    hide Xor;
    XorDouble(x, y);
    XorDouble(2 * x, 2 * y);
    XorDouble(4 * x, 4 * y);
    XorDouble(8 * x, 8 * y);
    XorDouble(16 * x, 16 * y);
    XorDouble(32 * x, 32 * y);
    XorDouble(64 * x, 64 * y);
    XorDouble(128 * x, 128 * y);
  }

  lemma XorDouble(u: nat, v: nat)
    ensures Xor(2 * u, 2 * v) == 2 * Xor(u, v)
  {
    XorHalves(2 * u, 2 * v);
  }

  /** Eight rounds turn the difference `d` of a byte into the difference `e` of the register's high byte. */
  predicate Compensates(d: nat, e: nat) {
    d < 256 && Rounds(d, BYTE_BITS) == 256 * e
  }

  /**
   * The checksum is stored high byte first, so damage to the last covered byte and the first
   * checksum byte can go unnoticed: it does if and only if the one difference compensates
   * the other.
   */
  lemma BoundaryDamage(p: Bytes, x: byte, y: byte, h: byte, g: byte, low: byte)
    requires Checksum(p + [x]) == BigEndian16(h, low)
    ensures Checksum(p + [y]) == BigEndian16(g, low) <==> Compensates(Xor(x, y), Xor(h, g))
  {
    hide Xor, Rounds, ByteStep, Register;
    var c := Register(INITIAL, p);
    RegisterAppend(INITIAL, p, [x]);
    RegisterAppend(INITIAL, p, [y]);
    RegisterOfOne(c, x);
    RegisterOfOne(c, y);
    FirstStep(c, x, y);
    HighByteDifference(h, g, low);
    var was, now := BigEndian16(h, low), BigEndian16(g, low);
    if Xor(was, Checksum(p + [y])) == Xor(was, now) {
      XorCommutes(was, Checksum(p + [y]));
      XorCommutes(was, now);
      XorCancels(Checksum(p + [y]), now, was);
    }
  }

  /** One such pair of differences: 0x0c in the last covered byte and 0x05 in the checksum. */
  lemma UnnoticedDifference()
    ensures Compensates(0x0c, 0x05)
  {
    hide Rounds;
    assert Pow2(2) == 4 && Pow2(5) == 32;
    RoundsShift(3, 2);
    RoundsAdd(0x0c, 2, 6);
    RoundsAdd(3, 1, 5);
    RoundsOnce(3);
    XorZero(0x5000);
    assert Xor(1, POLYNOMIAL) == 2 * Xor(0, 0x5000);
    assert Round(3) == 0x500 * 32;
    RoundsShift(0x500, 5);
  }

  // ---------------------------------------------------------------- the checksum is a remainder

  lemma {:induction false} BitsOfXor(x: nat, y: nat, n: nat)
    ensures Bits(Xor(x, y), n) == Added(Bits(x, n), Bits(y, n))
  {
    hide Xor;
    XorHalves(x, y);
    if n > 0 {
      BitsOfXor(x / 2, y / 2, n - 1);
    }
  }

  /** Halving a register shifts its bits, and a zero comes in at the top. */
  lemma {:induction false} BitsOfHalf(x: nat, n: nat)
    requires n > 0 && x < Pow2(n)
    ensures Bits(x / 2, n) == Bits(x, n)[1..] + [false]
  {
    if n > 1 {
      BitsOfHalf(x / 2, n - 1);
    } else {
      assert Pow2(1) == 2 && x / 2 == 0;
      assert Bits(0, 1) == [false] + Bits(0, 0);
    }
  }

  lemma FourBits(x: nat, n: nat)
    requires n >= 4
    ensures Bits(x, n) == [x % 2 == 1, x / 2 % 2 == 1, x / 4 % 2 == 1, x / 8 % 2 == 1] + Bits(x / 16, n - 4)
  {
    assert Bits(x, n) == [x % 2 == 1] + Bits(x / 2, n - 1);
    assert Bits(x / 2, n - 1) == [x / 2 % 2 == 1] + Bits(x / 4, n - 2);
    assert Bits(x / 4, n - 2) == [x / 4 % 2 == 1] + Bits(x / 8, n - 3);
  }

  /** The feedback of a round is the generator without its highest power. */
  lemma PolynomialBits()
    ensures Bits(POLYNOMIAL, 16) == GENERATOR[1..]
  {
    hide Bits;
    FourBits(0xa001, 16);
    FourBits(0xa00, 12);
    FourBits(0xa0, 8);
    FourBits(0xa, 4);
    assert |Bits(0, 0)| == 0;
  }

  lemma OnesBits()
    ensures Bits(0xffff, 16) == All(true, 16)
  {
    hide Bits, All;
    FourBits(0xffff, 16);
    FourBits(0xfff, 12);
    FourBits(0xff, 8);
    FourBits(0xf, 4);
    assert |Bits(0, 0)| == 0;
    AllAre(true, 16);
    assert forall i | 0 <= i < 16 :: Bits(0xffff, 16)[i];
  }

  lemma {:induction false} AllAre(bit: bool, n: nat)
    ensures forall i | 0 <= i < n :: All(bit, n)[i] == bit
  {
    if n > 0 {
      AllAre(bit, n - 1);
    }
  }

  lemma {:induction false} AddedToZeros(p: Polynomial)
    ensures Added(All(false, |p|), p) == p
  {
    if p != [] {
      AddedToZeros(p[1..]);
    }
  }

  /** A zero coefficient at the end of what is added changes nothing. */
  lemma {:induction false} AddedZero(p: Polynomial, q: Polynomial)
    requires |q| < |p|
    ensures Added(p, q + [false]) == Added(p, q)
    decreases |q|
  {
    if q == [] {
      assert ([] + [false])[1..] == [];
      assert Added(p, [false]) == [p[0]] + Added(p[1..], []);
    } else {
      assert (q + [false])[1..] == q[1..] + [false];
      AddedZero(p[1..], q[1..]);
    }
  }

  lemma {:induction false} AddedTwice(p: Polynomial, q: Polynomial, r: Polynomial)
    requires |q| == |r| <= |p|
    ensures Added(Added(p, q), r) == Added(p, Added(q, r))
    decreases |q|
  {
    if q != [] {
      AddedTwice(p[1..], q[1..], r[1..]);
    }
  }

  /** The register after bits that come in one at a time. */
  function Shifted(crc: uint16, bits: Polynomial): uint16
    decreases bits
  {
    if bits == [] then crc else Shifted(Round(Mixed(crc, bits[0])), bits[1..])
  }

  /** The register with one bit added to its lowest. */
  function Mixed(crc: uint16, bit: bool): (x: uint16)
    ensures x / 2 == crc / 2 && x % 2 == if (crc % 2 == 1) != bit then 1 else 0
  {
    if !bit then crc else if crc % 2 == 1 then crc - 1 else crc + 1
  }

  /** A round is one step of the division. */
  lemma RoundDivides(crc: uint16, bit: bool)
    ensures var c := Bits(crc, 16);
            Bits(Round(Mixed(crc, bit)), 16) ==
            if c[0] != bit then Added(c[1..] + [false], GENERATOR[1..]) else c[1..] + [false]
  {
    hide Xor;
    Pow2Values();
    BitsOfHalf(crc, 16);
    PolynomialBits();
    BitsOfXor(crc / 2, POLYNOMIAL, 16);
  }

  lemma {:induction false} DivisionIsShifting(crc: uint16, bits: Polynomial)
    ensures Remainder(Added(bits + All(false, 16), Bits(crc, 16))) == Bits(Shifted(crc, bits), 16)
    decreases |bits|
  {
    hide Round, Mixed, Bits, All;
    var c, zeros := Bits(crc, 16), All(false, 16);
    if bits == [] {
      assert bits + zeros == zeros;
      AddedToZeros(c);
    } else {
      var p, rest := Added(bits + zeros, c), bits[1..] + zeros;
      assert (bits + zeros)[1..] == rest;
      assert p == [bits[0] != c[0]] + Added(rest, c[1..]);
      AddedZero(rest, c[1..]);
      var next := c[1..] + [false];
      assert p[1..] == Added(rest, next);
      RoundDivides(crc, bits[0]);
      if p[0] {
        assert Added(p, GENERATOR)[1..] == Added(p[1..], GENERATOR[1..]);
        AddedTwice(rest, next, GENERATOR[1..]);
      }
      DivisionIsShifting(Round(Mixed(crc, bits[0])), bits[1..]);
    }
  }

  lemma {:induction false} ShiftedAppend(crc: uint16, a: Polynomial, b: Polynomial)
    ensures Shifted(crc, a + b) == Shifted(Shifted(crc, a), b)
    decreases |a|
  {
    hide Round, Mixed;
    if a == [] {
      assert a + b == b;
    } else {
      assert (a + b)[1..] == a[1..] + b;
      ShiftedAppend(Round(Mixed(crc, a[0])), a[1..], b);
    }
  }

  /** A mixed-in number gives up its lowest bit in a round and is halved. */
  lemma RoundOfMixed(crc: uint16, x: uint16)
    ensures Xor(crc, x) < 0x1_0000 && Round(Xor(crc, x)) == Xor(Round(Mixed(crc, x % 2 == 1)), x / 2)
  {
    XorBelow(crc, x, 16);
    XorHalves(crc, x);
    var mixed := Mixed(crc, x % 2 == 1);
    RoundIsXor(Xor(crc, x));
    RoundIsXor(mixed);
    XorAssociates(crc / 2, x / 2, Feedback(mixed));
    XorCommutes(x / 2, Feedback(mixed));
    XorAssociates(crc / 2, Feedback(mixed), x / 2);
  }

  lemma {:induction false} RoundsAreShifting(crc: uint16, x: uint16, n: nat)
    requires x < Pow2(n)
    ensures Xor(crc, x) < 0x1_0000 && Rounds(Xor(crc, x), n) == Shifted(crc, Bits(x, n))
    decreases n
  {
    hide Round, Mixed, Xor;
    XorBelow(crc, x, 16);
    if n == 0 {
      XorZero(crc);
    } else {
      var next := Round(Mixed(crc, x % 2 == 1));
      RoundOfMixed(crc, x);
      RoundsAdd(Xor(crc, x), 1, n - 1);
      RoundsOnce(Xor(crc, x));
      assert Bits(x, n)[1..] == Bits(x / 2, n - 1);
      RoundsAreShifting(next, x / 2, n - 1);
    }
  }

  lemma {:induction false} RegisterIsShifting(crc: uint16, data: Bytes)
    ensures Register(crc, data) == Shifted(crc, Transmitted(data))
    decreases data
  {
    hide Shifted, Rounds, Xor, Bits;
    if data == [] {
      assert Shifted(crc, []) == crc by { ShiftedNothing(crc); }
    } else {
      Pow2Values();
      RoundsAreShifting(crc, data[0], 8);
      ShiftedAppend(crc, Bits(data[0], 8), Transmitted(data[1..]));
      RegisterIsShifting(ByteStep(crc, data[0]), data[1..]);
    }
  }

  lemma ShiftedNothing(crc: uint16)
    ensures Shifted(crc, []) == crc
  {
  }

  /** What the folded register computes is the remainder of the division. */
  lemma ChecksumIsRemainder(data: Bytes)
    ensures IsModbusChecksum(Checksum(data), data)
  {
    hide Register, Shifted, Bits, Remainder, Added, All, Transmitted;
    RegisterIsShifting(INITIAL, data);
    DivisionIsShifting(INITIAL, Transmitted(data));
    OnesBits();
  }

  /** And nothing else is: the remainder determines the checksum. */
  lemma ChecksumIsUnique(crc: nat, data: Bytes)
    ensures IsModbusChecksum(crc, data) <==> crc == Checksum(data)
  {
    hide Bits, Remainder, Added, All, Transmitted, Checksum;
    ChecksumIsRemainder(data);
    Pow2Values();
    if IsModbusChecksum(crc, data) {
      BitsInjective(crc, Checksum(data), 16);
    }
  }

  lemma {:induction false} BitsInjective(x: nat, y: nat, n: nat)
    requires x < Pow2(n) && y < Pow2(n) && Bits(x, n) == Bits(y, n)
    ensures x == y
  {
    if n > 0 {
      assert Bits(x, n)[0] == Bits(y, n)[0] && Bits(x, n)[1..] == Bits(y, n)[1..];
      BitsInjective(x / 2, y / 2, n - 1);
    }
  }

  /** The known answer of section 6.2.2 of MODBUS over Serial Line, and the empty string. */
  lemma KnownChecksums()
    ensures Checksum([]) == 0xffff && Checksum([0x02, 0x07]) == 0x1241
  {
    hide Register, ByteStep;
    assert Checksum([]) == 0xffff by { RegisterOfNothing(INITIAL); }
    assert [0x02, 0x07] == [0x02] + [0x07];
    RegisterAppend(INITIAL, [0x02], [0x07]);
    RegisterOfOne(INITIAL, 0x02);
    RegisterOfOne(0x813e, 0x07);
    KnownSteps();
  }

  lemma RegisterOfNothing(crc: uint16)
    ensures Register(crc, []) == crc
  {
  }

  lemma KnownSteps()
    ensures ByteStep(0xffff, 0x02) == 0x813e && ByteStep(0x813e, 0x07) == 0x1241
  {
    hide Rounds, RoundValue;
    KnownMixes();
    FirstByteRounds();
    SecondByteRounds();
  }

  lemma FirstByteRounds()
    ensures Rounds(0xfffd, 8) == 0x813e
  {
    hide Rounds, RoundValue;
    FourRounds(0xfffd, 0xdfff, 0xcffe, 0x67ff, 0x93fe) by { FirstHalf(); }
    FourRounds(0x93fe, 0x49ff, 0x84fe, 0x427f, 0x813e) by { SecondHalf(); }
    RoundsAdd(0xfffd, 4, 4);
  }

  lemma SecondByteRounds()
    ensures Rounds(0x8139, 8) == 0x1241
  {
    hide Rounds, RoundValue;
    FourRounds(0x8139, 0xe09d, 0xd04f, 0xc826, 0x6413) by { ThirdHalf(); }
    FourRounds(0x6413, 0x9208, 0x4904, 0x2482, 0x1241) by { FourthHalf(); }
    RoundsAdd(0x8139, 4, 4);
  }

  lemma FirstHalf()
    ensures RoundValue(0xfffd) == 0xdfff && RoundValue(0xdfff) == 0xcffe
    ensures RoundValue(0xcffe) == 0x67ff && RoundValue(0x67ff) == 0x93fe
  {
  }

  lemma SecondHalf()
    ensures RoundValue(0x93fe) == 0x49ff && RoundValue(0x49ff) == 0x84fe
    ensures RoundValue(0x84fe) == 0x427f && RoundValue(0x427f) == 0x813e
  {
  }

  lemma ThirdHalf()
    ensures RoundValue(0x8139) == 0xe09d && RoundValue(0xe09d) == 0xd04f
    ensures RoundValue(0xd04f) == 0xc826 && RoundValue(0xc826) == 0x6413
  {
  }

  lemma FourthHalf()
    ensures RoundValue(0x6413) == 0x9208 && RoundValue(0x9208) == 0x4904
    ensures RoundValue(0x4904) == 0x2482 && RoundValue(0x2482) == 0x1241
  {
  }

  lemma KnownMixes()
    ensures Xor(0xffff, 0x02) == 0xfffd && Xor(0x813e, 0x07) == 0x8139
  {
    hide Xor;
    XorHalves(0xffff, 0x02);
    XorHalves(0x7fff, 0x01);
    XorZero(0x3fff);
    XorHalves(0x813e, 0x07);
    XorHalves(0x409f, 0x03);
    XorHalves(0x204f, 0x01);
    XorZero(0x1027);
  }

  /** The value of a round, in plain arithmetic. */
  function RoundValue(x: uint16): nat {
    var half := x / 2;
    if x % 2 == 0 then half
    else
      var top := half / 0x2000;
      0x2000 * (if top == 0 then 5 else if top == 1 then 4 else if top == 2 then 7 else 6)
      + half / 2 % 0x1000 * 2 + (1 - half % 2)
  }

  /** Low bits that the other operand does not have stay as they are. */
  lemma {:induction false} XorAbove(a: nat, c: nat, y: nat, n: nat)
    requires c < Pow2(n)
    ensures Xor(a * Pow2(n) + c, y * Pow2(n)) == Xor(a, y) * Pow2(n) + c
    decreases n
  {
    hide Xor;
    if n > 0 {
      var p := Pow2(n - 1);
      assert a * Pow2(n) == 2 * (a * p) && y * Pow2(n) == 2 * (y * p);
      assert Xor(a, y) * Pow2(n) == 2 * (Xor(a, y) * p);
      HalvesOfEven(a * p, c, y * p);
      XorAbove(a, c / 2, y, n - 1);
    }
  }

  lemma HalvesOfEven(a: nat, c: nat, y: nat)
    ensures Xor(2 * a + c, 2 * y) == 2 * Xor(a + c / 2, y) + c % 2
  {
    hide Xor;
    XorHalves(2 * a + c, 2 * y);
    assert (2 * a + c) / 2 == a + c / 2;
  }

  lemma RoundIsValue(x: uint16)
    ensures Round(x) == RoundValue(x)
  {
    hide Xor;
    var half := x / 2;
    if x % 2 != 0 {
      var top, low := half / 2 / 0x1000, half / 2 % 0x1000;
      assert top < 4;
      Pow2Values();
      XorAbove(top, low, 5, 12);
      HalvesOfPolynomial(half);
      XorWithFive(top);
      assert half / 0x2000 == top;
    }
  }

  lemma HalvesOfPolynomial(half: nat)
    ensures Xor(half, POLYNOMIAL) == 2 * Xor(half / 2, 0x5000) + (1 - half % 2)
  {
    hide Xor;
    XorHalves(half, POLYNOMIAL);
  }

  lemma XorWithFive(top: nat)
    requires top < 4
    ensures Xor(top, 5) == if top == 0 then 5 else if top == 1 then 4 else if top == 2 then 7 else 6
  {
    assert Xor(0, 1) == 1 && Xor(1, 2) == 3;
  }

  lemma FourRounds(a: uint16, b: uint16, c: uint16, d: uint16, e: uint16)
    requires RoundValue(a) == b && RoundValue(b) == c && RoundValue(c) == d && RoundValue(d) == e
    ensures Rounds(a, 4) == e
  {
    hide Round, RoundValue;
    RoundIsValue(a);
    RoundIsValue(b);
    RoundIsValue(c);
    RoundIsValue(d);
    assert Rounds(a, 0) == a && Rounds(a, 1) == b && Rounds(a, 2) == c && Rounds(a, 3) == d;
  }
}
