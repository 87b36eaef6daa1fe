/** The divider arithmetic and the register packing of hw/clk/clk.c. */
module Clock {
  import opened Bytes
  import opened Bits

  // ---- The divider ----

  /** a + b/c is the divider 2430000/outFreq, cut off behind the fourth digit. */
  const VCO: nat := 2430000
  const C: nat := 10000

  function MsxA(outFreq: nat): nat
    requires outFreq > 0
  {
    VCO / outFreq
  }

  /** (int)((msx - msx_a) * 10000), on exact fractions. */
  function MsxB(outFreq: nat): nat
    requires outFreq > 0
  {
    (VCO - MsxA(outFreq) * outFreq) * C / outFreq
  }

  function Scaled(outFreq: nat): nat
    requires outFreq > 0
  {
    MsxA(outFreq) * C + MsxB(outFreq)
  }

  function CalcP1(a: nat, b: nat, c: nat): int
    requires c > 0
  {
    (a * c + b) * 128 / c - 512
  }

  function CalcP2(b: nat, c: nat): nat
    requires c > 0
  {
    (b * 128) % c
  }

  lemma QuotientBounds(x: nat, y: nat)
    requires y > 0
    ensures x / y * y <= x < (x / y + 1) * y
  {
  }

  lemma QuotientIs(x: nat, y: nat, q: nat)
    requires y > 0 && q * y <= x < (q + 1) * y
    ensures x / y == q
  {
    QuotientBounds(x, y);
    Grows(x / y + 1, q, y);
    Grows(q + 1, x / y, y);
  }

  /** The divider is below or at the exact one, by less than one ten-thousandth. */
  lemma DividerAccuracy(outFreq: nat)
    requires outFreq > 0
    ensures Scaled(outFreq) * outFreq <= 2430000 * 10000 < (Scaled(outFreq) + 1) * outFreq
    ensures MsxB(outFreq) < 10000
    ensures Scaled(outFreq) == 2430000 * 10000 / outFreq && Scaled(outFreq) == MsxA(outFreq) * 10000 + MsxB(outFreq)
  {
    var a, b := MsxA(outFreq), MsxB(outFreq);
    var r := VCO - a * outFreq;
    QuotientBounds(VCO, outFreq);
    QuotientBounds(r * C, outFreq);
    assert r < outFreq;
    Less(r, outFreq, b);
    Expand(a, b, outFreq);
    QuotientIs(VCO * C, outFreq, Scaled(outFreq));
  }

  lemma Less(r: nat, f: nat, b: nat)
    requires r < f && b * f <= r * C
    ensures b < C
  {
    Grows(C, b, f);
  }

  lemma Expand(a: nat, b: nat, f: nat)
    ensures (a * C + b) * f == a * f * C + b * f
    ensures (a * C + b + 1) * f == a * f * C + b * f + f
  {
  }

  /** p1, p2 and p3 stand for the divider without any loss. */
  lemma PartsAreExact(a: nat, b: nat, c: nat)
    requires c > 0
    ensures (CalcP1(a, b, c) + 512) * c + CalcP2(b, c) == 128 * (a * c + b)
  {
    var x := (a * c + b) * 128;
    SameRemainder(a * 128, b * 128, c);
    assert x == a * 128 * c + b * 128;
    assert x / c * c + x % c == x;
  }

  lemma SameRemainder(k: nat, y: nat, c: nat)
    requires c > 0
    ensures (k * c + y) % c == y % c
  {
    var q := (k * c + y) / c;
    var r := (k * c + y) % c;
    QuotientBounds(y, c);
    assert (k + y / c) * c == k * c + y / c * c;
    assert (k + y / c + 1) * c == k * c + (y / c + 1) * c;
    QuotientIs(k * c + y, c, k + y / c);
    assert r == k * c + y - q * c;
  }

  /** No int overflows exactly from 1449 kHz on, the intermediate products included. */
  lemma NoOverflowIff(outFreq: nat)
    requires outFreq > 0
    ensures Scaled(outFreq) * 128 <= 2147483647 <==> outFreq >= 1449
  {
    DividerAccuracy(outFreq);
    var n := Scaled(outFreq);
    Grows(16777216, n, outFreq);
    Grows(1449, outFreq, 16777216);
    Grows(outFreq, 1448, n + 1);
  }

  /** p1 is negative exactly above 607500 kHz; otherwise it fits its 18 bits of the registers. */
  lemma PartsFitIff(outFreq: nat)
    requires outFreq >= 1449
    ensures var p1 := CalcP1(MsxA(outFreq), MsxB(outFreq), C);
      (0 <= p1 < 0x4_0000 <==> outFreq <= 607500) && (p1 < 0 <==> outFreq > 607500)
  {
    DividerAccuracy(outFreq);
    NoOverflowIff(outFreq);
    var n := Scaled(outFreq);
    Grows(n + 1, 40000, outFreq);
    Grows(40000, n, outFreq);
  }

  // ---- The registers ----

  lemma EightBits()
    ensures TwoTo(8) == 256
  {
  }

  /** x | y on unsigned chars. */
  function OrBytes(x: byte, y: byte): byte {
    EightBits();
    OrBelow(x, y, 8);
    Or(x, y)
  }

  /** The two low bits and the six high bits of register 88 do not meet. */
  lemma OrDisjoint(x: byte, m: nat)
    requires x < 4 && m < 64
    ensures OrBytes(x, m * 4) == x + m * 4
  {
    OrHigh(m, 0, x, 2);
    OrSame(x, m * 4);
    assert TwoTo(2) == 4;
  }

  lemma {:induction false} OrSame(x: nat, y: nat)
    ensures Or(x, y) == Or(y, x)
    decreases x
  {
    if x > 0 {
      OrSame(x / 2, y / 2);
      OrStep(x, y);
      OrStep(y, x);
    }
  }

  function Byte(x: int, shift: nat): byte
    requires shift > 0
  {
    x / shift % 256
  }

  /** Four registers, the lowest first, in steps of k. */
  function Number(a: nat, k: nat, b: nat, c: nat, d: nat): nat {
    a + k * b + k * 0x100 * c + k * 0x1_0000 * d
  }

  /** The two bits of p1 in register 88. */
  function Top(p1: int): (b: byte)
    ensures b < 4
  {
    p1 / 0x1_0000 % 4
  }

  /** What registers 86 to 95 say about p1, p2 and p3. */
  function RegP1(r: seq<byte>): nat
    requires |r| == 256
  {
    Number(r[86], 0x100, r[87], r[88] % 4, 0)
  }

  function RegP2(r: seq<byte>): nat
    requires |r| == 256
  {
    Number(r[88] / 4, 0x40, r[89], r[90], r[91])
  }

  function RegP3(r: seq<byte>): nat
    requires |r| == 256
  {
    Number(r[92], 0x100, r[93], r[94], r[95])
  }

  /** Reg_Store, by register address. */
  class RegStore {
    const regs: array<byte>

    ghost predicate Valid()
      reads this
    {
      regs.Length == 256
    }

    constructor (init: seq<byte>)
      requires |init| == 256
      ensures Valid() && regs[..] == init && fresh(regs)
    {
      regs := new byte[256](i requires 0 <= i < 256 => init[i]);
    }

    /** calc_msx_reg_p1. */
    method CalcMsxRegP1(p1: int)
      requires Valid()
      modifies regs
      ensures regs[86] == Byte(p1, 1) && regs[87] == Byte(p1, 0x100) && regs[88] == Top(p1)
      ensures forall i | 0 <= i < 256 && !(86 <= i <= 88) :: regs[i] == old(regs[i])
    {
      regs[86] := Byte(p1, 1);
      regs[87] := Byte(p1, 0x100);
      regs[88] := Top(p1);
    }

    /** calc_msx_reg_p2, which adds to register 88 what calc_msx_reg_p1 left there. */
    method CalcMsxRegP2(p2: int)
      requires Valid()
      modifies regs
      ensures regs[88] == OrBytes(old(regs[88]), p2 % 64 * 4)
      ensures regs[89] == Byte(p2, 0x40) && regs[90] == Byte(p2, 0x4000) && regs[91] == Byte(p2, 0x40_0000)
      ensures forall i | 0 <= i < 256 && !(88 <= i <= 91) :: regs[i] == old(regs[i])
    {
      regs[88] := OrBytes(regs[88], p2 % 64 * 4);
      regs[89] := Byte(p2, 0x40);
      regs[90] := Byte(p2, 0x4000);
      regs[91] := Byte(p2, 0x40_0000);
    }

    /** calc_msx_reg_p3. */
    method CalcMsxRegP3(p3: int)
      requires Valid()
      modifies regs
      ensures regs[92] == Byte(p3, 1) && regs[93] == Byte(p3, 0x100)
      ensures regs[94] == Byte(p3, 0x1_0000) && regs[95] == Byte(p3, 0x100_0000)
      ensures forall i | 0 <= i < 256 && !(92 <= i <= 95) :: regs[i] == old(regs[i])
    {
      regs[92] := Byte(p3, 1);
      regs[93] := Byte(p3, 0x100);
      regs[94] := Byte(p3, 0x1_0000);
      regs[95] := Byte(p3, 0x100_0000);
    }

    /**
     * clock_5338_setFreq, for the frequencies without an int overflow. Whatever the registers held
     * before, they now stand for this divider if and only if it is not too small for p1.
     */
    method SetFreq(outFreq: nat)
      requires Valid() && 1449 <= outFreq
      modifies regs
      ensures DivisorParts(RegP1(regs[..]), RegP2(regs[..]), RegP3(regs[..]), 2430000 * 10000 / outFreq)
        <==> outFreq <= 607500
      ensures forall i | 0 <= i < 256 && !(86 <= i <= 95) :: regs[i] == old(regs[i])
    {
      hide MsxA, MsxB, CalcP1, CalcP2, Byte, OrBytes, Top, RegP1, RegP2, RegP3, DivisorParts;
      var a, b := MsxA(outFreq), MsxB(outFreq);
      var p1, p2 := CalcP1(a, b, C), CalcP2(b, C);
      PartsOf(outFreq);
      CalcMsxRegP1(p1);
      CalcMsxRegP2(p2);
      CalcMsxRegP3(C);
      Unpacks(regs[..], p1, p2);
      NoOtherParts(In18Bits(p1), p1, p2, VCO * C / outFreq);
    }
  }

  /** (p1, p2, c) stand for the divider n/10000 of the clock. */
  predicate DivisorParts(p1: int, p2: nat, c: nat, n: nat) {
    c == 10000 && (p1 + 512) * c + p2 == 128 * n
  }

  lemma PartsOf(outFreq: nat)
    requires 1449 <= outFreq
    ensures var a, b := MsxA(outFreq), MsxB(outFreq);
      var p1, p2 := CalcP1(a, b, C), CalcP2(b, C);
      -512 <= p1 < 0x4_0000 && (p1 < 0 <==> outFreq > 607500) && p2 < C && DivisorParts(p1, p2, C, VCO * C / outFreq)
  {
    DividerAccuracy(outFreq);
    PartsFitIff(outFreq);
    PartsAreExact(MsxA(outFreq), MsxB(outFreq), C);
    hide MsxA, MsxB, CalcP1;
  }

  /** Eighteen bits of p1 in two's complement. */
  function In18Bits(p1: int): nat
    requires -0x4_0000 <= p1
  {
    if p1 < 0 then p1 + 0x4_0000 else p1
  }

  /** A p1 that differs stands for another divider. */
  lemma NoOtherParts(q: int, p1: int, p2: nat, n: nat)
    requires DivisorParts(p1, p2, C, n)
    ensures DivisorParts(q, p2, C, n) <==> q == p1
  {
  }

  /** Registers 86 to 95, as setFreq leaves them. */
  predicate Packed(r: seq<byte>, p1: int, p2: nat) {
    && |r| == 256
    && r[86] == Byte(p1, 1) && r[87] == Byte(p1, 0x100) && r[88] == OrBytes(Top(p1), p2 % 64 * 4)
    && r[89] == Byte(p2, 0x40) && r[90] == Byte(p2, 0x4000) && r[91] == Byte(p2, 0x40_0000)
    && r[92] == Byte(C, 1) && r[93] == Byte(C, 0x100) && r[94] == Byte(C, 0x1_0000) && r[95] == Byte(C, 0x100_0000)
  }

  /** Whatever fits the registers comes out of them again; a negative p1 comes out in eighteen bits. */
  lemma Unpacks(r: seq<byte>, p1: int, p2: nat)
    requires Packed(r, p1, p2) && -512 <= p1 < 0x4_0000 && p2 < C
    ensures RegP1(r) == In18Bits(p1) && RegP2(r) == p2 && RegP3(r) == C
  {
    Wrapped(p1);
    hide Byte, OrBytes, Top, In18Bits, RegP1, RegP2, RegP3;
    UnpacksNat(r, In18Bits(p1), p2);
  }

  lemma UnpacksNat(r: seq<byte>, p1: nat, p2: nat)
    requires Packed(r, p1, p2) && p1 < 0x4_0000 && p2 < C
    ensures RegP1(r) == p1 && RegP2(r) == p2 && RegP3(r) == C
  {
    hide Number, Byte, OrBytes, Top;
    Digits18(p1);
    Digits30(p2);
    RegisterC();
    Shared(Top(p1), p2 % 64);
  }

  /** Register 88 keeps the two bits of p1 and the six of p2 apart. */
  lemma Shared(x: byte, m: nat)
    requires x < 4 && m < 64
    ensures OrBytes(x, m * 4) % 4 == x && OrBytes(x, m * 4) / 4 == m
  {
    OrDisjoint(x, m);
  }

  lemma Wrapped(p: int)
    requires -512 <= p
    ensures var q := In18Bits(p);
      p < 0x4_0000 ==> q < 0x4_0000
    ensures var q := In18Bits(p);
      Byte(p, 1) == Byte(q, 1) && Byte(p, 0x100) == Byte(q, 0x100) && Top(p) == Top(q)
  {
  }

  lemma Digits18(p: nat)
    requires p < 0x4_0000
    ensures Number(Byte(p, 1), 0x100, Byte(p, 0x100), Top(p), 0) == p
  {
  }

  lemma Digits30(p: nat)
    requires p < 0x4000_0000
    ensures Number(p % 64, 0x40, Byte(p, 0x40), Byte(p, 0x4000), Byte(p, 0x40_0000)) == p
  {
    var q, q2: nat, q3: nat := p / 0x40, p / 0x4000, p / 0x40_0000;
    assert q2 == q / 0x100 && q3 == q2 / 0x100 && q3 < 0x100;
    Halves(p, 0x40);
    Halves(q, 0x100);
    Halves(q2, 0x100);
  }

  lemma Halves(p: nat, k: nat)
    requires k > 0
    ensures p == p / k * k + p % k
  {
  }

  lemma RegisterC()
    ensures Number(Byte(C, 1), 0x100, Byte(C, 0x100), Byte(C, 0x1_0000), Byte(C, 0x100_0000)) == C
  {
  }
}
