/** crc32_le of util/util.c: the bitwise CRC loop, its algebra and the errors it detects. */
module Crc {
  import opened Bytes

  const CRCPOLY_LE: bv32 := 0xEDB8_8320

  function Xor(x: bv32, y: bv32): bv32 { x ^ y }

  /** A right shift by one place. */
  function Down(x: bv32): bv32 { x >> 1 }

  function Feedback(crc: bv32): bv32 {
    if crc & 1 == 1 then CRCPOLY_LE else 0
  }

  /** One round of the inner loop. */
  function Round(crc: bv32): bv32 {
    Xor(Down(crc), Feedback(crc))
  }

  function Rounds(n: nat, crc: bv32): bv32 {
    if n == 0 then crc else Rounds(n - 1, Round(crc))
  }

  function Bit(odd: bool, mask: bv32): bv32 {
    if odd then mask else 0
  }

  function FromBits(b0: bool, b1: bool, b2: bool, b3: bool, b4: bool, b5: bool, b6: bool, b7: bool): bv32 {
    Bit(b0, 1) | Bit(b1, 2) | Bit(b2, 4) | Bit(b3, 8) | Bit(b4, 16) | Bit(b5, 32) | Bit(b6, 64) | Bit(b7, 128)
  }

  /** Binary digit k of n. */
  predicate Odd(n: nat, k: nat)
    decreases k
  {
    if k == 0 then n % 2 == 1 else Odd(n / 2, k - 1)
  }

  /** An unsigned char widened to the register, bit by bit. */
  function Widen(b: byte): bv32 {
    FromBits(Odd(b, 0), Odd(b, 1), Odd(b, 2), Odd(b, 3), Odd(b, 4), Odd(b, 5), Odd(b, 6), Odd(b, 7))
  }

  /** The register after the bytes of p have been shifted in, starting from crc. */
  function Crc32(crc: bv32, p: seq<byte>): bv32
    decreases |p|
  {
    if p == [] then crc else Crc32(Rounds(8, Xor(crc, Widen(p[0]))), p[1..])
  }

  /** The value sendSocketCmd puts on the wire and parseSocketCmd compares with. */
  function Checksum(p: seq<byte>): u32 {
    Crc32(CRCPOLY_LE, p) as int
  }

  lemma {:induction false} Crc32Append(crc: bv32, p: seq<byte>, q: seq<byte>)
    ensures Crc32(crc, p + q) == Crc32(Crc32(crc, p), q)
    decreases |p|
  {
    if p == [] {
      assert p + q == q;
    } else {
      assert (p + q)[1..] == p[1..] + q;
      Crc32Append(Rounds(8, Xor(crc, Widen(p[0]))), p[1..], q);
    }
  }

  lemma {:induction false} RoundsAdd(m: nat, n: nat, crc: bv32)
    ensures Rounds(m + n, crc) == Rounds(n, Rounds(m, crc))
  {
    if m != 0 {
      RoundsAdd(m - 1, n, Round(crc));
    }
  }

  // ---- Algebra of one round ----

  /** A left shift by one place. */
  function Up(x: bv32): bv32 { x << 1 }

  function Ups(n: nat, x: bv32): bv32 {
    if n == 0 then x else Up(Ups(n - 1, x))
  }

  predicate TopClear(x: bv32) { x & 0x8000_0000 == 0 }

  lemma DownXor(x: bv32, y: bv32)
    ensures Down(Xor(x, y)) == Xor(Down(x), Down(y))
  {
  }

  lemma LowBitXor(x: bv32, y: bv32)
    ensures Xor(x, y) & 1 == if x & 1 == y & 1 then 0 else 1
  {
  }

  lemma FeedbackXor(x: bv32, y: bv32)
    ensures Feedback(Xor(x, y)) == Xor(Feedback(x), Feedback(y))
  {
    LowBitXor(x, y);
    assert x & 1 == 0 || x & 1 == 1;
    assert y & 1 == 0 || y & 1 == 1;
  }

  lemma XorComm(a: bv32, b: bv32)
    ensures Xor(a, b) == Xor(b, a)
  {
  }

  lemma XorAssoc(a: bv32, b: bv32, c: bv32)
    ensures Xor(Xor(a, b), c) == Xor(a, Xor(b, c))
  {
  }

  lemma XorRegroup(a: bv32, b: bv32, f: bv32, g: bv32)
    ensures Xor(Xor(a, b), Xor(f, g)) == Xor(Xor(a, f), Xor(b, g))
  {
    hide *;
    XorAssoc(a, b, Xor(f, g));
    XorAssoc(b, f, g);
    XorComm(b, f);
    XorAssoc(f, b, g);
    XorAssoc(a, f, Xor(b, g));
  }

  lemma XorCancel(a: bv32, b: bv32, c: bv32)
    requires Xor(a, b) == Xor(a, c)
    ensures b == c
  {
  }

  lemma RoundXor(x: bv32, y: bv32)
    ensures Round(Xor(x, y)) == Xor(Round(x), Round(y))
  {
    hide Xor, Down, Feedback;
    DownXor(x, y);
    FeedbackXor(x, y);
    XorRegroup(Down(x), Down(y), Feedback(x), Feedback(y));
  }

  lemma RoundInjective(x: bv32, y: bv32)
    requires Round(x) == Round(y)
    ensures x == y
  {
  }

  lemma RoundUp(x: bv32)
    requires TopClear(x)
    ensures Round(Up(x)) == x
  {
  }

  /** n rounds are linear over exclusive or. */
  lemma {:induction false} RoundsXor(n: nat, x: bv32, y: bv32)
    ensures Rounds(n, Xor(x, y)) == Xor(Rounds(n, x), Rounds(n, y))
  {
    if n != 0 {
      RoundXor(x, y);
      RoundsXor(n - 1, Round(x), Round(y));
    }
  }

  lemma {:induction false} RoundsInjective(n: nat, x: bv32, y: bv32)
    requires Rounds(n, x) == Rounds(n, y)
    ensures x == y
  {
    if n != 0 {
      RoundsInjective(n - 1, Round(x), Round(y));
      RoundInjective(x, y);
    }
  }

  /** n rounds take back n left shifts that lost no bit. */
  lemma {:induction false} RoundsUps(n: nat, x: bv32)
    requires forall k | 0 <= k < n :: TopClear(Ups(k, x))
    ensures Rounds(n, Ups(n, x)) == x
  {
    if n != 0 {
      RoundUp(Ups(n - 1, x));
      RoundsUps(n - 1, x);
    }
  }

  lemma ShiftsAsUps(x: bv32)
    requires x & 0xFF00_0000 == 0
    ensures Ups(8, x) == x << 8
    ensures forall k | 0 <= k < 8 :: TopClear(Ups(k, x))
  {
    assert Ups(1, x) == Up(x);
    assert Ups(2, x) == Up(Up(x));
    assert Ups(3, x) == Up(Up(Up(x)));
    assert Ups(4, x) == Up(Up(Up(Up(x))));
    assert Ups(5, x) == Up(Up(Up(Up(Up(x)))));
    assert Ups(6, x) == Up(Up(Up(Up(Up(Up(x))))));
    assert Ups(7, x) == Up(Up(Up(Up(Up(Up(Up(x)))))));
  }

  lemma ByteShift(x: bv32)
    requires TopByteClear(x)
    ensures Rounds(8, Shift8(x)) == x
  {
    ShiftsAsUps(x);
    RoundsUps(8, x);
  }

  // ---- Linearity, and the register as an injection ----

  lemma BitsInjective(a0: bool, a1: bool, a2: bool, a3: bool, a4: bool, a5: bool, a6: bool, a7: bool,
                      b0: bool, b1: bool, b2: bool, b3: bool, b4: bool, b5: bool, b6: bool, b7: bool)
    requires FromBits(a0, a1, a2, a3, a4, a5, a6, a7) == FromBits(b0, b1, b2, b3, b4, b5, b6, b7)
    ensures a0 == b0 && a1 == b1 && a2 == b2 && a3 == b3 && a4 == b4 && a5 == b5 && a6 == b6 && a7 == b7
  {
  }

  lemma WidenDigits(a: byte, b: byte)
    requires Widen(a) == Widen(b)
    ensures Odd(a, 0) == Odd(b, 0) && Odd(a, 1) == Odd(b, 1) && Odd(a, 2) == Odd(b, 2) && Odd(a, 3) == Odd(b, 3)
    ensures Odd(a, 4) == Odd(b, 4) && Odd(a, 5) == Odd(b, 5) && Odd(a, 6) == Odd(b, 6) && Odd(a, 7) == Odd(b, 7)
  {
    BitsInjective(Odd(a, 0), Odd(a, 1), Odd(a, 2), Odd(a, 3), Odd(a, 4), Odd(a, 5), Odd(a, 6), Odd(a, 7),
                  Odd(b, 0), Odd(b, 1), Odd(b, 2), Odd(b, 3), Odd(b, 4), Odd(b, 5), Odd(b, 6), Odd(b, 7));
  }

  lemma WidenInjective(a: byte, b: byte)
    requires Widen(a) == Widen(b)
    ensures a == b
  {
    hide FromBits, Odd, Widen;
    WidenDigits(a, b);
    EightDigits();
    forall k | 0 <= k < 8
      ensures Odd(a, k) == Odd(b, k)
    {
      assert k == 0 || k == 1 || k == 2 || k == 3 || k == 4 || k == 5 || k == 6 || k == 7;
    }
    DigitsInjective(a, b, 8);
  }

  function PowerOfTwo(n: nat): nat {
    if n == 0 then 1 else 2 * PowerOfTwo(n - 1)
  }

  lemma EightDigits()
    ensures PowerOfTwo(8) == 256
  {
    assert PowerOfTwo(3) == 8;
    assert PowerOfTwo(6) == 64;
  }

  lemma {:induction false} DigitsInjective(a: nat, b: nat, n: nat)
    requires a < PowerOfTwo(n) && b < PowerOfTwo(n)
    requires forall k | 0 <= k < n :: Odd(a, k) == Odd(b, k)
    ensures a == b
    decreases n
  {
    if n != 0 {
      forall k | 0 <= k < n - 1
        ensures Odd(a / 2, k) == Odd(b / 2, k)
      {
        assert Odd(a, k + 1) == Odd(b, k + 1);
      }
      DigitsInjective(a / 2, b / 2, n - 1);
      assert Odd(a, 0) == Odd(b, 0);
    }
  }

  lemma WidenLow(b: byte)
    ensures Widen(b) & 0xFFFF_FF00 == 0
  {
  }

  /** r is the bytewise exclusive or of p and q. */
  ghost predicate IsXor(p: seq<byte>, q: seq<byte>, r: seq<byte>) {
    |p| == |q| == |r| && forall i | 0 <= i < |p| :: Widen(r[i]) == Xor(Widen(p[i]), Widen(q[i]))
  }

  /** The checksum register is linear over exclusive or, in state and payload together. */
  lemma {:induction false} Crc32Linear(s: bv32, t: bv32, p: seq<byte>, q: seq<byte>, r: seq<byte>)
    requires IsXor(p, q, r)
    ensures Crc32(Xor(s, t), r) == Xor(Crc32(s, p), Crc32(t, q))
    decreases |p|
  {
    hide Xor, Widen, Round;
    if p != [] {
      XorRegroup(s, t, Widen(p[0]), Widen(q[0]));
      var x, y := Xor(s, Widen(p[0])), Xor(t, Widen(q[0]));
      RoundsXor(8, x, y);
      Crc32Linear(Rounds(8, x), Rounds(8, y), p[1..], q[1..], r[1..]);
    }
  }

  lemma {:induction false} Crc32StateInjective(s: bv32, t: bv32, p: seq<byte>)
    requires Crc32(s, p) == Crc32(t, p)
    ensures s == t
    decreases |p|
  {
    hide Xor, Widen, Round;
    if p != [] {
      var x, y := Xor(s, Widen(p[0])), Xor(t, Widen(p[0]));
      Crc32StateInjective(Rounds(8, x), Rounds(8, y), p[1..]);
      RoundsInjective(8, x, y);
      XorComm(s, Widen(p[0]));
      XorComm(t, Widen(p[0]));
      XorCancel(Widen(p[0]), s, t);
    }
  }

  // ---- Bursts of up to four bytes ----

  function Shift8(x: bv32): bv32 { x << 8 }

  predicate TopByteClear(x: bv32) { x & 0xFF00_0000 == 0 }

  /** The first bytes of a payload as the register sees them: the first byte lowest. */
  function Word(d: seq<byte>): bv32
    decreases |d|
  {
    if d == [] then 0 else Xor(Widen(d[0]), Shift8(Word(d[1..])))
  }

  /** x has no bit above its lowest n bytes. */
  predicate Fits(n: nat, x: bv32) {
    x & (if n == 0 then 0xFFFF_FFFF else if n == 1 then 0xFFFF_FF00
        else if n == 2 then 0xFFFF_0000 else 0xFF00_0000) == 0
  }

  lemma FitsStep(n: nat, x: bv32, w: bv32)
    requires n < 3
    requires w & 0xFFFF_FF00 == 0 && Fits(n, x)
    ensures Fits(n + 1, Xor(w, Shift8(x)))
  {
  }

  lemma {:induction false} WordFits(d: seq<byte>)
    requires |d| <= 3
    ensures Fits(|d|, Word(d))
    decreases |d|
  {
    hide Widen, Xor, Shift8;
    if d != [] {
      WordFits(d[1..]);
      WidenLow(d[0]);
      FitsStep(|d[1..]|, Word(d[1..]), Widen(d[0]));
    }
  }

  lemma FitsThree(n: nat, x: bv32)
    requires n <= 3 && Fits(n, x)
    ensures TopByteClear(x)
  {
  }

  lemma SplitBits(v: bv32, w: bv32, x: bv32, y: bv32)
    requires v & 0xFFFF_FF00 == 0 && w & 0xFFFF_FF00 == 0
    requires TopByteClear(x) && TopByteClear(y)
    requires Xor(v, Shift8(x)) == Xor(w, Shift8(y))
    ensures v == w && x == y
  {
  }

  lemma WordSplit(a: byte, b: byte, x: bv32, y: bv32)
    requires TopByteClear(x) && TopByteClear(y)
    requires Xor(Widen(a), Shift8(x)) == Xor(Widen(b), Shift8(y))
    ensures a == b && x == y
  {
    hide Xor, Shift8, Widen, TopByteClear;
    WidenLow(a);
    WidenLow(b);
    SplitBits(Widen(a), Widen(b), x, y);
    WidenInjective(a, b);
  }

  lemma {:induction false} WordInjective(d: seq<byte>, e: seq<byte>)
    requires |d| == |e| <= 4
    requires Word(d) == Word(e)
    ensures d == e
    decreases |d|
  {
    if d != [] {
      WordFits(d[1..]);
      WordFits(e[1..]);
      FitsThree(|d[1..]|, Word(d[1..]));
      FitsThree(|e[1..]|, Word(e[1..]));
      WordSplit(d[0], e[0], Word(d[1..]), Word(e[1..]));
      WordInjective(d[1..], e[1..]);
      assert d == [d[0]] + d[1..] && e == [e[0]] + e[1..];
    }
  }

  /** Up to four bytes act as one word xored into the register before the rounds. */
  lemma {:induction false} Crc32Word(s: bv32, d: seq<byte>)
    requires |d| <= 4
    ensures Crc32(s, d) == Rounds(8 * |d|, Xor(s, Word(d)))
    decreases |d|
  {
    hide Xor, Widen, Round, Shift8;
    if d == [] {
      XorZero(s);
    } else {
      var x, w := Xor(s, Widen(d[0])), Word(d[1..]);
      WordFits(d[1..]);
      FitsThree(|d[1..]|, w);
      ByteShift(w);
      RoundsXor(8, x, Shift8(w));
      XorAssoc(s, Widen(d[0]), Shift8(w));
      Crc32Word(Rounds(8, x), d[1..]);
      RoundsAdd(8, 8 * |d[1..]|, Xor(x, Shift8(w)));
    }
  }

  lemma XorZero(s: bv32)
    ensures Xor(s, 0) == s
  {
  }

  /** Two payloads that differ only inside a window of at most four bytes have different CRCs. */
  lemma BurstDetected(a: seq<byte>, w: seq<byte>, w': seq<byte>, c: seq<byte>)
    requires |w| == |w'| <= 4
    requires w != w'
    ensures Checksum(a + w + c) != Checksum(a + w' + c)
  {
    var s := Crc32(CRCPOLY_LE, a);
    if Checksum(a + w + c) == Checksum(a + w' + c) {
      BitsAsInt(Crc32(CRCPOLY_LE, a + w + c), Crc32(CRCPOLY_LE, a + w' + c));
      Crc32Append(CRCPOLY_LE, a + w, c);
      Crc32Append(CRCPOLY_LE, a + w', c);
      Crc32Append(CRCPOLY_LE, a, w);
      Crc32Append(CRCPOLY_LE, a, w');
      Crc32StateInjective(Crc32(s, w), Crc32(s, w'), c);
      Crc32Word(s, w);
      Crc32Word(s, w');
      RoundsInjective(8 * |w|, Xor(s, Word(w)), Xor(s, Word(w')));
      XorCancel(s, Word(w), Word(w'));
      WordInjective(w, w');
    }
  }

  lemma BitsAsInt(x: bv32, y: bv32)
    requires x as int == y as int
    ensures x == y
  {
    assert (x as int) as bv32 == x;
    assert (y as int) as bv32 == y;
  }

  lemma {:induction false} RoundsZero(n: nat)
    ensures Rounds(n, 0) == 0
  {
    if n != 0 {
      RoundZero();
      RoundsZero(n - 1);
    }
  }

  lemma RoundZero()
    ensures Round(0) == 0
  {
  }

  lemma XorSelf(x: bv32)
    ensures Xor(x, x) == 0
  {
  }

  /** The four bytes that spell the polynomial, lowest byte first. */
  const POLY_BYTES: seq<byte> := [0x20, 0x83, 0xB8, 0xED]

  lemma WidenPoly()
    ensures Widen(0x20) == 0x20 && Widen(0x83) == 0x83 && Widen(0xB8) == 0xB8 && Widen(0xED) == 0xED
  {
    hide Widen, Odd;
    WidenHalves(0x20, 0x10, 0x8, 0x4, 0x2, 0x1, 0x0, false, false, false, false, false, true, false, false);
    WidenHalves(0x83, 0x41, 0x20, 0x10, 0x8, 0x4, 0x2, true, true, false, false, false, false, false, true);
    WidenHalves(0xB8, 0x5C, 0x2E, 0x17, 0xB, 0x5, 0x2, false, false, false, true, true, true, false, true);
    WidenHalves(0xED, 0x76, 0x3B, 0x1D, 0xE, 0x7, 0x3, true, false, true, true, false, true, true, true);
  }

  lemma PolyWord()
    ensures Word(POLY_BYTES) == CRCPOLY_LE
  {
    hide Widen;
    WidenPoly();
    var d := POLY_BYTES;
    assert d[1..] == [0x83, 0xB8, 0xED] && d[1..][1..] == [0xB8, 0xED] && d[1..][1..][1..] == [0xED];
    assert Word(d[1..][1..][1..][1..]) == 0;
    assert Word(d[1..][1..][1..]) == 0xED;
    assert Word(d[1..][1..]) == 0xEDB8;
    assert Word(d[1..]) == 0xEDB883;
  }

  lemma OddDouble(n: nat, m: nat, b: bool)
    requires n == 2 * m + (if b then 1 else 0)
    ensures Odd(n, 0) == b
    ensures forall k: nat | 0 < k :: Odd(n, k) == Odd(m, k - 1)
  {
  }

  /** Widening a byte given by its binary digits, halving it seven times. */
  lemma WidenHalves(n0: nat, n1: nat, n2: nat, n3: nat, n4: nat, n5: nat, n6: nat,
                    b0: bool, b1: bool, b2: bool, b3: bool, b4: bool, b5: bool, b6: bool, b7: bool)
    requires n0 < 0x100 && n0 == 2 * n1 + (if b0 then 1 else 0) && n1 == 2 * n2 + (if b1 then 1 else 0)
    requires n2 == 2 * n3 + (if b2 then 1 else 0) && n3 == 2 * n4 + (if b3 then 1 else 0)
    requires n4 == 2 * n5 + (if b4 then 1 else 0) && n5 == 2 * n6 + (if b5 then 1 else 0)
    requires n6 == (if b7 then 2 else 0) + (if b6 then 1 else 0)
    ensures Widen(n0) == FromBits(b0, b1, b2, b3, b4, b5, b6, b7)
  {
    hide Odd, FromBits;
    var n7 := if b7 then 1 else 0;
    OddDouble(n7, 0, b7);
    OddDouble(n6, n7, b6);
    OddDouble(n5, n6, b5);
    OddDouble(n4, n5, b4);
    OddDouble(n3, n4, b3);
    OddDouble(n2, n3, b2);
    OddDouble(n1, n2, b1);
    OddDouble(n0, n1, b0);
  }

  /** A payload whose checksum is zero: the decoder takes a zero field as "not checked". */
  lemma ZeroChecksumExists()
    ensures Checksum(POLY_BYTES) == 0
  {
    hide Word, Widen, Round, Rounds, Xor;
    PolyWord();
    Crc32Word(CRCPOLY_LE, POLY_BYTES);
    XorSelf(CRCPOLY_LE);
    RoundsZero(32);
  }
}
