/**
 * Which CRC crc32_le of util/util.c computes: the remainder of a division of polynomials over the field of
 * two elements, with the bits of every byte taken from the lowest to the highest.
 */
module CrcDivision {
  import opened Bytes
  import opened Crc

  /** A polynomial, by the exponents of its terms. */
  type Poly = set<nat>

  /** x^32 + x^26 + x^23 + x^22 + x^16 + x^12 + x^11 + x^10 + x^8 + x^7 + x^5 + x^4 + x^2 + x + 1. */
  const GENERATOR: Poly := {32, 26, 23, 22, 16, 12, 11, 10, 8, 7, 5, 4, 2, 1, 0}

  /** A sum: equal terms cancel. */
  function Add(p: Poly, q: Poly): (r: Poly)
    ensures forall e: nat :: e in r <==> ((e in p) != (e in q))
  {
    (p - q) + (q - p)
  }

  /** p times x^k. */
  function Shift(p: Poly, k: nat): (r: Poly)
    ensures forall e: nat :: e in r <==> e >= k && e - k in p
  {
    Shifted(p, k);
    set e | e in p :: e + k
  }

  lemma Shifted(p: Poly, k: nat)
    ensures var r := set e | e in p :: e + k; forall e: nat :: e in r <==> e >= k && e - k in p
  {
    var r := set e | e in p :: e + k;
    forall e: nat
      ensures e in r <==> e >= k && e - k in p
    {
      if e >= k && e - k in p {
        var d := e - k;
        assert d + k in r;
      }
    }
  }

  /** The terms of q below x^n, times the generator. */
  function Times(q: Poly, n: nat): Poly {
    if n == 0 then {} else Add(Times(q, n - 1), Term(q, n - 1))
  }

  /** The generator times the term of q with x^e. */
  function Term(q: Poly, e: nat): Poly {
    if e in q then Shift(GENERATOR, e) else {}
  }

  /** The generator divides p. */
  ghost predicate Multiple(p: Poly) {
    exists q: Poly, n: nat :: Bounded(q, n) && p == Times(q, n)
  }

  ghost predicate Bounded(p: Poly, n: nat) {
    forall e | e in p :: e < n
  }

  /** p divided by the generator leaves r. */
  ghost predicate IsRemainder(p: Poly, r: Poly) {
    (forall e | e in r :: e < 32) && Multiple(Add(p, r))
  }

  /** Binary digit k of a register. */
  predicate Digit(x: bv32, k: nat) {
    if k == 0 then x & 1 == 1 else Digit(x >> 1, k - 1)
  }

  /** A register as a polynomial, its lowest bit being the coefficient of x^31. */
  function Poly32(x: bv32): (p: Poly)
    ensures forall e: nat :: e in p <==> RegisterTerm(x, e)
  {
    set e: nat | e <= 31 && RegisterTerm(x, e)
  }

  predicate RegisterTerm(x: bv32, e: nat) {
    e <= 31 && Digit(x, 31 - e)
  }

  /** A text as a polynomial: the first byte has the highest terms, and the lowest bit the highest of its eight. */
  function Message(p: seq<byte>): (m: Poly)
    ensures forall e: nat :: e in m <==> MessageTerm(p, e)
  {
    set e: nat | e < 8 * |p| && MessageTerm(p, e)
  }

  predicate MessageTerm(p: seq<byte>, e: nat) {
    e / 8 < |p| && Odd(p[|p| - 1 - e / 8], 7 - e % 8)
  }

  // ---- Multiples of the generator ----

  lemma {:induction false} TimesBeyond(q: Poly, n: nat, m: nat)
    requires Bounded(q, n) && n <= m
    ensures Times(q, m) == Times(q, n)
  {
    hide Shift;
    if n < m {
      TimesBeyond(q, n, m - 1);
      assert m - 1 !in q;
      assert Add(Times(q, m - 1), {}) == Times(q, m - 1);
    }
  }

  lemma {:induction false} TimesAdd(a: Poly, b: Poly, n: nat)
    ensures Times(Add(a, b), n) == Add(Times(a, n), Times(b, n))
  {
    hide Add, Shift;
    if n > 0 {
      TimesAdd(a, b, n - 1);
      AddRegroup(Times(a, n - 1), Times(b, n - 1), Term(a, n - 1), Term(b, n - 1));
      AddSelf(Shift(GENERATOR, n - 1));
    } else {
      AddSelf({});
    }
  }

  lemma AddSelf(p: Poly)
    ensures Add(p, p) == {} && Add(p, {}) == p && Add({}, p) == p
  {
  }

  lemma AddRegroup(a: Poly, b: Poly, c: Poly, d: Poly)
    ensures Add(Add(a, b), Add(c, d)) == Add(Add(a, c), Add(b, d))
  {
  }

  lemma {:induction false} TimesShift(q: Poly, n: nat, k: nat)
    ensures Times(Shift(q, k), n + k) == Shift(Times(q, n), k)
    decreases n + k
  {
    hide *;
    if n > 0 {
      TimesShift(q, n - 1, k);
      ShiftAdd(Times(q, n - 1), Term(q, n - 1), k);
      TermShift(q, n - 1, k);
      TimesNext(q, n - 1);
      TimesNext(Shift(q, k), n + k - 1);
    } else {
      ShiftNothing(k);
      BelowShift(q, k, k);
      TimesNone(q);
    }
  }

  lemma {:induction false} BelowShift(q: Poly, k: nat, n: nat)
    requires n <= k
    ensures Times(Shift(q, k), n) == {}
  {
    if n > 0 {
      BelowShift(q, k, n - 1);
      assert n - 1 !in Shift(q, k);
      AddSelf({});
    }
  }

  lemma TimesNone(q: Poly)
    ensures Times(q, 0) == {}
  {
  }

  lemma TimesNext(q: Poly, n: nat)
    ensures Times(q, n + 1) == Add(Times(q, n), Term(q, n))
  {
  }

  lemma TermShift(q: Poly, e: nat, k: nat)
    ensures Term(Shift(q, k), e + k) == Shift(Term(q, e), k)
  {
    ShiftNothing(k);
    ShiftShift(GENERATOR, e, k);
    assert e + k in Shift(q, k) <==> e in q;
    hide GENERATOR;
  }

  lemma ShiftNothing(k: nat)
    ensures Shift({}, k) == {}
  {
  }

  lemma ShiftAdd(p: Poly, q: Poly, k: nat)
    ensures Shift(Add(p, q), k) == Add(Shift(p, k), Shift(q, k))
  {
  }

  lemma ShiftShift(p: Poly, j: nat, k: nat)
    ensures Shift(Shift(p, j), k) == Shift(p, j + k)
  {
  }

  lemma MultipleAdd(p: Poly, q: Poly)
    requires Multiple(p) && Multiple(q)
    ensures Multiple(Add(p, q))
  {
    var a: Poly, m: nat :| Bounded(a, m) && p == Times(a, m);
    var b: Poly, n: nat :| Bounded(b, n) && q == Times(b, n);
    var k := if m < n then n else m;
    TimesBeyond(a, m, k);
    TimesBeyond(b, n, k);
    TimesAdd(a, b, k);
    assert Bounded(Add(a, b), k);
  }

  lemma MultipleShift(p: Poly, k: nat)
    requires Multiple(p)
    ensures Multiple(Shift(p, k))
  {
    var q: Poly, n: nat :| Bounded(q, n) && p == Times(q, n);
    TimesShift(q, n, k);
    assert Bounded(Shift(q, k), n + k);
  }

  lemma Generators()
    ensures Multiple({}) && Multiple(GENERATOR)
  {
    assert Bounded({}, 0) && Times({}, 0) == {};
    assert Bounded({0}, 1);
    assert Times({0}, 1) == Add({}, Shift(GENERATOR, 0)) == GENERATOR;
  }

  /** A multiple other than zero has a term of x^32 or more. */
  lemma {:induction false} LeadingTerm(q: Poly, n: nat)
    ensures forall e | e in Times(q, n) :: e < n + 32
    ensures (forall e | e in Times(q, n) :: e < 32) ==> Times(q, n) == {}
  {
    if n > 0 {
      LeadingTerm(q, n - 1);
      if n - 1 in q {
        Degree();
        hide Add, Shift, GENERATOR;
        assert n + 31 in Times(q, n);
      } else {
        AddSelf(Times(q, n - 1));
      }
    }
  }

  lemma Degree()
    ensures 32 in GENERATOR && forall e | e in GENERATOR :: e <= 32
  {
  }

  /** There is only one remainder. */
  lemma RemainderUnique(p: Poly, r: Poly, s: Poly)
    requires IsRemainder(p, r) && IsRemainder(p, s)
    ensures r == s
  {
    MultipleAdd(Add(p, r), Add(p, s));
    AddRegroup(p, r, p, s);
    AddSelf(p);
    AddSelf(Add(r, s));
    var q: Poly, n: nat :| Bounded(q, n) && Add(r, s) == Times(q, n);
    LeadingTerm(q, n);
    forall e
      ensures e in r <==> e in s
    {
      assert e !in Add(r, s);
    }
  }

  // ---- Registers ----

  lemma LowDigit(x: bv32, y: bv32)
    ensures Digit(Xor(x, y), 0) == (Digit(x, 0) != Digit(y, 0))
  {
    LowBitXor(x, y);
    assert x & 1 == 0 || x & 1 == 1;
    assert y & 1 == 0 || y & 1 == 1;
  }

  lemma NextDigit(x: bv32, k: nat)
    requires k > 0
    ensures Digit(x, k) == Digit(Down(x), k - 1)
  {
  }

  lemma {:induction false} DigitXor(x: bv32, y: bv32, k: nat)
    ensures Digit(Xor(x, y), k) == (Digit(x, k) != Digit(y, k))
    decreases k
  {
    hide Digit, Xor, Down;
    if k == 0 {
      LowDigit(x, y);
    } else {
      NextDigit(x, k);
      NextDigit(y, k);
      NextDigit(Xor(x, y), k);
      DownXor(x, y);
      DigitXor(Down(x), Down(y), k - 1);
    }
  }

  /** The sum of registers. */
  lemma PolyXor(x: bv32, y: bv32)
    ensures Poly32(Xor(x, y)) == Add(Poly32(x), Poly32(y))
  {
    hide Digit, Xor;
    forall e: nat
      ensures RegisterTerm(Xor(x, y), e) == (RegisterTerm(x, e) != RegisterTerm(y, e))
    {
      if e <= 31 {
        DigitXor(x, y, 31 - e);
      }
    }
  }

  function Downs(n: nat, x: bv32): bv32 {
    if n == 0 then x else Down(Downs(n - 1, x))
  }

  lemma {:induction false} DownsAdd(m: nat, n: nat, x: bv32)
    ensures Downs(m + n, x) == Downs(m, Downs(n, x))
    decreases m
  {
    hide Down;
    if m > 0 {
      DownsAdd(m - 1, n, x);
    }
  }

  lemma Emptied(x: bv32)
    ensures Downs(32, x) == 0
  {
    hide Downs;
    FewDowns(x);
    FewDowns(Downs(8, x));
    FewDowns(Downs(16, x));
    FewDowns(Downs(24, x));
    DownsAdd(8, 8, x);
    DownsAdd(8, 16, x);
    DownsAdd(8, 24, x);
    FourBytes(x);
  }

  lemma FourBytes(x: bv32)
    ensures (((x >> 8) >> 8) >> 8) >> 8 == 0
  {
  }

  lemma {:induction false} DigitDowns(n: nat, x: bv32)
    ensures Digit(x, n) == Digit(Downs(n, x), 0)
  {
    hide Digit, Down;
    if n > 0 {
      NextDigit(x, n);
      DigitDowns(n - 1, Down(x));
      DownsAdd(n - 1, 1, x);
      assert Downs(1, x) == Down(Downs(0, x));
    }
  }

  lemma SameHalves(x: bv32, y: bv32)
    requires Down(x) == Down(y) && Digit(x, 0) == Digit(y, 0)
    ensures x == y
  {
    assert x & 1 == 0 || x & 1 == 1;
    assert y & 1 == 0 || y & 1 == 1;
  }

  lemma {:induction false} SameDigits(x: bv32, y: bv32, n: nat)
    requires Downs(n, x) == Downs(n, y) && forall k | 0 <= k < n :: Digit(x, k) == Digit(y, k)
    ensures x == y
  {
    hide Digit, Down;
    if n > 0 {
      DigitDowns(n - 1, x);
      DigitDowns(n - 1, y);
      SameHalves(Downs(n - 1, x), Downs(n - 1, y));
      SameDigits(x, y, n - 1);
    }
  }

  /** Different registers are different polynomials. */
  lemma PolyInjective(x: bv32, y: bv32)
    requires Poly32(x) == Poly32(y)
    ensures x == y
  {
    Emptied(x);
    Emptied(y);
    hide Digit, Downs;
    forall k | 0 <= k < 32
      ensures Digit(x, k) == Digit(y, k)
    {
      assert 31 - k in Poly32(x) <==> 31 - k in Poly32(y);
    }
    SameDigits(x, y, 32);
  }

  // ---- The remainder ----

  /** q leaves the same remainder as p. */
  ghost predicate Same(p: Poly, q: Poly) {
    Multiple(Add(p, q))
  }

  lemma SameTrans(p: Poly, q: Poly, r: Poly)
    requires Same(p, q) && Same(q, r)
    ensures Same(p, r)
  {
    MultipleAdd(Add(p, q), Add(q, r));
    assert Add(Add(p, q), Add(q, r)) == Add(p, r);
  }

  lemma SameSum(p: Poly, q: Poly, r: Poly)
    requires Same(p, q)
    ensures Same(Add(p, r), Add(q, r))
  {
    assert Add(Add(p, r), Add(q, r)) == Add(p, q);
  }

  lemma SameShift(p: Poly, q: Poly, k: nat)
    requires Same(p, q)
    ensures Same(Shift(p, k), Shift(q, k))
  {
    MultipleShift(Add(p, q), k);
    ShiftAdd(p, q, k);
  }

  lemma SameSelf(p: Poly)
    ensures Same(p, p)
  {
    AddSelf(p);
    Generators();
  }

  /** One round multiplies by x. */
  lemma RoundDivides(x: bv32)
    ensures Same(Poly32(Round(x)), Shift(Poly32(x), 1))
  {
    Generators();
    hide Multiple;
    var p, r := Poly32(x), Poly32(Round(x));
    RoundTerms(x);
    if Digit(x, 0) {
      assert Add(r, Shift(p, 1)) == GENERATOR;
    } else {
      assert Add(r, Shift(p, 1)) == {};
    }
  }

  lemma NoDigit(k: nat)
    ensures !Digit(0, k)
  {
    hide Down;
    DownZero(k);
    DigitDowns(k, 0);
  }

  lemma {:induction false} DownZero(n: nat)
    ensures Downs(n, 0) == 0
  {
    if n > 0 {
      DownZero(n - 1);
    }
  }

  /** No register has a digit 32. */
  lemma DownTop(x: bv32)
    ensures !Digit(Down(x), 31)
  {
    hide Down;
    NextDigit(x, 32);
    DigitDowns(32, x);
    Emptied(x);
  }

  /** The digits of the constant are the lower terms of the generator, from the highest on. */
  lemma GeneratorDigits(k: nat)
    requires k <= 31
    ensures Digit(0xEDB8_8320, k) <==> 31 - k in GENERATOR
  {
    LowDigits(0xEDB8_8320);
    LowDigits(0x00ED_B883);
    LowDigits(0x0000_EDB8);
    LowDigits(0x0000_00ED);
    hide Digit;
    if k >= 8 {
      Behind(0xEDB8_8320, k - 8);
      if k >= 16 {
        Behind(0x00ED_B883, k - 16);
        if k >= 24 {
          Behind(0x0000_EDB8, k - 24);
        }
      }
    }
  }

  lemma LowDigits(x: bv32)
    ensures Digit(x, 0) == (x & 1 == 1) && Digit(x, 1) == ((x >> 1) & 1 == 1)
    ensures Digit(x, 2) == ((x >> 2) & 1 == 1) && Digit(x, 3) == ((x >> 3) & 1 == 1)
    ensures Digit(x, 4) == ((x >> 4) & 1 == 1) && Digit(x, 5) == ((x >> 5) & 1 == 1)
    ensures Digit(x, 6) == ((x >> 6) & 1 == 1) && Digit(x, 7) == ((x >> 7) & 1 == 1)
  {
    FewDowns(x);
    hide Digit, Downs;
    DigitDowns(0, x);
    DigitDowns(1, x);
    DigitDowns(2, x);
    DigitDowns(3, x);
    DigitDowns(4, x);
    DigitDowns(5, x);
    DigitDowns(6, x);
    DigitDowns(7, x);
    FirstDigit(x);
    FirstDigit(x >> 1);
    FirstDigit(x >> 2);
    FirstDigit(x >> 3);
    FirstDigit(x >> 4);
    FirstDigit(x >> 5);
    FirstDigit(x >> 6);
    FirstDigit(x >> 7);
  }

  lemma FirstDigit(x: bv32)
    ensures Digit(x, 0) == (x & 1 == 1)
  {
  }

  lemma FewDowns(x: bv32)
    ensures Downs(0, x) == x && Downs(1, x) == x >> 1 && Downs(2, x) == x >> 2 && Downs(3, x) == x >> 3
    ensures Downs(4, x) == x >> 4 && Downs(5, x) == x >> 5 && Downs(6, x) == x >> 6 && Downs(7, x) == x >> 7
    ensures Downs(8, x) == x >> 8
  {
    ShiftChain(x);
    DownsNext(0, x);
    DownsNext(1, x);
    DownsNext(2, x);
    DownsNext(3, x);
    DownsNext(4, x);
    DownsNext(5, x);
    DownsNext(6, x);
    DownsNext(7, x);
    hide Down, Downs;
  }

  lemma DownsNext(n: nat, x: bv32)
    ensures Downs(0, x) == x && Downs(n + 1, x) == Down(Downs(n, x))
  {
  }

  lemma ShiftChain(x: bv32)
    ensures Down(x) == x >> 1 && Down(x >> 1) == x >> 2 && Down(x >> 2) == x >> 3 && Down(x >> 3) == x >> 4
    ensures Down(x >> 4) == x >> 5 && Down(x >> 5) == x >> 6 && Down(x >> 6) == x >> 7 && Down(x >> 7) == x >> 8
  {
  }

  lemma Behind(x: bv32, k: nat)
    ensures Digit(x, k + 8) == Digit(x >> 8, k)
  {
    FewDowns(x);
    hide Digit, Downs;
    DigitDowns(k + 8, x);
    DigitDowns(k, x >> 8);
    DownsAdd(k, 8, x);
  }

  lemma RoundDigit(x: bv32, k: nat)
    requires k <= 31
    ensures Digit(Round(x), k) == (Digit(Down(x), k) != (Digit(x, 0) && 31 - k in GENERATOR))
  {
    hide Digit, Xor, Down, GENERATOR;
    DigitXor(Down(x), Feedback(x), k);
    GeneratorDigits(k);
    NoDigit(k);
    FirstDigit(x);
  }

  lemma RoundTerms(x: bv32)
    ensures forall e: nat ::
      ((e in Poly32(Round(x))) != (e in Shift(Poly32(x), 1))) == (Digit(x, 0) && e in GENERATOR)
  {
    hide Digit, Round;
    forall e: nat
      ensures ((e in Poly32(Round(x))) != (e in Shift(Poly32(x), 1))) == (Digit(x, 0) && e in GENERATOR)
    {
      if e <= 31 {
        RoundDigit(x, 31 - e);
        if e > 0 {
          NextDigit(x, 32 - e);
        } else {
          DownTop(x);
        }
      }
    }
  }

  lemma {:induction false} RoundsDivide(n: nat, x: bv32)
    ensures Same(Poly32(Rounds(n, x)), Shift(Poly32(x), n))
    decreases n
  {
    hide Same, Poly32, Round, Shift;
    var p := Poly32(x);
    if n > 0 {
      RoundsDivide(n - 1, Round(x));
      RoundDivides(x);
      SameShift(Poly32(Round(x)), Shift(p, 1), n - 1);
      ShiftShift(p, 1, n - 1);
      SameTrans(Poly32(Rounds(n, x)), Shift(Poly32(Round(x)), n - 1), Shift(p, n));
    } else {
      NoShift(p);
      SameSelf(p);
    }
  }

  lemma NoShift(p: Poly)
    ensures Shift(p, 0) == p
  {
  }

  /** What is divided: the text with 32 empty places behind it, and the first register in front of the text's end. */
  function Dividend(s: bv32, p: seq<byte>): Poly {
    Add(Shift(Poly32(s), 8 * |p|), Shift(Message(p), 32))
  }

  lemma WidenDigit(b: byte, k: nat)
    ensures Digit(Widen(b), k) <==> k < 8 && Odd(b, k)
  {
    BitsDigit(Odd(b, 0), Odd(b, 1), Odd(b, 2), Odd(b, 3), Odd(b, 4), Odd(b, 5), Odd(b, 6), Odd(b, 7), k);
    hide Digit, Odd, FromBits;
  }

  lemma BitsDigit(b0: bool, b1: bool, b2: bool, b3: bool, b4: bool, b5: bool, b6: bool, b7: bool, k: nat)
    ensures Digit(FromBits(b0, b1, b2, b3, b4, b5, b6, b7), k)
        <==> (k == 0 && b0) || (k == 1 && b1) || (k == 2 && b2) || (k == 3 && b3)
             || (k == 4 && b4) || (k == 5 && b5) || (k == 6 && b6) || (k == 7 && b7)
  {
    var x := FromBits(b0, b1, b2, b3, b4, b5, b6, b7);
    LowDigits(x);
    WidenBits(b0, b1, b2, b3, b4, b5, b6, b7);
    hide Digit, FromBits;
    if k >= 8 {
      Behind(x, k - 8);
      NoDigit(k - 8);
    }
  }

  lemma WidenBits(b0: bool, b1: bool, b2: bool, b3: bool, b4: bool, b5: bool, b6: bool, b7: bool)
    ensures var x := FromBits(b0, b1, b2, b3, b4, b5, b6, b7);
      && b0 == (x & 1 == 1) && b1 == ((x >> 1) & 1 == 1) && b2 == ((x >> 2) & 1 == 1) && b3 == ((x >> 3) & 1 == 1)
      && b4 == ((x >> 4) & 1 == 1) && b5 == ((x >> 5) & 1 == 1) && b6 == ((x >> 6) & 1 == 1)
      && b7 == ((x >> 7) & 1 == 1) && x >> 8 == 0
  {
  }

  /** The first byte of a text is that of the register, at its own place. */
  lemma FirstByte(p: seq<byte>)
    requires p != []
    ensures Shift(Message(p), 32) == Add(Shift(Poly32(Widen(p[0])), 8 * |p|), Shift(Message(p[1..]), 32))
  {
    hide Digit, Odd, Widen;
    var a, b, c := Shift(Message(p), 32), Shift(Poly32(Widen(p[0])), 8 * |p|), Shift(Message(p[1..]), 32);
    forall e: nat
      ensures e in a <==> ((e in b) != (e in c))
    {
      if e >= 32 {
        MessageUnfold(p, e - 32);
      }
      if 8 * |p| <= e <= 8 * |p| + 31 {
        WidenDigit(p[0], 31 - (e - 8 * |p|));
      }
    }
  }

  lemma MessageUnfold(p: seq<byte>, e: nat)
    requires p != []
    ensures var m := |p| - 1;
      && (e in Message(p) <==> if e < 8 * m then e in Message(p[1..]) else e < 8 * m + 8 && Odd(p[0], 7 - (e - 8 * m)))
      && (e in Message(p[1..]) ==> e < 8 * m)
  {
    hide Odd;
    var m := |p| - 1;
    if e < 8 * m {
      assert p[1..][m - 1 - e / 8] == p[m - e / 8];
    }
  }

  /**
   * The register after a text is the remainder of the text divided by the generator, the register before it
   * added to the first 32 places.
   */
  lemma {:induction false} CrcIsRemainder(s: bv32, p: seq<byte>)
    ensures IsRemainder(Dividend(s, p), Poly32(Crc32(s, p)))
  {
    CrcSame(s, p);
    hide Poly32, Dividend, Digit;
    AddSwap(Dividend(s, p), Poly32(Crc32(s, p)));
    RegisterPlaces(Crc32(s, p));
  }

  lemma RegisterPlaces(x: bv32)
    ensures forall e | e in Poly32(x) :: e < 32
  {
  }

  lemma AddSwap(p: Poly, q: Poly)
    ensures Add(p, q) == Add(q, p)
  {
  }

  lemma {:induction false} CrcSame(s: bv32, p: seq<byte>)
    ensures Same(Poly32(Crc32(s, p)), Dividend(s, p))
    decreases |p|
  {
    if p == [] {
      EmptyDividend(s, p);
      SameSelf(Poly32(s));
    } else {
      var t := Rounds(8, Xor(s, Widen(p[0])));
      CrcSame(t, p[1..]);
      assert Crc32(s, p) == Crc32(t, p[1..]);
      hide *;
      ByteDivides(s, p);
      SameTrans(Poly32(Crc32(t, p[1..])), Dividend(t, p[1..]), Dividend(s, p));
    }
  }

  /** Taking a byte into the register leaves the remainder as it is. */
  lemma ByteDivides(s: bv32, p: seq<byte>)
    requires p != []
    ensures Same(Dividend(Rounds(8, Xor(s, Widen(p[0]))), p[1..]), Dividend(s, p))
  {
    var m, rest := 8 * |p| - 8, Shift(Message(p[1..]), 32);
    var x := Xor(s, Widen(p[0]));
    var t := Rounds(8, x);
    var a, b := Shift(Poly32(s), 8 + m), Shift(Poly32(Widen(p[0])), 8 + m);
    RoundsDivide(8, x);
    SameShift(Poly32(t), Shift(Poly32(x), 8), m);
    ShiftShift(Poly32(x), 8, m);
    PolyXor(s, Widen(p[0]));
    ShiftAdd(Poly32(s), Poly32(Widen(p[0])), 8 + m);
    SameSum(Shift(Poly32(t), m), Add(a, b), rest);
    FirstByte(p);
    AddAssoc(a, b, rest);
    hide Same, Poly32, Shift, Add, Message, Xor, Widen, Rounds;
  }

  lemma EmptyDividend(s: bv32, p: seq<byte>)
    requires p == []
    ensures Dividend(s, p) == Poly32(s)
  {
    assert Message(p) == {};
    NoShift(Poly32(s));
    ShiftNothing(32);
    AddSelf(Poly32(s));
  }

  lemma AddAssoc(p: Poly, q: Poly, r: Poly)
    ensures Add(Add(p, q), r) == Add(p, Add(q, r))
  {
  }

  /** So the result is settled: no other register is that remainder. */
  lemma CrcIsTheRemainder(s: bv32, p: seq<byte>, r: bv32)
    ensures r == Crc32(s, p) <==> IsRemainder(Dividend(s, p), Poly32(r))
  {
    CrcIsRemainder(s, p);
    hide Crc32, Poly32, Dividend, IsRemainder;
    if IsRemainder(Dividend(s, p), Poly32(r)) {
      RemainderUnique(Dividend(s, p), Poly32(r), Poly32(Crc32(s, p)));
      PolyInjective(r, Crc32(s, p));
    }
  }

  /** crc32_le. */
  method Crc32Le(crc: bv32, p: seq<byte>) returns (r: bv32)
    ensures r == Crc32(crc, p)
    ensures IsRemainder(Dividend(crc, p), Poly32(r))
  {
    hide Xor, Round, Widen, IsRemainder, Dividend, Poly32;
    r := crc;
    var k := 0;
    while k < |p|
      invariant 0 <= k <= |p|
      invariant Crc32(crc, p) == Crc32(r, p[k..])
    {
      r := Xor(r, Widen(p[k]));
      ghost var start := r;
      k := k + 1;
      var i := 0;
      while i < 8
        invariant 0 <= i <= 8
        invariant Rounds(8, start) == Rounds(8 - i, r)
      {
        r := Round(r);
        i := i + 1;
      }
    }
    CrcIsRemainder(crc, p);
  }

  /** The checksum on the wire: it starts from the register that holds the constant of the generator itself. */
  lemma ChecksumIsTheRemainder(p: seq<byte>, r: bv32)
    ensures Checksum(p) == r as int <==> IsRemainder(Dividend(0xEDB8_8320, p), Poly32(r))
  {
    CrcIsTheRemainder(0xEDB8_8320, p, r);
    hide Crc32, Poly32, Dividend, IsRemainder;
    if Checksum(p) == r as int {
      BitsAsInt(Crc32(0xEDB8_8320, p), r);
    }
  }
}
