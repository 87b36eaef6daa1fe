/** Powers of two, the bitwise or of two numbers, and pow2gt of json/cJSON.c built from them. */
module Bits {
  function TwoTo(k: nat): (r: nat)
    ensures r > 0
  {
    if k == 0 then 1 else 2 * TwoTo(k - 1)
  }

  /** x | y. */
  function Or(x: nat, y: nat): (r: nat)
    ensures r >= x && r >= y
  {
    if x == 0 then y
    else if y == 0 then x
    else 2 * Or(x / 2, y / 2) + (if x % 2 == 1 || y % 2 == 1 then 1 else 0)
  }

  lemma OrStep(x: nat, y: nat)
    ensures Or(x, y) == 2 * Or(x / 2, y / 2) + (if x % 2 == 1 || y % 2 == 1 then 1 else 0)
  {
  }

  lemma {:induction false} OrBelow(x: nat, y: nat, k: nat)
    requires x < TwoTo(k) && y < TwoTo(k)
    ensures Or(x, y) < TwoTo(k)
  {
    if k > 0 {
      OrStep(x, y);
      OrBelow(x / 2, y / 2, k - 1);
    }
  }

  lemma Half(h: nat, l: nat, j: nat)
    requires j > 0
    ensures var x := h * TwoTo(j) + l;
      x / 2 == h * TwoTo(j - 1) + l / 2 && x % 2 == l % 2
  {
    assert h * TwoTo(j) == 2 * (h * TwoTo(j - 1));
  }

  /** Below bit j the or works on the low part alone. */
  lemma {:induction false} OrHigh(h: nat, l: nat, b: nat, j: nat)
    requires l < TwoTo(j) && b < TwoTo(j)
    ensures Or(h * TwoTo(j) + l, b) == h * TwoTo(j) + Or(l, b)
    decreases j
  {
    if j > 0 {
      var x := h * TwoTo(j) + l;
      Half(h, l, j);
      OrStep(x, b);
      OrStep(l, b);
      OrHigh(h, l / 2, b / 2, j - 1);
      assert h * TwoTo(j) == 2 * (h * TwoTo(j - 1));
    }
  }

  lemma {:induction false} TwoToAdd(j: nat, k: nat)
    ensures TwoTo(j + k) == TwoTo(j) * TwoTo(k)
  {
    if j > 0 {
      TwoToAdd(j - 1, k);
      assert 2 * TwoTo(j - 1) * TwoTo(k) == 2 * (TwoTo(j - 1) * TwoTo(k));
    }
  }

  // ---- pow2gt ----

  /** The five lines of pow2gt. */
  function Smear(x: nat): nat {
    var a := Or(x, x / 0x2);
    var b := Or(a, a / 0x4);
    var c := Or(b, b / 0x10);
    var d := Or(c, c / 0x100);
    Or(d, d / 0x1_0000)
  }

  function Pow2Gt(x: nat): nat
    requires x > 0
  {
    Smear(x - 1) + 1
  }

  function Left(m: nat, t: nat): nat {
    if m < t then t - m else 0
  }

  /** a has t bits, of which the top m are ones. */
  predicate Ones(a: nat, m: nat, t: nat) {
    a < TwoTo(t) && a + TwoTo(Left(m, t)) >= TwoTo(t)
  }

  /** a >> m, for p the m-th power of two. */
  function Shr(a: nat, p: nat): nat
    requires p > 0
  {
    a / p
  }

  /** One line doubles the run of ones. */
  lemma Doubles(a: nat, m: nat, t: nat)
    requires Ones(a, m, t)
    ensures Ones(Or(a, Shr(a, TwoTo(m))), 2 * m, t)
  {
    hide *;
    if t <= m {
      Quotient(a, TwoTo(m));
      DoublesShort(a, Shr(a, TwoTo(m)), m, t);
    } else {
      DoublesLong(a, m, t - m);
    }
  }

  lemma DoublesShort(a: nat, s: nat, m: nat, t: nat)
    requires Ones(a, m, t) && t <= m && s <= a
    ensures Ones(Or(a, s), 2 * m, t)
  {
    hide TwoTo, Or;
    OrBelow(a, s, t);
  }

  lemma DoublesLong(a: nat, m: nat, j: nat)
    requires Ones(a, m, m + j) && j > 0
    ensures Ones(Or(a, Shr(a, TwoTo(m))), 2 * m, m + j)
  {
    var s, h, q := Shr(a, TwoTo(m)), TwoTo(m) - 1, TwoTo(j);
    TwoToAdd(m, j);
    Minus(TwoTo(m), q);
    var l := a - h * q;
    ShiftedOnes(a, m, j);
    assert Left(2 * m, m + j) == Left(m, j);
    hide TwoTo, Or;
    OrHigh(h, l, s, j);
    OrBelow(l, s, j);
  }

  lemma Minus(p: nat, q: nat)
    requires p > 0
    ensures (p - 1) * q == p * q - q
  {
  }

  lemma Quotient(a: nat, p: nat)
    requires p > 0
    ensures Shr(a, p) * p <= a < (Shr(a, p) + 1) * p && Shr(a, p) <= a
  {
    Grows(1, p, a / p);
  }

  lemma ShiftedOnes(a: nat, m: nat, j: nat)
    requires Ones(a, m, m + j) && j > 0
    ensures Shr(a, TwoTo(m)) < TwoTo(j) && Shr(a, TwoTo(m)) + TwoTo(Left(m, j)) >= TwoTo(j)
  {
    Quotient(a, TwoTo(m));
    TwoToAdd(m, j);
    TwoToAdd(m, Left(m, j));
    Rising(j, m + Left(m, j));
    hide TwoTo;
    Bounds(a, TwoTo(m), Shr(a, TwoTo(m)), TwoTo(j), TwoTo(Left(m, j)));
  }

  lemma Bounds(a: nat, p: nat, s: nat, q: nat, w: nat)
    requires s * p <= a < (s + 1) * p && a < p * q <= a + q && q <= p * w
    ensures s < q <= s + w
  {
    Grows(q, s, p);
    Grows(s + 1 + w, q, p);
    assert (s + 1 + w) * p == (s + 1) * p + w * p;
  }

  lemma Grows(a: nat, b: nat, p: nat)
    ensures a <= b ==> a * p <= b * p
  {
  }

  lemma {:induction false} Rising(j: nat, k: nat)
    requires j <= k
    ensures TwoTo(j) <= TwoTo(k)
  {
    if j < k {
      Rising(j, k - 1);
    }
  }

  /** The number of bits of x. */
  function Width(x: nat): (t: nat)
    ensures x < TwoTo(t) && (t > 0 ==> TwoTo(t - 1) <= x)
  {
    if x == 0 then 0 else 1 + Width(x / 2)
  }

  /** For the sizes an int can double to, pow2gt is the least power of two that is not below x. */
  lemma Pow2GtIsPower(x: nat)
    requires 0 < x <= 0x4000_0000
    ensures var t := Width(x - 1);
      Pow2Gt(x) == TwoTo(t) && x <= TwoTo(t) && (t > 0 ==> TwoTo(t - 1) < x)
  {
    var y := x - 1;
    var t := Width(y);
    Literals();
    if t > 31 {
      Rising(30, t - 1);
    }
    TopBit(y, t);
    hide Width, TwoTo, Or, Smear;
    SmearIsOnes(y, t);
  }

  lemma SmearIsOnes(y: nat, t: nat)
    requires Ones(y, 1, t)
    ensures Ones(Smear(y), 32, t)
  {
    Literals();
    var a := Or(y, y / 0x2);
    var b := Or(a, a / 0x4);
    var c := Or(b, b / 0x10);
    var d := Or(c, c / 0x100);
    hide TwoTo, Or, Ones;
    Doubles(y, 1, t);
    Doubles(a, 2, t);
    Doubles(b, 4, t);
    Doubles(c, 8, t);
    Doubles(d, 16, t);
  }

  lemma TopBit(y: nat, t: nat)
    requires y < TwoTo(t) && (t > 0 ==> TwoTo(t - 1) <= y)
    ensures Ones(y, 1, t)
  {
  }

  lemma Literals()
    ensures TwoTo(0) == 1 && TwoTo(1) == 0x2 && TwoTo(2) == 0x4 && TwoTo(4) == 0x10
    ensures TwoTo(8) == 0x100 && TwoTo(16) == 0x1_0000 && TwoTo(30) == 0x4000_0000
  {
    assert TwoTo(2) == 0x4;
    TwoToAdd(2, 2);
    TwoToAdd(4, 2);
    TwoToAdd(4, 4);
    hide TwoTo;
    TwoToAdd(8, 8);
    TwoToAdd(6, 8);
    TwoToAdd(14, 16);
  }
}
