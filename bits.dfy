/**
 * JavaScript's bitwise `|` and `^` on non-negative numbers, written bit by
 * bit on `nat` so that the usual facts about them (the low `k` bits of a
 * result depend only on the low `k` bits of the operands, operands with no
 * bit in common just add) are proved by induction on `k`.
 *
 * JavaScript applies these operators to 32-bit integers; every caller in
 * this model first reduces its operands to that range (`% Pow2(32)`), which
 * keeps the same bit pattern as JavaScript's signed `ToInt32`.
 */
module Bits {

  function Pow2(k: nat): (p: nat)
    ensures p >= 1
  {
    if k == 0 then 1 else 2 * Pow2(k - 1)
  }

  /** `a | b`: the lowest bit, then the rest. */
  function Or(a: nat, b: nat): nat
    decreases a + b
  {
    if a == 0 && b == 0 then 0
    else 2 * Or(a / 2, b / 2) + (if a % 2 + b % 2 > 0 then 1 else 0)
  }

  /** `a ^ b`: the lowest bit, then the rest. */
  function Xor(a: nat, b: nat): nat
    decreases a + b
  {
    if a == 0 && b == 0 then 0
    else 2 * Xor(a / 2, b / 2) + (if a % 2 == b % 2 then 0 else 1)
  }

  /** Zero is the identity of `^` and of `|`. */
  lemma {:induction false} XorZero(a: nat)
    ensures Xor(a, 0) == a && Xor(0, a) == a
  {
    if a > 0 {
      XorZero(a / 2);
    }
  }

  lemma {:induction false} OrZero(a: nat)
    ensures Or(a, 0) == a && Or(0, a) == a
  {
    if a > 0 {
      OrZero(a / 2);
    }
  }

  /** The low `k` bits of `a`, one bit at a time. */
  function Low(a: nat, k: nat): nat
  {
    if k == 0 then 0 else 2 * Low(a / 2, k - 1) + a % 2
  }

  /** `a` with its low `k` bits shifted out. */
  function High(a: nat, k: nat): nat
  {
    if k == 0 then a else High(a / 2, k - 1)
  }

  /** `Low` and `High` are the remainder and the quotient by `2^k`. */
  lemma {:induction false} LowHighDivMod(a: nat, k: nat)
    ensures Low(a, k) == a % Pow2(k) && High(a, k) == a / Pow2(k)
  {
    if k > 0 {
      LowHighDivMod(a / 2, k - 1);
      HalveDivMod(a, Pow2(k - 1));
    }
  }

  /** Division and remainder by `2 * q` through the lowest bit. */
  lemma HalveDivMod(x: nat, q: nat)
    requires q >= 1
    ensures x / (2 * q) == (x / 2) / q
    ensures x % (2 * q) == 2 * ((x / 2) % q) + x % 2
  {
    var h, r := x / 2, x % 2;
    var hq, hr := h / q, h % q;
    assert x == (2 * q) * hq + (2 * hr + r) by {
      assert h == q * hq + hr;
      assert x == 2 * h + r;
    }
    DivModUnique(x, 2 * q, hq, 2 * hr + r);
  }

  /** Division and remainder are determined by `x == q * d + r`, `0 <= r < d`. */
  lemma DivModUnique(x: int, d: int, q: int, r: int)
    requires d >= 1 && 0 <= r < d && x == q * d + r
    ensures x % d == r && x / d == q
  {
    var q', r' := x / d, x % d;
    assert (q' - q) * d == r - r';
    MultipleWithinOne(q' - q, d);
  }

  /** The only multiple of `d` strictly between `-d` and `d` is zero. */
  lemma MultipleWithinOne(k: int, d: int)
    requires d >= 1 && -d < k * d < d
    ensures k == 0
  {
  }

  /** `2 * h + c` with a bit `c` halves to `h` with remainder `c`. */
  lemma Halve(x: nat, h: nat, c: nat)
    requires c < 2 && x == 2 * h + c
    ensures x / 2 == h && x % 2 == c
  {
  }

  /** `a` is its high part above its low `k` bits. */
  lemma {:induction false} LowHighRecombine(a: nat, k: nat)
    ensures a == Pow2(k) * High(a, k) + Low(a, k) && Low(a, k) < Pow2(k)
  {
    LowHighDivMod(a, k);
  }

  /** The low `k` bits of `a ^ b` come from the low `k` bits of `a` and `b`, the rest from the rest. */
  lemma {:induction false} XorBits(a: nat, b: nat, k: nat)
    ensures Low(Xor(a, b), k) == Xor(Low(a, k), Low(b, k))
    ensures High(Xor(a, b), k) == Xor(High(a, k), High(b, k))
  {
    if k > 0 {
      var x, x' := Xor(a, b), Xor(a / 2, b / 2);
      var c := if a % 2 == b % 2 then 0 else 1;
      Halve(x, x', c);
      XorBits(a / 2, b / 2, k - 1);
      var la, lb := Low(a, k), Low(b, k);
      Halve(la, Low(a / 2, k - 1), a % 2);
      Halve(lb, Low(b / 2, k - 1), b % 2);
      assert Xor(la, lb) == 2 * Xor(la / 2, lb / 2) + (if la % 2 == lb % 2 then 0 else 1);
    }
  }

  lemma {:induction false} OrBits(a: nat, b: nat, k: nat)
    ensures Low(Or(a, b), k) == Or(Low(a, k), Low(b, k))
    ensures High(Or(a, b), k) == Or(High(a, k), High(b, k))
  {
    if k > 0 {
      var x, x' := Or(a, b), Or(a / 2, b / 2);
      var c := if a % 2 + b % 2 > 0 then 1 else 0;
      Halve(x, x', c);
      OrBits(a / 2, b / 2, k - 1);
      var la, lb := Low(a, k), Low(b, k);
      Halve(la, Low(a / 2, k - 1), a % 2);
      Halve(lb, Low(b / 2, k - 1), b % 2);
      assert Or(la, lb) == 2 * Or(la / 2, lb / 2) + (if la % 2 + lb % 2 > 0 then 1 else 0);
    }
  }

  /** A number below `2^k` is its own low part and has no high part. */
  lemma Fits(a: nat, k: nat)
    requires a < Pow2(k)
    ensures Low(a, k) == a && High(a, k) == 0
  {
    LowHighDivMod(a, k);
    DivModUnique(a, Pow2(k), 0, a);
  }

  /** The low `k` bits of `a ^ b`, as a remainder by `2^k`. */
  lemma XorLowSplit(a: nat, b: nat, k: nat)
    ensures Xor(a, b) % Pow2(k) == Xor(a % Pow2(k), b % Pow2(k))
  {
    XorBits(a, b, k);
    LowHighDivMod(a, k);
    LowHighDivMod(b, k);
    LowHighDivMod(Xor(a, b), k);
  }

  lemma OrLowSplit(a: nat, b: nat, k: nat)
    ensures Or(a, b) % Pow2(k) == Or(a % Pow2(k), b % Pow2(k))
  {
    OrBits(a, b, k);
    LowHighDivMod(a, k);
    LowHighDivMod(b, k);
    LowHighDivMod(Or(a, b), k);
  }

  /** `^` of two `k`-bit numbers is a `k`-bit number. */
  lemma XorBound(a: nat, b: nat, k: nat)
    requires a < Pow2(k) && b < Pow2(k)
    ensures Xor(a, b) < Pow2(k)
  {
    Fits(a, k);
    Fits(b, k);
    XorBits(a, b, k);
    XorZero(0);
    LowHighRecombine(Xor(a, b), k);
  }

  lemma OrBound(a: nat, b: nat, k: nat)
    requires a < Pow2(k) && b < Pow2(k)
    ensures Or(a, b) < Pow2(k)
  {
    Fits(a, k);
    Fits(b, k);
    OrBits(a, b, k);
    OrZero(0);
    LowHighRecombine(Or(a, b), k);
  }

  /** Operands whose bits do not overlap: `^` and `|` are both `+`. */
  lemma XorDisjoint(a: nat, b: nat, k: nat)
    requires a < Pow2(k) && Low(b, k) == 0
    ensures Xor(a, b) == a + b
  {
    Fits(a, k);
    XorBits(a, b, k);
    XorZero(a);
    XorZero(High(b, k));
    LowHighRecombine(b, k);
    LowHighRecombine(Xor(a, b), k);
  }

  lemma OrDisjoint(a: nat, b: nat, k: nat)
    requires Low(a, k) == 0 && b < Pow2(k)
    ensures Or(a, b) == a + b
  {
    Fits(b, k);
    OrBits(a, b, k);
    OrZero(b);
    OrZero(High(a, k));
    LowHighRecombine(a, k);
    LowHighRecombine(Or(a, b), k);
  }

  /** Powers of two that are whole bytes. */
  lemma Pow2Bytes()
    ensures Pow2(8) == 0x100 && Pow2(16) == 0x1_0000 && Pow2(24) == 0x100_0000
  {
    assert Pow2(8) == 0x100;
    Pow2MoreByte(8);
    Pow2MoreByte(16);
  }

  /** Eight more bits multiply by 256. */
  lemma Pow2MoreByte(k: nat)
    ensures Pow2(k + 8) == 0x100 * Pow2(k)
  {
    assert Pow2(k + 2) == 4 * Pow2(k);
    assert Pow2(k + 4) == 4 * Pow2(k + 2);
    assert Pow2(k + 6) == 4 * Pow2(k + 4);
    assert Pow2(k + 8) == 4 * Pow2(k + 6);
  }

  /** The byte above the lowest of `a ^ b` comes from the same bytes of `a` and `b`. */
  lemma XorAboveByte(a: nat, b: nat)
    ensures Xor(a, b) / 256 == Xor(a / 256, b / 256)
  {
    assert Pow2(8) == 256;
    XorBits(a, b, 8);
    LowHighDivMod(a, 8);
    LowHighDivMod(b, 8);
    LowHighDivMod(Xor(a, b), 8);
  }

  /** The lowest byte of `a ^ b` comes from the lowest bytes of `a` and `b`. */
  lemma XorLowByte(a: nat, b: nat)
    ensures Xor(a, b) % 256 == Xor(a % 256, b % 256)
  {
    assert Pow2(8) == 256;
    XorLowSplit(a, b, 8);
  }
}
