/** Bitwise operations on unsigned numbers. */
module Bits {
  /** Bitwise conjunction of unsigned numbers, from the lowest bit on. */
  function And(a: nat, b: nat): (r: nat)
    ensures r <= a
  {
    if a == 0 || b == 0 then 0 else (if a % 2 == 1 && b % 2 == 1 then 1 else 0) + 2 * And(a / 2, b / 2)
  }

  /** Exclusive disjunction. */
  function Xor(a: nat, b: nat): nat {
    if a == 0 && b == 0 then 0 else (if a % 2 != b % 2 then 1 else 0) + 2 * Xor(a / 2, b / 2)
  }

  function Pow2(n: nat): (p: nat)
    ensures p > 0
  {
    if n == 0 then 1 else 2 * Pow2(n - 1)
  }

  /** Bit `i` of a number. */
  function Bit(a: nat, i: nat): nat {
    if i == 0 then a % 2 else Bit(a / 2, i - 1)
  }

  /** The two are what their names say, bit by bit. */
  lemma {:induction false} BitsOf(a: nat, b: nat, i: nat)
    ensures Bit(And(a, b), i) == 1 <==> Bit(a, i) == 1 && Bit(b, i) == 1
    ensures Bit(Xor(a, b), i) == 1 <==> Bit(a, i) != Bit(b, i)
    decreases i
  {
    hide And, Xor;
    HalfOf(a, b);
    if i > 0 {
      BitsOf(a / 2, b / 2, i - 1);
    }
  }

  lemma HalfAnd(a: nat, b: nat)
    ensures And(a, b) / 2 == And(a / 2, b / 2)
    ensures And(a, b) % 2 == if a % 2 == 1 && b % 2 == 1 then 1 else 0
  {
    if a == 0 || b == 0 { assert a / 2 == 0 || b / 2 == 0; }
  }

  lemma HalfXor(a: nat, b: nat)
    ensures Xor(a, b) / 2 == Xor(a / 2, b / 2)
    ensures Xor(a, b) % 2 == if a % 2 != b % 2 then 1 else 0
  {
  }

  lemma HalfOf(a: nat, b: nat)
    ensures And(a, b) / 2 == And(a / 2, b / 2)
    ensures And(a, b) % 2 == if a % 2 == 1 && b % 2 == 1 then 1 else 0
    ensures Xor(a, b) / 2 == Xor(a / 2, b / 2)
    ensures Xor(a, b) % 2 == if a % 2 != b % 2 then 1 else 0
  {
    HalfAnd(a, b);
    HalfXor(a, b);
  }

  /** A low part of `k` bits and the rest are combined apart. */
  lemma {:induction false} Split(a: nat, a0: nat, b: nat, b0: nat, k: nat)
    requires a0 < Pow2(k) && b0 < Pow2(k)
    ensures And(a * Pow2(k) + a0, b * Pow2(k) + b0) == And(a, b) * Pow2(k) + And(a0, b0)
    ensures Xor(a * Pow2(k) + a0, b * Pow2(k) + b0) == Xor(a, b) * Pow2(k) + Xor(a0, b0)
    decreases k
  {
    if k > 0 {
      Split(a, a0 / 2, b, b0 / 2, k - 1);
      SplitHigher(a, a0, b, b0, Pow2(k - 1), And(a, b), Xor(a, b));
    }
  }

  lemma SplitHigher(a: nat, a0: nat, b: nat, b0: nat, p: nat, u: nat, v: nat)
    requires And(a * p + a0 / 2, b * p + b0 / 2) == u * p + And(a0 / 2, b0 / 2)
    requires Xor(a * p + a0 / 2, b * p + b0 / 2) == v * p + Xor(a0 / 2, b0 / 2)
    ensures And(a * (2 * p) + a0, b * (2 * p) + b0) == u * (2 * p) + And(a0, b0)
    ensures Xor(a * (2 * p) + a0, b * (2 * p) + b0) == v * (2 * p) + Xor(a0, b0)
  {
    hide And, Xor;
    Doubled(a, p);
    Doubled(b, p);
    Doubled(u, p);
    Doubled(v, p);
    SplitTwice(a * p, a0, b * p, b0, u * p, v * p);
  }

  /** From a boundary to the next higher one. */
  lemma SplitTwice(a: nat, a0: nat, b: nat, b0: nat, u: nat, v: nat)
    requires And(a + a0 / 2, b + b0 / 2) == u + And(a0 / 2, b0 / 2)
    requires Xor(a + a0 / 2, b + b0 / 2) == v + Xor(a0 / 2, b0 / 2)
    ensures And(2 * a + a0, 2 * b + b0) == 2 * u + And(a0, b0)
    ensures Xor(2 * a + a0, 2 * b + b0) == 2 * v + Xor(a0, b0)
  {
    hide And, Xor;
    HalfOf(2 * a + a0, 2 * b + b0);
    HalfOf(a0, b0);
  }

  lemma Doubled(a: nat, p: nat)
    ensures a * (2 * p) == 2 * (a * p)
  {
  }

  lemma {:induction false} AndAll(a: nat, k: nat)
    requires a < Pow2(k)
    ensures And(a, Pow2(k) - 1) == a && And(a, 0) == 0
    decreases k
  {
    if k > 0 {
      AndAll(a / 2, k - 1);
      HalfOf(a, Pow2(k) - 1);
    }
  }

  /** Combined with no bits, with all and with the other ones. */
  lemma {:induction false} XorNone(a: nat)
    ensures Xor(a, 0) == a
    decreases a
  {
    if a > 0 { XorNone(a / 2); HalfOf(a, 0); }
  }

  lemma {:induction false} AndRest(a: nat, k: nat)
    requires a < Pow2(k)
    ensures And(a, Pow2(k) - 1 - a) == 0
    decreases k
  {
    if k > 0 {
      AndRest(a / 2, k - 1);
      HalfOf(a, Pow2(k) - 1 - a);
    }
  }

  lemma {:induction false} XorShort(a: nat, b: nat, k: nat)
    requires a < Pow2(k) && b < Pow2(k)
    ensures Xor(a, b) < Pow2(k)
    decreases k
  {
    if k > 0 {
      XorShort(a / 2, b / 2, k - 1);
      HalfOf(a, b);
    }
  }
}
