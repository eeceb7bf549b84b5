/**
 * Go's `byte` and the bitwise operators the decoder applies to bytes, on
 * integers: And and Xor are defined bit by bit, and the closed forms the
 * decoder's specification uses (Low, HasFlag) are proved equal to them.
 */
module Bytes {

  /** Go's byte. */
  type Byte = b: int | 0 <= b < 256

  function Pow2(k: nat): (r: nat)
    ensures r > 0
  {
    if k == 0 then 1 else 2 * Pow2(k - 1)
  }

  /** Bitwise AND (Go's `&`), least significant bit first. */
  function And(a: nat, b: nat): nat
  {
    if a == 0 || b == 0 then 0
    else 2 * And(a / 2, b / 2) + (if a % 2 == 1 && b % 2 == 1 then 1 else 0)
  }

  /** Bitwise XOR (Go's `^`), least significant bit first. */
  function Xor(a: nat, b: nat): nat
    decreases a + b
  {
    if a == 0 && b == 0 then 0
    else 2 * Xor(a / 2, b / 2) + (if a % 2 != b % 2 then 1 else 0)
  }

  /** `b & (m - 1)` for a power of two `m`: the bits of `b` below `m`. */
  function Low(b: nat, m: nat): nat
    requires m > 0
  {
    b % m
  }

  /** `b & flag != 0` for a one-bit `flag`. */
  predicate HasFlag(b: nat, flag: nat)
    requires flag > 0
  {
    (b / flag) % 2 == 1
  }

  /** The only multiple of d strictly between -d and d is 0. */
  lemma MultipleBelow(d: nat, x: int)
    requires d > 0 && -(d as int) < d * x < d
    ensures x == 0
  {
  }

  /** Euclidean division is unique. */
  lemma DivModUnique(a: nat, d: nat, q: nat, r: nat)
    requires d > 0 && r < d && a == d * q + r
    ensures a / d == q && a % d == r
  {
    var q', r' := a / d, a % d;
    assert d * (q - q') == r' - r;
    MultipleBelow(d, q - q');

  }

  /** Halving commutes with taking the low bits. */
  lemma HalfMod(a: nat, m: nat)
    requires m > 0
    ensures a % (2 * m) == 2 * ((a / 2) % m) + a % 2
    ensures (a / 2) / m == a / (2 * m)
  {
    var q, r := (a / 2) / m, (a / 2) % m;
    assert a / 2 == m * q + r;
    assert a == 2 * m * q + (2 * r + a % 2);
    DivModUnique(a, 2 * m, q, 2 * r + a % 2);
  }

  /** One step of LowIsAnd: from the bits of a / 2 below m to those of a below 2m. */
  lemma LowStep(a: nat, m: nat)
    requires a > 0 && m > 0 && (a / 2) % m == And(a / 2, m - 1)
    ensures a % (2 * m) == And(a, 2 * m - 1)
  {
    var mask := 2 * m - 1;
    assert mask / 2 == m - 1 && mask % 2 == 1;
    HalfMod(a, m);
  }

  /** Masking with 2^k - 1 keeps the low k bits. */
  lemma {:induction false} LowIsAnd(a: nat, k: nat)
    ensures Low(a, Pow2(k)) == And(a, Pow2(k) - 1)
  {
    if k == 0 {
      assert Pow2(k) == 1;
    } else if a == 0 {
      DivModUnique(0, Pow2(k), 0, 0);
    } else {
      LowIsAnd(a / 2, k - 1);
      LowStep(a, Pow2(k - 1));
    }
  }

  /** Testing against 2^k reads bit k. */
  lemma {:induction false} HasFlagIsAnd(a: nat, k: nat)
    ensures HasFlag(a, Pow2(k)) <==> And(a, Pow2(k)) != 0
  {
    if k > 0 && a > 0 {
      var m := Pow2(k - 1);
      assert Pow2(k) / 2 == m && Pow2(k) % 2 == 0;
      assert And(a, Pow2(k)) == 2 * And(a / 2, m);
      HasFlagIsAnd(a / 2, k - 1);
      HalfMod(a, m);
      assert (a / Pow2(k)) == (a / 2) / m;
    } else if k == 0 {
      assert Pow2(k) == 1;
    } else {
      DivModUnique(0, Pow2(k), 0, 0);
    }
  }

  /** XOR of two numbers below 2^k stays below 2^k. */
  lemma {:induction false} XorBound(a: nat, b: nat, k: nat)
    requires a < Pow2(k) && b < Pow2(k)
    ensures Xor(a, b) < Pow2(k)
  {
    if k > 0 && (a > 0 || b > 0) {
      XorBound(a / 2, b / 2, k - 1);
    }
  }

  /** XOR with the same value twice is the identity. */
  lemma {:induction false} XorTwice(a: nat, b: nat)
    ensures Xor(Xor(a, b), b) == a
    decreases a + b
  {
    if a == 0 && b == 0 {
    } else {
      var x := Xor(a, b);
      XorTwice(a / 2, b / 2);
      assert x / 2 == Xor(a / 2, b / 2) && x % 2 == (if a % 2 != b % 2 then 1 else 0);
    }
  }

  /** `a ^ b` on two bytes; XOR with `b` again gives `a` back. */
  function XorByte(a: Byte, b: Byte): (r: Byte)
    ensures Xor(r, b) == a
  {
    XorBound(a, b, 8);
    XorTwice(a, b);
    Xor(a, b)
  }

  /** The closed forms agree with Go's masks on the header byte:
      `b & 0x7F`, `b & 0x0F`, `b & 0x40 != 0` and `b & 0x80 != 0`. */
  lemma HeaderMasks(b: Byte)
    ensures Low(b, 0x80) == And(b, 0x7F)
    ensures Low(b, 0x10) == And(b, 0x0F) && Low(b, 0x10) <= 0x0F
    ensures HasFlag(b, 0x40) <==> And(b, 0x40) != 0
    ensures HasFlag(b, 0x80) <==> And(b, 0x80) != 0
  {
    assert Pow2(4) == 0x10 && Pow2(6) == 0x40 && Pow2(7) == 0x80;
    LowIsAnd(b, 7);
    LowIsAnd(b, 4);
    HasFlagIsAnd(b, 6);
    HasFlagIsAnd(b, 7);
  }
}
