/**
 Bytes, sixteen-bit words and the bitwise operators on natural numbers, defined digit by digit.
 Go's `&`, `|` and `^` on unsigned values of any width are these operators; `<<` and `>>` are
 multiplication and division by a power of two, with the truncation to the width written out.
*/
module Bits {

  type byte = b: int | 0 <= b < 256
  type u16 = w: int | 0 <= w < 0x1_0000

  // ---- 64-bit integers

  const TWO63: int := 0x8000_0000_0000_0000
  const TWO64: int := 0x1_0000_0000_0000_0000

  predicate IsInt64(v: int) { -TWO63 <= v < TWO63 }

  /** `int64(u)` for a 64-bit word u. */
  function ToInt64(u: nat): int { if u < TWO63 then u else u - TWO64 }

  /** What a 64-bit signed operation keeps of an integer. */
  function Wrap64(x: int): (v: int)
    ensures IsInt64(v)
  {
    if IsInt64(x) then x else ToInt64(x % TWO64)
  }

  function Pow2(k: nat): (p: nat)
    ensures p >= 1
  {
    if k == 0 then 1 else 2 * Pow2(k - 1)
  }

  lemma {:induction false} Pow2Add(j: nat, k: nat)
    ensures Pow2(j + k) == Pow2(j) * Pow2(k)
  {
    if j != 0 {
      Pow2Add(j - 1, k);
      assert Pow2(j + k) == 2 * (Pow2(j - 1) * Pow2(k)) == (2 * Pow2(j - 1)) * Pow2(k);
    }
  }

  lemma {:induction false} Pow2Mono(j: nat, k: nat)
    requires j <= k
    ensures Pow2(j) <= Pow2(k)
  {
    if j < k {
      Pow2Mono(j, k - 1);
    }
  }

  /** `x << k` before any truncation. */
  function Shl(x: nat, k: nat): nat {
    if k == 0 then x else 2 * Shl(x, k - 1)
  }

  lemma {:induction false} ShlIsProduct(x: nat, k: nat)
    ensures Shl(x, k) == Pow2(k) * x
  {
    if k != 0 {
      ShlIsProduct(x, k - 1);
      assert Pow2(k) * x == 2 * (Pow2(k - 1) * x);
    }
  }

  function Xor(a: nat, b: nat): nat
    decreases a + b
  {
    if a == 0 && b == 0 then 0 else (a % 2 + b % 2) % 2 + 2 * Xor(a / 2, b / 2)
  }

  function And(a: nat, b: nat): nat
    decreases a + b
  {
    if a == 0 || b == 0 then 0 else (a % 2) * (b % 2) + 2 * And(a / 2, b / 2)
  }

  function Or(a: nat, b: nat): nat
    decreases a + b
  {
    if a == 0 && b == 0 then 0
    else (if a % 2 == 1 || b % 2 == 1 then 1 else 0) + 2 * Or(a / 2, b / 2)
  }

  /** Bit `i` of `x`, bit 0 being the least significant one. */
  predicate Bit(x: nat, i: nat) {
    if i == 0 then x % 2 == 1 else Bit(x / 2, i - 1)
  }

  // ---- xor: a commutative group in which every element is its own inverse

  lemma {:induction false} XorComm(a: nat, b: nat)
    ensures Xor(a, b) == Xor(b, a)
    decreases a + b
  {
    if a != 0 || b != 0 {
      XorComm(a / 2, b / 2);
    }
  }

  lemma {:induction false} XorZero(a: nat)
    ensures Xor(a, 0) == a && Xor(0, a) == a
  {
    if a != 0 {
      XorZero(a / 2);
    }
  }

  lemma {:induction false} XorAssoc(a: nat, b: nat, c: nat)
    ensures Xor(Xor(a, b), c) == Xor(a, Xor(b, c))
    decreases a + b + c
  {
    if a != 0 || b != 0 || c != 0 {
      XorAssoc(a / 2, b / 2, c / 2);
      var l, r := Xor(Xor(a, b), c), Xor(a, Xor(b, c));
      XorHalves(a, b);
      XorHalves(b, c);
      XorHalves(Xor(a, b), c);
      XorHalves(a, Xor(b, c));
      ParityAssoc(a % 2, b % 2, c % 2);
      assert l / 2 == r / 2 && l % 2 == r % 2;
    }
  }

  lemma ParityAssoc(a: nat, b: nat, c: nat)
    requires a < 2 && b < 2 && c < 2
    ensures ((a + b) % 2 + c) % 2 == (a + (b + c) % 2) % 2
  {
  }

  lemma XorHalves(a: nat, b: nat)
    ensures Xor(a, b) % 2 == (a % 2 + b % 2) % 2 && Xor(a, b) / 2 == Xor(a / 2, b / 2)
  {
  }

  /** Two numbers are equal exactly when their xor is zero. */
  lemma {:induction false} XorEqual(a: nat, b: nat)
    ensures Xor(a, b) == 0 <==> a == b
    decreases a + b
  {
    if a != 0 || b != 0 {
      XorEqual(a / 2, b / 2);
    }
  }

  lemma {:induction false} XorBound(a: nat, b: nat, k: nat)
    requires a < Pow2(k) && b < Pow2(k)
    ensures Xor(a, b) < Pow2(k)
  {
    if k != 0 {
      XorBound(a / 2, b / 2, k - 1);
    }
  }

  /** Adding above the top bit is the same as xor-ing there. */
  lemma {:induction false} XorDisjoint(a: nat, b: nat, k: nat)
    requires a < Pow2(k)
    ensures Xor(a, Shl(b, k)) == a + Shl(b, k)
  {
    if k == 0 {
      XorZero(b);
    } else {
      XorDisjoint(a / 2, b, k - 1);
    }
  }

  lemma XorSwap(a: nat, b: nat, c: nat, d: nat)
    ensures Xor(Xor(a, b), Xor(c, d)) == Xor(Xor(a, c), Xor(b, d))
  {
    XorAssoc(Xor(a, b), c, d);
    XorAssoc(a, b, c);
    XorComm(b, c);
    XorAssoc(a, c, b);
    XorAssoc(Xor(a, c), b, d);
  }

  // ---- shifting down

  /** `x >> k`. */
  function Shr(x: nat, k: nat): nat {
    if k == 0 then x else Shr(x / 2, k - 1)
  }

  lemma {:induction false} ShrIsQuotient(x: nat, k: nat)
    ensures Shr(x, k) == x / Pow2(k)
  {
    if k != 0 {
      ShrIsQuotient(x / 2, k - 1);
      DivStep(x, k);
    }
  }

  lemma {:induction false} ShrBound(x: nat, k: nat)
    ensures Shr(x, k) <= x
    ensures x < Pow2(k) ==> Shr(x, k) == 0
  {
    if k != 0 {
      ShrBound(x / 2, k - 1);
    }
  }

  lemma DivStep(x: nat, k: nat)
    requires k > 0
    ensures x / Pow2(k) == x / 2 / Pow2(k - 1)
  {
    var p := Pow2(k - 1);
    var q, r := x / 2 / p, x / 2 % p;
    assert x == (2 * p) * q + (2 * r + x % 2) by {
      assert x / 2 == p * q + r;
      assert 2 * (p * q) == (2 * p) * q;
    }
    DivModUnique(x, 2 * p, q, 2 * r + x % 2);
  }

  // ---- masks and single bits

  lemma {:induction false} AndMask(x: nat, k: nat)
    ensures And(x, Pow2(k) - 1) == x % Pow2(k)
  {
    if x != 0 && k != 0 {
      AndMask(x / 2, k - 1);
      ModStep(x, k);
      assert (Pow2(k) - 1) / 2 == Pow2(k - 1) - 1;
    }
  }

  lemma ModStep(x: nat, k: nat)
    requires k > 0
    ensures x % Pow2(k) == x % 2 + 2 * (x / 2 % Pow2(k - 1))
  {
    var p := Pow2(k - 1);
    var q, r := x / 2 / p, x / 2 % p;
    assert x / 2 == p * q + r;
    assert x == (2 * p) * q + (2 * r + x % 2) by {
      assert 2 * (p * q) == (2 * p) * q;
    }
    DivModUnique(x, 2 * p, q, 2 * r + x % 2);
  }

  lemma MulOutside(d: int, e: int)
    requires d > 0
    ensures e == 0 || d * e >= d || d * e <= -d
  {
    if e >= 1 {
      assert d * e >= d * 1;
    } else if e <= -1 {
      assert d * e <= d * -1;
    }
  }

  lemma DivModUnique(x: int, d: int, q: int, r: int)
    requires 0 <= r < d && x == d * q + r
    ensures x / d == q && x % d == r
  {
    var e := x / d - q;
    assert d * e == r - x % d by {
      assert d * (x / d) + x % d == x;
      assert d * (x / d) - d * q == d * e;
    }
    MulOutside(d, e);
  }

  lemma {:induction false} AndBit(x: nat, i: nat)
    ensures And(x, Pow2(i)) != 0 <==> Bit(x, i)
  {
    if x == 0 {
      BitZero(i);
    } else if i != 0 {
      AndBit(x / 2, i - 1);
    } else {
      assert And(x / 2, 0) == 0;
      assert Pow2(0) / 2 == 0;
    }
  }

  /** The highest bit of a number that fits in `k + 1` bits. */
  lemma {:induction false} BitTop(x: nat, k: nat)
    requires x < Pow2(k + 1)
    ensures Bit(x, k) <==> x >= Pow2(k)
  {
    if k != 0 {
      BitTop(x / 2, k - 1);
    }
  }

  lemma {:induction false} BitZero(i: nat)
    ensures !Bit(0, i)
  {
    if i != 0 {
      BitZero(i - 1);
    }
  }

  lemma {:induction false} OrBit(x: nat, i: nat, j: nat)
    ensures Bit(Or(x, Pow2(i)), j) <==> (Bit(x, j) || i == j)
  {
    if j == 0 {
    } else if i == 0 {
      OrZero(x / 2);
      assert Pow2(0) / 2 == 0;
    } else {
      OrBit(x / 2, i - 1, j - 1);
      assert Or(x, Pow2(i)) / 2 == Or(x / 2, Pow2(i - 1));
    }
  }

  lemma {:induction false} OrZero(x: nat)
    ensures Or(x, 0) == x
  {
    if x != 0 {
      OrZero(x / 2);
    }
  }

  /** Setting a bit that lies above every bit of `x` adds its weight. */
  lemma {:induction false} OrAbove(x: nat, i: nat)
    requires x < Pow2(i)
    ensures Or(x, Pow2(i)) == x + Pow2(i)
  {
    if i == 0 {
    } else {
      OrAbove(x / 2, i - 1);
    }
  }

  /** A number is its bits: the digits below `k` give it back modulo two to the `k`. */
  function Value(bits: seq<bool>): nat {
    if bits == [] then 0 else (if bits[0] then 1 else 0) + 2 * Value(bits[1..])
  }

  lemma {:induction false} ValueBound(bits: seq<bool>)
    ensures Value(bits) < Pow2(|bits|)
  {
    if bits != [] {
      ValueBound(bits[1..]);
    }
  }

  lemma {:induction false} ValueBit(bits: seq<bool>, i: nat)
    ensures Bit(Value(bits), i) == (i < |bits| && bits[i])
  {
    if bits == [] {
      BitZero(i);
    } else if i != 0 {
      ValueBit(bits[1..], i - 1);
    }
  }

  lemma {:induction false} ValueSnoc(bits: seq<bool>, b: bool)
    ensures Value(bits + [b]) == Value(bits) + (if b then Pow2(|bits|) else 0)
  {
    if bits != [] {
      ValueSnoc(bits[1..], b);
      assert (bits + [b])[1..] == bits[1..] + [b];
    }
  }

  /** The bit at `at` on and the others off. */
  function Lone(n: nat, at: nat): seq<bool> { seq(n, i => i == at) }

  lemma {:induction false} LoneValue(n: nat, at: nat)
    ensures Value(Lone(n, at)) == if at < n then Pow2(at) else 0
  {
    if n > 0 {
      var rest := Lone(n, at)[1..];
      if at == 0 {
        NoneValue(rest);
      } else {
        assert rest == Lone(n - 1, at - 1);
        LoneValue(n - 1, at - 1);
      }
    }
  }

  lemma {:induction false} NoneValue(bits: seq<bool>)
    requires forall i :: 0 <= i < |bits| ==> !bits[i]
    ensures Value(bits) == 0
  {
    if bits != [] {
      NoneValue(bits[1..]);
    }
  }
}
