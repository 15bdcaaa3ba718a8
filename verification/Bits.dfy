/** Powers of two and the bit operations the allocator uses on 64-bit sizes. */
module Bits {
  import opened Basics

  function Pow2(k: nat): (r: nat)
    ensures r >= 1
  {
    if k == 0 then 1 else 2 * Pow2(k - 1)
  }

  ghost predicate IsPow2(n: nat) {
    exists k: nat :: n == Pow2(k)
  }

  // Bitwise operations on natural numbers, least significant bit first.

  predicate Bit(x: nat, i: nat) {
    if i == 0 then x % 2 == 1 else Bit(x / 2, i - 1)
  }

  function Or(a: nat, b: nat): nat {
    if a == 0 && b == 0 then 0
    else 2 * Or(a / 2, b / 2) + if a % 2 == 1 || b % 2 == 1 then 1 else 0
  }

  function And(a: nat, b: nat): nat {
    if a == 0 || b == 0 then 0
    else 2 * And(a / 2, b / 2) + if a % 2 == 1 && b % 2 == 1 then 1 else 0
  }

  function Shr(x: nat, m: nat): nat {
    if m == 0 then x else Shr(x / 2, m - 1)
  }

  // IS_POWER_OF_2 of mm.c
  predicate IsPowerOf2(x: nat)
    requires x >= 1
  {
    And(x, x - 1) == 0
  }

  lemma {:induction false} BitOr(a: nat, b: nat, i: nat)
    ensures Bit(Or(a, b), i) <==> Bit(a, i) || Bit(b, i)
    decreases i
  {
    if a == 0 && b == 0 {
      BitOfZero(i);
    } else {
      assert Or(a, b) / 2 == Or(a / 2, b / 2);
      if i > 0 {
        BitOr(a / 2, b / 2, i - 1);
      }
    }
  }

  lemma {:induction false} BitOfZero(i: nat)
    ensures !Bit(0, i)
  {
    if i > 0 { BitOfZero(i - 1); }
  }

  lemma {:induction false} BitShr(x: nat, m: nat, i: nat)
    ensures Bit(Shr(x, m), i) <==> Bit(x, i + m)
    decreases m
  {
    if m > 0 {
      BitShr(x / 2, m - 1, i);
      assert Bit(x, i + m) <==> Bit(x / 2, i + m - 1);
    }
  }

  function BitLength(x: nat): nat {
    if x == 0 then 0 else 1 + BitLength(x / 2)
  }

  // The bit length brackets x between consecutive powers of two.
  lemma {:induction false} BitLengthBounds(x: nat)
    ensures x < Pow2(BitLength(x))
    ensures x > 0 ==> Pow2(BitLength(x) - 1) <= x && Bit(x, BitLength(x) - 1)
    ensures forall i :: i >= BitLength(x) ==> !Bit(x, i)
  {
    if x > 0 {
      BitLengthBounds(x / 2);
      forall i | i >= BitLength(x)
        ensures !Bit(x, i)
      {
        assert !Bit(x / 2, i - 1);
      }
    } else {
      forall i: nat
        ensures !Bit(x, i)
      {
        BitOfZero(i);
      }
    }
  }

  lemma {:induction false} AllOnes(x: nat, h: nat)
    requires forall i: nat :: Bit(x, i) <==> i < h
    ensures x == Pow2(h) - 1
    decreases h
  {
    if h == 0 {
      BitLengthBounds(x);
    } else {
      assert Bit(x, 0);
      forall i: nat
        ensures Bit(x / 2, i) <==> i < h - 1
      {
        assert Bit(x, i + 1) <==> Bit(x / 2, i);
      }
      AllOnes(x / 2, h - 1);
    }
  }

  lemma {:induction false} Pow2Mono(j: nat, k: nat)
    requires j < k
    ensures 2 * Pow2(j) <= Pow2(k)
    decreases k
  {
    if j < k - 1 { Pow2Mono(j, k - 1); }
  }

  // One smearing step doubles the run of ones below the top bit.
  ghost predicate TopOnes(x: nat, h: nat, m: nat) {
    forall i: nat :: (Bit(x, i) ==> i < h) && (h - m <= i < h ==> Bit(x, i))
  }

  lemma SmearStep(x: nat, h: nat, m: nat)
    requires TopOnes(x, h, m)
    ensures TopOnes(Or(x, Shr(x, m)), h, 2 * m)
  {
    var y := Or(x, Shr(x, m));
    forall i: nat
      ensures (Bit(y, i) ==> i < h) && (h - 2 * m <= i < h ==> Bit(y, i))
    {
      BitOr(x, Shr(x, m), i);
      BitShr(x, m, i);
      assert Bit(x, i + m) ==> i + m < h;
      if h - 2 * m <= i < h - m {
        assert Bit(x, i + m);
      }
    }
  }

  // The least power of two that is at least n (and at least 1).
  function RoundUp(n: nat): nat {
    if n <= 1 then 1 else 2 * RoundUp((n + 1) / 2)
  }

  lemma {:induction false} RoundUpBetween(n: nat, k: nat)
    requires n <= Pow2(k) && (k > 0 ==> Pow2(k - 1) < n)
    ensures RoundUp(n) == Pow2(k)
    decreases k
  {
    if k > 0 {
      RoundUpBetween((n + 1) / 2, k - 1);
    }
  }

  lemma {:induction false} RoundUpIsLeastPow2(n: nat)
    ensures IsPow2(RoundUp(n)) && n <= RoundUp(n)
    ensures forall q: nat :: IsPow2(q) && n <= q ==> RoundUp(n) <= q
  {
    if n <= 1 {
      assert RoundUp(n) == Pow2(0);
    } else {
      BitLengthBounds(n - 1);
      var k := BitLength(n - 1);
      RoundUpBetween(n, k);
      forall q: nat | IsPow2(q) && n <= q
        ensures RoundUp(n) <= q
      {
        var j: nat :| q == Pow2(j);
        if j < k {
          if j < k - 1 { Pow2Mono(j, k - 1); }
          assert false;
        } else if k < j {
          Pow2Mono(k, j);
        }
      }
    }
  }

  // fixsize: the smear fills every bit below the top one of size - 1. The final
  // addition wraps to 0 exactly when no 64-bit power of two is large enough.
  method FixSize(n: nat) returns (r: nat)
    requires 1 <= n < WORD
    ensures r == if n <= WORD / 2 then RoundUp(n) else 0
  {
    var size := n - 1;
    ghost var h := BitLength(size);
    TopBit(size);
    hide Or;
    hide Shr;
    hide Bit;
    hide TopOnes;
    hide Pow2;
    hide RoundUp;
    hide BitLength;
    SmearStep(size, h, 1);
    size := Or(size, Shr(size, 1));
    SmearStep(size, h, 2);
    size := Or(size, Shr(size, 2));
    SmearStep(size, h, 4);
    size := Or(size, Shr(size, 4));
    SmearStep(size, h, 8);
    size := Or(size, Shr(size, 8));
    SmearStep(size, h, 16);
    size := Or(size, Shr(size, 16));
    SmearStep(size, h, 32);
    size := Or(size, Shr(size, 32));
    SmearedWord(n, size);
    r := (size + 1) % WORD;
  }

  lemma TopBit(x: nat)
    ensures TopOnes(x, BitLength(x), 1)
  {
    BitLengthBounds(x);
  }

  lemma SmearedWord(n: nat, size: nat)
    requires 1 <= n < WORD && TopOnes(size, BitLength(n - 1), 64)
    ensures (size + 1) % WORD == if n <= WORD / 2 then RoundUp(n) else 0
  {
    SmearedValue(n, size);
    hide RoundUp;
    hide TopOnes;
    hide BitLength;
  }

  lemma SmearedValue(n: nat, size: nat)
    requires 1 <= n < WORD && TopOnes(size, BitLength(n - 1), 64)
    ensures size + 1 == RoundUp(n) <= WORD
    ensures n <= WORD / 2 <==> RoundUp(n) < WORD
  {
    var h := BitLength(n - 1);
    BitLengthBounds(n - 1);
    Pow2At63();
    if h > 64 { Pow2Mono(63, h - 1); }
    AllOnes(size, h);
    RoundUpBetween(n, h);
    if h < 63 {
      Pow2Mono(h, 63);
    }
  }

  lemma Pow2At63()
    ensures Pow2(63) == WORD / 2 && Pow2(64) == WORD
  {
    assert Pow2(4) == 16;
    Pow2Add(4, 4);
    Pow2Add(8, 8);
    Pow2Add(16, 16);
    Pow2Add(32, 32);
  }

  lemma {:induction false} Pow2Add(j: nat, k: nat)
    ensures Pow2(j + k) == Pow2(j) * Pow2(k)
    decreases j
  {
    if j > 0 { Pow2Add(j - 1, k); }
  }

  lemma {:induction false} AndSelf(x: nat)
    ensures And(x, x) == x
  {
    if x > 0 { AndSelf(x / 2); }
  }

  // The macro decides the mathematical notion.
  lemma {:induction false} PowerOf2Test(x: nat)
    requires x >= 1
    ensures IsPowerOf2(x) <==> IsPow2(x)
  {
    if x == 1 {
      assert x == Pow2(0);
    } else {
      Pow2Half(x);
      var y := x / 2;
      if x == 2 * y {
        PowerOf2Test(y);
        assert (x - 1) / 2 == y - 1 && (x - 1) % 2 == 1;
        assert And(x, x - 1) == 2 * And(y, y - 1);
      } else {
        AndSelf(y);
        assert x == 2 * y + 1 && (x - 1) / 2 == y && (x - 1) % 2 == 0;
        assert And(x, x - 1) == 2 * And(y, y);
      }
    }
  }

  lemma Pow2Half(x: nat)
    requires x >= 2
    ensures IsPow2(x) <==> x % 2 == 0 && IsPow2(x / 2)
  {
    if IsPow2(x) {
      var k: nat :| x == Pow2(k);
      assert x / 2 == Pow2(k - 1);
    }
    if x % 2 == 0 && IsPow2(x / 2) {
      var k: nat :| x / 2 == Pow2(k);
      assert x == Pow2(k + 1);
    }
  }

  // Multiples, written without division: this keeps the allocator's proofs linear.

  ghost predicate Multiple(x: nat, a: nat) {
    a >= 1 && (x == 0 || (x >= a && Multiple(x - a, a)))
  }

  lemma {:induction false} MultipleIsMod(x: nat, a: nat)
    requires a >= 1
    ensures Multiple(x, a) <==> x % a == 0
  {
    if x >= a {
      MultipleIsMod(x - a, a);
      DropDivisor(x, a);
    }
  }

  lemma DropDivisor(x: nat, a: nat)
    requires a >= 1 && x >= a
    ensures (x - a) % a == x % a
  {
    var q, r, q', r' := x / a, x % a, (x - a) / a, (x - a) % a;
    assert (q - 1 - q') * a == r' - r;
    SmallMultipleIsZero(q - 1 - q', a);
  }

  lemma {:induction false} MultipleAdd(x: nat, y: nat, a: nat)
    requires Multiple(x, a) && Multiple(y, a)
    ensures Multiple(x + y, a)
    decreases x
  {
    if x > 0 { MultipleAdd(x - a, y, a); }
  }

  lemma {:induction false} MultipleOfMultiple(x: nat, b: nat, a: nat)
    requires Multiple(x, b) && Multiple(b, a)
    ensures Multiple(x, a)
    decreases x
  {
    if x > 0 {
      MultipleOfMultiple(x - b, b, a);
      MultipleAdd(x - b, b, a);
    }
  }

  // Two multiples of a are at least a apart.
  lemma {:induction false} MultipleGap(x: nat, y: nat, a: nat)
    requires Multiple(x, a) && Multiple(y, a) && x < y
    ensures x + a <= y
    decreases x
  {
    if x > 0 { MultipleGap(x - a, y - a, a); }
  }

  lemma {:induction false} Pow2Divides(a: nat, b: nat)
    requires IsPow2(a) && IsPow2(b) && a <= b
    ensures Multiple(b, a)
  {
    var j: nat :| a == Pow2(j);
    var k: nat :| b == Pow2(k);
    if k < j {
      Pow2Mono(k, j);
    } else {
      Pow2Multiple(j, k);
    }
  }

  lemma {:induction false} Pow2Multiple(j: nat, k: nat)
    requires j <= k
    ensures Multiple(Pow2(k), Pow2(j))
    decreases k
  {
    if j < k {
      Pow2Multiple(j, k - 1);
      MultipleAdd(Pow2(k - 1), Pow2(k - 1), Pow2(j));
    }
  }

  lemma MulLe(x: int, y: int, a: nat)
    requires x <= y
    ensures x * a <= y * a
  {
    assert (y - x) * a >= 0;
  }

  lemma SmallMultipleIsZero(t: int, a: int)
    requires a >= 0 && -a < t * a < a
    ensures t == 0
  {
    if t >= 1 {
      MulLe(1, t, a);
    } else if t <= -1 {
      MulLe(t, -1, a);
    }
  }

  // Quotient and remainder are determined by their defining equation.
  lemma DivModIs(n: nat, d: nat, q: nat, r: nat)
    requires n == d * q + r && r < d
    ensures n / d == q && n % d == r
  {
    var q', r' := n / d, n % d;
    assert (q - q') * d == r' - r;
    SmallMultipleIsZero(q - q', d);
  }
}
