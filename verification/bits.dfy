/**
  Bit-level view of the unbounded non-negative integers that the simulator
  uses for error masks and interrupt registers. Python's `>>` and `|` on
  non-negative ints are written out here as `Shr` and `Or`, and `Bit` reads
  one bit, so that a mask can be talked about bit by bit.
 */
module Bits {

  /** n >> k */
  function Shr(n: nat, k: nat): (r: nat)
    decreases k
  {
    if k == 0 then n else Shr(n / 2, k - 1)
  }

  /** (n >> i) & 1 != 0 */
  predicate Bit(n: nat, i: nat) {
    Shr(n, i) % 2 == 1
  }

  /** a | b: set bit by set bit; zero exactly when both operands are. */
  function Or(a: nat, b: nat): (r: nat)
    ensures r == 0 <==> a == 0 && b == 0
    ensures a <= r && b <= r
    decreases a + b
  {
    if a == 0 && b == 0 then 0
    else 2 * Or(a / 2, b / 2) + (if a % 2 == 1 || b % 2 == 1 then 1 else 0)
  }

  lemma {:induction false} ShrZero(k: nat)
    ensures Shr(0, k) == 0
  {
    if k > 0 {
      ShrZero(k - 1);
    }
  }

  /** (n >> k) >> j == n >> (k + j) */
  lemma {:induction false} ShrShr(n: nat, k: nat, j: nat)
    ensures Shr(Shr(n, k), j) == Shr(n, k + j)
    decreases k
  {
    if k > 0 {
      ShrShr(n / 2, k - 1, j);
    }
  }

  lemma {:induction false} BitOfShr(n: nat, k: nat, j: nat)
    ensures Bit(Shr(n, k), j) == Bit(n, k + j)
  {
    ShrShr(n, k, j);
  }

  /** No bit of zero is set. */
  lemma {:induction false} NoBitOfZero(i: nat)
    ensures !Bit(0, i)
  {
    ShrZero(i);
  }

  /** The only bit of 1 is bit 0. */
  lemma {:induction false} BitOfOne(i: nat)
    ensures Bit(1, i) <==> i == 0
  {
    if i > 0 {
      ShrZero(i - 1);
    }
  }

  lemma BitsOfOne()
    ensures forall i: nat :: Bit(1, i) <==> i == 0
  {
    forall i: nat
      ensures Bit(1, i) <==> i == 0
    {
      BitOfOne(i);
    }
  }

  /** Bit i of a | b is set iff bit i is set in a or in b. */
  lemma {:induction false} OrBit(a: nat, b: nat, i: nat)
    ensures Bit(Or(a, b), i) == (Bit(a, i) || Bit(b, i))
    decreases i
  {
    if a == 0 && b == 0 {
      ShrZero(i);
    } else if i > 0 {
      assert Or(a, b) / 2 == Or(a / 2, b / 2);
      OrBit(a / 2, b / 2, i - 1);
    }
  }

  lemma {:induction false} OrBits(a: nat, b: nat)
    ensures forall i: nat {:trigger Bit(Or(a, b), i)} :: Bit(Or(a, b), i) == (Bit(a, i) || Bit(b, i))
  {
    forall i: nat
      ensures Bit(Or(a, b), i) == (Bit(a, i) || Bit(b, i))
    {
      OrBit(a, b, i);
    }
  }

  /** A non-zero number has some bit set. */
  lemma {:induction false} NonzeroHasBit(n: nat)
    requires n != 0
    ensures exists i: nat :: Bit(n, i)
  {
    if n % 2 == 1 {
      assert Bit(n, 0);
    } else {
      NonzeroHasBit(n / 2);
      var i: nat :| Bit(n / 2, i);
      assert Bit(n, i + 1);
    }
  }

  /** A number is non-zero iff some bit of it is set. */
  lemma NonzeroIffSomeBit(n: nat)
    ensures n != 0 <==> exists i: nat :: Bit(n, i)
  {
    if n != 0 {
      NonzeroHasBit(n);
    } else {
      forall i: nat
        ensures !Bit(n, i)
      {
        NoBitOfZero(i);
      }
    }
  }

  /** Two numbers with the same bits are equal. */
  lemma {:induction false} BitsDetermine(a: nat, b: nat)
    requires forall i: nat :: Bit(a, i) == Bit(b, i)
    ensures a == b
    decreases a + b
  {
    if a != 0 || b != 0 {
      assert Bit(a, 0) == Bit(b, 0);
      forall i: nat
        ensures Bit(a / 2, i) == Bit(b / 2, i)
      {
        assert Bit(a, i + 1) == Bit(b, i + 1);
      }
      BitsDetermine(a / 2, b / 2);
    }
  }

  /** n >> k is non-zero iff some bit at position k or above is set. */
  lemma {:induction false} HighBitsIff(n: nat, k: nat)
    ensures Shr(n, k) != 0 <==> exists i: nat :: k <= i && Bit(n, i)
  {
    if Shr(n, k) != 0 {
      NonzeroHasBit(Shr(n, k));
      var j: nat :| Bit(Shr(n, k), j);
      BitOfShr(n, k, j);
      assert k <= k + j && Bit(n, k + j);
    }
    if exists i: nat :: k <= i && Bit(n, i) {
      var i: nat :| k <= i && Bit(n, i);
      BitOfShr(n, k, i - k);
      if Shr(n, k) == 0 {
        ShrZero(i - k);
      }
    }
  }

  /** n & 3 == 0 iff n is a multiple of four. */
  lemma LowTwoBitsClear(n: nat)
    ensures (!Bit(n, 0) && !Bit(n, 1)) <==> n % 4 == 0
  {
  }

  lemma {:induction false} OrComm(a: nat, b: nat)
    ensures Or(a, b) == Or(b, a)
  {
    OrBits(a, b);
    OrBits(b, a);
    BitsDetermine(Or(a, b), Or(b, a));
  }

  /** OR-ing the same mask in twice is the same as OR-ing it in once. */
  lemma {:induction false} OrAbsorb(a: nat, b: nat)
    ensures Or(Or(a, b), b) == Or(a, b)
  {
    OrBits(a, b);
    OrBits(Or(a, b), b);
    BitsDetermine(Or(Or(a, b), b), Or(a, b));
  }

  lemma {:induction false} OrAssoc(a: nat, b: nat, c: nat)
    ensures Or(Or(a, b), c) == Or(a, Or(b, c))
  {
    OrBits(a, b);
    OrBits(b, c);
    OrBits(Or(a, b), c);
    OrBits(a, Or(b, c));
    BitsDetermine(Or(Or(a, b), c), Or(a, Or(b, c)));
  }
}
