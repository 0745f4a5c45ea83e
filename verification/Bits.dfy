/**
 Unsigned machine words as natural numbers, with the shift and mask operators the address code uses,
 and their reading as bit strings, most significant bit first.
 */
module Bits {

  type Bits = seq<bool>

  function Pow2(k: nat): (p: nat)
    ensures p >= 1
  {
    if k == 0 then 1 else 2 * Pow2(k - 1)
  }

  /** The low `n` bits of `x`. */
  function ToBits(x: nat, n: nat): (b: Bits)
    ensures |b| == n
  {
    if n == 0 then [] else ToBits(x / 2, n - 1) + [x % 2 == 1]
  }

  function FromBits(b: Bits): (x: nat)
    ensures x < Pow2(|b|)
  {
    if b == [] then 0 else 2 * FromBits(b[..|b| - 1]) + (if b[|b| - 1] then 1 else 0)
  }

  function Zeros(n: nat): (b: Bits)
    ensures |b| == n
  {
    seq(n, _ => false)
  }

  function Ones(n: nat): (b: Bits)
    ensures |b| == n
  {
    seq(n, _ => true)
  }

  // The operators of an unsigned word, bit by bit.

  function Shl(x: nat, k: nat): nat
    decreases k
  {
    if k == 0 then x else 2 * Shl(x, k - 1)
  }

  function Shr(x: nat, k: nat): nat
    decreases k
  {
    if k == 0 then x else Shr(x / 2, k - 1)
  }

  function And(x: nat, y: nat): nat {
    if x == 0 || y == 0 then 0
    else 2 * And(x / 2, y / 2) + (if x % 2 == 1 && y % 2 == 1 then 1 else 0)
  }

  function Or(x: nat, y: nat): nat {
    if x == 0 then y
    else if y == 0 then x
    else 2 * Or(x / 2, y / 2) + (if x % 2 == 1 || y % 2 == 1 then 1 else 0)
  }

  // ---------------------------------------------------------------------------------------------

  lemma {:induction false} FromToBits(x: nat, n: nat)
    requires x < Pow2(n)
    ensures FromBits(ToBits(x, n)) == x
  {
    if n == 0 {
    } else {
      FromToBits(x / 2, n - 1);
      assert ToBits(x, n)[..n - 1] == ToBits(x / 2, n - 1);
    }
  }

  lemma {:induction false} ToFromBits(b: Bits)
    ensures ToBits(FromBits(b), |b|) == b
  {
    if b == [] {
    } else {
      ToFromBits(b[..|b| - 1]);
    }
  }

  /** A word is its bits. */
  lemma ToBitsInjective(x: nat, y: nat, n: nat)
    requires x < Pow2(n) && y < Pow2(n)
    requires ToBits(x, n) == ToBits(y, n)
    ensures x == y
  {
    FromToBits(x, n);
    FromToBits(y, n);
  }

  lemma {:induction false} FromBitsAppend(a: Bits, b: Bits)
    ensures FromBits(a + b) == Shl(FromBits(a), |b|) + FromBits(b)
  {
    if b == [] {
      assert a + b == a;
    } else {
      var n := |b| - 1;
      FromBitsAppend(a, b[..n]);
      assert (a + b)[..|a + b| - 1] == a + b[..n];
    }
  }

  lemma {:induction false} FromZeros(n: nat)
    ensures FromBits(Zeros(n)) == 0
  {
    if n == 0 {
    } else {
      FromZeros(n - 1);
      assert Zeros(n)[..n - 1] == Zeros(n - 1);
    }
  }

  /** `(x >> k) & 1` is the bit `k` places from the right. */
  lemma {:induction false} ShrBit(b: Bits, k: nat)
    requires k < |b|
    ensures Shr(FromBits(b), k) % 2 == 1 <==> b[|b| - 1 - k]
  {
    if k == 0 {
    } else {
      var front := b[..|b| - 1];
      assert FromBits(b) / 2 == FromBits(front);
      ShrBit(front, k - 1);
    }
  }

  lemma AndOne(x: nat)
    ensures And(x, 1) == x % 2
  {
    if x == 0 {
    } else {
      assert And(x / 2, 0) == 0;
    }
  }

  lemma {:induction false} AndBits(x: nat, y: nat, n: nat)
    ensures forall k :: 0 <= k < n ==> (ToBits(And(x, y), n)[k] <==> ToBits(x, n)[k] && ToBits(y, n)[k])
  {
    if n == 0 {
    } else {
      AndBits(x / 2, y / 2, n - 1);
      if x == 0 || y == 0 {
        ZeroBits(n);
      }
    }
  }

  lemma {:induction false} ZeroBits(n: nat)
    ensures ToBits(0, n) == Zeros(n)
  {
    if n == 0 {
    } else {
      ZeroBits(n - 1);
      assert Zeros(n) == Zeros(n - 1) + [false];
    }
  }

  lemma {:induction false} AndIsSmaller(x: nat, y: nat)
    ensures And(x, y) <= x && And(x, y) <= y
  {
    if x != 0 && y != 0 {
      AndIsSmaller(x / 2, y / 2);
    }
  }

  lemma {:induction false} ShlShl(x: nat, i: nat, j: nat)
    ensures Shl(x, i + j) == Shl(Shl(x, i), j)
  {
    if j == 0 {
    } else {
      ShlShl(x, i, j - 1);
    }
  }

  lemma {:induction false} ShlIsTimes(x: nat, k: nat)
    ensures Shl(x, k) == x * Pow2(k)
  {
    if k == 0 {
    } else {
      ShlIsTimes(x, k - 1);
    }
  }

  /** Or-ing a word into the zeros another was shifted up by adds the two. */
  lemma {:induction false} OrShifted(x: nat, k: nat, y: nat)
    requires y < Pow2(k)
    ensures Or(Shl(x, k), y) == Shl(x, k) + y
  {
    if Shl(x, k) != 0 && y != 0 {
      OrShifted(x, k - 1, y / 2);
    }
  }

  lemma {:induction false} OrOfShifts(x: nat, y: nat, k: nat)
    ensures Or(Shl(x, k), Shl(y, k)) == Shl(Or(x, y), k)
  {
    if k == 0 {
    } else {
      OrOfShifts(x, y, k - 1);
    }
  }

  /** Two neighbouring words shifted into place and or-ed are their bits side by side. */
  lemma OrJoins(a: Bits, b: Bits, k: nat)
    ensures Or(Shl(FromBits(a), |b| + k), Shl(FromBits(b), k)) == Shl(FromBits(a + b), k)
  {
    ShlShl(FromBits(a), |b|, k);
    OrOfShifts(Shl(FromBits(a), |b|), FromBits(b), k);
    OrShifted(FromBits(a), |b|, FromBits(b));
    FromBitsAppend(a, b);
  }
}
