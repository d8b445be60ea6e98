/**
 Binary representation of natural numbers: powers of two, single bits and the bitwise AND that the
 C and SystemVerilog sources write as `x & y`.
 */
module Bits {
  import opened Arith

  function Pow2(n: nat): (r: nat)
    ensures r >= 1
    ensures n < r
  {
    if n == 0 then 1 else 2 * Pow2(n - 1)
  }

  /** Bit `i` of `x`, least significant first. */
  predicate Bit(x: nat, i: nat) {
    if i == 0 then x % 2 == 1 else Bit(x / 2, i - 1)
  }

  /** Bitwise AND. */
  function And(x: nat, y: nat): nat {
    if x == 0 || y == 0 then 0
    else 2 * And(x / 2, y / 2) + if x % 2 == 1 && y % 2 == 1 then 1 else 0
  }

  /** The C test `x && !(x & (x - 1))`. */
  predicate IsPowerOf2(x: nat) {
    x != 0 && And(x, x - 1) == 0
  }

  ghost predicate IsPow(x: nat) {
    exists i: nat :: x == Pow2(i)
  }

  lemma {:induction false} Pow2Monotone(m: nat, n: nat)
    requires m < n
    ensures 2 * Pow2(m) <= Pow2(n)
  {
    if m + 1 < n {
      Pow2Monotone(m, n - 1);
    }
  }

  lemma {:induction false} BitOfZero(i: nat)
    ensures !Bit(0, i)
  {
    if i > 0 {
      BitOfZero(i - 1);
    }
  }

  /** `x & (1 << i)` is non-zero exactly when bit `i` of `x` is set. */
  lemma {:induction false} AndPow2(x: nat, i: nat)
    ensures And(x, Pow2(i)) != 0 <==> Bit(x, i)
  {
    if x == 0 {
      BitOfZero(i);
    } else if i > 0 {
      assert Pow2(i) / 2 == Pow2(i - 1);
      AndPow2(x / 2, i - 1);
    } else {
      assert Pow2(0) / 2 == 0;
    }
  }

  lemma {:induction false} BitOfPow2(i: nat, j: nat)
    ensures Bit(Pow2(i), j) <==> i == j
  {
    if i == 0 {
      if j > 0 {
        BitOfZero(j - 1);
      }
    } else if j > 0 {
      assert Pow2(i) / 2 == Pow2(i - 1);
      BitOfPow2(i - 1, j - 1);
    }
  }

  /** Numbers below `2^p` are determined by their low `p` bits. */
  lemma {:induction false} BitsDetermine(x: nat, y: nat, p: nat)
    requires x < Pow2(p) && y < Pow2(p)
    requires forall i: nat :: i < p ==> Bit(x, i) == Bit(y, i)
    ensures x == y
  {
    if p > 0 {
      assert Bit(x, 0) == Bit(y, 0);
      forall i: nat | i < p - 1
        ensures Bit(x / 2, i) == Bit(y / 2, i)
      {
        assert Bit(x, i + 1) == Bit(y, i + 1);
      }
      BitsDetermine(x / 2, y / 2, p - 1);
    }
  }

  lemma {:induction false} AndSelf(x: nat)
    ensures And(x, x) == x
  {
    if x > 0 {
      AndSelf(x / 2);
    }
  }

  /** The bit trick accepts exactly the powers of two. */
  lemma {:induction false} PowerOf2Test(x: nat)
    ensures IsPowerOf2(x) <==> IsPow(x)
  {
    if x == 0 {
    } else if x % 2 == 1 {
      AndSelf(x / 2);
      assert (x - 1) / 2 == x / 2;
      if x == 1 {
        assert x == Pow2(0);
      } else {
        assert And(x, x - 1) == 2 * (x / 2);
        forall i: nat
          ensures x != Pow2(i)
        {
          if i > 0 {
            assert Pow2(i) == 2 * Pow2(i - 1);
          }
        }
      }
    } else {
      PowerOf2Test(x / 2);
      assert (x - 1) / 2 == x / 2 - 1;
      if IsPowerOf2(x / 2) {
        var i: nat :| x / 2 == Pow2(i);
        assert x == Pow2(i + 1);
      } else {
        forall i: nat
          ensures x != Pow2(i)
        {
          if i > 0 {
            assert Pow2(i) == 2 * Pow2(i - 1);
            assert x / 2 != Pow2(i - 1);
          }
        }
      }
    }
  }

  /** No power of two lies strictly between two consecutive ones. */
  lemma {:induction false} PowerOf2Between(x: nat, q: nat)
    requires Pow2(q) <= x < Pow2(q + 1)
    ensures IsPow(x) <==> x == Pow2(q)
  {
    if IsPow(x) {
      var i: nat :| x == Pow2(i);
      if i < q {
        Pow2Monotone(i, q);
      } else if q + 1 < i {
        Pow2Monotone(q + 1, i);
      }
    }
  }

  // ---------------------------------------------------------------------------------------------
  // Bitwise operators, bit by bit
  // ---------------------------------------------------------------------------------------------

  lemma {:induction false} AndBound(x: nat, y: nat)
    ensures And(x, y) <= x && And(x, y) <= y
  {
    if x != 0 && y != 0 {
      AndBound(x / 2, y / 2);
    }
  }

  lemma {:induction false} AndOnes(x: nat, p: nat)
    requires x < Pow2(p)
    ensures And(x, Pow2(p) - 1) == x
  {
    if x != 0 {
      assert (Pow2(p) - 1) / 2 == Pow2(p - 1) - 1;
      AndOnes(x / 2, p - 1);
    }
  }

  /** AND sets the bits that both operands have. */
  lemma {:induction false} AndBits(x: nat, y: nat, i: nat)
    ensures Bit(And(x, y), i) <==> Bit(x, i) && Bit(y, i)
  {
    if x == 0 || y == 0 {
      BitOfZero(i);
    } else if i > 0 {
      AndBits(x / 2, y / 2, i - 1);
      assert And(x, y) / 2 == And(x / 2, y / 2);
    }
  }

  /** `x + y - (x & y)` sets the bits that either operand has. */
  lemma {:induction false} OrBits(x: nat, y: nat, i: nat)
    ensures And(x, y) <= x
    ensures Bit(x + y - And(x, y), i) <==> Bit(x, i) || Bit(y, i)
  {
    AndBound(x, y);
    if x == 0 || y == 0 {
      BitOfZero(i);
    } else if i > 0 {
      OrBits(x / 2, y / 2, i - 1);
      assert (x + y - And(x, y)) / 2 == x / 2 + y / 2 - And(x / 2, y / 2);
    }
  }

  /** `x + y - 2 * (x & y)` sets the bits that exactly one operand has. */
  lemma {:induction false} XorBits(x: nat, y: nat, i: nat)
    ensures And(x, y) <= x && And(x, y) <= y
    ensures Bit(x + y - 2 * And(x, y), i) <==> Bit(x, i) != Bit(y, i)
  {
    AndBound(x, y);
    if x == 0 || y == 0 {
      BitOfZero(i);
    } else if i > 0 {
      XorBits(x / 2, y / 2, i - 1);
      assert (x + y - 2 * And(x, y)) / 2 == x / 2 + y / 2 - 2 * And(x / 2, y / 2);
    }
  }

  lemma HalfOfComplement(h: nat, x: nat)
    requires x < 2 * h
    ensures (2 * h - 1 - x) / 2 == h - 1 - x / 2 && (2 * h - 1 - x) % 2 != x % 2
  {
    var q, r := x / 2, x % 2;
    assert 2 * h - 1 - x == 2 * (h - 1 - q) + (1 - r);
  }

  /** `2^p - 1 - x` complements the low `p` bits. */
  lemma {:induction false} NotBits(x: nat, p: nat, i: nat)
    requires x < Pow2(p) && i < p
    ensures Bit(Pow2(p) - 1 - x, i) <==> !Bit(x, i)
  {
    HalfOfComplement(Pow2(p - 1), x);
    if i > 0 {
      NotBits(x / 2, p - 1, i - 1);
    }
  }

  lemma HalfOfSum(a: nat, y: nat)
    ensures (a + 2 * y) / 2 == a / 2 + y && (a + 2 * y) % 2 == a % 2
  {
  }

  /** The low `p` bits are those of `a`, the others those of `x`. */
  lemma {:induction false} BitSplit(a: nat, x: nat, p: nat, i: nat)
    requires a < Pow2(p)
    ensures Bit(a + Pow2(p) * x, i) <==> if i < p then Bit(a, i) else Bit(x, i - p)
  {
    if p > 0 {
      MulAssociative(2, Pow2(p - 1), x);
      HalfOfSum(a, Pow2(p - 1) * x);
      if i > 0 {
        BitSplit(a / 2, x, p - 1, i - 1);
      }
    }
  }

  /** The top bit tells the upper half from the lower. */
  lemma {:induction false} TopBit(x: nat, p: nat)
    requires x < Pow2(p + 1)
    ensures Bit(x, p) <==> x >= Pow2(p)
  {
    if p > 0 {
      TopBit(x / 2, p - 1);
    }
  }

  lemma {:induction false} Pow2Sum(m: nat, n: nat)
    ensures Pow2(m) * Pow2(n) == Pow2(m + n)
  {
    if m > 0 {
      Pow2Sum(m - 1, n);
      MulAssociative(2, Pow2(m - 1), Pow2(n));
    }
  }

  /** Bit `i` of a number: shift right by `i`, keep the last bit. */
  lemma {:induction false} ShiftIsBit(word: nat, i: nat)
    ensures Bit(word, i) <==> word / Pow2(i) % 2 == 1
  {
    if i > 0 {
      ShiftIsBit(word / 2, i - 1);
      DivideTwice(word, 2, Pow2(i - 1));
    }
  }
}
