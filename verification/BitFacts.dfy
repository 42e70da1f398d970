/** Single bits of numbers under arithmetic and under the bitwise operations. */
module BitFacts {
  import opened Words

  // ---------- bits and arithmetic ----------

  lemma BitStep(a: nat, k: nat)
    ensures Bit(a, 0) <==> a % 2 == 1
    ensures Bit(a, k + 1) <==> Bit(a / 2, k)
  {
    DivDiv(a, 2, Pow2(k));
    assert Pow2(0) == 1;
  }

  /** Two numbers with the same bits are equal. */
  lemma {:induction false} BitsDetermine(a: nat, b: nat, n: nat)
    requires a < Pow2(n) && b < Pow2(n) && forall k :: 0 <= k < n ==> (Bit(a, k) <==> Bit(b, k))
    ensures a == b
  {
    hide Bit;
    if n > 0 {
      forall k | 0 <= k < n - 1
        ensures Bit(a / 2, k) <==> Bit(b / 2, k)
      {
        BitStep(a, k);
        BitStep(b, k);
        assert Bit(a, k + 1) <==> Bit(b, k + 1);
      }
      BitsDetermine(a / 2, b / 2, n - 1);
      assert Bit(a, 0) <==> Bit(b, 0);
      BitStep(a, 0);
      BitStep(b, 0);
    } else {
      assert Pow2(0) == 1;
    }
  }

  lemma RightBits(a: nat, n: nat, k: nat)
    ensures Bit(ShiftRight(a, n), k) <==> Bit(a, n + k)
  {
    DivDiv(a, Pow2(n), Pow2(k));
    Pow2Add(n, k);
  }

  lemma ShiftRightIs(a: nat, n: nat)
    ensures ShiftRight(a, n) == a / Pow2(n)
  {
  }

  lemma {:induction false} ShiftedUpBits(a: nat, n: nat, k: nat)
    ensures a * Pow2(n) >= 0
    ensures Bit(a * Pow2(n), k) <==> k >= n && Bit(a, k - n)
  {
    hide Bit;
    MulMonotone(0, a, Pow2(n));
    if n == 0 {
      assert a * Pow2(0) == a;
    } else {
      var b := a * Pow2(n - 1);
      assert a * Pow2(n) == 2 * b by { assert a * (2 * Pow2(n - 1)) == 2 * (a * Pow2(n - 1)); }
      MulMonotone(0, a, Pow2(n - 1));
      BitStep(2 * b, k - if k > 0 then 1 else 0);
      if k > 0 {
        ShiftedUpBits(a, n - 1, k - 1);
      }
    }
  }

  lemma {:induction false} RemainderBits(a: nat, n: nat, k: nat)
    ensures Bit(a % Pow2(n), k) <==> k < n && Bit(a, k)
  {
    hide Bit;
    if n == 0 {
      assert a % Pow2(0) == 0;
      ZeroBits(k);
    } else {
      LowHalves(a, n);
      BitStep(a, k - if k > 0 then 1 else 0);
      BitStep(a % Pow2(n), k - if k > 0 then 1 else 0);
      if k > 0 {
        RemainderBits(a / 2, n - 1, k - 1);
      }
    }
  }

  lemma ZeroBits(k: nat)
    ensures !Bit(0, k)
  {
  }

  lemma NoBitsAbove(a: nat, n: nat, k: nat)
    requires a < Pow2(n) && k >= n
    ensures !Bit(a, k)
  {
    hide Bit;
    DivModUnique(a, Pow2(n), 0, a);
    RemainderBits(a, n, k);
  }

  /** The bits of a low part and a high part side by side. */
  lemma JoinBits(lo: nat, hi: nat, n: nat, k: nat)
    requires lo < Pow2(n)
    ensures lo + hi * Pow2(n) >= 0
    ensures Bit(lo + hi * Pow2(n), k) <==> if k < n then Bit(lo, k) else Bit(hi, k - n)
  {
    hide Bit, Pow2, ShiftRight;
    MulMonotone(0, hi, Pow2(n));
    var a := lo + hi * Pow2(n);
    DivModUnique(a, Pow2(n), hi, lo);
    if k < n {
      RemainderBits(a, n, k);
    } else {
      RightBits(a, n, k - n);
      ShiftRightIs(a, n);
    }
  }

  lemma {:induction false} OnesBits(n: nat, k: nat)
    ensures Bit(Pow2(n) - 1, k) <==> k < n
  {
    hide Bit;
    if n == 0 {
      assert Pow2(0) == 1;
      ZeroBits(k);
    } else {
      var a := Pow2(n) - 1;
      assert a / 2 == Pow2(n - 1) - 1 && a % 2 == 1;
      BitStep(a, k - if k > 0 then 1 else 0);
      if k > 0 {
        OnesBits(n - 1, k - 1);
      }
    }
  }

  // ---------- the bitwise operations ----------

  lemma {:induction false} AndBits(a: nat, b: nat, k: nat)
    ensures Bit(And(a, b), k) <==> Bit(a, k) && Bit(b, k)
  {
    hide Bit, And;
    AndParts(a, b);
    var j := k - if k > 0 then 1 else 0;
    BitStep(a, j);
    BitStep(b, j);
    BitStep(And(a, b), j);
    if k > 0 {
      AndBits(a / 2, b / 2, k - 1);
    }
  }

  lemma {:induction false} OrBits(a: nat, b: nat, k: nat)
    ensures Bit(Or(a, b), k) <==> Bit(a, k) || Bit(b, k)
  {
    hide Bit, Or;
    OrParts(a, b);
    var j := k - if k > 0 then 1 else 0;
    BitStep(a, j);
    BitStep(b, j);
    BitStep(Or(a, b), j);
    if k > 0 {
      OrBits(a / 2, b / 2, k - 1);
    }
  }

  lemma {:induction false} XorBits(a: nat, b: nat, k: nat)
    ensures Bit(Xor(a, b), k) <==> Bit(a, k) != Bit(b, k)
  {
    hide Bit, Xor;
    XorParity(a, b);
    var j := k - if k > 0 then 1 else 0;
    BitStep(a, j);
    BitStep(b, j);
    BitStep(Xor(a, b), j);
    if k > 0 {
      XorBits(a / 2, b / 2, k - 1);
    }
  }

  /** Every bit of the 64-bit operations, for all operands. */
  lemma WordBits(a: uint64, b: uint64, k: nat)
    requires k < 64
    ensures Bit(And64(a, b), k) <==> Bit(a, k) && Bit(b, k)
    ensures Bit(Or64(a, b), k) <==> Bit(a, k) || Bit(b, k)
    ensures Bit(Xor64(a, b), k) <==> Bit(a, k) != Bit(b, k)
    ensures Bit(Not64(a), k) <==> !Bit(a, k)
  {
    hide Bit, And, Or, Xor, Pow2;
    AndBits(a, b, k);
    OrBits(a, b, k);
    XorBits(a, b, k);
    Pow2Widths();
    NotBits(a, 64, k);
  }

  lemma {:induction false} NotBits(a: nat, n: nat, k: nat)
    requires a < Pow2(n) && k < n
    ensures Bit(Pow2(n) - 1 - a, k) <==> !Bit(a, k)
  {
    hide Bit;
    var b := Pow2(n) - 1 - a;
    assert b / 2 == Pow2(n - 1) - 1 - a / 2 && b % 2 == 1 - a % 2;
    var j := k - if k > 0 then 1 else 0;
    BitStep(a, j);
    BitStep(b, j);
    if k > 0 {
      NotBits(a / 2, n - 1, k - 1);
    }
  }

  /** Testing a mask of one bit. */
  lemma {:induction false} AndBit(a: nat, k: nat)
    ensures And(a, Pow2(k)) != 0 <==> Bit(a, k)
  {
    if k > 0 {
      AndBit(a / 2, k - 1);
      DivDiv(a, 2, Pow2(k - 1));
    } else {
      assert Pow2(0) == 1;
    }
  }
}
