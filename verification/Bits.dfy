/** Natural numbers seen bit by bit. */
module Bits {
  predicate Bit(w: nat, j: nat) { if j == 0 then w % 2 == 1 else Bit(w / 2, j - 1) }

  function Pow2(k: nat): (r: nat)
    ensures r > 0
  {
    if k == 0 then 1 else 2 * Pow2(k - 1)
  }

  /** `a | b`. */
  function Or(a: nat, b: nat): nat {
    if a == 0 then b
    else 2 * Or(a / 2, b / 2) + if a % 2 == 1 || b % 2 == 1 then 1 else 0
  }

  /** `w & (2^n - 1)`. */
  function Low(w: nat, n: nat): nat {
    if n == 0 then 0 else 2 * Low(w / 2, n - 1) + w % 2
  }

  /** `w << n`. */
  function Shl(w: nat, n: nat): nat { if n == 0 then w else 2 * Shl(w, n - 1) }

  /** `w >> n`. */
  function Shr(w: nat, n: nat): nat { if n == 0 then w else Shr(w / 2, n - 1) }

  /** `(1 << n) - 1`. */
  function Ones(n: nat): nat { if n == 0 then 0 else 2 * Ones(n - 1) + 1 }

  lemma {:induction false} ZeroBit(j: nat)
    ensures !Bit(0, j)
  {
    if j > 0 { ZeroBit(j - 1); }
  }

  lemma {:induction false} OrBit(a: nat, b: nat, j: nat)
    ensures Bit(Or(a, b), j) <==> Bit(a, j) || Bit(b, j)
    decreases j
  {
    if a == 0 { ZeroBit(j); } else {
      var bit := if a % 2 == 1 || b % 2 == 1 then 1 else 0;
      assert Or(a, b) == 2 * Or(a / 2, b / 2) + bit;
      assert Or(a, b) / 2 == Or(a / 2, b / 2) && Or(a, b) % 2 == bit;
      if j > 0 { OrBit(a / 2, b / 2, j - 1); }
    }
  }

  lemma {:induction false} LowBit(w: nat, n: nat, j: nat)
    ensures Bit(Low(w, n), j) <==> j < n && Bit(w, j)
    decreases j
  {
    if n == 0 { ZeroBit(j); } else {
      assert Low(w, n) / 2 == Low(w / 2, n - 1) && Low(w, n) % 2 == w % 2;
      if j > 0 { LowBit(w / 2, n - 1, j - 1); }
    }
  }

  lemma {:induction false} ShlBit(w: nat, n: nat, j: nat)
    ensures Bit(Shl(w, n), j) <==> n <= j && Bit(w, j - n)
    decreases n
  {
    if n > 0 && j > 0 { ShlBit(w, n - 1, j - 1); }
  }

  lemma {:induction false} ShrBit(w: nat, n: nat, j: nat)
    ensures Bit(Shr(w, n), j) <==> Bit(w, j + n)
    decreases n
  {
    if n > 0 { ShrBit(w / 2, n - 1, j); }
  }

  lemma {:induction false} OnesBit(n: nat, j: nat)
    ensures Bit(Ones(n), j) <==> j < n
    decreases j
  {
    if n == 0 { ZeroBit(j); } else {
      assert Ones(n) / 2 == Ones(n - 1) && Ones(n) % 2 == 1;
      if j > 0 { OnesBit(n - 1, j - 1); }
    }
  }

  /** A number with no bit from `n` on is below 2^n. */
  lemma {:induction false} FewBits(w: nat, n: nat)
    requires forall j: nat :: n <= j ==> !Bit(w, j)
    ensures w < Pow2(n)
    decreases w
  {
    if n == 0 {
      if w > 0 {
        assert !Bit(w, 0);
        forall j: nat
          ensures !Bit(w / 2, j)
        {
          assert !Bit(w, j + 1);
        }
        FewBits(w / 2, 0);
      }
    } else if w > 0 {
      forall j: nat | n - 1 <= j
        ensures !Bit(w / 2, j)
      {
        assert !Bit(w, j + 1);
      }
      FewBits(w / 2, n - 1);
    }
  }

  /** Numbers with the same bits are equal. */
  lemma {:induction false} SameBits(a: nat, b: nat)
    requires forall j: nat :: Bit(a, j) == Bit(b, j)
    ensures a == b
    decreases a + b
  {
    if a + b > 0 {
      assert Bit(a, 0) == Bit(b, 0);
      forall j: nat
        ensures Bit(a / 2, j) == Bit(b / 2, j)
      {
        assert Bit(a, j + 1) == Bit(b, j + 1);
      }
      SameBits(a / 2, b / 2);
    }
  }
}
