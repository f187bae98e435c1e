/** The machine words of the program: `uint8_t` and `uint32_t` as bounded naturals, with the
    C operators `|`, `&`, `<<` and `>>` on them. Every other module sees a word only through
    the set of its bit positions, by the lemmas below. */
module Words {

  type Byte = w: nat | w < 0x100
  type Word32 = w: nat | w < 0x1_0000_0000

  function Pow2(n: nat): nat {
    if n == 0 then 1 else 2 * Pow2(n - 1)
  }

  predicate Bit(v: nat, j: nat) {
    if j == 0 then v % 2 == 1 else Bit(v / 2, j - 1)
  }

  function Or(a: nat, b: nat): nat {
    if a == 0 && b == 0 then 0
    else 2 * Or(a / 2, b / 2) + (if a % 2 == 1 || b % 2 == 1 then 1 else 0)
  }

  function And(a: nat, b: nat): nat {
    if a == 0 && b == 0 then 0
    else 2 * And(a / 2, b / 2) + (if a % 2 == 1 && b % 2 == 1 then 1 else 0)
  }

  // `v << y`, without truncation: the callers prove that the result fits its word.
  function Shl(v: nat, y: nat): nat {
    if y == 0 then v else 2 * Shl(v, y - 1)
  }

  function Shr(v: nat, y: nat): nat {
    if y == 0 then v else Shr(v / 2, y - 1)
  }

  /** The positions of the set bits of a 32-bit word. */
  function Cols(v: nat): set<nat> {
    set j: nat | j < 32 && Bit(v, j)
  }

  lemma OrStep(a: nat, b: nat)
    ensures Or(a, b) / 2 == Or(a / 2, b / 2)
    ensures Or(a, b) % 2 == 1 <==> a % 2 == 1 || b % 2 == 1
  {
  }

  lemma AndStep(a: nat, b: nat)
    ensures And(a, b) / 2 == And(a / 2, b / 2)
    ensures And(a, b) % 2 == 1 <==> a % 2 == 1 && b % 2 == 1
  {
  }

  lemma {:induction false} BitOr(a: nat, b: nat, j: nat)
    ensures Bit(Or(a, b), j) <==> Bit(a, j) || Bit(b, j)
    decreases j
  {
    OrStep(a, b);
    if j > 0 {
      BitOr(a / 2, b / 2, j - 1);
    }
  }

  lemma {:induction false} BitAnd(a: nat, b: nat, j: nat)
    ensures Bit(And(a, b), j) <==> Bit(a, j) && Bit(b, j)
    decreases j
  {
    AndStep(a, b);
    if j > 0 {
      BitAnd(a / 2, b / 2, j - 1);
    }
  }

  lemma {:induction false} BitShl(v: nat, y: nat, j: nat)
    ensures Bit(Shl(v, y), j) <==> y <= j && Bit(v, j - y)
    decreases y
  {
    if y > 0 && j > 0 {
      BitShl(v, y - 1, j - 1);
    }
  }

  lemma {:induction false} BitShr(v: nat, y: nat, j: nat)
    ensures Bit(Shr(v, y), j) <==> Bit(v, y + j)
    decreases y
  {
    if y > 0 {
      BitShr(v / 2, y - 1, j);
    }
  }

  lemma {:induction false} NoBits(j: nat)
    ensures !Bit(0, j)
  {
    if j > 0 {
      NoBits(j - 1);
    }
  }

  // A word of width n has no bit at or above n ...
  lemma {:induction false} Width(v: nat, n: nat, j: nat)
    requires v < Pow2(n) && Bit(v, j)
    ensures j < n
    decreases j
  {
    if n == 0 {
      NoBits(j);
    } else if j > 0 {
      Width(v / 2, n - 1, j - 1);
    }
  }

  // ... and a non-zero word has a bit below n.
  lemma {:induction false} SomeBit(v: nat, n: nat) returns (j: nat)
    requires 0 < v < Pow2(n)
    ensures j < n && Bit(v, j)
  {
    if v % 2 == 1 {
      j := 0;
    } else {
      j := SomeBit(v / 2, n - 1);
      j := j + 1;
    }
  }

  lemma {:induction false} OrFits(a: nat, b: nat, n: nat)
    requires a < Pow2(n) && b < Pow2(n)
    ensures Or(a, b) < Pow2(n)
  {
    if n > 0 {
      OrFits(a / 2, b / 2, n - 1);
    }
  }

  lemma {:induction false} ShlFits(v: nat, y: nat, n: nat)
    requires v < Pow2(n)
    ensures Shl(v, y) < Pow2(n + y)
    decreases y
  {
    if y > 0 {
      ShlFits(v, y - 1, n);
    }
  }

  lemma {:induction false} Pow2Monotone(m: nat, n: nat)
    requires m <= n
    ensures Pow2(m) <= Pow2(n)
    decreases n
  {
    if m < n {
      Pow2Monotone(m, n - 1);
    }
  }

  lemma WordSizes()
    ensures Pow2(3) == 8 && Pow2(8) == 0x100 && Pow2(31) == 0x8000_0000 && Pow2(32) == 0x1_0000_0000
  {
    assert Pow2(8) == 0x100;
    assert Pow2(16) == 0x1_0000;
    assert Pow2(24) == 0x100_0000;
    assert Pow2(31) == 0x8000_0000;
  }

  /** A 32-bit word is zero exactly when it has no set bit. */
  lemma ZeroIsEmpty(v: Word32)
    ensures v == 0 <==> Cols(v) == {}
    ensures forall j: nat :: Bit(v, j) <==> j in Cols(v)
  {
    WordSizes();
    forall j: nat | Bit(v, j) ensures j < 32 { Width(v, 32, j); }
    if v != 0 {
      var j := SomeBit(v, 32);
      assert j in Cols(v);
    } else {
      forall j: nat ensures !Bit(v, j) { NoBits(j); }
    }
  }

  lemma ColsOr(a: nat, b: nat)
    ensures Cols(Or(a, b)) == Cols(a) + Cols(b)
  {
    forall j: nat ensures Bit(Or(a, b), j) <==> Bit(a, j) || Bit(b, j) { BitOr(a, b, j); }
  }

  lemma ColsAnd(a: nat, b: nat)
    ensures Cols(And(a, b)) == Cols(a) * Cols(b)
  {
    forall j: nat ensures Bit(And(a, b), j) <==> Bit(a, j) && Bit(b, j) { BitAnd(a, b, j); }
  }

  /** `v & (1 << j)` is the test of bit j. */
  lemma MaskTest(v: nat, j: nat)
    ensures And(v, Shl(1, j)) != 0 <==> Bit(v, j)
  {
    BitAnd(v, Shl(1, j), j);
    BitShl(1, j, j);
    if Bit(v, j) {
      NoBits(j);
    } else {
      MaskZero(v, j);
    }
  }

  lemma {:induction false} MaskZero(v: nat, j: nat)
    requires !Bit(v, j)
    ensures And(v, Shl(1, j)) == 0
    decreases j
  {
    if j > 0 {
      MaskZero(v / 2, j - 1);
    } else {
      AndZero(v / 2);
    }
  }

  lemma {:induction false} AndZero(v: nat)
    ensures And(v, 0) == 0
  {
    if v > 0 {
      AndZero(v / 2);
    }
  }

  /** `(v >> j) & 1` is the value of bit j. */
  lemma ShiftTest(v: nat, j: nat)
    ensures And(Shr(v, j), 1) == if Bit(v, j) then 1 else 0
  {
    BitShr(v, j, 0);
    AndZero(Shr(v, j) / 2);
  }

  /** `v | (1 << k)` sets bit k and no other. */
  lemma SetBitTest(v: nat, k: nat, m: nat)
    ensures Bit(Or(v, Shl(1, k)), m) <==> Bit(v, m) || m == k
  {
    BitOr(v, Shl(1, k), m);
    BitShl(1, k, m);
    if k < m {
      NoBits(m - k - 1);
    }
  }

  lemma SetBitFits(v: Byte, k: nat)
    requires k < 8
    ensures Or(v, Shl(1, k)) < 0x100
  {
    WordSizes();
    ShlFits(1, k, 1);
    Pow2Monotone(1 + k, 8);
    OrFits(v, Shl(1, k), 8);
  }
}
