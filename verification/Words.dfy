/**
 64-bit words as naturals below 2^64, with their bit operations defined digit by
 digit, so that every fact about bits is a linear induction.
 */
module Words {
  import opened Wire

  const WORD: nat := 0x1_0000_0000_0000_0000

  function Pow2(n: nat): nat {
    if n == 0 then 1 else 2 * Pow2(n - 1)
  }

  function Bit(w: nat, j: nat): bool {
    if j == 0 then w % 2 == 1 else Bit(w / 2, j - 1)
  }

  function Shr(w: nat, s: nat): nat {
    if s == 0 then w else Shr(w / 2, s - 1)
  }

  /** Bits shifted past the word are lost; a shift by 64 or more gives zero. */
  function Shl(w: u64, s: nat): u64
    decreases s
  {
    if s == 0 then w else Shl(2 * (w as nat) % WORD, s - 1)
  }

  function Or(a: nat, b: nat): nat
    decreases a + b
  {
    if a == 0 && b == 0 then 0
    else (if a % 2 == 1 || b % 2 == 1 then 1 else 0) + 2 * Or(a / 2, b / 2)
  }

  function And(a: nat, b: nat): nat
    decreases a + b
  {
    if a == 0 || b == 0 then 0
    else (if a % 2 == 1 && b % 2 == 1 then 1 else 0) + 2 * And(a / 2, b / 2)
  }

  lemma {:induction false} BitOfZero(j: nat)
    ensures !Bit(0, j)
  {
    if j == 0 {
    } else {
      BitOfZero(j - 1);
    }
  }

  lemma {:induction false} BitBeyond(w: nat, n: nat, j: nat)
    requires w < Pow2(n) && n <= j
    ensures !Bit(w, j)
  {
    if n == 0 {
      BitOfZero(j);
    } else {
      BitBeyond(w / 2, n - 1, j - 1);
    }
  }

  lemma WordSize()
    ensures Pow2(64) == WORD && Pow2(63) * 2 == WORD
  {
    assert Pow2(8) == 0x100;
    assert Pow2(16) == 0x1_0000;
    assert Pow2(24) == 0x100_0000;
    assert Pow2(32) == 0x1_0000_0000;
    assert Pow2(40) == 0x100_0000_0000;
    assert Pow2(48) == 0x1_0000_0000_0000;
    assert Pow2(56) == 0x100_0000_0000_0000;
    assert Pow2(63) == 0x8000_0000_0000_0000;
  }

  lemma {:induction false} BitShr(w: nat, s: nat, j: nat)
    ensures Bit(Shr(w, s), j) == Bit(w, j + s)
  {
    if s == 0 {
    } else {
      BitShr(w / 2, s - 1, j);
    }
  }

  lemma {:induction false} ShrBound(w: nat, s: nat)
    ensures Shr(w, s) <= w
  {
    if s == 0 {
    } else {
      ShrBound(w / 2, s - 1);
    }
  }

  /** Clearing a higher bit does not disturb a lower one. */
  lemma {:induction false} BitMinusPower(w: nat, n: nat, j: nat)
    requires w >= Pow2(n) && j < n
    ensures Bit(w - Pow2(n), j) == Bit(w, j)
    decreases n
  {
    if j == 0 {
    } else {
      assert (w - Pow2(n)) / 2 == w / 2 - Pow2(n - 1);
      BitMinusPower(w / 2, n - 1, j - 1);
    }
  }

  lemma BitDouble(w: u64, j: nat)
    requires j < 64
    ensures Bit(2 * (w as nat) % WORD, j) == (j > 0 && Bit(w, j - 1))
  {
    WordSize();
    if j == 0 {
    } else if w < Pow2(63) {
      assert 2 * (w as nat) % WORD == 2 * (w as nat);
    } else {
      assert 2 * (w as nat) % WORD == 2 * (w as nat - Pow2(63));
      BitMinusPower(w, 63, j - 1);
    }
  }

  lemma {:induction false} BitShl(w: u64, s: nat, j: nat)
    requires j < 64
    ensures Bit(Shl(w, s), j) == (j >= s && Bit(w, j - s))
    decreases s
  {
    if s == 0 {
    } else {
      var d := 2 * (w as nat) % WORD;
      BitShl(d, s - 1, j);
      if j >= s - 1 {
        BitDouble(w, j - (s - 1));
      }
    }
  }

  lemma {:induction false} BitOr(a: nat, b: nat, j: nat)
    ensures Bit(Or(a, b), j) == (Bit(a, j) || Bit(b, j))
    decreases j
  {
    hide Or;
    OrHalves(a, b);
    if j > 0 {
      BitOr(a / 2, b / 2, j - 1);
    }
  }

  lemma OrHalves(a: nat, b: nat)
    ensures Or(a, b) / 2 == Or(a / 2, b / 2)
    ensures Or(a, b) % 2 == if a % 2 == 1 || b % 2 == 1 then 1 else 0
  {
  }

  lemma {:induction false} OrBound(a: nat, b: nat, n: nat)
    requires a < Pow2(n) && b < Pow2(n)
    ensures Or(a, b) < Pow2(n)
    decreases n
  {
    if a == 0 && b == 0 {
    } else if n > 0 {
      OrBound(a / 2, b / 2, n - 1);
    }
  }

  lemma {:induction false} BitAnd(a: nat, b: nat, j: nat)
    ensures Bit(And(a, b), j) == (Bit(a, j) && Bit(b, j))
    decreases j
  {
    if a == 0 || b == 0 {
      BitOfZero(j);
    } else if j == 0 {
    } else {
      assert And(a, b) / 2 == And(a / 2, b / 2);
      BitAnd(a / 2, b / 2, j - 1);
    }
  }

  lemma {:induction false} NonzeroHasBit(w: nat) returns (j: nat)
    requires w != 0
    ensures Bit(w, j)
    decreases w
  {
    if w % 2 == 1 {
      j := 0;
    } else {
      j := NonzeroHasBit(w / 2);
      j := j + 1;
    }
  }

  lemma {:induction false} AndBound(a: nat, b: nat)
    ensures And(a, b) <= b
    decreases a + b
  {
    if a == 0 || b == 0 {
    } else {
      AndBound(a / 2, b / 2);
    }
  }

  /** The mask test reads exactly one bit. */
  lemma MaskTest(w: u64, k: nat)
    requires k < 64
    ensures And(w, Shl(1, k)) != 0 <==> Bit(w, k)
  {
    BitShl(1, k, k);
    BitAnd(w, Shl(1, k), k);
    if And(w, Shl(1, k)) != 0 {
      var j := NonzeroHasBit(And(w, Shl(1, k)));
      BitAnd(w, Shl(1, k), j);
      WordSize();
      if j >= 64 {
        BitBeyond(w, 64, j);
        assert false;
      }
      BitShl(1, k, j);
      BitBeyond(1, 1, 1);
      if j > k {
        BitBeyond(1, 1, j - k);
      }
    } else if Bit(w, k) {
      BitOfZero(k);
    }
  }

  /** Setting a mask changes exactly one bit and stays a word. */
  lemma MaskSet(w: u64, k: nat, j: nat)
    requires k < 64 && j < 64
    ensures Or(w, Shl(1, k)) < WORD
    ensures Bit(Or(w, Shl(1, k)), j) == (j == k || Bit(w, j))
  {
    WordSize();
    OrBound(w, Shl(1, k), 64);
    BitOr(w, Shl(1, k), j);
    BitShl(1, k, j);
    if j > k {
      BitBeyond(1, 1, j - k);
    }
  }

  /** One word of a multi-word right shift. */
  lemma JoinedShift(low: u64, high: u64, b: nat, j: nat)
    requires b < 64 && j < 64
    ensures Or(Shr(low, b), Shl(high, 64 - b)) < WORD
    ensures Bit(Or(Shr(low, b), Shl(high, 64 - b)), j)
            == if j + b < 64 then Bit(low, j + b) else Bit(high, j + b - 64)
  {
    WordSize();
    ShrBound(low, b);
    OrBound(Shr(low, b), Shl(high, 64 - b), 64);
    BitOr(Shr(low, b), Shl(high, 64 - b), j);
    BitShr(low, b, j);
    BitShl(high, 64 - b, j);
    if j + b >= 64 {
      BitBeyond(low, 64, j + b);
    }
  }
}
