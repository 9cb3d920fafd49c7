/** Unsigned machine words, seen as natural numbers, and their bits. */
module Words {
  // Bit j of a word is found by halving it j times, which is what a right shift does to
  // an unsigned value; w | (1 << j) and w & ~(1 << j) change that bit and no other.

  predicate Bit(w: nat, j: nat) {
    if j == 0 then w % 2 == 1 else Bit(w / 2, j - 1)
  }

  /** w | (1 << j) */
  function SetBit(w: nat, j: nat): nat {
    if j == 0 then w / 2 * 2 + 1 else 2 * SetBit(w / 2, j - 1) + w % 2
  }

  /** w & ~(1 << j) */
  function ClearBit(w: nat, j: nat): nat {
    if j == 0 then w / 2 * 2 else 2 * ClearBit(w / 2, j - 1) + w % 2
  }

  /** w >> n */
  function Shr(w: nat, n: nat): nat {
    if n == 0 then w else Shr(w / 2, n - 1)
  }

  /** w << n, with enough room */
  function Shl(w: nat, n: nat): nat {
    if n == 0 then w else 2 * Shl(w, n - 1)
  }

  /** w fits in n bits */
  predicate Fits(w: nat, n: nat) {
    if n == 0 then w == 0 else Fits(w / 2, n - 1)
  }

  /** The word of n bits that are all set. */
  function Ones(n: nat): nat {
    if n == 0 then 0 else 2 * Ones(n - 1) + 1
  }

  lemma Halves(h: nat, b: nat)
    requires b < 2
    ensures (2 * h + b) / 2 == h && (2 * h + b) % 2 == b
  {
  }

  /** Changing a bit changes half the word in the next lower place, or the lowest place only. */
  lemma ChangeHalves(w: nat, j: nat)
    ensures SetBit(w, j) / 2 == if j == 0 then w / 2 else SetBit(w / 2, j - 1)
    ensures SetBit(w, j) % 2 == if j == 0 then 1 else w % 2
    ensures ClearBit(w, j) / 2 == if j == 0 then w / 2 else ClearBit(w / 2, j - 1)
    ensures ClearBit(w, j) % 2 == if j == 0 then 0 else w % 2
  {
    if j == 0 {
      Halves(w / 2, 1);
      Halves(w / 2, 0);
    } else {
      Halves(SetBit(w / 2, j - 1), w % 2);
      Halves(ClearBit(w / 2, j - 1), w % 2);
    }
  }

  lemma {:induction false} SetOneBit(w: nat, a: nat, b: nat)
    ensures Bit(SetBit(w, a), b) == (a == b || Bit(w, b))
    ensures Bit(ClearBit(w, a), b) == (a != b && Bit(w, b))
  {
    ChangeHalves(w, a);
    if a > 0 && b > 0 {
      SetOneBit(w / 2, a - 1, b - 1);
    }
  }

  /** Changing a low bit leaves what is stored above it alone. */
  lemma {:induction false} ShrSetBit(w: nat, j: nat, n: nat)
    requires j < n
    ensures Shr(SetBit(w, j), n) == Shr(w, n)
    ensures Shr(ClearBit(w, j), n) == Shr(w, n)
  {
    ChangeHalves(w, j);
    if j > 0 {
      ShrSetBit(w / 2, j - 1, n - 1);
    }
  }

  /** Shifting left and back again gives the word, and clears the low bits. */
  lemma {:induction false} ShrShl(w: nat, n: nat)
    ensures Shr(Shl(w, n), n) == w
  {
    if n > 0 {
      ShrShl(w, n - 1);
      assert Shl(w, n) / 2 == Shl(w, n - 1);
    }
  }

  lemma {:induction false} BitShl(w: nat, n: nat, j: nat)
    requires j < n
    ensures !Bit(Shl(w, n), j)
  {
    assert Shl(w, n) / 2 == Shl(w, n - 1);
    if j > 0 {
      BitShl(w, n - 1, j - 1);
    }
  }

  lemma {:induction false} SetBitFits(w: nat, j: nat, n: nat)
    requires Fits(w, n) && j < n
    ensures Fits(SetBit(w, j), n) && Fits(ClearBit(w, j), n)
  {
    ChangeHalves(w, j);
    if j > 0 {
      SetBitFits(w / 2, j - 1, n - 1);
    }
  }

  lemma {:induction false} ShlFits(w: nat, n: nat, m: nat)
    requires Fits(w, m)
    ensures Fits(Shl(w, n), n + m)
  {
    if n > 0 {
      ShlFits(w, n - 1, m);
      assert Shl(w, n) / 2 == Shl(w, n - 1);
    }
  }

  lemma {:induction false} Zero(n: nat)
    ensures Shr(0, n) == 0 && !Bit(0, n) && Fits(0, n)
  {
    if n > 0 {
      Zero(n - 1);
    }
  }

  lemma {:induction false} OnesHas(n: nat, j: nat)
    requires j < n
    ensures Bit(Ones(n), j)
  {
    assert Ones(n) / 2 == Ones(n - 1);
    if j > 0 {
      OnesHas(n - 1, j - 1);
    }
  }

  lemma {:induction false} FullIsOnes(w: nat, n: nat)
    requires Fits(w, n) && forall j :: 0 <= j < n ==> Bit(w, j)
    ensures w == Ones(n)
  {
    if n > 0 {
      assert Bit(w, 0);
      forall j | 0 <= j < n - 1 ensures Bit(w / 2, j) {
        assert Bit(w, j + 1);
      }
      FullIsOnes(w / 2, n - 1);
    }
  }

  lemma {:induction false} FitsLess(v: nat, w: nat, n: nat)
    requires v <= w && Fits(w, n)
    ensures Fits(v, n)
  {
    if n > 0 {
      FitsLess(v / 2, w / 2, n - 1);
    }
  }

  lemma {:induction false} OnesFits(n: nat)
    ensures Fits(Ones(n), n)
  {
    if n > 0 {
      assert Ones(n) / 2 == Ones(n - 1);
      OnesFits(n - 1);
    }
  }

  /** Numbers below 2^20 fit in 20 bits. */
  lemma FrameNumbersFit(w: nat)
    requires w < 0x10_0000
    ensures Fits(w, 20)
  {
    assert Ones(8) == 0xff;
    assert Ones(16) == 0xffff;
    assert Ones(20) == 0xf_ffff;
    OnesFits(20);
    FitsLess(w, Ones(20), 20);
  }
}
