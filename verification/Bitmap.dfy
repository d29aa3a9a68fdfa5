/** Bits of 32-bit words, as the allocator's lookahead buffer uses them. */
module Bitmap {
  import opened TagWord

  function And(a: Word, b: Word): Word { Word(a.bits & b.bits) }

  function Or(a: Word, b: Word): Word { Word(a.bits | b.bits) }

  function Shifted(a: Word): Word { Word(a.bits << 1) }

  /** 1U << k. */
  function Bit(k: nat): Word { if k == 0 then Word(1) else Shifted(Bit(k - 1)) }

  predicate Has(w: Word, k: nat) { And(w, Bit(k)) != Word(0) }

  lemma ShiftedOff(a: Word)
    ensures And(Shifted(a), Word(1)) == Word(0)
  {
  }

  lemma AndCommutes(a: Word, b: Word)
    ensures And(a, b) == And(b, a)
  {
  }

  lemma ShiftedBoth(a: Word, b: Word)
    ensures And(Shifted(a), Shifted(b)) == Shifted(And(a, b))
  {
  }

  lemma ShiftedZero()
    ensures Shifted(Word(0)) == Word(0)
  {
  }

  lemma {:induction false} BitsDiffer(j: nat, k: nat)
    requires j != k
    ensures And(Bit(j), Bit(k)) == Word(0)
  {
    hide And, Shifted;
    if j == 0 {
      ShiftedOff(Bit(k - 1));
      AndCommutes(Bit(j), Bit(k));
    } else if k == 0 {
      ShiftedOff(Bit(j - 1));
    } else {
      BitsDiffer(j - 1, k - 1);
      ShiftedBoth(Bit(j - 1), Bit(k - 1));
      ShiftedZero();
    }
  }

  function ByTwo(a: Word): Word { Word(a.bits << 2) }

  function ByFour(a: Word): Word { Word(a.bits << 4) }

  lemma ShiftedTwice(a: Word)
    ensures Shifted(Shifted(a)) == ByTwo(a)
  {
  }

  lemma TwoTwice(a: Word)
    ensures ByTwo(ByTwo(a)) == ByFour(a)
  {
  }

  lemma FourMore(k: nat)
    ensures Bit(k + 4) == ByFour(Bit(k))
  {
    hide Shifted, ByTwo, ByFour;
    assert Bit(k + 4) == Shifted(Bit(k + 3)) && Bit(k + 3) == Shifted(Bit(k + 2));
    assert Bit(k + 2) == Shifted(Bit(k + 1)) && Bit(k + 1) == Shifted(Bit(k));
    ShiftedTwice(Bit(k));
    ShiftedTwice(Bit(k + 2));
    TwoTwice(Bit(k));
  }

  lemma TopBit()
    ensures Bit(31) == Word(0x8000_0000)
  {
    assert Bit(3) == Word(8);
    FourMore(3);
    FourMore(7);
    FourMore(11);
    FourMore(15);
    FourMore(19);
    FourMore(23);
    FourMore(27);
  }

  /** A shift that has lost its bit would stay lost. */
  lemma {:induction false} BitIsSet(k: nat)
    requires k < 32
    ensures Bit(k) != Word(0)
    decreases 32 - k
  {
    hide Shifted;
    TopBit();
    if k < 31 {
      BitIsSet(k + 1);
      ShiftedZero();
    }
  }

  lemma OrAnd(w: Word, a: Word, b: Word)
    ensures And(Or(w, a), b) == Or(And(w, b), And(a, b))
  {
  }

  lemma OrZero(w: Word)
    ensures Or(w, Word(0)) == w
  {
  }

  lemma Absorbed(w: Word, b: Word)
    ensures And(Or(w, b), b) == b
  {
  }

  /** Setting one bit changes the test of that bit only. */
  lemma WithHas(w: Word, k: nat, j: nat)
    requires k < 32 && j < 32
    ensures Has(Or(w, Bit(k)), j) <==> j == k || Has(w, j)
  {
    hide And, Or, Bit;
    if j == k {
      Absorbed(w, Bit(k));
      BitIsSet(k);
    } else {
      BitsDiffer(k, j);
      OrAnd(w, Bit(k), Bit(j));
      OrZero(And(w, Bit(j)));
    }
  }

  lemma NothingSet(k: nat)
    ensures !Has(Word(0), k)
  {
    hide Bit;
  }
}
