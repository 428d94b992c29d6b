// Single bits of 32-bit words.
module Bits {

  // 1 << k, one position at a time.
  function Bit(k: nat): bv32
    requires k < 32
  {
    if k == 0 then 1 else Bit(k - 1) << 1
  }

  predicate Has(word: bv32, mask: bv32) {
    word & mask != 0
  }

  lemma {:induction false} BitIsShift(k: nat)
    requires k < 32
    ensures Bit(k) == (1 as bv32) << k
  {
    if k > 0 {
      BitIsShift(k - 1);
    }
  }

  function Double(word: bv32): bv32 { word << 1 }

  lemma BitDoubles(k: nat)
    requires 0 < k < 32
    ensures Bit(k) == Double(Bit(k - 1))
  {
  }

  lemma {:induction false} NotHighest(k: nat)
    requires k < 31
    ensures Bit(k) & 0x8000_0000 == 0
  {
    BitIsShift(k);
  }

  lemma {:induction false} BitNotZero(k: nat)
    requires k < 32
    ensures Bit(k) != 0
  {
    if k > 0 {
      BitNotZero(k - 1);
      NotHighest(k - 1);
      BitDoubles(k);
      DoubleNotZero(Bit(k - 1));
    }
  }

  lemma DoubleNotZero(b: bv32)
    requires b != 0 && b & 0x8000_0000 == 0
    ensures Double(b) != 0
  {
  }

  lemma DoublesApart(a: bv32, b: bv32)
    ensures 1 & Double(b) == 0 && Double(b) & 1 == 0
    ensures a & b == 0 ==> Double(a) & Double(b) == 0
  {
  }

  lemma {:induction false} BitsDisjoint(j: nat, k: nat)
    requires j < 32 && k < 32
    ensures Bit(j) != 0 && Bit(k) != 0
    ensures j != k ==> Bit(j) & Bit(k) == 0
  {
    BitNotZero(j);
    BitNotZero(k);
    if j != k { BitsApart(j, k); }
  }

  lemma {:induction false} BitsApart(j: nat, k: nat)
    requires j < 32 && k < 32 && j != k
    ensures Bit(j) & Bit(k) == 0
    decreases j + k
  {
    if j == 0 {
      LowestApart(k);
    } else if k == 0 {
      LowestApart(j);
    } else {
      BitsApart(j - 1, k - 1);
      NextApart(j, k);
    }
  }

  lemma {:induction false} LowestApart(k: nat)
    requires 0 < k < 32
    ensures Bit(0) & Bit(k) == 0 && Bit(k) & Bit(0) == 0
  {
    BitDoubles(k);
    DoublesApart(1, Bit(k - 1));
  }

  lemma {:induction false} NextApart(j: nat, k: nat)
    requires 0 < j < 32 && 0 < k < 32 && Bit(j - 1) & Bit(k - 1) == 0
    ensures Bit(j) & Bit(k) == 0
  {
    BitDoubles(j);
    BitDoubles(k);
    DoublesApart(Bit(j - 1), Bit(k - 1));
  }

  lemma SetClear(word: bv32, mask: bv32)
    requires mask != 0
    ensures Has(word | mask, mask) && !Has(word & !mask, mask)
  {
    assert (word | mask) & mask == mask;
    assert (word & !mask) & mask == 0;
  }

  lemma OtherKeptBySet(word: bv32, mask: bv32, other: bv32)
    requires mask & other == 0
    ensures Has(word | mask, other) <==> Has(word, other)
  {
    MaskIn(word, mask, other);
  }

  lemma OtherKeptByClear(word: bv32, mask: bv32, other: bv32)
    requires mask & other == 0
    ensures Has(word & !mask, other) <==> Has(word, other)
  {
    MaskOut(word, mask, other);
  }

  lemma MaskIn(word: bv32, mask: bv32, other: bv32)
    requires mask & other == 0
    ensures (word | mask) & other == word & other
  {
    assert (word | mask) & other & mask == 0;
    assert (word | mask) & other == other & (mask | word);
    Distribute(other, mask, word);
  }

  lemma Distribute(a: bv32, b: bv32, c: bv32)
    ensures a & (b | c) == (b & a) | (c & a)
  {
  }

  lemma MaskOut(word: bv32, mask: bv32, other: bv32)
    requires mask & other == 0
    ensures (word & !mask) & other == word & other
  {
    assert (word & !mask) & other == word & (other & !mask);
    assert other & !mask == other;
  }

  function WithBit(word: bv32, mask: bv32, on: bool): bv32 {
    if on then word | mask else word & !mask
  }

  lemma WithBitHas(word: bv32, mask: bv32, on: bool, other: bv32)
    requires mask != 0
    ensures Has(WithBit(word, mask, on), mask) <==> on
    ensures mask & other == 0 ==> (Has(WithBit(word, mask, on), other) <==> Has(word, other))
  {
    SetClear(word, mask);
    if mask & other == 0 {
      if on { OtherKeptBySet(word, mask, other); } else { OtherKeptByClear(word, mask, other); }
    }
  }

  // The k-th binary digit, the last one after halving k times.
  predicate BitAt(word: bv32, k: nat) {
    if k == 0 then word & 1 == 1 else BitAt(Half(word), k - 1)
  }

  function Half(word: bv32): bv32 { word >> 1 }

  // Masking with 1 << k tells whether the k-th binary digit is one.
  lemma {:induction false} HasIsBitAt(word: bv32, k: nat)
    requires k < 32
    ensures Has(word, Bit(k)) <==> BitAt(word, k)
    decreases k
  {
    if k == 0 {
      HasLowest(word);
    } else {
      HasIsBitAt(Half(word), k - 1);
      HasHalved(word, k);
    }
  }

  lemma HasLowest(word: bv32)
    ensures Has(word, Bit(0)) <==> word & 1 == 1
  {
  }

  lemma {:induction false} HasHalved(word: bv32, k: nat)
    requires 0 < k < 32
    ensures Has(word, Bit(k)) <==> Has(Half(word), Bit(k - 1))
  {
    NotHighest(k - 1);
    BitDoubles(k);
    MaskHalved(word, Bit(k - 1));
  }

  lemma MaskHalved(word: bv32, mask: bv32)
    requires mask & 0x8000_0000 == 0
    ensures Has(word, Double(mask)) <==> Has(Half(word), mask)
  {
    assert word & Double(mask) == Double(Half(word) & mask);
  }

  lemma {:induction false} WithBitAt(word: bv32, k: nat, on: bool, b: nat)
    requires k < 32 && b < 32
    ensures BitAt(WithBit(word, Bit(k), on), b) <==> if b == k then on else BitAt(word, b)
  {
    BitsDisjoint(k, b);
    WithBitHas(word, Bit(k), on, Bit(b));
    HasIsBitAt(WithBit(word, Bit(k), on), b);
    HasIsBitAt(word, b);
  }
}
