// The FreeRTOS port's ready priorities: one bit of a word for each priority, and
// the highest one found by counting leading zeros.
module ReadyPriorities {
  import opened Bits

  const PRIORITIES := 32

  // The priorities whose bit is set.
  function Ready(word: bv32): (s: set<nat>)
  {
    set p: nat | p < PRIORITIES && Has(word, Bit(p))
  }

  // __builtin_clz: how many zero bits stand above the highest one. The compiler
  // leaves its value for zero open.
  function CountLeadingZeros(word: bv32): (n: nat)
    requires word != 0
  {
    SomeBitSet(word);
    ZerosFrom(word, 31)
  }

  // The zero bits from position p down to the first one.
  function ZerosFrom(word: bv32, p: nat): (n: nat)
    requires p < PRIORITIES && exists q: nat :: q <= p && Has(word, Bit(q))
    ensures n <= p && Has(word, Bit(p - n))
    ensures forall q: nat :: p - n < q <= p ==> !Has(word, Bit(q))
  {
    if Has(word, Bit(p)) then 0 else 1 + ZerosFrom(word, p - 1)
  }

  // The k lowest bits.
  function Ones(k: nat): bv32
    requires k <= PRIORITIES
  {
    if k == 0 then 0 else Ones(k - 1) | Bit(k - 1)
  }

  lemma {:induction false} NoneBelow(word: bv32, k: nat)
    requires k <= PRIORITIES && forall q: nat :: q < k ==> !Has(word, Bit(q))
    ensures word & Ones(k) == 0
  {
    if k > 0 {
      NoneBelow(word, k - 1);
      assert !Has(word, Bit(k - 1));
      Distribute(word, Ones(k - 1), Bit(k - 1));
    }
  }

  lemma {:induction false} SomeBitSet(word: bv32)
    requires word != 0
    ensures exists q: nat :: q <= 31 && Has(word, Bit(q))
  {
    if forall q: nat :: q < 32 ==> !Has(word, Bit(q)) {
      NoneBelow(word, 32);
      AllOnes();
    }
  }

  // The k lowest bits are 2^k - 1.
  lemma {:induction false} OnesBelow(k: nat)
    requires k < PRIORITIES
    ensures Ones(k) == Bit(k) - 1 && Bit(k) & (Bit(k) - 1) == 0
  {
    if k > 0 {
      OnesBelow(k - 1);
      DoubledPower(Bit(k - 1));
    }
  }

  lemma DoubledPower(b: bv32)
    requires b & (b - 1) == 0
    ensures (b - 1) | b == (b << 1) - 1
    ensures (b << 1) & ((b << 1) - 1) == 0
  {
  }

  lemma AllOnes()
    ensures Ones(32) == 0xFFFF_FFFF
  {
    OnesBelow(31);
    BitIsShift(31);
  }

  class ReadyList {
    var readyPriorities: bv32

    method Record(priority: nat)
      requires priority < PRIORITIES
      modifies this
      ensures readyPriorities == Apply(old(readyPriorities), Recorded(priority))
    {
      readyPriorities := readyPriorities | Bit(priority);
    }

    method Reset(priority: nat)
      requires priority < PRIORITIES
      modifies this
      ensures readyPriorities == Apply(old(readyPriorities), Cleared(priority))
    {
      readyPriorities := readyPriorities & !Bit(priority);
    }

    // Asked for only when something is ready.
    method GetHighest() returns (top: nat)
      requires readyPriorities != 0
      ensures top in Ready(readyPriorities)
      ensures forall p :: p in Ready(readyPriorities) ==> p <= top
    {
      top := 31 - CountLeadingZeros(readyPriorities);
      SomeBitSet(readyPriorities);
    }
  }

  datatype Operation = Recorded(priority: nat) | Cleared(priority: nat)

  function Apply(word: bv32, op: Operation): bv32
    requires op.priority < PRIORITIES
  {
    WithBit(word, Bit(op.priority), op.Recorded?)
  }

  lemma ApplyReady(word: bv32, op: Operation)
    requires op.priority < PRIORITIES
    ensures Ready(Apply(word, op)) ==
            if op.Recorded? then Ready(word) + {op.priority} else Ready(word) - {op.priority}
  {
    forall p: nat | p < PRIORITIES
      ensures Has(Apply(word, op), Bit(p)) <==> if p == op.priority then op.Recorded? else Has(word, Bit(p))
    {
      BitsDisjoint(op.priority, p);
      WithBitHas(word, Bit(op.priority), op.Recorded?, Bit(p));
    }
  }

  predicate InRange(ops: seq<Operation>) {
    forall op :: op in ops ==> op.priority < PRIORITIES
  }

  function Run(word: bv32, ops: seq<Operation>): bv32
    requires InRange(ops)
    decreases |ops|
  {
    if ops == [] then word else Apply(Run(word, ops[..|ops| - 1]), ops[|ops| - 1])
  }

  // Whether priority p was last recorded, or if never mentioned, ready at first.
  predicate LastRecorded(ops: seq<Operation>, p: nat, initially: bool)
    decreases |ops|
  {
    if ops == [] then initially
    else if ops[|ops| - 1].priority == p then ops[|ops| - 1].Recorded?
    else LastRecorded(ops[..|ops| - 1], p, initially)
  }

  // After any run of operations the bits are exactly the priorities last recorded.
  lemma {:induction false} ReadyAfterRun(word: bv32, ops: seq<Operation>, p: nat)
    requires InRange(ops) && p < PRIORITIES
    ensures p in Ready(Run(word, ops)) <==> LastRecorded(ops, p, p in Ready(word))
    decreases |ops|
  {
    if ops != [] {
      var front, op := ops[..|ops| - 1], ops[|ops| - 1];
      ReadyAfterRun(word, front, p);
      ApplyReady(Run(word, front), op);
    }
  }

  predicate NothingRecorded(ops: seq<Operation>) {
    forall p: nat | p < PRIORITIES :: !LastRecorded(ops, p, false)
  }

  lemma ReadyFromEmpty(ops: seq<Operation>, p: nat)
    requires InRange(ops) && p < PRIORITIES
    ensures Has(Run(0, ops), Bit(p)) <==> LastRecorded(ops, p, false)
  {
    ReadyAfterRun(0, ops, p);
    assert !Has(0, Bit(p));
  }

  // From an empty list, the bits are all zero exactly when nothing is ready, and
  // otherwise the number computed is the highest priority last recorded.
  lemma HighestAfterRun(ops: seq<Operation>)
    requires InRange(ops)
    ensures Run(0, ops) == 0 <==> NothingRecorded(ops)
    ensures Run(0, ops) != 0 ==>
              var top := 31 - CountLeadingZeros(Run(0, ops));
              && 0 <= top < PRIORITIES && LastRecorded(ops, top, false)
              && forall p: nat :: top < p < PRIORITIES ==> !LastRecorded(ops, p, false)
  {
    var word := Run(0, ops);
    forall p: nat | p < PRIORITIES
      ensures LastRecorded(ops, p, false) <==> Has(word, Bit(p))
    {
      ReadyFromEmpty(ops, p);
    }
    if word != 0 {
      SomeBitSet(word);
      var q: nat :| q <= 31 && Has(word, Bit(q));
      ReadyFromEmpty(ops, q);
      assert !NothingRecorded(ops);
    }
  }

  // --- The word, bit by bit --------------------------------------------------------------

  // A priority is ready when the bit of its number is set; recording and resetting
  // change that bit only.
  lemma {:induction false} ReadyMeans(word: bv32, op: Operation, p: nat)
    requires p < 32 && op.priority < 32
    ensures p in Ready(word) <==> BitAt(word, p)
    ensures BitAt(Apply(word, op), p) <==> if p == op.priority then op.Recorded? else BitAt(word, p)
  {
    HasIsBitAt(word, p);
    WithBitAt(word, op.priority, op.Recorded?, p);
  }

  // The zeros counted are those above the highest one.
  lemma {:induction false} LeadingZerosMean(word: bv32)
    requires word != 0
    ensures var top := 31 - CountLeadingZeros(word);
            0 <= top < 32 && BitAt(word, top) && forall q :: top < q < 32 ==> !BitAt(word, q)
  {
    SomeBitSet(word);
    var top := 31 - CountLeadingZeros(word);
    HasIsBitAt(word, top);
    forall q | top < q < 32
      ensures !BitAt(word, q)
    {
      HasIsBitAt(word, q);
    }
  }
}
