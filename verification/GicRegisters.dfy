// The distributor's packed 32-bit registers as values, the per-interrupt tables
// they stand for, and what the driver's operations do to both.
module GicRegisters {
  import opened Bits

  const INTERRUPTS := 96

  // One bit per interrupt in ICDISR (1 = non-secure) and in the enable bits that
  // ICDISER and ICDICER set and clear; one byte per interrupt in ICDIPR and ICDIPTR.
  datatype Registers = Registers(security: seq<bv32>, enabled: seq<bv32>, priority: seq<bv32>, target: seq<bv32>)
  {
    predicate Sized() {
      |security| == 3 && |enabled| == 3 && |priority| == 24 && |target| == 24
    }
  }

  // --- One byte per interrupt, four to a word ----------------------------------

  // The shift that reaches a byte of a word.
  function ByteShift(slot: nat): (s: bv32)
    requires slot < 4
    ensures s == 0 || s == 8 || s == 16 || s == 24
  {
    if slot == 0 then 0 else if slot == 1 then 8 else if slot == 2 then 16 else 24
  }

  // It is eight times the byte's place.
  lemma ByteShiftIs(slot: nat)
    requires slot < 4
    ensures (slot * 8) as bv32 == ByteShift(slot)
    ensures (slot * 8 + 4) as bv32 == ByteShift(slot) + 4
  {
  }

  // A priority is the high nibble of its byte.
  function Nibble(word: bv32, s: bv32): (p: bv32)
    requires s <= 28
  {
    (word >> s) & 0xF
  }

  function WithNibble(word: bv32, s: bv32, p: bv32): bv32
    requires s <= 28
  {
    (word & !(0xF << s)) | (p << s)
  }

  lemma NibbleSet(word: bv32, s: bv32, p: bv32)
    requires s == 4 || s == 12 || s == 20 || s == 28
    requires p <= 0xF
    ensures Nibble(WithNibble(word, s, p), s) == p
  {
  }

  lemma HighNibblesApart(word: bv32, s: bv32, p: bv32, t: bv32)
    requires s == 4 || s == 12 || s == 20 || s == 28
    requires t == 4 || t == 12 || t == 20 || t == 28
    requires s != t && p <= 0xF
    ensures (((word & !(0xF << s)) | (p << s)) >> t) & 0xF == (word >> t) & 0xF
  {
  }

  lemma LowNibblesApart(word: bv32, s: bv32, p: bv32, t: bv32)
    requires s == 4 || s == 12 || s == 20 || s == 28
    requires t == 4 || t == 12 || t == 20 || t == 28
    requires p <= 0xF
    ensures (((word & !(0xF << s)) | (p << s)) >> (t - 4)) & 0xF == (word >> (t - 4)) & 0xF
  {
  }

  // Writing one priority leaves every other nibble of the word as it was.
  lemma OtherNibblesKept(word: bv32, slot: nat, p: bv32, other: nat)
    requires slot < 4 && other < 4 && p <= 0xF
    ensures slot != other ==>
              Nibble(WithNibble(word, ByteShift(slot) + 4, p), ByteShift(other) + 4) == Nibble(word, ByteShift(other) + 4)
    ensures Nibble(WithNibble(word, ByteShift(slot) + 4, p), ByteShift(other)) == Nibble(word, ByteShift(other))
  {
    LowNibblesApart(word, ByteShift(slot) + 4, p, ByteShift(other) + 4);
    if slot != other {
      HighNibblesApart(word, ByteShift(slot) + 4, p, ByteShift(other) + 4);
    }
  }

  // The bit of one target processor of one interrupt: the one at the processor's
  // number in the interrupt's byte.
  function TargetMask(slot: nat, cpu: nat): bv32
    requires slot < 4 && cpu < 8
  {
    Bit(8 * slot + cpu)
  }

  lemma {:induction false} BitEightOn(k: nat)
    requires k < 24
    ensures Bit(k + 8) == Bit(k) << 8
  {
    BitFourOn(k);
    BitFourOn(k + 4);
    ShiftsAdd(Bit(k));
  }

  lemma {:induction false} BitFourOn(k: nat)
    requires k < 28
    ensures Bit(k + 4) == Bit(k) << 4
  {
    BitTwoOn(k);
    BitTwoOn(k + 2);
    ShiftsAdd(Bit(k));
  }

  lemma {:induction false} BitTwoOn(k: nat)
    requires k < 30
    ensures Bit(k + 2) == Bit(k) << 2
  {
    assert Bit(k + 2) == Bit(k + 1) << 1;
    ShiftsAdd(Bit(k));
  }

  lemma ShiftsAdd(b: bv32)
    ensures (b << 1) << 1 == b << 2 && (b << 2) << 2 == b << 4 && (b << 4) << 4 == b << 8
  {
  }

  // So many bytes further up.
  function BytesUp(b: bv32, bytes: nat): bv32 {
    if bytes == 0 then b else BytesUp(b, bytes - 1) << 8
  }

  lemma {:induction false} BitBytesUp(k: nat, bytes: nat)
    requires 8 * bytes + k < 32
    ensures Bit(8 * bytes + k) == BytesUp(Bit(k), bytes)
  {
    if bytes > 0 {
      BitBytesUp(k, bytes - 1);
      BitEightOn(8 * (bytes - 1) + k);
    }
  }

  predicate IsByteShift(s: bv32, slot: nat) {
    (slot == 0 && s == 0) || (slot == 1 && s == 8) || (slot == 2 && s == 16) || (slot == 3 && s == 24)
  }

  lemma {:induction false} ShiftedBytes(b: bv32, s: bv32, slot: nat)
    requires IsByteShift(s, slot)
    ensures b << s == BytesUp(b, slot)
  {
    if slot == 0 {
      Shifted0(b, s);
    } else if slot == 1 {
      Shifted1(b, s);
    } else if slot == 2 {
      Shifted2(b, s);
    } else {
      Shifted3(b, s);
    }
  }

  lemma {:induction false} Shifted0(b: bv32, s: bv32)
    requires s == 0
    ensures b << s == BytesUp(b, 0)
  {
  }

  lemma {:induction false} Shifted1(b: bv32, s: bv32)
    requires s == 8
    ensures b << s == BytesUp(b, 1)
  {
    Shifted0(b, 0);
  }

  lemma {:induction false} Shifted2(b: bv32, s: bv32)
    requires s == 16
    ensures b << s == BytesUp(b, 2)
  {
    Shifted1(b, 8);
  }

  lemma {:induction false} Shifted3(b: bv32, s: bv32)
    requires s == 24
    ensures b << s == BytesUp(b, 3)
  {
    Shifted2(b, 16);
  }

  // The driver computes the mask as two shifts.
  lemma {:induction false} ShiftedTwice(s: bv32, slot: nat, cpu: nat)
    requires cpu < 8 && IsByteShift(s, slot)
    ensures Bit(cpu) << s == TargetMask(slot, cpu)
  {
    ShiftedBytes(Bit(cpu), s, slot);
    BitBytesUp(cpu, slot);
  }

  lemma {:induction false} TargetMasksDisjoint(slot: nat, cpu: nat, slot': nat, cpu': nat)
    requires slot < 4 && slot' < 4 && cpu < 8 && cpu' < 8
    ensures TargetMask(slot, cpu) != 0
    ensures slot != slot' || cpu != cpu' ==> TargetMask(slot, cpu) & TargetMask(slot', cpu') == 0
  {
    BitsDisjoint(8 * slot + cpu, 8 * slot' + cpu');
  }

  // --- The tables ----------------------------------------------------------------

  datatype Entry = Entry(nonSecure: bool, enabled: bool, priority: bv32, reserved: bv32, targets: seq<bool>)

  function EntryOf(r: Registers, i: nat): (e: Entry)
    requires r.Sized() && i < INTERRUPTS
  {
    Entry(Has(r.security[i / 32], Bit(i % 32)),
          Has(r.enabled[i / 32], Bit(i % 32)),
          PriorityOf(r.priority, i),
          Nibble(r.priority[i / 4], ByteShift(i % 4)),
          Targets(r.target[i / 4], i % 4))
  }

  function PriorityOf(words: seq<bv32>, i: nat): (p: bv32)
    requires |words| == 24 && i < INTERRUPTS
  {
    Nibble(words[i / 4], ByteShift(i % 4) + 4)
  }

  function Targets(word: bv32, slot: nat): (t: seq<bool>)
    requires slot < 4
    ensures |t| == 8
    ensures forall c :: 0 <= c < 8 ==> (t[c] <==> Has(word, TargetMask(slot, c)))
  {
    seq(8, c requires 0 <= c < 8 => Has(word, TargetMask(slot, c)))
  }

  // --- The driver's calls -----------------------------------------------------------

  datatype Call =
    | SetEnable(i: nat, on: bool)
    | SetPriority(i: nat, priority: bv32)
    | SetTarget(i: nat, cpu: nat, set_: bool)
    | SetSecurity(i: nat, nonSecure: bool)
    | AllNonSecure
  {
    predicate Valid() {
      match this
      case AllNonSecure => true
      case SetTarget(i, cpu, _) => i < INTERRUPTS && cpu < 8
      case _ => i < INTERRUPTS
    }
  }

  // The words after one call of each kind.
  function BitWritten(words: seq<bv32>, i: nat, on: bool): (words': seq<bv32>)
    requires |words| == 3 && i < INTERRUPTS
    ensures |words'| == 3
  {
    words[i / 32 := WithBit(words[i / 32], Bit(i % 32), on)]
  }

  function PriorityWritten(words: seq<bv32>, i: nat, p: bv32): (words': seq<bv32>)
    requires |words| == 24 && i < INTERRUPTS
    ensures |words'| == 24
  {
    words[i / 4 := WithNibble(words[i / 4], ByteShift(i % 4) + 4, p & 0xF)]
  }

  function TargetWritten(words: seq<bv32>, i: nat, cpu: nat, on: bool): (words': seq<bv32>)
    requires |words| == 24 && i < INTERRUPTS && cpu < 8
    ensures |words'| == 24
  {
    words[i / 4 := WithBit(words[i / 4], TargetMask(i % 4, cpu), on)]
  }

  function AllWritten(words: seq<bv32>): (words': seq<bv32>)
    requires |words| == 3
    ensures |words'| == 3
  {
    words[1 := 0xFFFF_FFFF][2 := 0xFFFF_FFFF]
  }

  // What a call leaves in the registers.
  function Apply(r: Registers, c: Call): (r': Registers)
    requires r.Sized() && c.Valid()
    ensures r'.Sized()
  {
    match c
    case SetEnable(i, on) => r.(enabled := BitWritten(r.enabled, i, on))
    case SetPriority(i, p) => r.(priority := PriorityWritten(r.priority, i, p))
    case SetTarget(i, cpu, on) => r.(target := TargetWritten(r.target, i, cpu, on))
    case SetSecurity(i, nonSecure) => r.(security := BitWritten(r.security, i, nonSecure))
    case AllNonSecure => r.(security := AllWritten(r.security))
  }

  // What a call means for the entry of interrupt i.
  function Updated(e: Entry, i: nat, c: Call): (e': Entry)
    requires |e.targets| == 8 && c.Valid()
    ensures |e'.targets| == 8
    ensures !Touches(c, i) ==> e' == e
  {
    if !Touches(c, i) then e
    else
      match c
      case SetEnable(_, on) => e.(enabled := on)
      case SetPriority(_, p) => e.(priority := p & 0xF)
      case SetTarget(_, cpu, on) => e.(targets := e.targets[cpu := on])
      case SetSecurity(_, nonSecure) => e.(nonSecure := nonSecure)
      case AllNonSecure => e.(nonSecure := true)
  }

  predicate Touches(c: Call, i: nat) {
    match c
    case AllNonSecure => i >= 32
    case _ => c.i == i
  }

  lemma WordsRefine(words: seq<bv32>, w: nat, mask: bv32, on: bool, w': nat, mask': bv32)
    requires w < |words| && w' < |words| && mask != 0
    requires mask == mask' || mask & mask' == 0
    ensures Has(words[w := WithBit(words[w], mask, on)][w'], mask') <==>
            if w == w' && mask == mask' then on else Has(words[w'], mask')
  {
    WithBitHas(words[w], mask, on, mask');
  }

  lemma BitsRefine(words: seq<bv32>, i: nat, on: bool, j: nat)
    requires |words| == 3 && i < INTERRUPTS && j < INTERRUPTS
    ensures Has(words[i / 32 := WithBit(words[i / 32], Bit(i % 32), on)][j / 32], Bit(j % 32)) <==>
            if i == j then on else Has(words[j / 32], Bit(j % 32))
  {
    BitsDisjoint(i % 32, j % 32);
    WordsRefine(words, i / 32, Bit(i % 32), on, j / 32, Bit(j % 32));
  }

  lemma PriorityRefines(words: seq<bv32>, i: nat, p: bv32, j: nat)
    requires |words| == 24 && i < INTERRUPTS && j < INTERRUPTS && p <= 0xF
    ensures var words' := words[i / 4 := WithNibble(words[i / 4], ByteShift(i % 4) + 4, p)];
            && Nibble(words'[j / 4], ByteShift(j % 4) + 4)
               == (if i == j then p else Nibble(words[j / 4], ByteShift(j % 4) + 4))
            && Nibble(words'[j / 4], ByteShift(j % 4)) == Nibble(words[j / 4], ByteShift(j % 4))
  {
    NibbleSet(words[i / 4], ByteShift(i % 4) + 4, p);
    OtherNibblesKept(words[i / 4], i % 4, p, j % 4);
  }

  lemma TargetRefines(word: bv32, slot: nat, cpu: nat, on: bool, other: nat)
    requires slot < 4 && other < 4 && cpu < 8
    ensures Targets(WithBit(word, TargetMask(slot, cpu), on), other) ==
            if slot == other then Targets(word, other)[cpu := on] else Targets(word, other)
  {
    forall c | 0 <= c < 8
      ensures Has(WithBit(word, TargetMask(slot, cpu), on), TargetMask(other, c)) <==>
              if slot == other && c == cpu then on else Has(word, TargetMask(other, c))
    {
      OneTargetRefines(word, slot, cpu, on, other, c);
    }
  }

  lemma {:induction false} OneTargetRefines(word: bv32, slot: nat, cpu: nat, on: bool, other: nat, c: nat)
    requires slot < 4 && other < 4 && cpu < 8 && c < 8
    ensures Has(WithBit(word, TargetMask(slot, cpu), on), TargetMask(other, c)) <==>
            if slot == other && c == cpu then on else Has(word, TargetMask(other, c))
  {
    TargetMasksDisjoint(slot, cpu, other, c);
    WithBitHas(word, TargetMask(slot, cpu), on, TargetMask(other, c));
  }

  lemma AllOnes(k: nat)
    requires k < 32
    ensures Has(0xFFFF_FFFF, Bit(k))
  {
    BitsDisjoint(k, k);
    assert 0xFFFF_FFFF & Bit(k) == Bit(k);
  }

  lemma EnableRefines(r: Registers, i: nat, on: bool, j: nat)
    requires r.Sized() && i < INTERRUPTS && j < INTERRUPTS
    ensures EntryOf(Apply(r, SetEnable(i, on)), j) == Updated(EntryOf(r, j), j, SetEnable(i, on))
  {
    BitsRefine(r.enabled, i, on, j);
  }

  lemma SecurityRefines(r: Registers, i: nat, on: bool, j: nat)
    requires r.Sized() && i < INTERRUPTS && j < INTERRUPTS
    ensures EntryOf(Apply(r, SetSecurity(i, on)), j) == Updated(EntryOf(r, j), j, SetSecurity(i, on))
  {
    BitsRefine(r.security, i, on, j);
  }

  lemma PriorityCallRefines(r: Registers, i: nat, p: bv32, j: nat)
    requires r.Sized() && i < INTERRUPTS && j < INTERRUPTS
    ensures EntryOf(Apply(r, SetPriority(i, p)), j) == Updated(EntryOf(r, j), j, SetPriority(i, p))
  {
    PriorityRefines(r.priority, i, p & 0xF, j);
  }

  lemma TargetCallRefines(r: Registers, i: nat, cpu: nat, on: bool, j: nat)
    requires r.Sized() && i < INTERRUPTS && j < INTERRUPTS && cpu < 8
    ensures EntryOf(Apply(r, SetTarget(i, cpu, on)), j) == Updated(EntryOf(r, j), j, SetTarget(i, cpu, on))
  {
    TargetRefines(r.target[i / 4], i % 4, cpu, on, j % 4);
    assert EntryOf(Apply(r, SetTarget(i, cpu, on)), j) ==
           EntryOf(r, j).(targets := Targets(Apply(r, SetTarget(i, cpu, on)).target[j / 4], j % 4));
  }

  lemma AllNonSecureRefines(r: Registers, j: nat)
    requires r.Sized() && j < INTERRUPTS
    ensures EntryOf(Apply(r, AllNonSecure), j) == Updated(EntryOf(r, j), j, AllNonSecure)
  {
    AllOnes(j % 32);
  }

  // Every call does to each entry exactly what the tables say.
  lemma CallRefines(r: Registers, c: Call, j: nat)
    requires r.Sized() && c.Valid() && j < INTERRUPTS
    ensures EntryOf(Apply(r, c), j) == Updated(EntryOf(r, j), j, c)
  {
    match c
    case SetEnable(i, on) => EnableRefines(r, i, on, j);
    case SetPriority(i, p) => PriorityCallRefines(r, i, p, j);
    case SetTarget(i, cpu, on) => TargetCallRefines(r, i, cpu, on, j);
    case SetSecurity(i, nonSecure) => SecurityRefines(r, i, nonSecure, j);
    case AllNonSecure => AllNonSecureRefines(r, j);
  }

  // --- Runs ---------------------------------------------------------------------------

  predicate AllValid(cs: seq<Call>) {
    forall c :: c in cs ==> c.Valid()
  }

  function Run(r: Registers, cs: seq<Call>): (r': Registers)
    requires r.Sized() && AllValid(cs)
    ensures r'.Sized()
    decreases |cs|
  {
    if cs == [] then r else Run(Apply(r, cs[0]), cs[1..])
  }

  // The history of one entry: only the calls that touch it count.
  function History(e: Entry, i: nat, cs: seq<Call>): (e': Entry)
    requires |e.targets| == 8 && AllValid(cs)
    decreases |cs|
  {
    if cs == [] then e else History(Updated(e, i, cs[0]), i, cs[1..])
  }

  function Concerning(cs: seq<Call>, i: nat): (own: seq<Call>)
    requires AllValid(cs)
    ensures AllValid(own)
    decreases |cs|
  {
    if cs == [] then []
    else (if Touches(cs[0], i) then [cs[0]] else []) + Concerning(cs[1..], i)
  }

  // After any run of calls an interrupt's entry is what its own calls alone, in
  // their order, make of the entry it had: interrupts never interfere.
  lemma {:induction false} RunRefines(r: Registers, cs: seq<Call>, i: nat)
    requires r.Sized() && AllValid(cs) && i < INTERRUPTS
    ensures EntryOf(Run(r, cs), i) == History(EntryOf(r, i), i, Concerning(cs, i))
    decreases |cs|
  {
    if cs != [] {
      CallRefines(r, cs[0], i);
      RunRefines(Apply(r, cs[0]), cs[1..], i);
      if Touches(cs[0], i) {
        var own := Concerning(cs, i);
        assert own[0] == cs[0] && own[1..] == Concerning(cs[1..], i);
      } else {
        assert Concerning(cs, i) == Concerning(cs[1..], i);
      }
    }
  }

  // The priority last given to interrupt i, p if none was.
  function LastPriority(p: bv32, i: nat, cs: seq<Call>): bv32
    decreases |cs|
  {
    if cs == [] then p
    else if cs[|cs| - 1].SetPriority? && cs[|cs| - 1].i == i then cs[|cs| - 1].priority & 0xF
    else LastPriority(p, i, cs[..|cs| - 1])
  }

  lemma {:induction false} RunAppend(r: Registers, cs: seq<Call>, c: Call)
    requires r.Sized() && AllValid(cs) && c.Valid()
    ensures Run(r, cs + [c]) == Apply(Run(r, cs), c)
    decreases |cs|
  {
    if cs != [] {
      assert (cs + [c])[0] == cs[0] && (cs + [c])[1..] == cs[1..] + [c];
      RunAppend(Apply(r, cs[0]), cs[1..], c);
    } else {
      assert cs + [c] == [c];
    }
  }

  // What interrupt_priority_set reads back after any run is the priority last set,
  // and the reserved low nibble of a priority byte never changes.
  lemma {:induction false} PriorityAfterRun(r: Registers, cs: seq<Call>, i: nat)
    requires r.Sized() && AllValid(cs) && i < INTERRUPTS
    ensures EntryOf(Run(r, cs), i).priority == LastPriority(EntryOf(r, i).priority, i, cs)
    ensures EntryOf(Run(r, cs), i).reserved == EntryOf(r, i).reserved
  {
    if cs != [] {
      var front, last := cs[..|cs| - 1], cs[|cs| - 1];
      assert cs == front + [last];
      PriorityAfterRun(r, front, i);
      RunAppend(r, front, last);
      CallRefines(Run(r, front), last, i);
    }
  }

  // --- The registers, bit by bit ------------------------------------------------------

  // Byte `slot` of a word, the least significant first.
  function ByteOf(word: bv32, slot: nat): (b: bv32)
    requires slot < 4
  {
    if slot == 0 then word & 0xFF
    else if slot == 1 then (word >> 8) & 0xFF
    else if slot == 2 then (word >> 16) & 0xFF
    else (word >> 24) & 0xFF
  }

  // What the entries of the tables are in the registers.
  lemma {:induction false} EntryMeans(r: Registers, i: nat)
    requires r.Sized() && i < INTERRUPTS
    ensures var e := EntryOf(r, i);
            && (e.nonSecure <==> BitAt(r.security[i / 32], i % 32))
            && (e.enabled <==> BitAt(r.enabled[i / 32], i % 32))
            && e.priority == ByteOf(r.priority[i / 4], i % 4) >> 4
            && e.reserved == ByteOf(r.priority[i / 4], i % 4) & 0x0F
            && forall c :: 0 <= c < 8 ==> (e.targets[c] <==> BitAt(r.target[i / 4], 8 * (i % 4) + c))
  {
    HasIsBitAt(r.security[i / 32], i % 32);
    HasIsBitAt(r.enabled[i / 32], i % 32);
    EntryPriority(r, i);
    TargetsMean(r.target[i / 4], i % 4);
  }

  lemma {:induction false} EntryPriority(r: Registers, i: nat)
    requires r.Sized() && i < INTERRUPTS
    ensures EntryOf(r, i).priority == ByteOf(r.priority[i / 4], i % 4) >> 4
    ensures EntryOf(r, i).reserved == ByteOf(r.priority[i / 4], i % 4) & 0x0F
  {
    NibblesOfByte(r.priority[i / 4], i % 4);
    assert EntryOf(r, i).priority == Nibble(r.priority[i / 4], ByteShift(i % 4) + 4);
    assert EntryOf(r, i).reserved == Nibble(r.priority[i / 4], ByteShift(i % 4));
  }

  lemma {:induction false} TargetsMean(word: bv32, slot: nat)
    requires slot < 4
    ensures forall c :: 0 <= c < 8 ==> (Targets(word, slot)[c] <==> BitAt(word, 8 * slot + c))
  {
    forall c | 0 <= c < 8
      ensures Targets(word, slot)[c] <==> BitAt(word, 8 * slot + c)
    {
      HasIsBitAt(word, 8 * slot + c);
    }
  }

  lemma {:induction false} NibblesOfByte(word: bv32, slot: nat)
    requires slot < 4
    ensures Nibble(word, ByteShift(slot) + 4) == ByteOf(word, slot) >> 4
    ensures Nibble(word, ByteShift(slot)) == ByteOf(word, slot) & 0x0F
  {
  }

  // One bit of a row of words is written, at its place counted through the row.
  predicate OneBitWritten(words: seq<bv32>, words': seq<bv32>, place: nat, on: bool) {
    && |words'| == |words|
    && forall w, b :: 0 <= w < |words| && 0 <= b < 32 ==>
         (BitAt(words'[w], b) <==> if 32 * w + b == place then on else BitAt(words[w], b))
  }

  lemma {:induction false} WordWritten(words: seq<bv32>, w: nat, k: nat, on: bool)
    requires w < |words| && k < 32
    ensures OneBitWritten(words, words[w := WithBit(words[w], Bit(k), on)], 32 * w + k, on)
  {
    forall v, b | 0 <= v < |words| && 0 <= b < 32
      ensures BitAt(words[w := WithBit(words[w], Bit(k), on)][v], b) <==>
              if 32 * v + b == 32 * w + k then on else BitAt(words[v], b)
    {
      if v == w { WithBitAt(words[w], k, on, b); }
    }
  }

  // interrupt_enable and interrupt_security_config write the interrupt's own bit.
  lemma {:induction false} BitWrittenMeans(r: Registers, i: nat, on: bool)
    requires r.Sized() && i < INTERRUPTS
    ensures var r' := Apply(r, SetEnable(i, on));
            OneBitWritten(r.enabled, r'.enabled, i, on) && r' == r.(enabled := r'.enabled)
    ensures var r' := Apply(r, SetSecurity(i, on));
            OneBitWritten(r.security, r'.security, i, on) && r' == r.(security := r'.security)
  {
    WordWritten(r.enabled, i / 32, i % 32, on);
    WordWritten(r.security, i / 32, i % 32, on);
  }

  // interrupt_target_set writes one bit of the interrupt's byte: the one at the
  // processor's number.
  lemma {:induction false} TargetWrittenMeans(r: Registers, i: nat, cpu: nat, on: bool)
    requires r.Sized() && i < INTERRUPTS && cpu < 8
    ensures var r' := Apply(r, SetTarget(i, cpu, on));
            OneBitWritten(r.target, r'.target, 8 * i + cpu, on) && r' == r.(target := r'.target)
  {
    WordWritten(r.target, i / 4, 8 * (i % 4) + cpu, on);
  }

  // interrupt_priority_set writes the high half of the interrupt's byte, and reads it.
  lemma {:induction false} PriorityWrittenMeans(r: Registers, i: nat, p: bv32, j: nat)
    requires r.Sized() && i < INTERRUPTS && j < INTERRUPTS
    ensures var r' := Apply(r, SetPriority(i, p));
            && r' == r.(priority := r'.priority)
            && ByteOf(r'.priority[j / 4], j % 4) ==
               if j == i then (ByteOf(r.priority[i / 4], i % 4) & 0x0F) | ((p & 0xF) << 4)
               else ByteOf(r.priority[j / 4], j % 4)
  {
    var q := p & 0xF;
    PriorityFits(p);
    var word := r.priority[i / 4];
    assert Apply(r, SetPriority(i, p)).priority == r.priority[i / 4 := WithNibble(word, ByteShift(i % 4) + 4, q)];
    if j / 4 == i / 4 {
      ByteWritten(word, i % 4, q, j % 4);
    }
  }

  lemma PriorityFits(p: bv32)
    ensures p & 0xF <= 0xF
  {
  }

  lemma {:induction false} PriorityRead(words: seq<bv32>, i: nat)
    requires |words| == 24 && i < INTERRUPTS
    ensures PriorityOf(words, i) == ByteOf(words[i / 4], i % 4) >> 4
  {
    NibblesOfByte(words[i / 4], i % 4);
  }

  lemma {:induction false} ByteWritten(word: bv32, slot: nat, p: bv32, other: nat)
    requires slot < 4 && other < 4 && p <= 0xF
    ensures ByteOf(WithNibble(word, ByteShift(slot) + 4, p), other) ==
            if other == slot then (ByteOf(word, slot) & 0x0F) | (p << 4) else ByteOf(word, other)
  {
    BytesAround(word, ByteShift(slot) + 4, slot, p, other);
  }

  lemma {:induction false} BytesAround(word: bv32, s: bv32, slot: nat, p: bv32, other: nat)
    requires slot < 4 && other < 4 && p <= 0xF
    requires s == if slot == 0 then 4 else if slot == 1 then 12 else if slot == 2 then 20 else 28
    ensures ByteOf(WithNibble(word, s, p), other) ==
            if other == slot then (ByteOf(word, slot) & 0x0F) | (p << 4) else ByteOf(word, other)
  {
    ByteWrittenAt(word, s, p);
  }

  lemma ByteWrittenAt(word: bv32, s: bv32, p: bv32)
    requires p <= 0xF && (s == 4 || s == 12 || s == 20 || s == 28)
    ensures var word' := WithNibble(word, s, p);
            && ByteOf(word', 0) == (if s == 4 then (ByteOf(word, 0) & 0x0F) | (p << 4) else ByteOf(word, 0))
            && ByteOf(word', 1) == (if s == 12 then (ByteOf(word, 1) & 0x0F) | (p << 4) else ByteOf(word, 1))
            && ByteOf(word', 2) == (if s == 20 then (ByteOf(word, 2) & 0x0F) | (p << 4) else ByteOf(word, 2))
            && ByteOf(word', 3) == (if s == 28 then (ByteOf(word, 3) & 0x0F) | (p << 4) else ByteOf(word, 3))
  {
  }

  // interrupt_security_configall makes all interrupts but the first 32 non-secure.
  lemma {:induction false} AllWrittenMeans(r: Registers)
    requires r.Sized()
    ensures var r' := Apply(r, AllNonSecure);
            && r' == r.(security := r'.security)
            && forall w, b :: 0 <= w < 3 && 0 <= b < 32 ==> (BitAt(r'.security[w], b) <==> w > 0 || BitAt(r.security[w], b))
  {
    forall b: nat | b < 32
      ensures BitAt(0xFFFF_FFFF, b)
    {
      AllOnes(b);
      HasIsBitAt(0xFFFF_FFFF, b);
    }
  }
}
