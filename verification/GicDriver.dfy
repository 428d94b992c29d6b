// The hypervisor's interrupt controller driver, working in place on the
// distributor's register arrays, and the start-up of the CPU interface.
module GicDriver {
  import opened Arithmetic
  import opened Bits
  import opened GicRegisters

  const NUM_REGISTERS := 3
  const PRIORITY_REGISTERS := 24
  const TARGET_REGISTERS := 24
  const CONFIG_REGISTERS := 6

  // The identification registers' expected values: 0..3, 4..7, component.
  const IDENTIFICATION: seq<bv32> := [0x90, 0xB3, 0x1B, 0x00, 0x04, 0x00, 0x00, 0x00, 0x0D, 0xF0, 0x05, 0xB1]

  class Distributor {
    var ICDDCR: bv32
    const identification: seq<bv32>
    const ICDISR: array<bv32>
    const enabled: array<bv32>
    const pending: array<bv32>
    const ICDIPR: array<bv32>
    const ICDIPTR: array<bv32>
    const ICDICFR: array<bv32>

    ghost predicate Valid() {
      && ICDISR.Length == NUM_REGISTERS && enabled.Length == NUM_REGISTERS && pending.Length == NUM_REGISTERS
      && ICDIPR.Length == PRIORITY_REGISTERS && ICDIPTR.Length == TARGET_REGISTERS
      && ICDICFR.Length == CONFIG_REGISTERS
      && ICDISR != enabled && ICDISR != pending && ICDISR != ICDIPR && ICDISR != ICDIPTR && ICDISR != ICDICFR
      && enabled != pending && enabled != ICDIPR && enabled != ICDIPTR && enabled != ICDICFR
      && pending != ICDIPR && pending != ICDIPTR && pending != ICDICFR
      && ICDIPR != ICDIPTR && ICDIPR != ICDICFR && ICDIPTR != ICDICFR
    }

    ghost function Regs(): (r: Registers)
      reads ICDISR, enabled, ICDIPR, ICDIPTR
      requires Valid()
      ensures r.Sized()
    {
      Registers(ICDISR[..], enabled[..], ICDIPR[..], ICDIPTR[..])
    }

    // A device in an arbitrary state.
    constructor (id: seq<bv32>)
      ensures Valid() && identification == id
      ensures fresh(ICDISR) && fresh(enabled) && fresh(pending) && fresh(ICDIPR) && fresh(ICDIPTR) && fresh(ICDICFR)
    {
      identification := id;
      ICDISR := new bv32[NUM_REGISTERS];
      enabled := new bv32[NUM_REGISTERS];
      pending := new bv32[NUM_REGISTERS];
      ICDIPR := new bv32[PRIORITY_REGISTERS];
      ICDIPTR := new bv32[TARGET_REGISTERS];
      ICDICFR := new bv32[CONFIG_REGISTERS];
    }

    // --- The device's side: ones written set or clear, zeros leave alone -------

    method WriteSetEnable(word: nat, value: bv32)
      requires Valid() && word < NUM_REGISTERS
      modifies enabled
      ensures enabled[..] == old(enabled[..])[word := WithBit(old(enabled[word]), value, true)]
    {
      enabled[word] := enabled[word] | value;
    }

    method WriteClearEnable(word: nat, value: bv32)
      requires Valid() && word < NUM_REGISTERS
      modifies enabled
      ensures enabled[..] == old(enabled[..])[word := WithBit(old(enabled[word]), value, false)]
    {
      enabled[word] := enabled[word] & !value;
    }

    method WriteClearPending(word: nat, value: bv32)
      requires Valid() && word < NUM_REGISTERS
      modifies pending
      ensures pending[..] == old(pending[..])[word := WithBit(old(pending[word]), value, false)]
    {
      pending[word] := pending[word] & !value;
    }

    // --- The driver's operations --------------------------------------------------

    method InterruptEnable(interrupt: nat, enable: bool)
      requires Valid() && interrupt < INTERRUPTS
      modifies enabled
      ensures enabled[..] == BitWritten(old(enabled[..]), interrupt, enable)
      ensures Regs() == Apply(old(Regs()), SetEnable(interrupt, enable))
    {
      var word := interrupt / 32;
      var bit := Bit(interrupt % 32);
      if enable {
        WriteSetEnable(word, bit);
      } else {
        WriteClearEnable(word, bit);
      }
    }

    // Returns the interrupt's priority before the call.
    method InterruptPrioritySet(interrupt: nat, priority: bv32) returns (oldPriority: bv32)
      requires Valid() && interrupt < INTERRUPTS
      modifies ICDIPR
      ensures ICDIPR[..] == PriorityWritten(old(ICDIPR[..]), interrupt, priority)
      ensures Regs() == Apply(old(Regs()), SetPriority(interrupt, priority))
      ensures oldPriority == PriorityOf(old(ICDIPR[..]), interrupt)
    {
      var word := interrupt / 4;
      var bitShift := BitShift(interrupt, 4);
      var temp;
      temp, oldPriority := ExchangeNibble(ICDIPR[word], bitShift, priority);
      ICDIPR[word] := temp;
    }

    static method ExchangeNibble(word: bv32, bitShift: bv32, priority: bv32) returns (temp: bv32, nibble: bv32)
      requires bitShift == 4 || bitShift == 12 || bitShift == 20 || bitShift == 28
      ensures temp == WithNibble(word, bitShift, priority & 0xF) && nibble == Nibble(word, bitShift)
    {
      temp := word & !(0xF << bitShift);
      temp := temp | ((priority & 0xF) << bitShift);
      nibble := (word >> bitShift) & 0xF;
    }

    // How far the interrupt's byte in its word, or the byte's high nibble, is shifted.
    static method BitShift(interrupt: nat, within: nat) returns (bitShift: bv32)
      requires within == 0 || within == 4
      ensures within == 0 ==> bitShift == ByteShift(interrupt % 4)
      ensures within == 4 ==> bitShift == ByteShift(interrupt % 4) + 4
    {
      bitShift := ((interrupt % 4) * 8 + within) as bv32;
      ByteShiftIs(interrupt % 4);
    }

    static method CpuMask(interrupt: nat, cpu: nat) returns (mask: bv32)
      requires cpu < 8
      ensures mask == TargetMask(interrupt % 4, cpu)
    {
      var bitShift := BitShift(interrupt, 0);
      ShiftedTwice(bitShift, interrupt % 4, cpu);
      mask := Bit(cpu) << bitShift;
    }

    static method SetOrClear(word: bv32, bits: bv32, on: bool) returns (temp: bv32)
      ensures temp == WithBit(word, bits, on)
    {
      temp := word;
      if on {
        temp := temp | bits;
      } else {
        temp := temp & !bits;
      }
    }

    method InterruptTargetSet(interrupt: nat, cpu: nat, set_: bool)
      requires Valid() && interrupt < INTERRUPTS && cpu < 8
      modifies ICDIPTR
      ensures ICDIPTR[..] == TargetWritten(old(ICDIPTR[..]), interrupt, cpu, set_)
      ensures Regs() == Apply(old(Regs()), SetTarget(interrupt, cpu, set_))
    {
      var word := interrupt / 4;
      var mask := CpuMask(interrupt, cpu);
      var temp := SetOrClear(ICDIPTR[word], mask, set_);
      ICDIPTR[word] := temp;
    }

    method InterruptSecurityConfig(interrupt: nat, nonSecure: bool)
      requires Valid() && interrupt < INTERRUPTS
      modifies ICDISR
      ensures ICDISR[..] == BitWritten(old(ICDISR[..]), interrupt, nonSecure)
      ensures Regs() == Apply(old(Regs()), SetSecurity(interrupt, nonSecure))
    {
      var word := interrupt / 32;
      var bit := Bit(interrupt % 32);
      var temp := SetOrClear(ICDISR[word], bit, nonSecure);
      ICDISR[word] := temp;
    }

    method InterruptSecurityConfigAll()
      requires Valid()
      modifies ICDISR
      ensures ICDISR[..] == AllWritten(old(ICDISR[..]))
      ensures Regs() == Apply(old(Regs()), AllNonSecure)
    {
      for i := 1 to NUM_REGISTERS
        invariant ICDISR[..] == old(ICDISR[..])[..1] + seq(i - 1, _ => 0xFFFF_FFFF as bv32) + old(ICDISR[..])[i..]
      {
        ICDISR[i] := 0xFFFF_FFFF;
      }
    }

    // --- Start-up -------------------------------------------------------------------

    method WriteAll(registers: array<bv32>, from: nat, to: nat, value: bv32)
      requires from <= to <= registers.Length
      modifies registers
      ensures registers[..] == Filled(old(registers[..]), from, to, value)
    {
      for i := from to to
        invariant registers[..] == Filled(old(registers[..]), from, i, value)
      {
        registers[i] := value;
      }
    }

    method ClearEnables()
      requires Valid()
      modifies enabled
      ensures enabled[..] == Filled(old(enabled[..]), 0, 3, 0)
    {
      for i := 0 to NUM_REGISTERS
        invariant enabled[..] == Filled(old(enabled[..]), 0, i, 0)
      {
        ClearingAll(enabled[i]);
        FilledStep(old(enabled[..]), 0, i, 0);
        WriteClearEnable(i, 0xFFFF_FFFF);
      }
    }

    method ClearPending(from: nat, to: nat)
      requires Valid() && from <= to <= NUM_REGISTERS
      modifies pending
      ensures pending[..] == Filled(old(pending[..]), from, to, 0)
    {
      for i := from to to
        invariant pending[..] == Filled(old(pending[..]), from, i, 0)
      {
        ClearingAll(pending[i]);
        FilledStep(old(pending[..]), from, i, 0);
        WriteClearPending(i, 0xFFFF_FFFF);
      }
    }

    method DistributorInit() returns (ok: bool)
      requires Valid()
      modifies this, enabled, pending, ICDIPR, ICDIPTR, ICDICFR
      ensures ok <==> identification == [0x90, 0xB3, 0x1B, 0, 4, 0, 0, 0, 0x0D, 0xF0, 0x05, 0xB1]
      ensures !ok ==> unchanged(this) && unchanged(enabled, pending, ICDIPR, ICDIPTR, ICDICFR)
      ensures ok ==> ICDDCR == 3
      ensures ok ==> enabled[..] == Filled(old(enabled[..]), 0, 3, 0)
      ensures ok ==> pending[..] == Filled(old(pending[..]), 1, 3, 0)
      ensures ok ==> ICDIPR[..] == Filled(old(ICDIPR[..]), 8, 24, 0)
      ensures ok ==> ICDIPTR[..] == Filled(old(ICDIPTR[..]), 0, 24, 0)
      ensures ok ==> ICDICFR[..] == Filled(old(ICDICFR[..]), 2, 4, 0x5555_5555)
    {
      if identification != IDENTIFICATION {
        return false;
      }
      ICDDCR := 0;
      ClearEnables();
      ClearPending(1, NUM_REGISTERS);
      WriteAll(ICDIPR, 8, PRIORITY_REGISTERS, 0);
      WriteAll(ICDIPTR, 0, TARGET_REGISTERS, 0);
      WriteAll(ICDICFR, 2, (INTERRUPTS - 32) / 16, 0x5555_5555);
      ICDDCR := 1;
      ICDDCR := ICDDCR | 2;
      return true;
    }

    // The part of the CPU interface's start-up that writes the distributor.
    method BankedInit()
      requires Valid()
      modifies pending, ICDIPR, ICDICFR
      ensures pending[..] == Filled(old(pending[..]), 0, 1, 0)
      ensures ICDIPR[..] == Filled(old(ICDIPR[..]), 0, 8, 0)
      ensures ICDICFR[..] == Filled(old(ICDICFR[..]), 0, 2, 0xAAAA_AAAA)
    {
      ClearPending(0, 1);
      WriteAll(ICDIPR, 0, 8, 0);
      WriteAll(ICDICFR, 0, 2, 0xAAAA_AAAA);
    }
  }

  function Filled(words: seq<bv32>, from: nat, to: nat, value: bv32): (words': seq<bv32>)
    requires from <= to <= |words|
    ensures |words'| == |words|
    ensures forall i :: 0 <= i < |words| ==> words'[i] == if from <= i < to then value else words[i]
  {
    words[..from] + seq(to - from, _ => value) + words[to..]
  }

  lemma FilledStep(words: seq<bv32>, from: nat, to: nat, value: bv32)
    requires from <= to < |words|
    ensures Filled(words, from, to + 1, value) == Filled(words, from, to, value)[to := value]
  {
  }

  lemma ClearingAll(word: bv32)
    ensures WithBit(word, 0xFFFF_FFFF, false) == 0
  {
  }

  // --- The CPU interface ----------------------------------------------------------

  const INTID_MASK := 0x3FF
  const FAKE_INTERRUPT := 1023

  // ack & INTID_MASK == FAKE_INTERRUPT, the mask being ten one bits.
  predicate Spurious(ack: Word32) {
    ack % (INTID_MASK + 1) == FAKE_INTERRUPT
  }

  lemma SpuriousMeans(ack: Word32)
    ensures Spurious(ack) <==> ack % 1024 == 1023
  {
  }

  // What the driver and the device exchange: an acknowledge value read from
  // ICCIAR, or one written back to ICCEOIR.
  datatype Access = Acknowledged(value: Word32) | Ended(value: Word32)

  // Each value is ended right after it is acknowledged.
  function Handled(acks: seq<Word32>): (log: seq<Access>)
    ensures |log| == 2 * |acks|
    ensures forall k :: 0 <= k < |acks| ==> log[2 * k] == Acknowledged(acks[k]) && log[2 * k + 1] == Ended(acks[k])
  {
    if acks == [] then [] else Handled(acks[..|acks| - 1]) + [Acknowledged(acks[|acks| - 1]), Ended(acks[|acks| - 1])]
  }

  lemma {:induction false} HandledAppend(front: seq<Access>, acks: seq<Word32>, v: Word32)
    ensures front + Handled(acks + [v]) == ((front + Handled(acks)) + [Acknowledged(v)]) + [Ended(v)]
  {
    assert (acks + [v])[..|acks|] == acks;
  }

  function Elements(acks: seq<Word32>): (s: set<Word32>) {
    set v | v in acks
  }

  // Of the interrupts `all`, those in acks have been handled, each once, and those
  // in `left` have not.
  ghost predicate Accounted(acks: seq<Word32>, left: set<Word32>, all: set<Word32>) {
    Distinct(acks) && Elements(acks) + left == all && Elements(acks) !! left
  }

  lemma AccountedStep(acks: seq<Word32>, left: set<Word32>, all: set<Word32>, v: Word32)
    requires Accounted(acks, left, all) && v in left
    ensures Accounted(acks + [v], left - {v}, all)
  {
    assert Elements(acks + [v]) == Elements(acks) + {v};
  }

  lemma AccountedAll(acks: seq<Word32>, all: set<Word32>)
    requires Accounted(acks, {}, all)
    ensures Elements(acks) == all
  {
  }

  lemma EndedAgain(active: set<Word32>, v: Word32)
    requires v !in active
    ensures (active + {v}) - {v} == active
  {
  }

  predicate Distinct(acks: seq<Word32>) {
    forall i, j :: 0 <= i < j < |acks| ==> acks[i] != acks[j]
  }

  class CpuInterface {
    var ICCICR: bv32
    var ICCPMR: bv32
    var ICCBPR: bv32
    var waiting: set<Word32>      // the acknowledge values of the interrupts to be reported
    var active: set<Word32>       // acknowledged and not yet ended
    ghost var log: seq<Access>

    ghost predicate Valid()
      reads this
    {
      waiting !! active && forall v :: v in waiting ==> !Spurious(v)
    }

    // Reading ICCIAR takes any one of the waiting interrupts, in an order that is
    // the device's own, and makes it active; with none waiting it is spurious.
    method ReadAcknowledge() returns (value: Word32)
      requires Valid()
      modifies this`waiting, this`active, this`log
      ensures Valid()
      ensures log == old(log) + [Acknowledged(value)]
      ensures old(waiting) == {} ==> Spurious(value) && waiting == {} && active == old(active)
      ensures old(waiting) != {} ==>
                value in old(waiting) && waiting == old(waiting) - {value} && active == old(active) + {value}
    {
      if waiting == {} {
        value := FAKE_INTERRUPT;
      } else {
        value :| value in waiting;
        waiting, active := waiting - {value}, active + {value};
      }
      log := log + [Acknowledged(value)];
    }

    method WriteEndOfInterrupt(value: Word32)
      requires Valid()
      modifies this`active, this`log
      ensures Valid() && active == old(active) - {value}
      ensures log == old(log) + [Ended(value)]
    {
      active := active - {value};
      log := log + [Ended(value)];
    }

    // The loop reads and writes back until it reads a spurious interrupt: every
    // waiting interrupt is acknowledged once and ended once, immediately.
    method Drain() returns (ghost acks: seq<Word32>, ghost last: Word32)
      requires Valid()
      modifies this`waiting, this`active, this`log
      ensures Valid() && waiting == {} && active == old(active)
      ensures Distinct(acks) && Elements(acks) == old(waiting)
      ensures Spurious(last) && log == old(log) + Handled(acks) + [Acknowledged(last)]
    {
      acks := [];
      ghost var all, front := waiting, log;
      assert Elements(acks) == {} && Accounted(acks, waiting, all);
      assert front + Handled(acks) == front;
      while true
        invariant Valid() && active == old(active)
        invariant Accounted(acks, waiting, all)
        invariant log == front + Handled(acks)
        decreases |waiting|
      {
        ghost var before := waiting;
        var temp := ReadAcknowledge();
        if Spurious(temp) {
          AccountedAll(acks, all);
          last := temp;
          break;
        }
        AccountedStep(acks, before, all, temp);
        EndedAgain(old(active), temp);
        WriteEndOfInterrupt(temp);
        HandledAppend(front, acks, temp);
        acks := acks + [temp];
      }
    }
  }

  // interrupt_interface_init: the banked distributor registers, then the interface.
  method InterfaceInit(d: Distributor, c: CpuInterface) returns (ok: bool)
    requires d.Valid() && c.Valid()
    modifies d.pending, d.ICDIPR, d.ICDICFR, c
    ensures ok && c.Valid() && c.waiting == {} && c.active == old(c.active)
    ensures c.ICCICR == 0xB && c.ICCPMR == 0xF0 && c.ICCBPR == 3
    ensures d.pending[..] == Filled(old(d.pending[..]), 0, 1, 0)
    ensures d.ICDIPR[..] == Filled(old(d.ICDIPR[..]), 0, 8, 0)
    ensures d.ICDICFR[..] == Filled(old(d.ICDICFR[..]), 0, 2, 0xAAAA_AAAA)
  {
    d.BankedInit();
    c.ICCICR := 0;
    c.ICCPMR := 0xF0;
    c.ICCBPR := 3;
    ghost var acks, last := c.Drain();
    c.ICCICR := 9;
    c.ICCICR := c.ICCICR | 2;
    return true;
  }

  // --- The state after both start-up routines ---------------------------------------

  // What the two routines leave in the registers that the tables are read from.
  function AfterStartUp(r: Registers): (r': Registers)
    requires r.Sized()
    ensures r'.Sized()
  {
    Registers(r.security, Filled(r.enabled, 0, 3, 0),
              Filled(Filled(r.priority, 8, 24, 0), 0, 8, 0), Filled(r.target, 0, 24, 0))
  }

  function ConfigAfterStartUp(config: seq<bv32>): (config': seq<bv32>)
    requires |config| == CONFIG_REGISTERS
    ensures |config'| == CONFIG_REGISTERS
  {
    Filled(Filled(config, 2, (INTERRUPTS - 32) / 16, 0x5555_5555), 0, 2, 0xAAAA_AAAA)
  }

  // The platform's start-up, both routines in turn.
  method StartUp(d: Distributor, c: CpuInterface) returns (ok: bool)
    requires d.Valid() && c.Valid() && d.identification == IDENTIFICATION
    modifies d, d.enabled, d.pending, d.ICDIPR, d.ICDIPTR, d.ICDICFR, c
    ensures ok && d.ICDDCR == 3 && c.waiting == {} && c.active == old(c.active)
    ensures d.Regs() == AfterStartUp(old(d.Regs()))
    ensures d.ICDICFR[..] == ConfigAfterStartUp(old(d.ICDICFR[..]))
    ensures forall k :: 0 <= k < NUM_REGISTERS ==> d.pending[k] == 0
  {
    ok := d.DistributorInit();
    ok := InterfaceInit(d, c);
  }

  // From any register contents, start-up leaves every interrupt disabled, at
  // priority 0 and without a target; its security is not touched.
  lemma ResetTable(r: Registers, i: nat)
    requires r.Sized() && i < INTERRUPTS
    ensures EntryOf(AfterStartUp(r), i) ==
            Entry(EntryOf(r, i).nonSecure, false, 0, 0, seq(8, _ => false))
  {
  }

  // Of an interrupt's two configuration bits only the low one is set: sensitive to
  // the level, handled by one processor.
  predicate LevelOneTarget(config: seq<bv32>, i: nat)
    requires |config| == CONFIG_REGISTERS && i < INTERRUPTS
  {
    Has(config[i / 16], Bit(2 * (i % 16))) && !Has(config[i / 16], Bit(2 * (i % 16) + 1))
  }

  lemma LevelPattern(k: nat)
    requires k < 16
    ensures Has(0x5555_5555, Bit(2 * k)) && !Has(0x5555_5555, Bit(2 * k + 1))
  {
    BitIsShift(2 * k);
    BitIsShift(2 * k + 1);
    assert 0x5555_5555 & ((1 as bv32) << (2 * k)) != 0 && 0x5555_5555 & ((1 as bv32) << (2 * k + 1)) == 0;
  }

  lemma ConfiguredBelow64(config: seq<bv32>, i: nat)
    requires |config| == CONFIG_REGISTERS && 32 <= i < 64
    ensures LevelOneTarget(ConfigAfterStartUp(config), i)
  {
    LevelPattern(i % 16);
  }

  lemma UnconfiguredFrom64(i: nat) returns (config: seq<bv32>)
    requires 64 <= i < INTERRUPTS
    ensures |config| == CONFIG_REGISTERS && !LevelOneTarget(ConfigAfterStartUp(config), i)
  {
    config := [0, 0, 0, 0, 0, 0];
    assert ConfigAfterStartUp(config)[i / 16] == 0;
  }

  // The shared interrupts that start-up configures, whatever the registers held,
  // are 32 to 63 only: the bound of its loop leaves out the last two registers.
  lemma ConfiguredIff(i: nat)
    requires 32 <= i < INTERRUPTS
    ensures (forall config: seq<bv32> | |config| == CONFIG_REGISTERS :: LevelOneTarget(ConfigAfterStartUp(config), i))
       <==> i < 64
  {
    if i < 64 {
      forall config: seq<bv32> | |config| == CONFIG_REGISTERS
        ensures LevelOneTarget(ConfigAfterStartUp(config), i)
      {
        ConfiguredBelow64(config, i);
      }
    } else {
      var config := UnconfiguredFrom64(i);
    }
  }
}
