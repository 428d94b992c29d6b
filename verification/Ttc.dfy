// The triple timer counters: two devices of three timers each, whose registers the
// driver's four calls read and write in place. The calls accept the first two timers
// of each device only.
module Ttc {
  import opened Arithmetic

  const TTC1 := 1
  const TTCX_2 := 1               // the last timer number the calls accept
  const NUM_TTC := 2
  const NUM_TIMERS := 3
  const NUM_MODES := 3

  const PS_EN: bv32 := 0x01
  const CNT_RST: bv32 := 0x10
  const CNT_MATCH: bv32 := 0x08
  const CNT_INT: bv32 := 0x02
  const CNT_DIS: bv32 := 0x01
  const RESET_CONFIG: bv32 := 0x21
  const INT_VALUE := 111
  const MATCH1_VALUE := 111
  const INT_EN_INTERVAL: bv32 := 0x01
  const INT_EN_MATCH1: bv32 := 0x02

  // The prescaler settings that ttc_request writes: enabled, dividing by 2^(1+1)
  // and by 2^(11+1).
  const SHORT_PRESCALER: bv32 := 0x03
  const LONG_PRESCALER: bv32 := 0x17

  datatype Timer = Timer(clk: bv32, cnt: bv32, interval: nat, match1: nat, interruptEn: bv32)

  datatype Mode = Interval | Match | FreeRunning

  // --- What each call does to the timer it addresses ---------------------------

  // Only the prescaler's enable bit is cleared, not its value.
  function Reset(t: Timer): (t': Timer) { t.(cnt := RESET_CONFIG, clk := t.clk & !PS_EN) }

  function Init(t: Timer, mode: Mode): (t': Timer)
  {
    match mode
    case Interval =>
      Reset(t).(cnt := RESET_CONFIG | (CNT_RST | CNT_INT | CNT_DIS), interval := INT_VALUE, interruptEn := INT_EN_INTERVAL)
    case Match =>
      Reset(t).(cnt := CNT_RST | CNT_MATCH | CNT_DIS, match1 := MATCH1_VALUE, interruptEn := INT_EN_MATCH1)
    case FreeRunning => Reset(t)
  }

  function Enable(t: Timer): (t': Timer) { t.(cnt := (t.cnt | CNT_RST) & !CNT_DIS) }

  function Disable(t: Timer): (t': Timer) { t.(cnt := t.cnt | CNT_DIS) }

  predicate Short(useconds: nat) { 1 <= useconds <= 1000 }

  predicate Long(useconds: nat) { 1000 < useconds <= 1000000 }

  function Ticks(useconds: nat): (ticks: nat)
    requires Short(useconds) || Long(useconds)
  {
    if Short(useconds) then useconds * 27750 / 1000 else useconds * 271 / 10000
  }

  function Stop(t: Timer): (t': Timer) { t.(cnt := t.cnt | (CNT_RST | CNT_DIS)) }

  // Prescaler bits are only ever added here.
  function Prescale(t: Timer, useconds: nat): (t': Timer)
  {
    t.(clk := t.clk | (if Short(useconds) then SHORT_PRESCALER else LONG_PRESCALER))
  }

  function Program(t: Timer, ticks: nat): (t': Timer)
  {
    if t.cnt & CNT_INT != 0 then t.(interval := ticks)
    else if t.cnt & CNT_MATCH != 0 then t.(match1 := ticks)
    else t
  }

  function Request(t: Timer, useconds: nat): (t': Timer)
  {
    if !Short(useconds) && !Long(useconds) then Stop(t)
    else Program(Prescale(Stop(t), useconds), Ticks(useconds))
  }

  // --- The device ------------------------------------------------------------------

  // The timers that the device has, and those that the calls accept.
  predicate Declared(ttc: nat, timer: nat) { ttc < NUM_TTC && timer < NUM_TIMERS }

  predicate Addressable(ttc: nat, timer: nat) { ttc <= TTC1 && timer <= TTCX_2 }

  const NUM_SLOTS := 6

  // The two devices' register arrays laid end to end: where a timer's registers are.
  function Slot(ttc: nat, timer: nat): (k: nat)
    requires Declared(ttc, timer)
    ensures k < NUM_SLOTS && k / 3 == ttc && k % 3 == timer
  {
    NUM_TIMERS * ttc + timer
  }

  class Ttcs {
    const clkCntrl: array<bv32>
    const cntCntrl: array<bv32>
    const intervCnt: array<nat>
    const match1Cnt: array<nat>
    const interruptEn: array<bv32>

    ghost predicate Valid() {
      && clkCntrl.Length == cntCntrl.Length == intervCnt.Length == match1Cnt.Length == interruptEn.Length == NUM_SLOTS
      && clkCntrl != cntCntrl && clkCntrl != interruptEn && cntCntrl != interruptEn && intervCnt != match1Cnt
      && {intervCnt as object, match1Cnt} !! {clkCntrl as object, cntCntrl, interruptEn}
    }

    ghost function Repr(): set<object> {
      {clkCntrl, cntCntrl, intervCnt, match1Cnt, interruptEn}
    }

    ghost function At(k: nat): Timer
      requires Valid() && k < NUM_SLOTS
      reads Repr()
    {
      Timer(clkCntrl[k], cntCntrl[k], intervCnt[k], match1Cnt[k], interruptEn[k])
    }

    ghost function Timers(): (ts: seq<Timer>)
      requires Valid()
      reads Repr()
      ensures |ts| == NUM_SLOTS
      ensures forall k :: 0 <= k < NUM_SLOTS ==> ts[k] == At(k)
    {
      [At(0), At(1), At(2), At(3), At(4), At(5)]
    }

    constructor ()
      ensures Valid() && fresh(Repr())
    {
      clkCntrl := new bv32[NUM_SLOTS];
      cntCntrl := new bv32[NUM_SLOTS];
      intervCnt := new nat[NUM_SLOTS];
      match1Cnt := new nat[NUM_SLOTS];
      interruptEn := new bv32[NUM_SLOTS];
    }

    // The four calls check their arguments and then work on one timer's registers.

    method TtcInit(ttc: nat, timer: nat, mode: nat) returns (ok: bool)
      requires Valid()
      modifies clkCntrl, cntCntrl, intervCnt, match1Cnt, interruptEn
      ensures Timers() == Apply(old(Timers()), InitCall(ttc, timer, mode))
      ensures ok <==> Addressable(ttc, timer) && mode < NUM_MODES
    {
      if ttc > TTC1 || timer > TTCX_2 || mode >= NUM_MODES {
        return false;
      }
      InitSlot(Slot(ttc, timer), mode);
      return true;
    }

    method InitSlot(k: nat, mode: nat)
      requires Valid() && k < NUM_SLOTS && mode < NUM_MODES
      modifies clkCntrl, cntCntrl, intervCnt, match1Cnt, interruptEn
      ensures At(k) == Init(old(At(k)), ModeOf(mode))
      ensures forall j :: 0 <= j < NUM_SLOTS && j != k ==> At(j) == old(At(j))
    {
      ResetSlot(k);
      match ModeOf(mode) {
        case Interval =>
          cntCntrl[k] := RESET_CONFIG | (CNT_RST | CNT_INT | CNT_DIS);
          intervCnt[k] := INT_VALUE;
          interruptEn[k] := INT_EN_INTERVAL;
        case Match =>
          cntCntrl[k] := CNT_RST | CNT_MATCH | CNT_DIS;
          match1Cnt[k] := MATCH1_VALUE;
          interruptEn[k] := INT_EN_MATCH1;
        case FreeRunning =>
      }
    }

    method ResetSlot(k: nat)
      requires Valid() && k < NUM_SLOTS
      modifies clkCntrl, cntCntrl
      ensures At(k) == Reset(old(At(k)))
      ensures forall j :: 0 <= j < NUM_SLOTS && j != k ==> At(j) == old(At(j))
    {
      cntCntrl[k] := RESET_CONFIG;
      clkCntrl[k] := clkCntrl[k] & !PS_EN;
    }

    method TtcEnable(ttc: nat, timer: nat) returns (ok: bool)
      requires Valid()
      modifies cntCntrl
      ensures Timers() == Apply(old(Timers()), EnableCall(ttc, timer))
      ensures ok <==> Addressable(ttc, timer)
    {
      if ttc > TTC1 || timer > TTCX_2 {
        return false;
      }
      EnableSlot(Slot(ttc, timer));
      return true;
    }

    method EnableSlot(k: nat)
      requires Valid() && k < NUM_SLOTS
      modifies cntCntrl
      ensures At(k) == Enable(old(At(k)))
      ensures forall j :: 0 <= j < NUM_SLOTS && j != k ==> At(j) == old(At(j))
    {
      var cnt := cntCntrl[k];
      cnt := cnt | CNT_RST;
      cnt := cnt & !CNT_DIS;
      cntCntrl[k] := cnt;
    }

    method TtcDisable(ttc: nat, timer: nat) returns (ok: bool)
      requires Valid()
      modifies cntCntrl
      ensures Timers() == Apply(old(Timers()), DisableCall(ttc, timer))
      ensures ok <==> Addressable(ttc, timer)
    {
      if ttc > TTC1 || timer > TTCX_2 {
        return false;
      }
      DisableSlot(Slot(ttc, timer));
      return true;
    }

    method DisableSlot(k: nat)
      requires Valid() && k < NUM_SLOTS
      modifies cntCntrl
      ensures At(k) == Disable(old(At(k)))
      ensures forall j :: 0 <= j < NUM_SLOTS && j != k ==> At(j) == old(At(j))
    {
      var cnt := cntCntrl[k];
      cnt := cnt | CNT_DIS;
      cntCntrl[k] := cnt;
    }

    method TtcRequest(ttc: nat, timer: nat, useconds: nat) returns (ok: bool)
      requires Valid()
      modifies clkCntrl, cntCntrl, intervCnt, match1Cnt, interruptEn
      ensures Timers() == Apply(old(Timers()), RequestCall(ttc, timer, useconds))
      ensures ok <==> Addressable(ttc, timer) && (Short(useconds) || Long(useconds)) &&
                      HasMode(old(Timers())[Slot(ttc, timer)])
    {
      if ttc > TTC1 || timer > TTCX_2 {
        return false;
      }
      ok := RequestSlot(Slot(ttc, timer), useconds);
    }

    // Fails after stopping the timer when the time is out of range, and after
    // setting the prescaler too when the timer has neither mode.
    method RequestSlot(k: nat, useconds: nat) returns (ok: bool)
      requires Valid() && k < NUM_SLOTS
      modifies clkCntrl, cntCntrl, intervCnt, match1Cnt, interruptEn
      ensures At(k) == Request(old(At(k)), useconds)
      ensures forall j :: 0 <= j < NUM_SLOTS && j != k ==> At(j) == old(At(j))
      ensures ok <==> (Short(useconds) || Long(useconds)) && HasMode(old(At(k)))
    {
      StopKeepsMode(cntCntrl[k]);
      StopSlot(k);
      if !(1 <= useconds <= 1000) && !(1000 < useconds <= 1000000) {
        return false;
      }
      var ticks := PrescaleSlot(k, useconds);
      ok := ProgramSlot(k, ticks);
    }

    method StopSlot(k: nat)
      requires Valid() && k < NUM_SLOTS
      modifies cntCntrl
      ensures At(k) == Stop(old(At(k)))
      ensures forall j :: 0 <= j < NUM_SLOTS && j != k ==> At(j) == old(At(j))
    {
      cntCntrl[k] := cntCntrl[k] | (CNT_RST | CNT_DIS);
    }

    method PrescaleSlot(k: nat, useconds: nat) returns (ticks: nat)
      requires Valid() && k < NUM_SLOTS && (Short(useconds) || Long(useconds))
      modifies clkCntrl
      ensures At(k) == Prescale(old(At(k)), useconds) && ticks == Ticks(useconds)
      ensures forall j :: 0 <= j < NUM_SLOTS && j != k ==> At(j) == old(At(j))
    {
      if 1 <= useconds <= 1000 {
        clkCntrl[k] := clkCntrl[k] | SHORT_PRESCALER;
        ticks := useconds * 27750 / 1000;
      } else {
        clkCntrl[k] := clkCntrl[k] | LONG_PRESCALER;
        ticks := useconds * 271 / 10000;
      }
    }

    method ProgramSlot(k: nat, ticks: nat) returns (ok: bool)
      requires Valid() && k < NUM_SLOTS
      modifies intervCnt, match1Cnt
      ensures At(k) == Program(old(At(k)), ticks)
      ensures forall j :: 0 <= j < NUM_SLOTS && j != k ==> At(j) == old(At(j))
      ensures ok <==> HasMode(old(At(k)))
    {
      StopKeepsMode(cntCntrl[k]);
      var cnt := cntCntrl[k] & (CNT_MATCH | CNT_INT);
      if cnt & CNT_INT != 0 {
        intervCnt[k] := ticks;
      } else if cnt & CNT_MATCH != 0 {
        match1Cnt[k] := ticks;
      } else {
        return false;
      }
      return true;
    }
  }

  function ModeOf(mode: nat): Mode
    requires mode < NUM_MODES
  {
    if mode == 0 then Interval else if mode == 1 then Match else FreeRunning
  }

  // Stopping and resetting a timer keeps its mode bits.
  lemma StopKeepsMode(cnt: bv32)
    ensures (cnt | (CNT_RST | CNT_DIS)) & CNT_INT == cnt & CNT_INT
    ensures (cnt | (CNT_RST | CNT_DIS)) & CNT_MATCH == cnt & CNT_MATCH
    ensures cnt & (CNT_MATCH | CNT_INT) & CNT_INT == cnt & CNT_INT
    ensures cnt & (CNT_MATCH | CNT_INT) & CNT_MATCH == cnt & CNT_MATCH
  {
  }

  predicate HasMode(t: Timer) {
    t.cnt & CNT_INT != 0 || t.cnt & CNT_MATCH != 0
  }

  // --- Calls and runs ----------------------------------------------------------------

  datatype Call =
    | InitCall(ttc: nat, timer: nat, mode: nat)
    | EnableCall(ttc: nat, timer: nat)
    | DisableCall(ttc: nat, timer: nat)
    | RequestCall(ttc: nat, timer: nat, useconds: nat)
  {
    predicate ArgumentsValid() {
      Addressable(ttc, timer) && (InitCall? ==> mode < NUM_MODES)
    }

    predicate Addresses(k: nat) {
      ArgumentsValid() && Slot(ttc, timer) == k
    }
  }

  function Changed(t: Timer, c: Call): (t': Timer)
    requires c.ArgumentsValid()
  {
    match c
    case InitCall(_, _, mode) => Init(t, ModeOf(mode))
    case EnableCall(_, _) => Enable(t)
    case DisableCall(_, _) => Disable(t)
    case RequestCall(_, _, useconds) => Request(t, useconds)
  }

  function Apply(ts: seq<Timer>, c: Call): (ts': seq<Timer>)
    requires |ts| == NUM_SLOTS
    ensures |ts'| == |ts|
  {
    if c.ArgumentsValid() then
      var k := Slot(c.ttc, c.timer);
      ts[k := Changed(ts[k], c)]
    else ts
  }

  function Run(ts: seq<Timer>, cs: seq<Call>): (ts': seq<Timer>)
    requires |ts| == NUM_SLOTS
    ensures |ts'| == NUM_SLOTS
    decreases |cs|
  {
    if cs == [] then ts else Apply(Run(ts, cs[..|cs| - 1]), cs[|cs| - 1])
  }

  // --- The registers, bit by bit ------------------------------------------------------

  // A call is refused and changes nothing unless it is for one of the first two timers
  // of the two devices and, for ttc_init, of one of the three modes; otherwise it
  // changes that timer's registers only.
  lemma CallEffect(ts: seq<Timer>, c: Call)
    requires |ts| == NUM_SLOTS
    ensures c.ArgumentsValid() <==> c.ttc < 2 && c.timer < 2 && (c.InitCall? ==> c.mode < 3)
    ensures !c.ArgumentsValid() ==> Apply(ts, c) == ts
    ensures c.ArgumentsValid() ==>
              && Apply(ts, c)[3 * c.ttc + c.timer] ==
                 (match c
                  case InitCall(_, _, mode) => Init(ts[3 * c.ttc + c.timer], ModeOf(mode))
                  case EnableCall(_, _) => Enable(ts[3 * c.ttc + c.timer])
                  case DisableCall(_, _) => Disable(ts[3 * c.ttc + c.timer])
                  case RequestCall(_, _, useconds) => Request(ts[3 * c.ttc + c.timer], useconds))
              && forall j :: 0 <= j < NUM_SLOTS && j != 3 * c.ttc + c.timer ==> Apply(ts, c)[j] == ts[j]
  {
  }

  // ttc_init: the counter control bits are 0x20 (waveform off), 0x10 (reset), 0x08
  // (match), 0x02 (interval) and 0x01 (stopped); the interrupt enabled is the
  // interval's (1) or the first match's (2).
  lemma InitEffect(t: Timer, mode: nat)
    requires mode < 3
    ensures Init(t, ModeOf(mode)) ==
            if mode == 0 then Timer(t.clk & 0xFFFF_FFFE, 0x33, 111, t.match1, 1)
            else if mode == 1 then Timer(t.clk & 0xFFFF_FFFE, 0x19, t.interval, 111, 2)
            else Timer(t.clk & 0xFFFF_FFFE, 0x21, t.interval, t.match1, t.interruptEn)
  {
    ControlWords();
    ResetEffect(t);
  }

  lemma ResetEffect(t: Timer)
    ensures Reset(t) == Timer(t.clk & 0xFFFF_FFFE, 0x21, t.interval, t.match1, t.interruptEn)
  {
    assert !PS_EN == 0xFFFF_FFFE;
  }

  lemma ControlWords()
    ensures RESET_CONFIG | (CNT_RST | CNT_INT | CNT_DIS) == 0x33
    ensures CNT_RST | CNT_MATCH | CNT_DIS == 0x19
  {
  }

  lemma EnableEffect(t: Timer)
    ensures Enable(t) == t.(cnt := (t.cnt | 0x10) & 0xFFFF_FFFE)
  {
    assert !CNT_DIS == 0xFFFF_FFFE;
  }

  lemma DisableEffect(t: Timer)
    ensures Disable(t) == t.(cnt := t.cnt | 0x01)
  {
  }

  // ttc_request: whatever the time, the timer is reset and stopped. For a time in
  // range the prescaler is switched on, and the ticks go to the interval or the match
  // register as the timer's mode has it.
  lemma RequestEffect(t: Timer, useconds: nat)
    requires Short(useconds) || Long(useconds)
    ensures var t' := Request(t, useconds);
            && t'.cnt == t.cnt | 0x11 && t'.interruptEn == t.interruptEn
            && t'.clk == t.clk | (if Short(useconds) then 0x03 else 0x17)
            && Counts(t, t', Ticks(useconds))
  {
    var stopped := Prescale(Stop(t), useconds);
    assert stopped.clk == t.clk | (if Short(useconds) then 0x03 else 0x17) && stopped.interruptEn == t.interruptEn;
    assert stopped.cnt == t.cnt | 0x11 by { StopEffect(t); }
    ProgramEffect(t, stopped, Ticks(useconds));
    assert Request(t, useconds) == Program(stopped, Ticks(useconds));
  }

  lemma OutOfRangeEffect(t: Timer, useconds: nat)
    requires useconds == 0 || useconds > 1000000
    ensures Request(t, useconds) == t.(cnt := t.cnt | 0x11)
  {
    StopEffect(t);
  }

  lemma StopEffect(t: Timer)
    ensures Stop(t) == t.(cnt := t.cnt | 0x11)
  {
    assert CNT_RST | CNT_DIS == 0x11;
  }

  lemma ProgramEffect(t: Timer, stopped: Timer, ticks: nat)
    requires stopped == Stop(t).(clk := stopped.clk)
    ensures var t' := Program(stopped, ticks);
            t' == stopped.(interval := t'.interval, match1 := t'.match1) && Counts(t, t', ticks)
  {
    StopKeepsMode(t.cnt);
  }

  // Of the interval and the match register the one that the mode selects, the interval
  // if both do, has been given these ticks.
  predicate Counts(t: Timer, t': Timer, ticks: nat) {
    && t'.interval == (if t.cnt & 0x02 != 0 then ticks else t.interval)
    && t'.match1 == (if t.cnt & 0x02 == 0 && t.cnt & 0x08 != 0 then ticks else t.match1)
  }

  // --- Counting and mode ---------------------------------------------------------------

  predicate Counting(t: Timer) { t.cnt & CNT_DIS == 0 }

  // Whether the last call addressed to timer k was ttc_enable.
  predicate LastEnabled(cs: seq<Call>, k: nat, initially: bool)
    requires k < NUM_SLOTS
    decreases |cs|
  {
    if cs == [] then initially
    else if cs[|cs| - 1].Addresses(k) then cs[|cs| - 1].EnableCall?
    else LastEnabled(cs[..|cs| - 1], k, initially)
  }

  lemma InitStops(t: Timer, mode: Mode)
    ensures !Counting(Init(t, mode))
  {
  }

  lemma CountingAfter(t: Timer, c: Call)
    requires c.ArgumentsValid()
    ensures Counting(Changed(t, c)) <==> c.EnableCall?
  {
    match c
    case InitCall(_, _, mode) => InitStops(t, ModeOf(mode));
    case EnableCall(_, _) => EnableBits(t.cnt);
    case DisableCall(_, _) => StopBits(t.cnt);
    case RequestCall(_, _, useconds) =>
      StopBits(t.cnt);
      assert Request(t, useconds).cnt == Stop(t).cnt;
  }

  // ttc_enable clears the disable bit and keeps the mode bits.
  lemma EnableBits(cnt: bv32)
    ensures ((cnt | CNT_RST) & !CNT_DIS) & CNT_DIS == 0
    ensures ((cnt | CNT_RST) & !CNT_DIS) & CNT_INT == cnt & CNT_INT
    ensures ((cnt | CNT_RST) & !CNT_DIS) & CNT_MATCH == cnt & CNT_MATCH
  {
  }

  // ttc_disable and ttc_request set it.
  lemma StopBits(cnt: bv32)
    ensures (cnt | CNT_DIS) & CNT_DIS != 0
    ensures (cnt | (CNT_RST | CNT_DIS)) & CNT_DIS != 0
    ensures (cnt | CNT_DIS) & CNT_INT == cnt & CNT_INT
    ensures (cnt | CNT_DIS) & CNT_MATCH == cnt & CNT_MATCH
  {
  }

  // After any run a timer counts exactly when the last call addressed to it was
  // ttc_enable: every other call, a request that fails included, stops it.
  lemma {:induction false} CountsIffLastEnabled(ts: seq<Timer>, cs: seq<Call>, k: nat)
    requires |ts| == NUM_SLOTS && k < NUM_SLOTS
    ensures Counting(Run(ts, cs)[k]) <==> LastEnabled(cs, k, Counting(ts[k]))
    decreases |cs|
  {
    if cs != [] {
      var front, c := cs[..|cs| - 1], cs[|cs| - 1];
      CountsIffLastEnabled(ts, front, k);
      if c.Addresses(k) { CountingAfter(Run(ts, front)[k], c); }
    }
  }

  // The mode bits, interval and match.
  datatype ModeBits = ModeBits(interval: bool, match_: bool)

  function ModeOfTimer(t: Timer): ModeBits {
    ModeBits(t.cnt & CNT_INT != 0, t.cnt & CNT_MATCH != 0)
  }

  function LastMode(cs: seq<Call>, k: nat, initially: ModeBits): ModeBits
    requires k < NUM_SLOTS
    decreases |cs|
  {
    if cs == [] then initially
    else
      var c := cs[|cs| - 1];
      if c.Addresses(k) && c.InitCall? then ModeBits(ModeOf(c.mode) == Interval, ModeOf(c.mode) == Match)
      else LastMode(cs[..|cs| - 1], k, initially)
  }

  lemma ModeAfterInit(t: Timer, mode: Mode)
    ensures ModeOfTimer(Init(t, mode)) == ModeBits(mode == Interval, mode == Match)
  {
  }

  lemma ModeAfterEnable(t: Timer)
    ensures ModeOfTimer(Enable(t)) == ModeOfTimer(t)
  {
    EnableBits(t.cnt);
  }

  lemma ModeAfterDisable(t: Timer)
    ensures ModeOfTimer(Disable(t)) == ModeOfTimer(t)
  {
    StopBits(t.cnt);
  }

  lemma ModeAfterRequest(t: Timer, useconds: nat)
    ensures ModeOfTimer(Request(t, useconds)) == ModeOfTimer(t)
  {
    StopKeepsMode(t.cnt);
    assert Request(t, useconds).cnt == Stop(t).cnt;
  }

  lemma ModeAfter(t: Timer, c: Call)
    requires c.ArgumentsValid()
    ensures ModeOfTimer(Changed(t, c)) ==
            if c.InitCall? then ModeBits(ModeOf(c.mode) == Interval, ModeOf(c.mode) == Match) else ModeOfTimer(t)
  {
    match c
    case InitCall(_, _, mode) => ModeAfterInit(t, ModeOf(mode));
    case EnableCall(_, _) => ModeAfterEnable(t);
    case DisableCall(_, _) => ModeAfterDisable(t);
    case RequestCall(_, _, useconds) => ModeAfterRequest(t, useconds);
  }

  // After any run a timer's mode is the one its last valid ttc_init gave it.
  lemma {:induction false} ModeIsLastInit(ts: seq<Timer>, cs: seq<Call>, k: nat)
    requires |ts| == NUM_SLOTS && k < NUM_SLOTS
    ensures ModeOfTimer(Run(ts, cs)[k]) == LastMode(cs, k, ModeOfTimer(ts[k]))
    decreases |cs|
  {
    if cs != [] {
      var front, c := cs[..|cs| - 1], cs[|cs| - 1];
      ModeIsLastInit(ts, front, k);
      if c.Addresses(k) { ModeAfter(Run(ts, front)[k], c); }
    }
  }

  // --- Timers do not interfere ------------------------------------------------------------

  function Own(cs: seq<Call>, k: nat): (own: seq<Call>)
    requires k < NUM_SLOTS
    decreases |cs|
  {
    if cs == [] then []
    else Own(cs[..|cs| - 1], k) + (if cs[|cs| - 1].Addresses(k) then [cs[|cs| - 1]] else [])
  }

  // A timer ends up as if only the calls addressed to it had been made.
  lemma {:induction false} TimersIndependent(ts: seq<Timer>, cs: seq<Call>, k: nat)
    requires |ts| == NUM_SLOTS && k < NUM_SLOTS
    ensures Run(ts, cs)[k] == Run(ts, Own(cs, k))[k]
    decreases |cs|
  {
    if cs != [] {
      var front, c := cs[..|cs| - 1], cs[|cs| - 1];
      TimersIndependent(ts, front, k);
      if c.Addresses(k) {
        var own := Own(cs, k);
        assert own[..|own| - 1] == Own(front, k) && own[|own| - 1] == c;
      } else {
        assert Own(cs, k) == Own(front, k);
      }
    }
  }

  // --- Which timers can be used --------------------------------------------------------------

  // No call ever changes the third timer of a device, although it is declared.
  lemma {:induction false} ThirdTimerKept(ts: seq<Timer>, cs: seq<Call>, ttc: nat)
    requires |ts| == NUM_SLOTS && ttc < NUM_TTC
    ensures Run(ts, cs)[Slot(ttc, 2)] == ts[Slot(ttc, 2)]
    decreases |cs|
  {
    if cs != [] {
      ThirdTimerKept(ts, cs[..|cs| - 1], ttc);
    }
  }

  // Every call for it is refused.
  lemma ThirdTimerRefused(mode: nat, useconds: nat)
    ensures Declared(0, 2)
    ensures !InitCall(0, 2, mode).ArgumentsValid() && !EnableCall(0, 2).ArgumentsValid()
    ensures !DisableCall(0, 2).ArgumentsValid() && !RequestCall(0, 2, useconds).ArgumentsValid()
  {
  }

  ghost predicate AlwaysKept(k: nat)
    requires k < NUM_SLOTS
  {
    forall ts, cs | |ts| == NUM_SLOTS :: Run(ts, cs)[k] == ts[k]
  }

  // A declared timer keeps its registers through every run exactly when it is a
  // third timer.
  lemma {:induction false} KeptIff(ttc: nat, timer: nat)
    requires Declared(ttc, timer)
    ensures AlwaysKept(Slot(ttc, timer)) <==> timer > TTCX_2
  {
    var k := Slot(ttc, timer);
    if timer > TTCX_2 {
      forall ts, cs | |ts| == NUM_SLOTS
        ensures Run(ts, cs)[k] == ts[k]
      {
        ThirdTimerKept(ts, cs, ttc);
      }
    } else {
      var ts, cs := seq(NUM_SLOTS, _ => Idle()), [EnableCall(ttc, timer)];
      CountsIffLastEnabled(ts, cs, k);
      assert Run(ts, cs)[k] != ts[k];
    }
  }

  function Idle(): (t: Timer)
    ensures !Counting(t) && t.clk & PRESCALER_VALUE == 0
  {
    Timer(0, CNT_DIS, 0, 0, 0)
  }

  // --- Periods ---------------------------------------------------------------------------------

  const PRESCALER_VALUE: bv32 := 0x1E

  // The number of 111 MHz cycles to a tick: one while the prescaler is off, and two
  // to the power of its value and one more while it is on.
  function CyclesPerTick(clk: bv32): nat {
    if clk & 1 == 0 then 1 else Pow(2, ((clk >> 1) & 0xF) as nat + 1)
  }

  lemma {:induction false} CyclesPerTickIs(clk: bv32)
    requires clk & 1 == 1
    ensures clk & PRESCALER_VALUE == 0x16 ==> CyclesPerTick(clk) == 4096
    ensures clk & PRESCALER_VALUE == 0x02 ==> CyclesPerTick(clk) == 4
  {
    if clk & PRESCALER_VALUE == 0x16 {
      PrescalerField(clk, 0xB);
      assert Pow(2, 12) == 4096;
    } else if clk & PRESCALER_VALUE == 0x02 {
      PrescalerField(clk, 0x1);
      assert Pow(2, 2) == 4;
    }
  }

  lemma PrescalerField(clk: bv32, value: bv32)
    requires value <= 0xF && clk & PRESCALER_VALUE == value << 1
    ensures (clk >> 1) & 0xF == value
  {
  }

  // ttc_init turns the prescaler off, a request in range turns it on.
  lemma InitSwitchesOff(t: Timer, mode: Mode)
    ensures Init(t, mode).clk & 1 == 0
  {
    InitClock(t, mode);
    SwitchedOff(t.clk);
  }

  lemma InitClock(t: Timer, mode: Mode)
    ensures Init(t, mode).clk == t.clk & !PS_EN
  {
    assert Reset(t).clk == t.clk & !PS_EN;
    match mode
    case Interval => assert Init(t, mode).clk == Reset(t).clk;
    case Match => assert Init(t, mode).clk == Reset(t).clk;
    case FreeRunning =>
  }

  lemma RequestSwitchesOn(t: Timer, useconds: nat)
    requires Short(useconds) || Long(useconds)
    ensures Request(t, useconds).clk & 1 == 1
  {
    assert Request(t, useconds).clk == Prescale(Stop(t), useconds).clk;
    SwitchedOn(t.clk);
  }

  lemma SwitchedOff(clk: bv32)
    ensures (clk & !PS_EN) & 1 == 0
  {
  }

  lemma SwitchedOn(clk: bv32)
    ensures (clk | SHORT_PRESCALER) & 1 == 1 && (clk | LONG_PRESCALER) & 1 == 1
  {
  }

  // Whether the last call that switches timer k's prescaler was a request.
  predicate LastSwitchedOn(cs: seq<Call>, k: nat, initially: bool)
    requires k < NUM_SLOTS
    decreases |cs|
  {
    if cs == [] then initially
    else
      var c := cs[|cs| - 1];
      if c.Addresses(k) && c.InitCall? then false
      else if c.Addresses(k) && c.RequestCall? && (Short(c.useconds) || Long(c.useconds)) then true
      else LastSwitchedOn(cs[..|cs| - 1], k, initially)
  }

  lemma {:induction false} PrescalerOnAfterRun(ts: seq<Timer>, cs: seq<Call>, k: nat)
    requires |ts| == NUM_SLOTS && k < NUM_SLOTS
    ensures Run(ts, cs)[k].clk & 1 == 1 <==> LastSwitchedOn(cs, k, ts[k].clk & 1 == 1)
    decreases |cs|
  {
    if cs != [] {
      var front, c := cs[..|cs| - 1], cs[|cs| - 1];
      PrescalerOnAfterRun(ts, front, k);
      if c.Addresses(k) { PrescalerOnAfter(Run(ts, front)[k], c); }
    }
  }

  lemma PrescalerOnAfter(t: Timer, c: Call)
    requires c.ArgumentsValid()
    ensures c.InitCall? ==> Changed(t, c).clk & 1 == 0
    ensures c.RequestCall? && (Short(c.useconds) || Long(c.useconds)) ==> Changed(t, c).clk & 1 == 1
    ensures !c.InitCall? && !(c.RequestCall? && (Short(c.useconds) || Long(c.useconds))) ==> Changed(t, c).clk == t.clk
  {
    match c
    case InitCall(_, _, mode) => InitSwitchesOff(t, ModeOf(mode));
    case EnableCall(_, _) =>
    case DisableCall(_, _) =>
    case RequestCall(_, _, useconds) => if Short(useconds) || Long(useconds) { RequestSwitchesOn(t, useconds); }
  }

  predicate Requests(c: Call, k: nat, long: bool)
    requires k < NUM_SLOTS
  {
    c.Addresses(k) && c.RequestCall? && (if long then Long(c.useconds) else Short(c.useconds))
  }

  // Some request of a long (short) time has been made for timer k; it does not
  // matter whether it succeeded, nor whether the timer has been initialized since.
  predicate Requested(cs: seq<Call>, k: nat, long: bool)
    requires k < NUM_SLOTS
  {
    exists i :: 0 <= i < |cs| && Requests(cs[i], k, long)
  }

  lemma {:induction false} RequestedLast(cs: seq<Call>, k: nat, long: bool)
    requires k < NUM_SLOTS && cs != []
    ensures Requested(cs, k, long) <==> Requested(cs[..|cs| - 1], k, long) || Requests(cs[|cs| - 1], k, long)
  {
    var front := cs[..|cs| - 1];
    assert forall i :: 0 <= i < |front| ==> front[i] == cs[i];
  }

  lemma PrescalerAfterInit(t: Timer, mode: Mode)
    ensures Init(t, mode).clk & PRESCALER_VALUE == t.clk & PRESCALER_VALUE
  {
    ResetKeepsValue(t);
    InitClock(t, mode);
  }

  lemma ResetKeepsValue(t: Timer)
    ensures Reset(t).clk & PRESCALER_VALUE == t.clk & PRESCALER_VALUE
  {
  }

  lemma PrescaleAddsValue(t: Timer, useconds: nat)
    ensures Prescale(t, useconds).clk & PRESCALER_VALUE ==
            if Short(useconds) then (t.clk & PRESCALER_VALUE) | 0x02 else (t.clk & PRESCALER_VALUE) | 0x16
  {
    PrescalerBits(t.clk);
  }

  lemma PrescalerAfterRequest(t: Timer, useconds: nat)
    ensures Request(t, useconds).clk & PRESCALER_VALUE ==
            if Long(useconds) then (t.clk & PRESCALER_VALUE) | 0x16
            else if Short(useconds) then (t.clk & PRESCALER_VALUE) | 0x02
            else t.clk & PRESCALER_VALUE
  {
    if Short(useconds) || Long(useconds) {
      PrescaleAddsValue(Stop(t), useconds);
      assert Request(t, useconds).clk == Prescale(Stop(t), useconds).clk;
    }
  }

  lemma PrescalerAfter(t: Timer, c: Call, k: nat)
    requires k < NUM_SLOTS && c.Addresses(k)
    ensures Changed(t, c).clk & PRESCALER_VALUE ==
            if Requests(c, k, true) then (t.clk & PRESCALER_VALUE) | 0x16
            else if Requests(c, k, false) then (t.clk & PRESCALER_VALUE) | 0x02
            else t.clk & PRESCALER_VALUE
  {
    match c
    case InitCall(_, _, mode) => PrescalerAfterInit(t, ModeOf(mode));
    case EnableCall(_, _) =>
    case DisableCall(_, _) =>
    case RequestCall(_, _, useconds) => PrescalerAfterRequest(t, useconds);
  }

  lemma PrescalerBits(clk: bv32)
    ensures (clk | SHORT_PRESCALER) & PRESCALER_VALUE == (clk & PRESCALER_VALUE) | 0x02
    ensures (clk | LONG_PRESCALER) & PRESCALER_VALUE == (clk & PRESCALER_VALUE) | 0x16
  {
  }

  // From a clear field, the prescaler value is the long one from the first long
  // request on, whatever is called afterwards.
  lemma {:induction false} PrescalerAfterRun(ts: seq<Timer>, cs: seq<Call>, k: nat)
    requires |ts| == NUM_SLOTS && k < NUM_SLOTS && ts[k].clk & PRESCALER_VALUE == 0
    ensures Run(ts, cs)[k].clk & PRESCALER_VALUE ==
            if Requested(cs, k, true) then 0x16 else if Requested(cs, k, false) then 0x02 else 0
    decreases |cs|
  {
    if cs != [] {
      var front, c := cs[..|cs| - 1], cs[|cs| - 1];
      PrescalerAfterRun(ts, front, k);
      RequestedLast(cs, k, true);
      RequestedLast(cs, k, false);
      if c.Addresses(k) { PrescalerAfter(Run(ts, front)[k], c, k); }
    }
  }

  // The period of so many ticks misses the requested time by less than a tick. One
  // microsecond is 111 cycles.
  predicate PeriodRight(ticks: nat, cyclesPerTick: nat, useconds: nat) {
    ticks * cyclesPerTick - useconds * 111 < cyclesPerTick && useconds * 111 - ticks * cyclesPerTick < cyclesPerTick
  }

  lemma TicksRight(useconds: nat)
    ensures 1 <= useconds <= 1000 ==> Ticks(useconds) == useconds * 27750 / 1000
    ensures 1000 < useconds <= 1000000 ==> Ticks(useconds) == useconds * 271 / 10000
    ensures Short(useconds) ==> PeriodRight(Ticks(useconds), 4, useconds) && !PeriodRight(Ticks(useconds), 4096, useconds)
    ensures Long(useconds) ==> PeriodRight(Ticks(useconds), 4096, useconds)
    ensures Short(useconds) || Long(useconds) ==> Ticks(useconds) < 0x1_0000
  {
  }

  function ProgrammedTicks(t: Timer): nat {
    if t.cnt & CNT_INT != 0 then t.interval else t.match1
  }

  // After a run that starts with a clear prescaler and ends in a successful
  // request, the timer's period is the one requested exactly when the time is long
  // or no long time was requested from the timer before: the prescaler value of a
  // long request is never cleared, not even by ttc_init.
  lemma PeriodRightIff(ts: seq<Timer>, cs: seq<Call>, k: nat)
    requires |ts| == NUM_SLOTS && k < NUM_SLOTS && ts[k].clk & PRESCALER_VALUE == 0
    requires cs != [] && cs[|cs| - 1].Addresses(k) && cs[|cs| - 1].RequestCall?
    requires Short(cs[|cs| - 1].useconds) || Long(cs[|cs| - 1].useconds)
    requires HasMode(Run(ts, cs[..|cs| - 1])[k])
    ensures var useconds, t := cs[|cs| - 1].useconds, Run(ts, cs)[k];
            && ProgrammedTicks(t) == Ticks(useconds) < 0x1_0000
            && (PeriodRight(ProgrammedTicks(t), CyclesPerTick(t.clk), useconds) <==>
                Long(useconds) || !Requested(cs[..|cs| - 1], k, true))
  {
    var front, c := cs[..|cs| - 1], cs[|cs| - 1];
    RequestedLast(cs, k, true);
    RequestedLast(cs, k, false);
    PrescalerAfterRun(ts, cs, k);
    PrescalerOnAfterRun(ts, cs, k);
    CyclesPerTickIs(Run(ts, cs)[k].clk);
    StopKeepsMode(Run(ts, front)[k].cnt);
    TicksRight(c.useconds);
  }

  // A short time requested after a long one: with 500 us asked for, the period is
  // 13875 ticks of 4096 cycles, half a second, even if the timer was initialized
  // again in between.
  lemma {:induction false} ShortAfterLong(ts: seq<Timer>)
    requires |ts| == NUM_SLOTS && ts[0].clk & PRESCALER_VALUE == 0
    ensures var cs := [InitCall(0, 0, 0), RequestCall(0, 0, 2000), InitCall(0, 0, 0), RequestCall(0, 0, 500)];
            var t := Run(ts, cs)[0];
            && ProgrammedTicks(t) == 13875 && CyclesPerTick(t.clk) == 4096
            && !PeriodRight(ProgrammedTicks(t), CyclesPerTick(t.clk), 500)
  {
    var front := [InitCall(0, 0, 0), RequestCall(0, 0, 2000), InitCall(0, 0, 0)];
    var cs := front + [RequestCall(0, 0, 500)];
    assert cs == [InitCall(0, 0, 0), RequestCall(0, 0, 2000), InitCall(0, 0, 0), RequestCall(0, 0, 500)];
    assert cs[..|cs| - 1] == front;
    assert Requests(front[1], 0, true) && Requests(cs[1], 0, true);
    ModeIsLastInit(ts, front, 0);
    PrescalerAfterRun(ts, cs, 0);
    PrescalerOnAfterRun(ts, cs, 0);
    CyclesPerTickIs(Run(ts, cs)[0].clk);
    PeriodRightIff(ts, cs, 0);
  }

  // The timer counts, and interrupts at intervals of the given time, or when the time
  // has passed.
  predicate Serves(t: Timer, mode: nat, useconds: nat) {
    && t.cnt & 0x01 == 0 && 1 <= useconds <= 1000000
    && ((mode == 0 && t.cnt & 0x0A == 0x02 && t.interruptEn == 1 && PeriodRight(t.interval, CyclesPerTick(t.clk), useconds)) ||
        (mode == 1 && t.cnt & 0x0A == 0x08 && t.interruptEn == 2 && PeriodRight(t.match1, CyclesPerTick(t.clk), useconds)))
  }

  ghost predicate CanServe(ts: seq<Timer>, k: nat, mode: nat, useconds: nat)
    requires |ts| == NUM_SLOTS && k < NUM_SLOTS
  {
    exists cs :: Serves(Run(ts, cs)[k], mode, useconds)
  }

  // In interval or match mode a declared timer can be made to serve a time in range,
  // from all registers with a clear prescaler, exactly when its number is below 2.
  lemma {:induction false} UsableIff(ttc: nat, timer: nat, mode: nat, useconds: nat)
    requires Declared(ttc, timer) && mode < 2 && 1 <= useconds <= 1000000
    ensures (forall ts: seq<Timer> | |ts| == NUM_SLOTS && ts[Slot(ttc, timer)].clk & PRESCALER_VALUE == 0
               :: CanServe(ts, Slot(ttc, timer), mode, useconds))
       <==> timer < 2
  {
    var k := Slot(ttc, timer);
    if timer < 2 {
      forall ts: seq<Timer> | |ts| == NUM_SLOTS && ts[k].clk & PRESCALER_VALUE == 0
        ensures CanServe(ts, k, mode, useconds)
      {
        StartUp(ts, ttc, timer, mode, useconds);
      }
    } else {
      var ts := seq(NUM_SLOTS, _ => Idle());
      forall cs
        ensures !Serves(Run(ts, cs)[k], mode, useconds)
      {
        ThirdTimerKept(ts, cs, ttc);
      }
      assert !CanServe(ts, k, mode, useconds);
    }
  }

  // Initializing it, requesting the time and enabling it do.
  lemma {:induction false} StartUp(ts: seq<Timer>, ttc: nat, timer: nat, mode: nat, useconds: nat)
    requires Addressable(ttc, timer) && mode < 2 && 1 <= useconds <= 1000000
    requires |ts| == NUM_SLOTS && ts[Slot(ttc, timer)].clk & PRESCALER_VALUE == 0
    ensures CanServe(ts, Slot(ttc, timer), mode, useconds)
  {
    var k := Slot(ttc, timer);
    var init, request, enable := InitCall(ttc, timer, mode), RequestCall(ttc, timer, useconds), EnableCall(ttc, timer);
    var cs := [init, request];
    assert cs[..1] == [init];
    ModeIsLastInit(ts, [init], k);
    PeriodRightIff(ts, cs, k);
    assert (cs + [enable])[..2] == cs;
    var t := Run(ts, cs)[k];
    assert Run(ts, cs + [enable])[k] == Enable(t);
    InitEffect(ts[k], mode);
    RequestEffect(Init(ts[k], ModeOf(mode)), useconds);
    EnabledWords();
    assert Serves(Enable(t), mode, useconds);
  }

  // The counter control words of a timer after those calls.
  lemma EnabledWords()
    ensures ((((0x33 as bv32) | 0x11) | CNT_RST) & !CNT_DIS) == 0x32
    ensures ((((0x19 as bv32) | 0x11) | CNT_RST) & !CNT_DIS) == 0x18
  {
  }
}
