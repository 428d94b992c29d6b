// Creating the non-secure guest: the guest record is filled in and the guest's
// binary, and its RAM disk if it has one, are copied to where they are to run. The
// record, the configuration and all images lie in one flat memory.
module GuestImage {
  import opened Arithmetic
  import opened Memory
  import StringLib

  // --- Little-endian words in memory --------------------------------------------

  // The number that bytes denote, least significant first.
  function Number(bytes: seq<Byte>): (n: nat) {
    if bytes == [] then 0 else bytes[0] as int + 0x100 * Number(bytes[1..])
  }

  lemma {:induction false} NumberOfNext(b: Byte, rest: seq<Byte>)
    ensures Number([b] + rest) == b as int + 0x100 * Number(rest)
  {
    assert ([b] + rest)[1..] == rest;
  }

  lemma {:induction false} NumberOfFour(b0: Byte, b1: Byte, b2: Byte, b3: Byte)
    ensures Number([b0, b1, b2, b3]) == b0 as int + 0x100 * (b1 as int) + 0x1_0000 * (b2 as int) + 0x100_0000 * (b3 as int)
    ensures Number([b0, b1, b2, b3]) < 0x1_0000_0000
  {
    NumberOfNext(b3, []);
    NumberOfNext(b2, [b3]);
    NumberOfNext(b1, [b2, b3]);
    NumberOfNext(b0, [b1, b2, b3]);
    assert [b0, b1, b2, b3] == [b0] + [b1, b2, b3] && [b1, b2, b3] == [b1] + [b2, b3];
    assert [b2, b3] == [b2] + [b3] && [b3] == [b3] + [];
  }

  function WordAt(m: seq<Byte>, a: nat): (w: Word32)
    requires a + 4 <= |m|
  {
    NumberOfFour(m[a], m[a + 1], m[a + 2], m[a + 3]);
    Number([m[a], m[a + 1], m[a + 2], m[a + 3]])
  }

  // Words are little-endian.
  lemma {:induction false} WordIsBytes(m: seq<Byte>, a: nat)
    requires a + 4 <= |m|
    ensures WordAt(m, a) == m[a] as int + 256 * (m[a + 1] as int) + 65536 * (m[a + 2] as int) + 16777216 * (m[a + 3] as int)
  {
    NumberOfFour(m[a], m[a + 1], m[a + 2], m[a + 3]);
  }

  method ReadWord(mem: array<Byte>, a: nat) returns (w: Word32)
    requires a + 4 <= mem.Length
    ensures w == WordAt(mem[..], a)
  {
    NumberOfFour(mem[a], mem[a + 1], mem[a + 2], mem[a + 3]);
    w := mem[a] as int + 0x100 * (mem[a + 1] as int) + 0x1_0000 * (mem[a + 2] as int) + 0x100_0000 * (mem[a + 3] as int);
  }

  method WriteWord(mem: array<Byte>, a: nat, w: Word32)
    requires a + 4 <= mem.Length
    modifies mem
    ensures WordAt(mem[..], a) == w
    ensures SameOutside(old(mem[..]), mem[..], a, 4)
  {
    var high, higher := w / 0x100, w / 0x100 / 0x100;
    mem[a], mem[a + 1], mem[a + 2], mem[a + 3] := w % 0x100, high % 0x100, higher % 0x100, higher / 0x100;
    NumberOfFour(mem[a], mem[a + 1], mem[a + 2], mem[a + 3]);
  }

  // Nothing outside the n bytes at a differs.
  predicate SameOutside(m: seq<Byte>, m': seq<Byte>, a: nat, n: nat) {
    |m'| == |m| && forall i :: 0 <= i < |m| && !(a <= i < a + n) ==> m'[i] == m[i]
  }

  predicate Apart(a: nat, n: nat, b: nat, k: nat) {
    a + n <= b || b + k <= a
  }

  // A block of words, such as a register file.
  function Words(m: seq<Byte>, a: nat, n: nat): (ws: seq<Word32>)
    requires a + 4 * n <= |m|
    ensures |ws| == n
    ensures forall k :: 0 <= k < n ==> ws[k] == WordAt(m, a + 4 * k)
  {
    seq(n, k requires 0 <= k < n => WordAt(m, a + 4 * k))
  }

  lemma {:induction false} WordsApart(m: seq<Byte>, m': seq<Byte>, a: nat, n: nat, b: nat, k: nat)
    requires a + 4 * n <= |m| && SameOutside(m, m', b, k) && Apart(a, 4 * n, b, k)
    ensures Words(m', a, n) == Words(m, a, n)
  {
  }

  lemma {:induction false} WordsWritten(m: seq<Byte>, m': seq<Byte>, a: nat, n: nat, k: nat, w: Word32)
    requires a + 4 * n <= |m| && k < n
    requires SameOutside(m, m', a + 4 * k, 4) && WordAt(m', a + 4 * k) == w
    ensures Words(m', a, n) == Words(m, a, n)[k := w]
  {
  }

  lemma {:induction false} WordsZeroed(m: seq<Byte>, a: nat, n: nat)
    requires a + 4 * n <= |m| && forall i :: a <= i < a + 4 * n ==> m[i] == 0
    ensures Words(m, a, n) == seq(n, _ => 0)
  {
    NumberOfFour(0, 0, 0, 0);
  }

  // --- The two structures ---------------------------------------------------------

  const CORE_REGS := 0          // 30 words
  const NUM_CORE_REGS := 30
  const SPSR_MON := 13          // word indices
  const LR_MON := 14
  const CP15_REGS := 120        // 20 words
  const NUM_CP15_REGS := 20
  const SCTLR := 1
  const ACTLR := 2
  const GIC_REGS := 200         // 4 words, not touched
  const NAME := 216             // 30 bytes
  const NAME_SIZE := 30
  const ID := 248
  const BOOTING := 252
  const RECORD_SIZE := 256

  const GCE_NAME := 0
  const GCE_ID := 32
  const GCE_TRD_INIT := 36
  const GCE_TRD_START := 40
  const GCE_TRD_END := 44
  const GCE_TRD_LOAD := 48
  const GCE_BIN_START := 52
  const GCE_BIN_END := 60
  const GCE_BIN_LOAD := 64
  const CONFIG_SIZE := 68

  const SUPERVISOR_SPSR: Word32 := 0x193
  const RESET_SCTLR: Word32 := 0x00c50078
  const RESET_ACTLR: Word32 := 0x00000006

  // --- The guest record --------------------------------------------------------------

  // The record and the configuration are different objects, and the configured
  // name ends within its array.
  predicate Placed(m: seq<Byte>, ns: nat, g: nat) {
    && ns + RECORD_SIZE <= |m| && g + CONFIG_SIZE <= |m| && Apart(ns, RECORD_SIZE, g, CONFIG_SIZE)
    && IsCString(m, g + GCE_NAME) && CStringLength(m, g + GCE_NAME) < NAME_SIZE
  }

  function CoreRegisters(load: Word32): (rs: seq<Word32>)
    ensures |rs| == NUM_CORE_REGS
  {
    seq(NUM_CORE_REGS, _ => 0)[LR_MON := load][SPSR_MON := SUPERVISOR_SPSR]
  }

  function Cp15Registers(): (rs: seq<Word32>)
    ensures |rs| == NUM_CP15_REGS
  {
    seq(NUM_CP15_REGS, _ => 0)[SCTLR := RESET_SCTLR][ACTLR := RESET_ACTLR]
  }

  // Writing to the record leaves the configuration, its name included, alone.
  lemma {:induction false} StillPlaced(m: seq<Byte>, m': seq<Byte>, ns: nat, g: nat)
    requires Placed(m, ns, g) && SameOutside(m, m', ns, RECORD_SIZE)
    ensures Placed(m', ns, g) && CString(m', g + GCE_NAME) == CString(m, g + GCE_NAME)
    ensures CStringLength(m', g + GCE_NAME) == CStringLength(m, g + GCE_NAME)
  {
    var p, n := g + GCE_NAME, CStringLength(m, g + GCE_NAME);
    assert m'[p..p + n + 1] == m[p..p + n + 1];
    assert forall k :: p <= k <= p + n ==> m'[k] == m[k];
    CStringLengthUnique(m', p, n);
    assert m'[p..p + n] == m[p..p + n];
  }

  lemma {:induction false} NameCopied(m: seq<Byte>, m': seq<Byte>, ns: nat, g: nat)
    requires Placed(m, ns, g)
    requires m' == ForwardCopy(m, ns + NAME, g + GCE_NAME, CStringLength(m, g + GCE_NAME) + 1)
    ensures SameOutside(m, m', ns + NAME, NAME_SIZE)
    ensures IsCString(m', ns + NAME) && CString(m', ns + NAME) == CString(m, g + GCE_NAME)
  {
    StringLib.StrcpyResult(m, ns + NAME, g + GCE_NAME, m');
    CopyStaysInside(m, ns + NAME, g + GCE_NAME, CStringLength(m, g + GCE_NAME) + 1, NAME_SIZE);
  }

  method CopyName(mem: array<Byte>, ns: nat, g: nat)
    requires Placed(mem[..], ns, g)
    modifies mem
    ensures SameOutside(old(mem[..]), mem[..], ns + NAME, NAME_SIZE)
    ensures IsCString(mem[..], ns + NAME) && CString(mem[..], ns + NAME) == CString(old(mem[..]), g + GCE_NAME)
  {
    var _ := StringLib.Strcpy(mem, ns + NAME, g + GCE_NAME);
    NameCopied(old(mem[..]), mem[..], ns, g);
  }

  lemma {:induction false} CopyStaysInside(m: seq<Byte>, dst: nat, src: nat, count: nat, size: nat)
    requires count <= size && dst + size <= |m| && src + count <= |m|
    ensures SameOutside(m, ForwardCopy(m, dst, src, count), dst, size)
  {
    ForwardCopyEffect(m, dst, src, count);
  }

  method InitAttributes(mem: array<Byte>, ns: nat, g: nat)
    requires Placed(mem[..], ns, g)
    modifies mem
    ensures SameOutside(old(mem[..]), mem[..], ns + NAME, RECORD_SIZE - NAME)
    ensures AttributesReady(mem[..], ns, CString(old(mem[..]), g + GCE_NAME), WordAt(old(mem[..]), g + GCE_ID))
  {
    ghost var m := mem[..];
    WriteWord(mem, ns + BOOTING, 1);
    var id := ReadWord(mem, g + GCE_ID);
    WriteWord(mem, ns + ID, id);
    StillPlaced(m, mem[..], ns, g);
    CopyName(mem, ns, g);
  }

  // One register of a register file of n words.
  method WriteRegister(mem: array<Byte>, base: nat, n: nat, k: nat, w: Word32)
    requires base + 4 * n <= mem.Length && k < n
    modifies mem
    ensures Words(mem[..], base, n) == old(Words(mem[..], base, n))[k := w]
    ensures SameOutside(old(mem[..]), mem[..], base, 4 * n)
  {
    WriteWord(mem, base + 4 * k, w);
    WordsWritten(old(mem[..]), mem[..], base, n, k, w);
  }

  method ClearRegisters(mem: array<Byte>, base: nat, n: nat)
    requires base + 4 * n <= mem.Length
    modifies mem
    ensures Words(mem[..], base, n) == seq(n, _ => 0)
    ensures SameOutside(old(mem[..]), mem[..], base, 4 * n)
  {
    var _ := StringLib.Memset(mem, base, 0, 4 * n);
    WordsZeroed(mem[..], base, n);
  }

  method InitCoreRegisters(mem: array<Byte>, ns: nat, g: nat)
    requires ns + RECORD_SIZE <= mem.Length && g + CONFIG_SIZE <= mem.Length && Apart(ns, RECORD_SIZE, g, CONFIG_SIZE)
    modifies mem
    ensures SameOutside(old(mem[..]), mem[..], ns + CORE_REGS, 4 * NUM_CORE_REGS)
    ensures Words(mem[..], ns + CORE_REGS, NUM_CORE_REGS) == CoreRegisters(WordAt(old(mem[..]), g + GCE_BIN_LOAD))
  {
    ClearRegisters(mem, ns + CORE_REGS, NUM_CORE_REGS);
    var load := ReadWord(mem, g + GCE_BIN_LOAD);
    WriteRegister(mem, ns + CORE_REGS, NUM_CORE_REGS, LR_MON, load);
    WriteRegister(mem, ns + CORE_REGS, NUM_CORE_REGS, SPSR_MON, SUPERVISOR_SPSR);
  }

  method InitCp15Registers(mem: array<Byte>, ns: nat)
    requires ns + RECORD_SIZE <= mem.Length
    modifies mem
    ensures SameOutside(old(mem[..]), mem[..], ns + CP15_REGS, 4 * NUM_CP15_REGS)
    ensures Words(mem[..], ns + CP15_REGS, NUM_CP15_REGS) == Cp15Registers()
  {
    ClearRegisters(mem, ns + CP15_REGS, NUM_CP15_REGS);
    WriteRegister(mem, ns + CP15_REGS, NUM_CP15_REGS, SCTLR, RESET_SCTLR);
    WriteRegister(mem, ns + CP15_REGS, NUM_CP15_REGS, ACTLR, RESET_ACTLR);
  }

  predicate AttributesReady(m: seq<Byte>, ns: nat, name: seq<Byte>, id: Word32)
    requires ns + RECORD_SIZE <= |m|
  {
    && WordAt(m, ns + BOOTING) == 1 && WordAt(m, ns + ID) == id
    && IsCString(m, ns + NAME) && CString(m, ns + NAME) == name && |name| < NAME_SIZE
  }

  lemma {:induction false} AttributesKept(m: seq<Byte>, m': seq<Byte>, ns: nat, name: seq<Byte>, id: Word32, a: nat, n: nat)
    requires ns + RECORD_SIZE <= |m| && AttributesReady(m, ns, name, id)
    requires SameOutside(m, m', a, n) && Apart(ns + NAME, RECORD_SIZE - NAME, a, n)
    ensures AttributesReady(m', ns, name, id)
  {
    StringKept(m, m', ns + NAME, a, n);
  }

  predicate GicKept(m: seq<Byte>, m': seq<Byte>, ns: nat) {
    |m'| == |m| && forall a :: ns + GIC_REGS <= a < ns + NAME && a < |m| ==> m'[a] == m[a]
  }

  // What the record holds in the end.
  predicate RecordReady(m: seq<Byte>, ns: nat, name: seq<Byte>, id: Word32, load: Word32)
    requires ns + RECORD_SIZE <= |m|
  {
    && AttributesReady(m, ns, name, id)
    && Words(m, ns + CORE_REGS, NUM_CORE_REGS) == CoreRegisters(load)
    && Words(m, ns + CP15_REGS, NUM_CP15_REGS) == Cp15Registers()
  }

  lemma {:induction false} RecordKept(m: seq<Byte>, m': seq<Byte>, ns: nat, name: seq<Byte>, id: Word32, load: Word32, a: nat, n: nat)
    requires ns + RECORD_SIZE <= |m| && RecordReady(m, ns, name, id, load)
    requires SameOutside(m, m', a, n) && Apart(ns, RECORD_SIZE, a, n)
    ensures RecordReady(m', ns, name, id, load)
  {
    WordsApart(m, m', ns + CORE_REGS, NUM_CORE_REGS, a, n);
    WordsApart(m, m', ns + CP15_REGS, NUM_CP15_REGS, a, n);
    AttributesKept(m, m', ns, name, id, a, n);
  }

  lemma {:induction false} StringKept(m: seq<Byte>, m': seq<Byte>, p: nat, a: nat, n: nat)
    requires IsCString(m, p) && SameOutside(m, m', a, n) && Apart(p, CStringLength(m, p) + 1, a, n)
    ensures IsCString(m', p) && CString(m', p) == CString(m, p)
  {
    var l := CStringLength(m, p);
    assert forall k :: p <= k <= p + l ==> m'[k] == m[k];
    CStringLengthUnique(m', p, l);
    assert m'[p..p + l] == m[p..p + l];
  }

  method InitRecord(mem: array<Byte>, ns: nat, g: nat)
    requires Placed(mem[..], ns, g)
    modifies mem
    ensures SameOutside(old(mem[..]), mem[..], ns, RECORD_SIZE) && GicKept(old(mem[..]), mem[..], ns)
    ensures RecordReady(mem[..], ns, CString(old(mem[..]), g + GCE_NAME), WordAt(old(mem[..]), g + GCE_ID),
                        WordAt(old(mem[..]), g + GCE_BIN_LOAD))
  {
    ghost var m0, m2 := InitAttributesAndCore(mem, ns, g);
    InitCp15Registers(mem, ns);
    AttributesKept(m2, mem[..], ns, CString(m0, g + GCE_NAME), WordAt(m0, g + GCE_ID), ns + CP15_REGS, 4 * NUM_CP15_REGS);
    WordsApart(m2, mem[..], ns + CORE_REGS, NUM_CORE_REGS, ns + CP15_REGS, 4 * NUM_CP15_REGS);
  }

  method InitAttributesAndCore(mem: array<Byte>, ns: nat, g: nat)
    returns (ghost m0: seq<Byte>, ghost m2: seq<Byte>)
    requires Placed(mem[..], ns, g)
    modifies mem
    ensures m0 == old(mem[..]) && m2 == mem[..]
    ensures SameOutside(m0, m2, ns, RECORD_SIZE) && GicKept(m0, m2, ns)
    ensures AttributesReady(m2, ns, CString(m0, g + GCE_NAME), WordAt(m0, g + GCE_ID))
    ensures Words(m2, ns + CORE_REGS, NUM_CORE_REGS) == CoreRegisters(WordAt(m0, g + GCE_BIN_LOAD))
  {
    m0 := mem[..];
    InitAttributes(mem, ns, g);
    ghost var m1 := mem[..];
    assert WordAt(m1, g + GCE_BIN_LOAD) == WordAt(m0, g + GCE_BIN_LOAD);
    InitCoreRegisters(mem, ns, g);
    m2 := mem[..];
    AttributesKept(m1, m2, ns, CString(m0, g + GCE_NAME), WordAt(m0, g + GCE_ID), ns + CORE_REGS, 4 * NUM_CORE_REGS);
  }

  // --- Loading -----------------------------------------------------------------------

  // An image: where it is, how long it is, and where it goes.
  datatype Image = Image(start: nat, size: nat, load: nat)

  function BinaryOf(m: seq<Byte>, g: nat): (i: Image)
    requires g + CONFIG_SIZE <= |m| && WordAt(m, g + GCE_BIN_START) <= WordAt(m, g + GCE_BIN_END)
  {
    Image(WordAt(m, g + GCE_BIN_START), WordAt(m, g + GCE_BIN_END) - WordAt(m, g + GCE_BIN_START), WordAt(m, g + GCE_BIN_LOAD))
  }

  function RamDiskOf(m: seq<Byte>, g: nat): (i: Image)
    requires g + CONFIG_SIZE <= |m| && WordAt(m, g + GCE_TRD_START) <= WordAt(m, g + GCE_TRD_END)
  {
    Image(WordAt(m, g + GCE_TRD_START), WordAt(m, g + GCE_TRD_END) - WordAt(m, g + GCE_TRD_START), WordAt(m, g + GCE_TRD_LOAD))
  }

  predicate HasRamDisk(m: seq<Byte>, g: nat)
    requires g + CONFIG_SIZE <= |m|
  {
    WordAt(m, g + GCE_TRD_INIT) != 0
  }

  // The image is in memory before and after, and goes neither over the record nor
  // over the configuration.
  predicate Loadable(m: seq<Byte>, ns: nat, g: nat, i: Image) {
    && i.start + i.size <= |m| && i.load + i.size <= |m| && i.size + 2 < StringLib.INT32_LIMIT
    && Apart(i.load, i.size, ns, RECORD_SIZE) && Apart(i.load, i.size, g, CONFIG_SIZE)
  }

  predicate Sound(m: seq<Byte>, ns: nat, g: nat) {
    && Placed(m, ns, g)
    && WordAt(m, g + GCE_BIN_START) <= WordAt(m, g + GCE_BIN_END) && Loadable(m, ns, g, BinaryOf(m, g))
    && (HasRamDisk(m, g) ==>
          WordAt(m, g + GCE_TRD_START) <= WordAt(m, g + GCE_TRD_END) && Loadable(m, ns, g, RamDiskOf(m, g)))
  }

  // The bytes of an image where it comes from and where it goes.
  function Source(m: seq<Byte>, i: Image): seq<Byte>
    requires i.start + i.size <= |m|
  {
    m[i.start..i.start + i.size]
  }

  function Loaded(m: seq<Byte>, i: Image): seq<Byte>
    requires i.load + i.size <= |m|
  {
    m[i.load..i.load + i.size]
  }

  // Where the image goes does not begin inside where it comes from.
  predicate NotAhead(i: Image) {
    !(i.start < i.load < i.start + i.size)
  }

  // What one load makes of memory: m before, m' after.
  predicate OneLoad(m: seq<Byte>, m': seq<Byte>, i: Image)
    requires i.start + i.size <= |m| && i.load + i.size <= |m|
  {
    SameOutside(m, m', i.load, i.size) && (NotAhead(i) ==> Loaded(m', i) == Source(m, i))
  }

  method LoadImage(mem: array<Byte>, i: Image)
    requires i.start + i.size <= mem.Length && i.load + i.size <= mem.Length && i.size + 2 < StringLib.INT32_LIMIT
    modifies mem
    ensures OneLoad(old(mem[..]), mem[..], i)
  {
    ghost var m := mem[..];
    var _ := StringLib.Memcpy(mem, i.load, i.start, i.size);
    CopyStaysInside(m, i.load, i.start, i.size, i.size);
    if NotAhead(i) {
      FaithfulUnlessAhead(m, i.load, i.start, i.size);
    }
  }

  // Nothing that an image is copied from or to is touched by a write elsewhere.
  lemma {:induction false} SourceKept(m: seq<Byte>, m': seq<Byte>, i: Image, a: nat, n: nat)
    requires i.start + i.size <= |m| && SameOutside(m, m', a, n) && Apart(i.start, i.size, a, n)
    ensures Source(m', i) == Source(m, i)
  {
  }

  lemma {:induction false} LoadedKept(m: seq<Byte>, m': seq<Byte>, i: Image, a: nat, n: nat)
    requires i.load + i.size <= |m| && SameOutside(m, m', a, n) && Apart(i.load, i.size, a, n)
    ensures Loaded(m', i) == Loaded(m, i)
  {
  }

  // The configuration is as it was.
  predicate SameConfig(m: seq<Byte>, m': seq<Byte>, g: nat)
    requires g + CONFIG_SIZE <= |m|
  {
    |m'| == |m| && m'[g..g + CONFIG_SIZE] == m[g..g + CONFIG_SIZE]
  }

  lemma {:induction false} ConfigWord(m: seq<Byte>, m': seq<Byte>, g: nat, offset: nat)
    requires g + CONFIG_SIZE <= |m| && SameConfig(m, m', g) && offset + 4 <= CONFIG_SIZE
    ensures WordAt(m', g + offset) == WordAt(m, g + offset)
  {
    var c, c' := m[g..g + CONFIG_SIZE], m'[g..g + CONFIG_SIZE];
    assert c'[offset] == c[offset] && c'[offset + 1] == c[offset + 1];
    assert c'[offset + 2] == c[offset + 2] && c'[offset + 3] == c[offset + 3];
  }

  lemma {:induction false} ConfigApart(m: seq<Byte>, m': seq<Byte>, m'': seq<Byte>, g: nat, a: nat, n: nat)
    requires g + CONFIG_SIZE <= |m| && SameConfig(m, m', g) && SameOutside(m', m'', a, n) && Apart(g, CONFIG_SIZE, a, n)
    ensures SameConfig(m, m'', g)
  {
    assert m''[g..g + CONFIG_SIZE] == m'[g..g + CONFIG_SIZE];
  }

  method ReadConfig(mem: array<Byte>, g: nat, offset: nat, ghost m0: seq<Byte>) returns (w: Word32)
    requires g + CONFIG_SIZE <= |m0| && SameConfig(m0, mem[..], g) && offset + 4 <= CONFIG_SIZE
    ensures w == WordAt(m0, g + offset)
  {
    ConfigWord(m0, mem[..], g, offset);
    w := ReadWord(mem, g + offset);
  }

  // Copies the image whose bounds and load address stand at three places of the
  // configuration.
  method LoadConfigured(mem: array<Byte>, g: nat, start: nat, end: nat, load: nat, ghost m0: seq<Byte>, ghost i: Image)
    requires g + CONFIG_SIZE <= |m0| && SameConfig(m0, mem[..], g)
    requires start + 4 <= CONFIG_SIZE && end + 4 <= CONFIG_SIZE && load + 4 <= CONFIG_SIZE
    requires WordAt(m0, g + start) == i.start && WordAt(m0, g + end) == i.start + i.size && WordAt(m0, g + load) == i.load
    requires i.start + i.size <= |m0| && i.load + i.size <= |m0| && i.size + 2 < StringLib.INT32_LIMIT
    modifies mem
    ensures OneLoad(old(mem[..]), mem[..], i)
  {
    var to := ReadConfig(mem, g, load, m0);
    var from := ReadConfig(mem, g, start, m0);
    var upTo := ReadConfig(mem, g, end, m0);
    LoadImage(mem, Image(from, upTo - from, to));
  }

  // The guest's binary ends up at its load address as it was at first if it does
  // not overlap the record, is not copied into its own tail, and the RAM disk is
  // not loaded over it.
  predicate BinaryLoads(m: seq<Byte>, ns: nat, g: nat)
    requires Sound(m, ns, g)
  {
    var b := BinaryOf(m, g);
    NotAhead(b) && Apart(b.start, b.size, ns, RECORD_SIZE) &&
    (HasRamDisk(m, g) ==> Apart(b.load, b.size, RamDiskOf(m, g).load, RamDiskOf(m, g).size))
  }

  // Likewise the RAM disk, if in addition the binary is not loaded over its source.
  predicate RamDiskLoads(m: seq<Byte>, ns: nat, g: nat)
    requires Sound(m, ns, g) && HasRamDisk(m, g)
  {
    var b, t := BinaryOf(m, g), RamDiskOf(m, g);
    NotAhead(t) && Apart(t.start, t.size, ns, RECORD_SIZE) && Apart(t.start, t.size, b.load, b.size)
  }

  // The places that creating a guest writes to.
  predicate Written(m: seq<Byte>, ns: nat, g: nat, a: nat)
    requires Sound(m, ns, g)
  {
    || ns <= a < ns + GIC_REGS || ns + NAME <= a < ns + RECORD_SIZE
    || BinaryOf(m, g).load <= a < BinaryOf(m, g).load + BinaryOf(m, g).size
    || (HasRamDisk(m, g) && RamDiskOf(m, g).load <= a < RamDiskOf(m, g).load + RamDiskOf(m, g).size)
  }

  // The record as the configuration in m0 asks for it.
  predicate ReadyFor(m0: seq<Byte>, m: seq<Byte>, ns: nat, g: nat)
    requires Placed(m0, ns, g) && |m| == |m0|
  {
    RecordReady(m, ns, CString(m0, g + GCE_NAME), WordAt(m0, g + GCE_ID), WordAt(m0, g + GCE_BIN_LOAD))
  }

  // The result of creating a guest: the record, the images, and nothing else.
  predicate Created(m0: seq<Byte>, m: seq<Byte>, ns: nat, g: nat)
    requires Sound(m0, ns, g)
  {
    && |m| == |m0|
    && ReadyFor(m0, m, ns, g)
    && (BinaryLoads(m0, ns, g) ==> Loaded(m, BinaryOf(m0, g)) == Source(m0, BinaryOf(m0, g)))
    && (HasRamDisk(m0, g) && RamDiskLoads(m0, ns, g) ==> Loaded(m, RamDiskOf(m0, g)) == Source(m0, RamDiskOf(m0, g)))
    && forall a :: 0 <= a < |m0| && !Written(m0, ns, g, a) ==> m[a] == m0[a]
  }

  // An image whose source lies apart from what was written before it is loaded as
  // it was at first.
  lemma {:induction false} LoadsOriginal(m0: seq<Byte>, m1: seq<Byte>, m2: seq<Byte>, i: Image, a: nat, n: nat)
    requires i.start + i.size <= |m0| && i.load + i.size <= |m0|
    requires SameOutside(m0, m1, a, n) && Apart(i.start, i.size, a, n) && OneLoad(m1, m2, i) && NotAhead(i)
    ensures Loaded(m2, i) == Source(m0, i)
  {
    SourceKept(m0, m1, i, a, n);
  }

  lemma {:induction false} RecordSurvives(m0: seq<Byte>, m: seq<Byte>, m': seq<Byte>, ns: nat, g: nat, i: Image)
    requires Sound(m0, ns, g) && |m| == |m0| && Loadable(m0, ns, g, i) && OneLoad(m, m', i)
    requires ReadyFor(m0, m, ns, g)
    ensures ReadyFor(m0, m', ns, g)
  {
    RecordKept(m, m', ns, CString(m0, g + GCE_NAME), WordAt(m0, g + GCE_ID), WordAt(m0, g + GCE_BIN_LOAD), i.load, i.size);
  }

  lemma {:induction false} CreatedWithoutRamDisk(m0: seq<Byte>, m1: seq<Byte>, m2: seq<Byte>, ns: nat, g: nat)
    requires Sound(m0, ns, g) && !HasRamDisk(m0, g) && SameOutside(m0, m1, ns, RECORD_SIZE) && GicKept(m0, m1, ns)
    requires ReadyFor(m0, m1, ns, g)
    requires OneLoad(m1, m2, BinaryOf(m0, g))
    ensures Created(m0, m2, ns, g)
  {
    var b := BinaryOf(m0, g);
    RecordSurvives(m0, m1, m2, ns, g, b);
    if BinaryLoads(m0, ns, g) {
      LoadsOriginal(m0, m1, m2, b, ns, RECORD_SIZE);
    }
  }

  lemma {:induction false} BinarySurvives(m0: seq<Byte>, m1: seq<Byte>, m2: seq<Byte>, m3: seq<Byte>, ns: nat, b: Image, t: Image)
    requires b.start + b.size <= |m0| && b.load + b.size <= |m0| && t.start + t.size <= |m0| && t.load + t.size <= |m0|
    requires SameOutside(m0, m1, ns, RECORD_SIZE) && OneLoad(m1, m2, b) && OneLoad(m2, m3, t)
    requires NotAhead(b) && Apart(b.start, b.size, ns, RECORD_SIZE) && Apart(b.load, b.size, t.load, t.size)
    ensures Loaded(m3, b) == Source(m0, b)
  {
    LoadsOriginal(m0, m1, m2, b, ns, RECORD_SIZE);
    LoadedKept(m2, m3, b, t.load, t.size);
  }

  lemma {:induction false} RamDiskOriginal(m0: seq<Byte>, m1: seq<Byte>, m2: seq<Byte>, m3: seq<Byte>, ns: nat, b: Image, t: Image)
    requires b.start + b.size <= |m0| && b.load + b.size <= |m0| && t.start + t.size <= |m0| && t.load + t.size <= |m0|
    requires SameOutside(m0, m1, ns, RECORD_SIZE) && OneLoad(m1, m2, b) && OneLoad(m2, m3, t)
    requires NotAhead(t) && Apart(t.start, t.size, ns, RECORD_SIZE) && Apart(t.start, t.size, b.load, b.size)
    ensures Loaded(m3, t) == Source(m0, t)
  {
    SourceKept(m0, m1, t, ns, RECORD_SIZE);
    LoadsOriginal(m1, m2, m3, t, b.load, b.size);
  }

  lemma {:induction false} CreatedWithRamDisk(m0: seq<Byte>, m1: seq<Byte>, m2: seq<Byte>, m3: seq<Byte>, ns: nat, g: nat)
    requires Sound(m0, ns, g) && HasRamDisk(m0, g) && SameOutside(m0, m1, ns, RECORD_SIZE) && GicKept(m0, m1, ns)
    requires ReadyFor(m0, m1, ns, g)
    requires OneLoad(m1, m2, BinaryOf(m0, g)) && OneLoad(m2, m3, RamDiskOf(m0, g))
    ensures Created(m0, m3, ns, g)
  {
    var b, t := BinaryOf(m0, g), RamDiskOf(m0, g);
    RecordSurvives(m0, m1, m2, ns, g, b);
    RecordSurvives(m0, m2, m3, ns, g, t);
    if BinaryLoads(m0, ns, g) {
      BinarySurvives(m0, m1, m2, m3, ns, b, t);
    }
    if RamDiskLoads(m0, ns, g) {
      RamDiskOriginal(m0, m1, m2, m3, ns, b, t);
    }
    OnlyWritten(m0, m1, m2, m3, ns, b, t);
  }

  lemma {:induction false} OnlyWritten(m0: seq<Byte>, m1: seq<Byte>, m2: seq<Byte>, m3: seq<Byte>, ns: nat, b: Image, t: Image)
    requires SameOutside(m0, m1, ns, RECORD_SIZE) && GicKept(m0, m1, ns)
    requires SameOutside(m1, m2, b.load, b.size) && SameOutside(m2, m3, t.load, t.size)
    ensures forall a | 0 <= a < |m0| ::
              ns <= a < ns + GIC_REGS || ns + NAME <= a < ns + RECORD_SIZE || b.load <= a < b.load + b.size || t.load <= a < t.load + t.size || m3[a] == m0[a]
  {
  }

  method LoadBinary(mem: array<Byte>, g: nat, ghost m0: seq<Byte>, ghost ns: nat)
    requires Sound(m0, ns, g) && SameConfig(m0, mem[..], g)
    modifies mem
    ensures SameConfig(m0, mem[..], g) && OneLoad(old(mem[..]), mem[..], BinaryOf(m0, g))
  {
    ghost var m, i := mem[..], BinaryOf(m0, g);
    LoadConfigured(mem, g, GCE_BIN_START, GCE_BIN_END, GCE_BIN_LOAD, m0, i);
    ConfigApart(m0, m, mem[..], g, i.load, i.size);
  }

  method LoadRamDisk(mem: array<Byte>, g: nat, ghost m0: seq<Byte>, ghost ns: nat)
    requires Sound(m0, ns, g) && SameConfig(m0, mem[..], g) && HasRamDisk(m0, g)
    modifies mem
    ensures OneLoad(old(mem[..]), mem[..], RamDiskOf(m0, g))
  {
    LoadConfigured(mem, g, GCE_TRD_START, GCE_TRD_END, GCE_TRD_LOAD, m0, RamDiskOf(m0, g));
  }

  // ltzvisor_nsguest_create
  method Create(mem: array<Byte>, ns: nat, g: nat)
    requires Sound(mem[..], ns, g)
    modifies mem
    ensures Created(old(mem[..]), mem[..], ns, g)
    ensures WordAt(mem[..], ns + 52) == 0x193 && WordAt(mem[..], ns + 56) == WordAt(old(mem[..]), g + 64)
  {
    ghost var m0 := mem[..];
    InitRecord(mem, ns, g);
    ghost var m1 := mem[..];
    ConfigApart(m0, m0, m1, g, ns, RECORD_SIZE);
    LoadBinary(mem, g, m0, ns);
    ghost var m2 := mem[..];
    var hasRamDisk := ReadConfig(mem, g, GCE_TRD_INIT, m0);
    if hasRamDisk != 0 {
      LoadRamDisk(mem, g, m0, ns);
      CreatedWithRamDisk(m0, m1, m2, mem[..], ns, g);
    } else {
      CreatedWithoutRamDisk(m0, m1, m2, ns, g);
    }
    CreatedRecord(m0, mem[..], ns, g);
    RecordMeans(mem[..], ns, CString(m0, g), WordAt(m0, g + 32), WordAt(m0, g + 64));
  }

  // --- What creating a guest means --------------------------------------------------

  // The record: the guest starts in supervisor mode (0x193 in spsr_mon, at byte 52) at
  // the address its binary is loaded to (lr_mon, at byte 56); SCTLR (at byte 124) and
  // ACTLR (at byte 128) have their reset values; every other register is zero.
  lemma {:induction false} RecordMeans(m: seq<Byte>, ns: nat, name: seq<Byte>, id: Word32, load: Word32)
    requires ns + 256 <= |m| && RecordReady(m, ns, name, id, load)
    ensures WordAt(m, ns + 52) == 0x193 && WordAt(m, ns + 56) == load
    ensures forall k :: 0 <= k < 30 && k != 13 && k != 14 ==> WordAt(m, ns + 4 * k) == 0
    ensures WordAt(m, ns + 124) == 0x00c50078 && WordAt(m, ns + 128) == 6
    ensures forall k :: 0 <= k < 20 && k != 1 && k != 2 ==> WordAt(m, ns + 120 + 4 * k) == 0
    ensures WordAt(m, ns + 248) == id && WordAt(m, ns + 252) == 1
    ensures IsCString(m, ns + 216) && CString(m, ns + 216) == name
  {
    var core, cp15 := Words(m, ns + CORE_REGS, NUM_CORE_REGS), Words(m, ns + CP15_REGS, NUM_CP15_REGS);
    assert core[13] == WordAt(m, ns + 52) && core[14] == WordAt(m, ns + 56);
    assert cp15[1] == WordAt(m, ns + 124) && cp15[2] == WordAt(m, ns + 128);
    forall k | 0 <= k < 30 && k != 13 && k != 14
      ensures WordAt(m, ns + 4 * k) == 0
    {
      assert core[k] == WordAt(m, ns + 4 * k);
    }
    forall k | 0 <= k < 20 && k != 1 && k != 2
      ensures WordAt(m, ns + 120 + 4 * k) == 0
    {
      assert cp15[k] == WordAt(m, ns + 120 + 4 * k);
    }
  }

  // The rest is said in terms of the configuration's words: name at byte 0, id at 32,
  // RAM disk flag, start, end and load address at 36 to 48, the binary's start, end and
  // load address at 52, 60 and 64.
  lemma {:induction false} CreatedRecord(m0: seq<Byte>, m: seq<Byte>, ns: nat, g: nat)
    requires Sound(m0, ns, g) && Created(m0, m, ns, g)
    ensures ns + 256 <= |m| && RecordReady(m, ns, CString(m0, g), WordAt(m0, g + 32), WordAt(m0, g + 64))
  {
  }

  // The image is where it is to go, as it was.
  predicate Moved(m0: seq<Byte>, m: seq<Byte>, i: Image) {
    && i.start + i.size <= |m0| && i.load + i.size <= |m|
    && m[i.load..i.load + i.size] == m0[i.start..i.start + i.size]
  }

  // The binary is in place unless it was copied into its own tail or from the record,
  // or the RAM disk was loaded over it.
  lemma {:induction false} BinaryInPlace(m0: seq<Byte>, m: seq<Byte>, ns: nat, g: nat, i: Image)
    requires Sound(m0, ns, g) && Created(m0, m, ns, g)
    requires i.start == WordAt(m0, g + 52) && i.start + i.size == WordAt(m0, g + 60) && i.load == WordAt(m0, g + 64)
    requires !(i.start < i.load < i.start + i.size) && (i.start + i.size <= ns || ns + 256 <= i.start)
    requires WordAt(m0, g + 36) != 0 ==>
               var diskLoad, diskSize := WordAt(m0, g + 48), WordAt(m0, g + 44) - WordAt(m0, g + 40);
               i.load + i.size <= diskLoad || diskLoad + diskSize <= i.load
    ensures Moved(m0, m, i)
  {
    assert i == BinaryOf(m0, g);
    assert BinaryLoads(m0, ns, g);
  }

  // The RAM disk, if there is one, is in place unless it was copied into its own tail or
  // from the record, or the binary had been loaded over where it came from.
  lemma {:induction false} RamDiskInPlace(m0: seq<Byte>, m: seq<Byte>, ns: nat, g: nat, i: Image)
    requires Sound(m0, ns, g) && Created(m0, m, ns, g) && WordAt(m0, g + 36) != 0
    requires i.start == WordAt(m0, g + 40) && i.start + i.size == WordAt(m0, g + 44) && i.load == WordAt(m0, g + 48)
    requires !(i.start < i.load < i.start + i.size) && (i.start + i.size <= ns || ns + 256 <= i.start)
    requires var binLoad, binSize := WordAt(m0, g + 64), WordAt(m0, g + 60) - WordAt(m0, g + 52);
             i.start + i.size <= binLoad || binLoad + binSize <= i.start
    ensures Moved(m0, m, i)
  {
    assert i == RamDiskOf(m0, g);
    assert RamDiskLoads(m0, ns, g);
  }

  // Nothing else changes, nor does the middle of the record.
  lemma {:induction false} RestUnchanged(m0: seq<Byte>, m: seq<Byte>, ns: nat, g: nat, a: nat)
    requires Sound(m0, ns, g) && Created(m0, m, ns, g) && a < |m0|
    requires !(ns <= a < ns + 200) && !(ns + 216 <= a < ns + 256)
    requires !(WordAt(m0, g + 64) <= a < WordAt(m0, g + 64) + (WordAt(m0, g + 60) - WordAt(m0, g + 52)))
    requires WordAt(m0, g + 36) != 0 ==>
               !(WordAt(m0, g + 48) <= a < WordAt(m0, g + 48) + (WordAt(m0, g + 44) - WordAt(m0, g + 40)))
    ensures m[a] == m0[a]
  {
    assert !Written(m0, ns, g, a);
  }
}
