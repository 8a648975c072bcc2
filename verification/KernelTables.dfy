/** The kernel's descriptor tables: global descriptors, task state segment and
    interrupt descriptors, written field by field into memory. */
module KernelTables {
  import opened Words
  import opened Storage
  import opened Cpu

  const SEL_KERNEL_CODE := 0x08
  const SEL_KERNEL_DATA := 0x10
  const SEL_TSS := 0x18
  const INDEX_TSS := 3

  const GDT_ENTRIES := 5
  const IDT_ENTRIES := 256
  const DOUBLE_FAULT := 8
  const IST_DOUBLE_FAULT := 1
  const DOUBLE_FAULT_STACK := 4096

  const ACCESS_KERNEL_CODE := 0x9A
  const ACCESS_KERNEL_DATA := 0x92
  const ACCESS_TSS := 0x89
  const FLAGS_KERNEL_CODE := 0xA
  const FLAGS_KERNEL_DATA := 0xC
  const GATE_KERNEL_INT := 0x8E

  /** Writes the next field of a packed structure that starts at `at`. */
  method PutField(ram: Ram, at: u64, data: seq<byte>, ghost m0: seq<byte>, ghost start: nat, ghost before: seq<byte>)
    returns (ghost written: seq<byte>)
    requires start + |before| + |data| <= |m0| && ram.cells == Splice(m0, start, before)
    requires at == start + |before|
    modifies ram
    ensures written == before + data && start + |written| <= |m0|
    ensures ram.cells == Splice(m0, start, written)
  {
    SpliceAdjacent(m0, start, before, data);
    hide Splice;
    ram.Write(at, data);
    written := before + data;
  }

  /** The eight bytes of a code or data row. */
  function RowBytes(access: byte, flags: nat): (b: seq<byte>)
    requires flags < 0x10
    ensures |b| == 8
  {
    Bytes16(0xFFFF) + Bytes16(0) + [0] + [access] + [0x0F + 0x10 * flags] + [0]
  }

  /** The sixteen bytes of a TSS descriptor. */
  function TssDescriptorBytes(base: u64, limit: u32): (b: seq<byte>)
    ensures |b| == 16
  {
    Bytes16(limit % 0x1_0000) + Bytes16(base % 0x1_0000) + [base / 0x1_0000 % 0x100] + [ACCESS_TSS]
    + [limit / 0x1_0000 % 0x10] + [base / 0x100_0000 % 0x100] + Bytes32(base / 0x1_0000_0000) + Bytes32(0)
  }

  /** The sixteen bytes of an interrupt gate. */
  function GateBytes(handler: u64, ist: byte): (b: seq<byte>)
    ensures |b| == 16
  {
    Bytes16(handler % 0x1_0000) + Bytes16(SEL_KERNEL_CODE) + [ist % 8] + [GATE_KERNEL_INT]
    + Bytes16(handler / 0x1_0000 % 0x1_0000) + Bytes32(handler / 0x1_0000_0000) + Bytes32(0)
  }

  /** Where the fields of a packed gate or system descriptor sit. */
  lemma GateLayout(m: seq<byte>, a: nat, low: seq<byte>, sel: seq<byte>, x: byte, y: byte, mid: seq<byte>,
                   high: seq<byte>, rest: seq<byte>)
    requires |low| == |sel| == |mid| == 2 && |high| == |rest| == 4 && a + 16 <= |m|
    requires m[a..a + 16] == low + sel + [x] + [y] + mid + high + rest
    ensures m[a..a + 2] == low && m[a + 2..a + 4] == sel && m[a + 4] == x && m[a + 5] == y
    ensures m[a + 6..a + 8] == mid && m[a + 8..a + 12] == high && m[a + 12..a + 16] == rest
  {
    var b := low + sel + [x] + [y] + mid + high + rest;
    assert m[a + 4] == m[a..a + 16][4] == b[4] && m[a + 5] == m[a..a + 16][5] == b[5];
    assert m[a..a + 2] == b[0..2] by { SliceOfSlice(m, a, b, 0, 2); }
    assert m[a + 2..a + 4] == b[2..4] by { SliceOfSlice(m, a, b, 2, 4); }
    assert m[a + 6..a + 8] == b[6..8] by { SliceOfSlice(m, a, b, 6, 8); }
    assert m[a + 8..a + 12] == b[8..12] by { SliceOfSlice(m, a, b, 8, 12); }
    assert m[a + 12..a + 16] == b[12..16] by { SliceOfSlice(m, a, b, 12, 16); }
  }

  /** The three scattered pieces of a handler address meet again in the processor. */
  lemma GateDecodes(m: seq<byte>, a: nat, handler: u64, ist: byte)
    requires a + 16 <= |m| && m[a..a + 16] == GateBytes(handler, ist)
    ensures GateAt(m, a) == Gate(handler, SEL_KERNEL_CODE, ist % 8, GATE_KERNEL_INT)
    ensures GateUsable(m, a) && GateDpl(GateAt(m, a)) == 0
  {
    hide Bytes16, Bytes32, Get16, Get32;
    GateLayout(m, a, Bytes16(handler % 0x1_0000), Bytes16(SEL_KERNEL_CODE), ist % 8, GATE_KERNEL_INT,
               Bytes16(handler / 0x1_0000 % 0x1_0000), Bytes32(handler / 0x1_0000_0000), Bytes32(0));
    hide GateBytes;
    Get16At(m, a, handler % 0x1_0000);
    Get16At(m, a + 2, SEL_KERNEL_CODE);
    Get16At(m, a + 6, handler / 0x1_0000 % 0x1_0000);
    Get32At(m, a + 8, handler / 0x1_0000_0000);
    Get32At(m, a + 12, 0);
  }

  /** The base comes back from its four pieces, the limit from its two. */
  lemma TssDescriptorDecodes(m: seq<byte>, a: nat, base: u64, limit: u32)
    requires a + 16 <= |m| && m[a..a + 16] == TssDescriptorBytes(base, limit)
    ensures TssUsable(m, a) && TssBase(m, a) == base
    ensures limit < 0x10_0000 ==> TssLimit(m, a) == limit
  {
    hide Bytes16, Bytes32, Get16, Get32;
    var x, y := limit / 0x1_0000 % 0x10, base / 0x100_0000 % 0x100;
    var mid: seq<byte> := [x] + [y];
    SplitPair(Bytes16(limit % 0x1_0000) + Bytes16(base % 0x1_0000) + [base / 0x1_0000 % 0x100] + [ACCESS_TSS], x, y);
    GateLayout(m, a, Bytes16(limit % 0x1_0000), Bytes16(base % 0x1_0000), base / 0x1_0000 % 0x100, ACCESS_TSS,
               mid, Bytes32(base / 0x1_0000_0000), Bytes32(0));
    assert m[a + 6] == m[a + 6..a + 8][0] == x && m[a + 7] == m[a + 6..a + 8][1] == y;
    hide TssDescriptorBytes;
    Get16At(m, a, limit % 0x1_0000);
    Get16At(m, a + 2, base % 0x1_0000);
    Get32At(m, a + 8, base / 0x1_0000_0000);
    Get32At(m, a + 12, 0);
    PiecesOf(base, limit);
  }

  lemma SplitPair(front: seq<byte>, x: byte, y: byte)
    ensures front + [x] + [y] == front + ([x] + [y])
  {
  }

  lemma PiecesOf(base: u64, limit: u32)
    ensures base == base % 0x1_0000 + 0x1_0000 * (base / 0x1_0000 % 0x100)
                    + 0x100_0000 * (base / 0x100_0000 % 0x100) + 0x1_0000_0000 * (base / 0x1_0000_0000)
    ensures limit < 0x10_0000 ==> limit == limit % 0x1_0000 + 0x1_0000 * (limit / 0x1_0000 % 0x10)
  {
    var q := base / 0x1_0000;
    assert base == base % 0x1_0000 + 0x1_0000 * q;
    assert q / 0x100 == base / 0x100_0000 && q == q % 0x100 + 0x100 * (q / 0x100);
    var r := q / 0x100;
    assert r / 0x100 == base / 0x1_0000_0000 && r == r % 0x100 + 0x100 * (r / 0x100);
  }

  /** Code and data rows are what their access bytes and flags say. */
  lemma RowsDecode(m: seq<byte>, a: nat)
    requires a + 8 <= |m|
    ensures m[a..a + 8] == RowBytes(ACCESS_KERNEL_CODE, FLAGS_KERNEL_CODE) ==>
              LongCode(m, a) && Get64(m, a) == 0x00AF_9A00_0000_FFFF
    ensures m[a..a + 8] == RowBytes(ACCESS_KERNEL_DATA, FLAGS_KERNEL_DATA) ==>
              WritableData(m, a) && Get64(m, a) == 0x00CF_9200_0000_FFFF
  {
    var row := m[a..a + 8];
    assert forall k :: 0 <= k < 8 ==> row[k] == m[a + k];
  }

  // ---- building the tables ------------------------------------------------------------

  /** Two byte ranges do not meet. */
  predicate Clear(a: nat, n: nat, b: nat, k: nat) {
    a + n <= b || b + k <= a
  }

  ghost predicate GateIs(m: seq<byte>, idt: nat, v: nat, handler: u64, ist: byte) {
    idt + 16 * v + 16 <= |m| && m[idt + 16 * v..idt + 16 * v + 16] == GateBytes(handler, ist)
  }

  /** Bytes survive writes elsewhere. */
  lemma SliceKept(m: seq<byte>, n: seq<byte>, a: nat, k: nat, lo: nat, hi: nat)
    requires a + k <= |m| && AgreeOutside(m, n, lo, hi) && (a + k <= lo || hi <= a)
    ensures n[a..a + k] == m[a..a + k]
  {
  }

  /** The six fields of a packed code or data row, in order. */
  method PutRow(ram: Ram, at: u64, limit: seq<byte>, base: seq<byte>, mid: byte, access: byte, flags: byte, high: byte)
    requires |limit| == |base| == 2
    requires at + 8 <= |ram.cells| && at + 8 < 0x1_0000_0000_0000_0000
    modifies ram
    ensures AgreeOutside(old(ram.cells), ram.cells, at, at + 8)
    ensures ram.cells[at..at + 8] == limit + base + [mid] + [access] + [flags] + [high]
  {
    hide Splice;
    ghost var m, w := ram.cells, [];
    SpliceNothing(m, at);
    w := PutField(ram, at, limit, m, at, w);
    w := PutField(ram, at + 2, base, m, at, w);
    w := PutField(ram, at + 4, [mid], m, at, w);
    w := PutField(ram, at + 5, [access], m, at, w);
    w := PutField(ram, at + 6, [flags], m, at, w);
    w := PutField(ram, at + 7, [high], m, at, w);
  }

  /** The eight fields of a packed TSS descriptor, in order. */
  method PutTssDescriptor(ram: Ram, at: u64, low: seq<byte>, lowBase: seq<byte>, mid: byte, access: byte,
                          nibble: byte, high: byte, upper: seq<byte>, zero: seq<byte>)
    requires |low| == |lowBase| == 2 && |upper| == |zero| == 4
    requires at + 16 <= |ram.cells| && at + 16 < 0x1_0000_0000_0000_0000
    modifies ram
    ensures AgreeOutside(old(ram.cells), ram.cells, at, at + 16)
    ensures ram.cells[at..at + 16] == low + lowBase + [mid] + [access] + [nibble] + [high] + upper + zero
  {
    hide Splice;
    ghost var m, w := ram.cells, [];
    SpliceNothing(m, at);
    w := PutField(ram, at, low, m, at, w);
    w := PutField(ram, at + 2, lowBase, m, at, w);
    w := PutField(ram, at + 4, [mid], m, at, w);
    w := PutField(ram, at + 5, [access], m, at, w);
    w := PutField(ram, at + 6, [nibble], m, at, w);
    w := PutField(ram, at + 7, [high], m, at, w);
    w := PutField(ram, at + 8, upper, m, at, w);
    w := PutField(ram, at + 12, zero, m, at, w);
  }

  /** The seven fields of a packed gate, in order. */
  method PutGate(ram: Ram, at: u64, low: seq<byte>, selector: seq<byte>, ist: byte, attributes: byte,
                 mid: seq<byte>, high: seq<byte>, zero: seq<byte>)
    requires |low| == |selector| == |mid| == 2 && |high| == |zero| == 4
    requires at + 16 <= |ram.cells| && at + 16 < 0x1_0000_0000_0000_0000
    modifies ram
    ensures AgreeOutside(old(ram.cells), ram.cells, at, at + 16)
    ensures ram.cells[at..at + 16] == low + selector + [ist] + [attributes] + mid + high + zero
  {
    hide Splice;
    ghost var m, w := ram.cells, [];
    SpliceNothing(m, at);
    w := PutField(ram, at, low, m, at, w);
    w := PutField(ram, at + 2, selector, m, at, w);
    w := PutField(ram, at + 4, [ist], m, at, w);
    w := PutField(ram, at + 5, [attributes], m, at, w);
    w := PutField(ram, at + 6, mid, m, at, w);
    w := PutField(ram, at + 8, high, m, at, w);
    w := PutField(ram, at + 12, zero, m, at, w);
  }

  class Tables {
    const ram: Ram
    const gdt: u64
    const idt: u64
    const tss: u64
    const doubleFaultStack: u64
    var gdtr: TableRegister
    var idtr: TableRegister
    /** Base address the processor took from the TSS descriptor when ltr ran. */
    var task: u64

    /** The linker placed the four objects in `memory` bytes, pairwise apart, the stack
        on 16 bytes. */
    predicate PlacedIn(memory: nat) {
      && memory < 0x1_0000_0000_0000_0000
      && gdt + 8 * GDT_ENTRIES <= memory && idt + 16 * IDT_ENTRIES <= memory
      && tss + TSS_BYTES <= memory && doubleFaultStack + DOUBLE_FAULT_STACK <= memory
      && doubleFaultStack % 16 == 0
      && Clear(gdt, 8 * GDT_ENTRIES, idt, 16 * IDT_ENTRIES) && Clear(gdt, 8 * GDT_ENTRIES, tss, TSS_BYTES)
      && Clear(idt, 16 * IDT_ENTRIES, tss, TSS_BYTES)
      && Spares(doubleFaultStack, doubleFaultStack + DOUBLE_FAULT_STACK)
    }

    ghost predicate Layout()
      reads ram
    {
      PlacedIn(|ram.cells|)
    }

    /** The bytes [lo, hi) are none of the tables'. */
    predicate Spares(lo: nat, hi: nat)
      requires lo <= hi
    {
      && Clear(gdt, 8 * GDT_ENTRIES, lo, hi - lo) && Clear(idt, 16 * IDT_ENTRIES, lo, hi - lo)
      && Clear(tss, TSS_BYTES, lo, hi - lo)
    }

    constructor (memory: Ram, gdt': u64, idt': u64, tss': u64, stack': u64)
      ensures ram == memory && gdt == gdt' && idt == idt' && tss == tss' && doubleFaultStack == stack'
    {
      ram, gdt, idt, tss, doubleFaultStack := memory, gdt', idt', tss', stack';
      gdtr, idtr, task := TableRegister(0, 0), TableRegister(0, 0), 0;
    }

    method GdtSet(index: u64, access: byte, flags: byte)
      requires Layout() && index < GDT_ENTRIES && flags < 0x10
      modifies ram
      ensures Layout() && ram.cells[gdt + 8 * index..gdt + 8 * index + 8] == RowBytes(access, flags)
      ensures AgreeOutside(old(ram.cells), ram.cells, gdt + 8 * index, gdt + 8 * index + 8)
    {
      hide Splice, Bytes16, Spares, Clear;
      PutRow(ram, gdt + 8 * index, Bytes16(0xFFFF), Bytes16(0), 0, access, 0x0F + 0x10 * flags, 0);
    }

    /** One 16-byte descriptor over the two rows from INDEX_TSS on. */
    method GdtSetTss(base: u64, limit: u32)
      requires Layout()
      modifies ram
      ensures Layout() && ram.cells[gdt + 24..gdt + 40] == TssDescriptorBytes(base, limit)
      ensures AgreeOutside(old(ram.cells), ram.cells, gdt + 24, gdt + 40)
    {
      hide Splice, Bytes16, Bytes32;
      var low, lowBase := Bytes16(limit % 0x1_0000), Bytes16(base % 0x1_0000);
      var mid, high: byte := base / 0x1_0000 % 0x100, base / 0x100_0000 % 0x100;
      var nibble: byte := limit / 0x1_0000 % 0x10;
      var upper, zero := Bytes32(base / 0x1_0000_0000), Bytes32(0);
      PutTssDescriptor(ram, gdt + 8 * INDEX_TSS, low, lowBase, mid, ACCESS_TSS, nibble, high, upper, zero);
    }

    /** Null, code and data rows, and the register that points at the table. */
    method GdtInit()
      requires Layout()
      modifies ram, this`gdtr
      ensures Layout() && gdtr == TableRegister(gdt, 39)
      ensures Segments(ram.cells) && ram.cells[gdt..gdt + 8] == [0, 0, 0, 0, 0, 0, 0, 0]
      ensures AgreeOutside(old(ram.cells), ram.cells, gdt, gdt + 24)
    {
      hide Splice, RowBytes;
      ram.Write(gdt, [0, 0, 0, 0, 0, 0, 0, 0]);
      ghost var m0 := ram.cells;
      GdtSet(1, ACCESS_KERNEL_CODE, FLAGS_KERNEL_CODE);
      ghost var m1 := ram.cells;
      GdtSet(2, ACCESS_KERNEL_DATA, FLAGS_KERNEL_DATA);
      SliceKept(m0, m1, gdt, 8, gdt + 8, gdt + 16);
      SliceKept(m1, ram.cells, gdt, 8, gdt + 16, gdt + 24);
      SliceKept(m1, ram.cells, gdt + 8, 8, gdt + 16, gdt + 24);
      RowsDecode(ram.cells, gdt + 8);
      RowsDecode(ram.cells, gdt + 16);
      gdtr := TableRegister(gdt, 8 * GDT_ENTRIES - 1);
    }

    /** The code and data selectors name what they should. */
    ghost predicate Segments(m: seq<byte>) {
      && gdt + 24 <= |m| && LongCode(m, gdt + 8) && WritableData(m, gdt + 16)
      && Get64(m, gdt) == 0 && Get64(m, gdt + 8) == 0x00AF_9A00_0000_FFFF && Get64(m, gdt + 16) == 0x00CF_9200_0000_FFFF
    }

    /** The task register leads to a TSS whose first interrupt stack is the double
        fault stack's top and which has no I/O bitmap. */
    ghost predicate TaskReady(m: seq<byte>)
      reads `task
    {
      && gdt + 40 <= |m| && tss + TSS_BYTES <= |m|
      && TssUsable(m, gdt + SEL_TSS) && TssBase(m, gdt + SEL_TSS) == tss == task
      && TssLimit(m, gdt + SEL_TSS) == 103
      && InterruptStack(m, tss, 1) == doubleFaultStack + 4096
      && Get16(m, tss + 102) == 104
    }

    /** The two fields of the TSS that are not zero. */
    method FillTask()
      requires Layout()
      modifies ram
      ensures Layout() && AgreeOutside(old(ram.cells), ram.cells, tss, tss + TSS_BYTES)
      ensures InterruptStack(ram.cells, tss, IST_DOUBLE_FAULT) == doubleFaultStack + DOUBLE_FAULT_STACK
      ensures Get16(ram.cells, tss + 102) == TSS_BYTES
    {
      hide Splice, Bytes16, Bytes64, Get64, Get16, Spares;
      var slot: u64 := tss + 36 + 8 * (IST_DOUBLE_FAULT - 1);
      Get64OfSplice(ram.cells, slot, doubleFaultStack + DOUBLE_FAULT_STACK);
      ram.Write(slot, Bytes64(doubleFaultStack + DOUBLE_FAULT_STACK));
      ghost var m := ram.cells;
      ram.Write(tss + 102, Bytes16(TSS_BYTES));
      Get16At(ram.cells, tss + 102, TSS_BYTES);
      Get64Agrees(m, ram.cells, tss + 36);
    }

    method TssInit()
      requires Layout() && gdtr == TableRegister(gdt, 39) && Segments(ram.cells)
      modifies ram, this`task
      ensures Layout() && Segments(ram.cells) && TaskReady(ram.cells)
      ensures |ram.cells| == |old(ram.cells)|
      ensures forall i :: 0 <= i < |ram.cells| && !(gdt + 24 <= i < gdt + 40) && !(tss <= i < tss + TSS_BYTES) ==>
                            ram.cells[i] == old(ram.cells)[i]
    {
      hide Splice, Bytes16, Bytes64, TssDescriptorBytes, Get64, Get16, Spares;
      ghost var m0 := ram.cells;
      FillTask();
      ghost var m1 := ram.cells;
      GdtSetTss(tss, TSS_BYTES - 1);
      ghost var m2 := ram.cells;
      Get64Agrees(m1, m2, tss + 36);
      Get16Agrees(m1, m2, tss + 102);
      TssDescriptorDecodes(m2, gdt + 24, tss, TSS_BYTES - 1);
      SegmentsKept(m0, m2);
      task := TssBase(ram.cells, gdtr.base + SEL_TSS);
    }

    method IdtSetGate(vector: u64, handler: u64, ist: byte)
      requires Layout() && vector < IDT_ENTRIES
      modifies ram
      ensures Layout() && GateIs(ram.cells, idt, vector, handler, ist)
      ensures AgreeOutside(old(ram.cells), ram.cells, idt + 16 * vector, idt + 16 * vector + 16)
    {
      hide Bytes16, Bytes32;
      var low, selector := Bytes16(handler % 0x1_0000), Bytes16(SEL_KERNEL_CODE);
      var mid, high, zero := Bytes16(handler / 0x1_0000 % 0x1_0000), Bytes32(handler / 0x1_0000_0000), Bytes32(0);
      PutGate(ram, idt + 16 * vector, low, selector, ist % 8, GATE_KERNEL_INT, mid, high, zero);
    }

    predicate OutsideTables(i: nat) {
      !(gdt + 24 <= i < gdt + 40) && !(tss <= i < tss + TSS_BYTES) && !(idt <= i < idt + 16 * IDT_ENTRIES)
    }

    /** The handler and interrupt stack each vector must reach. */
    static function Handler(stubs: seq<u64>, unhandled: u64, v: nat): u64
      requires |stubs| == 32
    {
      if v < 32 then stubs[v] else unhandled
    }

    static function StackOf(v: nat): byte {
      if v == DOUBLE_FAULT then IST_DOUBLE_FAULT else 0
    }

    /** All 256 gates, as bytes. */
    ghost predicate GatesWritten(m: seq<byte>, stubs: seq<u64>, unhandled: u64)
      requires |stubs| == 32
    {
      forall v: nat :: v < IDT_ENTRIES ==> GateIs(m, idt, v, Handler(stubs, unhandled, v), StackOf(v))
    }

    lemma GateKept(m: seq<byte>, n: seq<byte>, v: nat, w: nat, handler: u64, ist: byte)
      requires GateIs(m, idt, v, handler, ist) && v != w
      requires AgreeOutside(m, n, idt + 16 * w, idt + 16 * w + 16)
      ensures GateIs(n, idt, v, handler, ist)
    {
      hide GateBytes;
      SliceKept(m, n, idt + 16 * v, 16, idt + 16 * w, idt + 16 * w + 16);
    }

    /** TSS first, then every vector to the shared stub, then the 32 exceptions, then
        the double fault again on its own stack. */
    method IdtInit(stubs: seq<u64>, unhandled: u64)
      requires Layout() && gdtr == TableRegister(gdt, 39) && Segments(ram.cells) && |stubs| == 32
      modifies ram, this`task, this`idtr
      ensures Layout() && Segments(ram.cells) && TaskReady(ram.cells)
      ensures idtr == TableRegister(idt, 4095) && GatesWritten(ram.cells, stubs, unhandled)
      ensures |ram.cells| == |old(ram.cells)|
      ensures forall i :: 0 <= i < |ram.cells| && OutsideTables(i) ==> ram.cells[i] == old(ram.cells)[i]
    {
      hide GateIs, Segments, TaskReady;
      TssInit();
      ghost var m := ram.cells;
      var v: u64 := 0;
      while v < IDT_ENTRIES
        invariant v <= IDT_ENTRIES && Layout() && TaskReady(m) && AgreeOutside(m, ram.cells, idt, idt + 16 * IDT_ENTRIES)
        invariant forall k: nat :: k < v ==> GateIs(ram.cells, idt, k, unhandled, 0)
      {
        ghost var before := ram.cells;
        IdtSetGate(v, unhandled, 0);
        forall k: nat | k < v ensures GateIs(ram.cells, idt, k, unhandled, 0) {
          GateKept(before, ram.cells, k, v, unhandled, 0);
        }
        v := v + 1;
      }
      v := 0;
      while v < 32
        invariant v <= 32 && Layout() && TaskReady(m) && AgreeOutside(m, ram.cells, idt, idt + 16 * IDT_ENTRIES)
        invariant forall k: nat :: k < v ==> GateIs(ram.cells, idt, k, stubs[k], 0)
        invariant forall k: nat :: 32 <= k < IDT_ENTRIES ==> GateIs(ram.cells, idt, k, unhandled, 0)
      {
        ghost var before := ram.cells;
        IdtSetGate(v, stubs[v], 0);
        forall k: nat | k < v ensures GateIs(ram.cells, idt, k, stubs[k], 0) {
          GateKept(before, ram.cells, k, v, stubs[k], 0);
        }
        forall k: nat | 32 <= k < IDT_ENTRIES ensures GateIs(ram.cells, idt, k, unhandled, 0) {
          GateKept(before, ram.cells, k, v, unhandled, 0);
        }
        v := v + 1;
      }
      ghost var before := ram.cells;
      IdtSetGate(DOUBLE_FAULT, stubs[DOUBLE_FAULT], IST_DOUBLE_FAULT);
      forall k: nat | k < IDT_ENTRIES
        ensures GateIs(ram.cells, idt, k, Handler(stubs, unhandled, k), StackOf(k))
      {
        if k != DOUBLE_FAULT {
          GateKept(before, ram.cells, k, DOUBLE_FAULT, Handler(stubs, unhandled, k), 0);
        }
      }
      idtr := TableRegister(idt, 16 * IDT_ENTRIES - 1);
      SegmentsKept(m, ram.cells);
      TaskKept(m, ram.cells);
    }

    /** The task and code segment survive the filling of the IDT. */
    lemma TaskKept(m: seq<byte>, n: seq<byte>)
      requires TaskReady(m) && |m| == |n|
      requires forall i :: gdt + 24 <= i < gdt + 40 ==> n[i] == m[i]
      requires forall i :: tss <= i < tss + TSS_BYTES ==> n[i] == m[i]
      ensures TaskReady(n)
    {
      hide Get64, Get32, Get16;
      Get64Agrees(m, n, tss + 36);
      Get16Agrees(m, n, tss + 102);
      Get16Agrees(m, n, gdt + 24);
      Get16Agrees(m, n, gdt + 26);
      Get32Agrees(m, n, gdt + 32);
      Get32Agrees(m, n, gdt + 36);
    }

    /** All three tables are in memory `m`. */
    ghost predicate TablesIn(m: seq<byte>, stubs: seq<u64>, unhandled: u64)
      reads `task
    {
      && |stubs| == 32 && PlacedIn(|m|)
      && Segments(m) && TaskReady(m) && GatesWritten(m, stubs, unhandled)
    }

    /** Stores elsewhere leave all three tables as they are. */
    lemma TablesKept(m: seq<byte>, n: seq<byte>, stubs: seq<u64>, unhandled: u64, lo: nat, hi: nat)
      requires TablesIn(m, stubs, unhandled)
      requires lo <= hi && AgreeOutside(m, n, lo, hi) && Spares(lo, hi)
      ensures TablesIn(n, stubs, unhandled)
    {
      SegmentsKept(m, n);
      TaskKept(m, n);
      hide TaskReady, Segments, GateBytes;
      forall v: nat | v < IDT_ENTRIES ensures GateIs(n, idt, v, Handler(stubs, unhandled, v), StackOf(v)) {
        assert GateIs(m, idt, v, Handler(stubs, unhandled, v), StackOf(v));
        SliceKept(m, n, idt + 16 * v, 16, lo, hi);
      }
    }

    lemma SegmentsKept(m: seq<byte>, n: seq<byte>)
      requires Segments(m) && |m| == |n| && forall i :: gdt <= i < gdt + 24 ==> n[i] == m[i]
      ensures Segments(n)
    {
    }
  }

  lemma Get16Agrees(m: seq<byte>, n: seq<byte>, a: nat)
    requires a + 2 <= |m| && AgreeOn(m, n, a, a + 2)
    ensures Get16(m, a) == Get16(n, a)
  {
  }

  lemma Get32Agrees(m: seq<byte>, n: seq<byte>, a: nat)
    requires a + 4 <= |m| && AgreeOn(m, n, a, a + 4)
    ensures Get32(m, a) == Get32(n, a)
  {
  }

  lemma SpliceNothing(m: seq<byte>, a: nat)
    requires a <= |m|
    ensures Splice(m, a, []) == m
  {
  }
}
