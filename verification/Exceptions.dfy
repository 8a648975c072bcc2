/** Exception delivery: what the processor does with a gate, what the assembly stubs
    push, and the frame exception_dispatch reads. */
module Exceptions {
  import opened Words
  import opened Storage
  import opened Cpu
  import opened KernelTables

  datatype Gprs = Gprs(rax: u64, rbx: u64, rcx: u64, rdx: u64, rsi: u64, rdi: u64, rbp: u64, r8: u64, r9: u64,
                       r10: u64, r11: u64, r12: u64, r13: u64, r14: u64, r15: u64)

  datatype Core = Core(g: Gprs, rip: u64, cs: u64, rflags: u64, rsp: u64, ss: u64)

  /** exception_frame_t, lowest address first. */
  datatype Frame = Frame(r15: u64, r14: u64, r13: u64, r12: u64, r11: u64, r10: u64, r9: u64, r8: u64,
                         rbp: u64, rdi: u64, rsi: u64, rdx: u64, rcx: u64, rbx: u64, rax: u64,
                         vector: u64, errorCode: u64,
                         rip: u64, cs: u64, rflags: u64, rsp: u64, ss: u64)

  const FRAME_BYTES := 176

  /** The frame at the offsets the C structure declares. */
  function FrameAt(m: seq<byte>, a: nat): Frame
    requires a + FRAME_BYTES <= |m|
  {
    Frame(Get64(m, a), Get64(m, a + 8), Get64(m, a + 16), Get64(m, a + 24), Get64(m, a + 32), Get64(m, a + 40),
          Get64(m, a + 48), Get64(m, a + 56), Get64(m, a + 64), Get64(m, a + 72), Get64(m, a + 80),
          Get64(m, a + 88), Get64(m, a + 96), Get64(m, a + 104), Get64(m, a + 112),
          Get64(m, a + 120), Get64(m, a + 128),
          Get64(m, a + 136), Get64(m, a + 144), Get64(m, a + 152), Get64(m, a + 160), Get64(m, a + 168))
  }

  /** The registers as isr_common leaves them, lowest address first. */
  function Saved(g: Gprs): seq<u64> {
    [g.r15, g.r14, g.r13, g.r12, g.r11, g.r10, g.r9, g.r8, g.rbp, g.rdi, g.rsi, g.rdx, g.rcx, g.rbx, g.rax]
  }

  /** The fifteen words, as the pushes stack them up. */
  lemma SavedInOrder(g: Gprs, rest: seq<u64>)
    ensures [g.r15] + ([g.r14] + ([g.r13] + ([g.r12, g.r11, g.r10, g.r9] + ([g.r8, g.rbp, g.rdi, g.rsi]
            + ([g.rdx, g.rcx, g.rbx, g.rax] + rest))))) == Saved(g) + rest
  {
  }

  /** The words from `a` up are `values`. */
  ghost predicate Holds(m: seq<byte>, a: nat, values: seq<u64>) {
    a + 8 * |values| <= |m| && forall k :: 0 <= k < |values| ==> Get64(m, a + 8 * k) == values[k]
  }

  /** The push order, reversed, is the field order of the structure. */
  lemma FrameOfStack(m: seq<byte>, a: nat, g: Gprs, vector: u64, error: u64,
                     rip: u64, cs: u64, rflags: u64, rsp: u64, ss: u64)
    requires Holds(m, a, Saved(g) + [vector, error, rip, cs, rflags, rsp, ss])
    ensures a + FRAME_BYTES <= |m|
    ensures FrameAt(m, a) == Frame(g.r15, g.r14, g.r13, g.r12, g.r11, g.r10, g.r9, g.r8, g.rbp, g.rdi, g.rsi,
                                   g.rdx, g.rcx, g.rbx, g.rax, vector, error, rip, cs, rflags, rsp, ss)
  {
    hide Get64;
    var values := Saved(g) + [vector, error, rip, cs, rflags, rsp, ss];
    assert |values| == 22;
    assert forall k :: 0 <= k < 15 ==> values[k] == Saved(g)[k];
    assert forall k :: 15 <= k < 22 ==> values[k] == [vector, error, rip, cs, rflags, rsp, ss][k - 15];
    WordOf(m, a, values, 0); WordOf(m, a, values, 1); WordOf(m, a, values, 2); WordOf(m, a, values, 3);
    WordOf(m, a, values, 4); WordOf(m, a, values, 5); WordOf(m, a, values, 6); WordOf(m, a, values, 7);
    WordOf(m, a, values, 8); WordOf(m, a, values, 9); WordOf(m, a, values, 10); WordOf(m, a, values, 11);
    WordOf(m, a, values, 12); WordOf(m, a, values, 13); WordOf(m, a, values, 14); WordOf(m, a, values, 15);
    WordOf(m, a, values, 16); WordOf(m, a, values, 17); WordOf(m, a, values, 18); WordOf(m, a, values, 19);
    WordOf(m, a, values, 20); WordOf(m, a, values, 21);
  }

  lemma WordOf(m: seq<byte>, a: nat, values: seq<u64>, k: nat)
    requires Holds(m, a, values) && k < |values|
    ensures Get64(m, a + 8 * k) == values[k]
  {
  }

  lemma HoldsOneMore(m: seq<byte>, n: seq<byte>, a: nat, v: u64, values: seq<u64>)
    requires 8 <= a && Holds(m, a, values) && |n| == |m| && AgreeOutside(m, n, a - 8, a) && Get64(n, a - 8) == v
    ensures Holds(n, a - 8, [v] + values)
  {
    hide Get64;
    forall k | 0 <= k < |values| + 1 ensures Get64(n, a - 8 + 8 * k) == ([v] + values)[k] {
      if k > 0 {
        Get64Agrees(m, n, a + 8 * (k - 1));
      }
    }
  }

  lemma NothingHeld(m: seq<byte>, a: nat)
    requires a <= |m|
    ensures Holds(m, a, [])
  {
  }

  // ---- the stubs ------------------------------------------------------------------------

  /** The entry points of the assembly file. */
  datatype Stub = NoErrorCode(vector: nat) | WithErrorCode(vector: nat) | Unhandled

  /** The vectors whose stub expects the processor to have pushed an error code. */
  predicate StubTakesError(v: nat) {
    v == 8 || v == 10 || v == 11 || v == 12 || v == 13 || v == 14 || v == 17 || v == 21
  }

  /** The stub listed for each vector, and the shared one above 31. */
  function StubFor(v: nat): Stub {
    if v >= 32 then Unhandled else if StubTakesError(v) then WithErrorCode(v) else NoErrorCode(v)
  }

  const VECTOR_UNKNOWN := 0xFF

  /** What the processor supplies besides the frame. */
  datatype ErrorCode = NoCode | Code(value: u64)

  class Processor {
    const ram: Ram
    var core: Core
    var direction: bool
    /** Words pushed since delivery began, lowest address first. */
    ghost var pushed: seq<u64>

    ghost predicate Stack()
      reads `core, `pushed, ram
    {
      core.rsp + 8 * |pushed| <= |ram.cells| && Holds(ram.cells, core.rsp, pushed)
    }

    constructor (memory: Ram, start: Core, df: bool)
      ensures ram == memory && core == start && direction == df
    {
      ram, core, direction, pushed := memory, start, df, [];
    }

    method Push(v: u64)
      requires Stack() && 8 <= core.rsp
      modifies this`core, this`pushed, ram
      ensures Stack() && pushed == [v] + old(pushed)
      ensures core == old(core).(rsp := old(core.rsp) - 8)
      ensures AgreeOutside(old(ram.cells), ram.cells, core.rsp, core.rsp + 8)
    {
      hide Splice, Holds, Get64;
      ghost var m := ram.cells;
      core := core.(rsp := core.rsp - 8);
      Get64OfSplice(m, core.rsp, v);
      ram.Write(core.rsp, Bytes64(v));
      HoldsOneMore(m, ram.cells, core.rsp + 8, v, pushed);
      pushed := [v] + pushed;
    }

    /** Fifteen pushes, DF cleared, and the stack pointer as the argument. */
    method IsrCommon() returns (frame: u64)
      requires Stack() && 120 <= core.rsp
      modifies this, ram
      ensures Stack() && pushed == Saved(old(core.g)) + old(pushed)
      ensures core.rsp == old(core.rsp) - 120 && frame == core.rsp && !direction
      ensures AgreeOutside(old(ram.cells), ram.cells, core.rsp, core.rsp + 120)
    {
      hide Stack, Saved;
      var g := core.g;
      SavedInOrder(g, pushed);
      PushFour(g.rax, g.rbx, g.rcx, g.rdx);
      PushFour(g.rsi, g.rdi, g.rbp, g.r8);
      PushFour(g.r9, g.r10, g.r11, g.r12);
      Push(g.r13);
      Push(g.r14);
      Push(g.r15);
      direction := false;
      frame := core.rsp;
    }

    /** Four pushes in a row. */
    method PushFour(a: u64, b: u64, c: u64, d: u64)
      requires Stack() && 32 <= core.rsp
      modifies this`core, this`pushed, ram
      ensures Stack() && pushed == [d, c, b, a] + old(pushed)
      ensures core == old(core).(rsp := old(core.rsp) - 32)
      ensures AgreeOutside(old(ram.cells), ram.cells, core.rsp, core.rsp + 32)
    {
      hide Stack;
      Push(a);
      Push(b);
      Push(c);
      Push(d);
    }

    /** Runs the stub the instruction pointer is at. */
    method RunStub(stub: Stub) returns (frame: u64)
      requires Stack() && 136 <= core.rsp && (!stub.Unhandled? ==> stub.vector < 32)
      modifies this, ram
      ensures Stack() && frame == core.rsp && !direction
      ensures pushed == Saved(old(core.g)) + StubWords(stub) + old(pushed)
      ensures core.rsp == old(core.rsp) - 120 - 8 * |StubWords(stub)|
      ensures AgreeOutside(old(ram.cells), ram.cells, core.rsp, old(core.rsp))
    {
      hide Stack, Saved;
      ghost var before := pushed;
      match stub {
        case NoErrorCode(v) =>
          Push(0);
          Push(v);
        case WithErrorCode(v) =>
          Push(v);
        case Unhandled =>
          Push(0);
          Push(VECTOR_UNKNOWN);
      }
      assert pushed == StubWords(stub) + before;
      frame := IsrCommon();
    }

    // ---- the processor's own part -----------------------------------------------------

    /** Can the processor deliver vector `v` through these tables? */
    ghost predicate Deliverable(t: Tables, v: nat)
      reads ram, t
    {
      && t.idtr.base + 16 * v + 15 <= t.idtr.base + t.idtr.limit && t.idtr.base + 16 * v + 16 <= |ram.cells|
      && GateUsable(ram.cells, t.idtr.base + 16 * v)
      && var gate := GateAt(ram.cells, t.idtr.base + 16 * v);
         && gate.selector + 7 <= t.gdtr.limit && gate.selector % 8 == 0 && gate.selector != 0
         && t.gdtr.base + gate.selector + 8 <= |ram.cells| && LongCode(ram.cells, t.gdtr.base + gate.selector)
         && (gate.ist != 0 ==> t.task + TSS_BYTES <= |ram.cells| && gate.ist <= 7)
    }

    /** Top of the stack the frame goes on: the gate's interrupt stack if it names
        one, the current stack otherwise, aligned down to 16 bytes. */
    function FrameTop(t: Tables, v: nat): nat
      requires t.idtr.base + 16 * v + 16 <= |ram.cells|
      requires var gate := GateAt(ram.cells, t.idtr.base + 16 * v);
        gate.ist != 0 ==> gate.ist <= 7 && t.task + TSS_BYTES <= |ram.cells|
      reads this, ram, t
    {
      var gate := GateAt(ram.cells, t.idtr.base + 16 * v);
      var top := if gate.ist == 0 then core.rsp else InterruptStack(ram.cells, t.task, gate.ist);
      top - top % 16
    }

    /** Switches to the stack top, pushes the interrupted state and any error code. */
    method PushInterrupted(top: u64, error: ErrorCode)
      requires 64 <= top <= |ram.cells|
      modifies this`core, this`pushed, ram
      ensures Stack() && core == old(core).(rsp := core.rsp)
      ensures pushed == (if error.Code? then [error.value] else [])
                        + [old(core.rip), old(core.cs), old(core.rflags), old(core.rsp), old(core.ss)]
      ensures core.rsp == top - (if error.Code? then 48 else 40)
      ensures AgreeOutside(old(ram.cells), ram.cells, core.rsp, top)
    {
      var before := core;
      core := core.(rsp := top);
      pushed := [];
      NothingHeld(ram.cells, top);
      hide Stack, Holds;
      PushFour(before.ss, before.rsp, before.rflags, before.cs);
      Push(before.rip);
      if error.Code? {
        Push(error.value);
      }
    }

    /** Looks the gate up, switches stack if it says so, pushes and enters it. */
    method Deliver(t: Tables, v: nat, error: ErrorCode)
      requires Deliverable(t, v) && 64 <= FrameTop(t, v) <= |ram.cells| < 0x1_0000_0000_0000_0000
      modifies this`core, this`pushed, ram
      ensures Stack() && core.g == old(core.g)
      ensures pushed == (if error.Code? then [error.value] else [])
                        + [old(core.rip), old(core.cs), old(core.rflags), old(core.rsp), old(core.ss)]
      ensures core.rip == old(GateAt(ram.cells, t.idtr.base + 16 * v)).offset
      ensures core.cs == old(GateAt(ram.cells, t.idtr.base + 16 * v)).selector
      ensures core.rsp == old(FrameTop(t, v)) - (if error.Code? then 48 else 40)
      ensures AgreeOutside(old(ram.cells), ram.cells, core.rsp, old(FrameTop(t, v)))
    {
      hide Holds, LongCode, GateUsable, Get16, Get32, Get64;
      var gate := GateAt(ram.cells, t.idtr.base + 16 * v);
      var top: u64 := FrameTop(t, v);
      PushInterrupted(top, error);
      core := core.(rip := gate.offset, cs := gate.selector);
    }
  }

  /** The words each stub pushes itself, lowest address first. */
  function StubWords(stub: Stub): seq<u64>
    requires !stub.Unhandled? ==> stub.vector < 32
  {
    match stub
    case NoErrorCode(v) => [v, 0]
    case WithErrorCode(v) => [v]
    case Unhandled => [VECTOR_UNKNOWN, 0]
  }

  // ---- from fault to exception_dispatch ------------------------------------------------

  /** The tables as idt_init leaves them, with both registers loaded. */
  ghost predicate Installed(t: Tables, stubs: seq<u64>, unhandled: u64)
    reads t, t.ram
  {
    && |stubs| == 32 && t.gdtr == TableRegister(t.gdt, 39) && t.idtr == TableRegister(t.idt, 4095)
    && t.TablesIn(t.ram.cells, stubs, unhandled)
  }

  /** The kernel's start-up order: segments, then TSS and gates. */
  method Install(t: Tables, stubs: seq<u64>, unhandled: u64)
    requires t.Layout() && |stubs| == 32
    modifies t, t.ram
    ensures Installed(t, stubs, unhandled)
  {
    t.GdtInit();
    t.IdtInit(stubs, unhandled);
  }

  /** For every vector the processor finds a present ring-0 interrupt gate, and through
      it the 64-bit code segment at selector 8 and the right handler. */
  lemma EveryVectorResolves(p: Processor, t: Tables, stubs: seq<u64>, unhandled: u64, v: nat)
    requires p.ram == t.ram && Installed(t, stubs, unhandled) && v < IDT_ENTRIES
    ensures p.Deliverable(t, v)
    ensures var gate := GateAt(p.ram.cells, t.idtr.base + 16 * v);
      && gate.offset == (if v < 32 then stubs[v] else unhandled) && gate.selector == 8
      && gate.ist == (if v == 8 then 1 else 0) && gate.attributes == 0x8E && GateDpl(gate) == 0
  {
    GateOfVector(t, stubs, unhandled, v);
    InstalledFacts(t, stubs, unhandled);
    HandlerOfVector(stubs, unhandled, v);
    hide *;
    ReachesHandler(p, t, Tables.Handler(stubs, unhandled, v), v);
  }

  lemma HandlerOfVector(stubs: seq<u64>, unhandled: u64, v: nat)
    requires |stubs| == 32
    ensures Tables.Handler(stubs, unhandled, v) == if v < 32 then stubs[v] else unhandled
    ensures Tables.StackOf(v) == (if v == 8 then 1 else 0) && SEL_KERNEL_CODE == 8 && GATE_KERNEL_INT == 0x8E
  {
  }

  /** Tables laid out so, with such a gate, are all the processor asks for. */
  lemma ReachesHandler(p: Processor, t: Tables, handler: u64, v: nat)
    requires p.ram == t.ram && v < IDT_ENTRIES
    requires t.gdtr == TableRegister(t.gdt, 39) && t.idtr == TableRegister(t.idt, 4095)
    requires t.gdt + 40 <= |t.ram.cells| && LongCode(t.ram.cells, t.gdt + 8)
    requires t.task == t.tss && t.tss + TSS_BYTES <= |t.ram.cells|
    requires t.idt + 16 * v + 16 <= |t.ram.cells| && GateUsable(t.ram.cells, t.idt + 16 * v)
    requires GateAt(t.ram.cells, t.idt + 16 * v) == Gate(handler, SEL_KERNEL_CODE, Tables.StackOf(v), GATE_KERNEL_INT)
    ensures p.Deliverable(t, v)
  {
    hide GateUsable, GateAt, LongCode;
  }

  /** Vector 8 alone switches stack, to the top of the double fault stack. */
  lemma OnlyDoubleFaultSwitches(p: Processor, t: Tables, stubs: seq<u64>, unhandled: u64, v: nat)
    requires p.ram == t.ram && Installed(t, stubs, unhandled) && v < IDT_ENTRIES && p.Deliverable(t, v)
    ensures p.FrameTop(t, v) == if v == 8 then t.doubleFaultStack + 4096
                                else p.core.rsp - p.core.rsp % 16
  {
    GateOfVector(t, stubs, unhandled, v);
    InstalledFacts(t, stubs, unhandled);
    hide Installed, GateUsable, GateAt, LongCode, InterruptStack, GateDpl;
    SixteenMore(t.doubleFaultStack, DOUBLE_FAULT_STACK);
  }

  lemma SixteenMore(a: nat, n: nat)
    requires a % 16 == 0 && n % 16 == 0
    ensures (a + n) % 16 == 0
  {
  }

  lemma InstalledFacts(t: Tables, stubs: seq<u64>, unhandled: u64)
    requires Installed(t, stubs, unhandled)
    ensures t.gdtr == TableRegister(t.gdt, 39) && t.idtr == TableRegister(t.idt, 4095)
    ensures t.gdt + 40 <= |t.ram.cells| && LongCode(t.ram.cells, t.gdt + 8)
    ensures t.task == t.tss && t.tss + TSS_BYTES <= |t.ram.cells|
    ensures InterruptStack(t.ram.cells, t.task, 1) == t.doubleFaultStack + DOUBLE_FAULT_STACK
    ensures t.doubleFaultStack % 16 == 0
  {
    hide GateBytes, LongCode, WritableData, Get16, Get32, Get64, TssBase, TssLimit, TssUsable;
  }

  lemma GateOfVector(t: Tables, stubs: seq<u64>, unhandled: u64, v: nat)
    requires Installed(t, stubs, unhandled) && v < IDT_ENTRIES
    ensures t.idt + 16 * v + 16 <= |t.ram.cells| && GateUsable(t.ram.cells, t.idt + 16 * v)
    ensures var gate := GateAt(t.ram.cells, t.idt + 16 * v);
      gate == Gate(Tables.Handler(stubs, unhandled, v), SEL_KERNEL_CODE, Tables.StackOf(v), GATE_KERNEL_INT)
      && GateDpl(gate) == 0
  {
    hide LongCode, WritableData, GateUsable, GateAt, GateBytes, TssBase, TssLimit, TssUsable, Get16, Get32, Get64;
    var handler, ist := Tables.Handler(stubs, unhandled, v), Tables.StackOf(v);
    assert GateIs(t.ram.cells, t.idt, v, handler, ist);
    GateDecodes(t.ram.cells, t.idt + 16 * v, handler, ist);
  }

  /** The linked image: which stub's code sits at which address. */
  ghost predicate Linked(code: map<u64, Stub>, stubs: seq<u64>, unhandled: u64)
    requires |stubs| == 32
  {
    && (forall v :: 0 <= v < 32 ==> stubs[v] in code && code[stubs[v]] == StubFor(v))
    && unhandled in code && code[unhandled] == Unhandled
  }

  lemma HandlerIsStub(code: map<u64, Stub>, stubs: seq<u64>, unhandled: u64, v: nat)
    requires |stubs| == 32 && Linked(code, stubs, unhandled) && v < IDT_ENTRIES
    ensures Tables.Handler(stubs, unhandled, v) in code
    ensures code[Tables.Handler(stubs, unhandled, v)] == StubFor(v)
  {
  }

  /** What exception_dispatch must see: the interrupted state, the processor's error
      code or 0, and the vector, or 255 from 32 up. */
  function Expected(before: Core, v: nat, error: ErrorCode): Frame
    requires v < IDT_ENTRIES
  {
    var g := before.g;
    Frame(g.r15, g.r14, g.r13, g.r12, g.r11, g.r10, g.r9, g.r8, g.rbp, g.rdi, g.rsi, g.rdx, g.rcx, g.rbx, g.rax,
          if v < 32 then v else 255, if error.Code? then error.value else 0,
          before.rip, before.cs, before.rflags, before.rsp, before.ss)
  }

  /** The processor pushes an error code exactly where the stub expects one. */
  predicate Agreed(v: nat, error: ErrorCode) {
    error.Code? <==> v < 32 && StubTakesError(v)
  }

  /** Stubs and processor agree exactly on the eight vectors. */
  lemma AgreedExactly(v: nat, error: ErrorCode)
    requires v < IDT_ENTRIES
    ensures Agreed(v, error) <==> (error.Code? <==> PushesErrorCode(v))
    ensures (error.Code? <==> AmdPushesErrorCode(v)) ==> (Agreed(v, error) <==> v != 29 && v != 30)
  {
  }

  /** Delivery of any vector through the installed tables, and its stub: all in terms of
      whether processor and stub agree on the error code. */
  method DeliverAndRun(p: Processor, t: Tables, code: map<u64, Stub>, ghost stubs: seq<u64>, ghost unhandled: u64,
                       v: nat, error: ErrorCode) returns (frame: u64)
    requires p.ram == t.ram && Installed(t, stubs, unhandled) && Linked(code, stubs, unhandled) && v < IDT_ENTRIES
    requires 200 <= p.FrameTop(t, v) <= |p.ram.cells|
    modifies p, p.ram
    ensures frame == p.core.rsp && !p.direction && frame <= old(p.FrameTop(t, v))
    ensures p.core.rsp % 16 == 0 <==> Agreed(v, error)
    ensures Agreed(v, error) ==>
      frame + FRAME_BYTES <= |p.ram.cells| && FrameAt(p.ram.cells, frame) == Expected(old(p.core), v, error)
    ensures !Agreed(v, error) && frame + FRAME_BYTES <= |p.ram.cells| && old(p.core.cs) != 0 ==>
      FrameAt(p.ram.cells, frame) != Expected(old(p.core), v, error)
    ensures AgreeOutside(old(p.ram.cells), p.ram.cells, frame, old(p.FrameTop(t, v)))
    ensures old(p.FrameTop(t, v)) <= frame + 4096
  {
    EveryVectorResolves(p, t, stubs, unhandled, v);
    HandlerIsStub(code, stubs, unhandled, v);
    HandlerOfVector(stubs, unhandled, v);
    hide *;
    ghost var before, top := p.core, p.FrameTop(t, v);
    InAddressSpace(t, stubs, unhandled);
    TopAligned(p, t, v);
    p.Deliver(t, v, error);
    ghost var interrupted := p.pushed;
    var stub := code[p.core.rip];
    StubSizes(stub, v, error);
    frame := p.RunStub(stub);
    AlignedWhenAgreed(top, frame, v, error);
    StackHolds(p);
    FrameEitherWay(p.ram.cells, frame, p.pushed, interrupted, before, v, error);
  }

  lemma FrameEitherWay(m: seq<byte>, frame: nat, pushed: seq<u64>, interrupted: seq<u64>, before: Core,
                       v: nat, error: ErrorCode)
    requires v < IDT_ENTRIES && Holds(m, frame, pushed)
    requires pushed == Saved(before.g) + StubWords(StubFor(v)) + interrupted
    requires interrupted == (if error.Code? then [error.value] else [])
                            + [before.rip, before.cs, before.rflags, before.rsp, before.ss]
    ensures Agreed(v, error) ==> frame + FRAME_BYTES <= |m| && FrameAt(m, frame) == Expected(before, v, error)
    ensures !Agreed(v, error) && frame + FRAME_BYTES <= |m| && before.cs != 0 ==>
      FrameAt(m, frame) != Expected(before, v, error)
  {
    hide Holds, Saved, StubWords, StubFor, Agreed, FrameAt, Expected;
    if Agreed(v, error) {
      FrameWhenAgreed(m, frame, pushed, interrupted, before, v, error);
    } else if frame + FRAME_BYTES <= |m| && before.cs != 0 {
      FrameWhenDisagreed(m, frame, pushed, interrupted, before, v, error);
    }
  }

  /** From fault to exception_dispatch. RSP is on a 16-byte boundary at the call if and
      only if the processor pushed an error code on just the eight vectors that have one,
      and for interrupted code with a selector other than null the frame read is the
      faulting state exactly then too. A double fault runs on its own stack and leaves
      the tables installed. */
  method TakeException(p: Processor, t: Tables, code: map<u64, Stub>, ghost stubs: seq<u64>, ghost unhandled: u64,
                       v: nat, error: ErrorCode) returns (frame: u64)
    requires p.ram == t.ram && Installed(t, stubs, unhandled) && Linked(code, stubs, unhandled) && v < IDT_ENTRIES
    requires 200 <= p.FrameTop(t, v) <= |p.ram.cells|
    modifies p, p.ram
    ensures frame == p.core.rsp && !p.direction
    ensures p.core.rsp % 16 == 0 <==> (error.Code? <==> PushesErrorCode(v))
    ensures (error.Code? <==> PushesErrorCode(v)) ==>
      frame + FRAME_BYTES <= |p.ram.cells| && FrameAt(p.ram.cells, frame) == Expected(old(p.core), v, error)
    ensures !(error.Code? <==> PushesErrorCode(v)) && frame + FRAME_BYTES <= |p.ram.cells| && old(p.core.cs) != 0 ==>
      FrameAt(p.ram.cells, frame) != Expected(old(p.core), v, error)
    ensures AgreeOutside(old(p.ram.cells), p.ram.cells, frame, old(p.FrameTop(t, v)))
    ensures v == 8 ==> t.doubleFaultStack <= frame && old(p.FrameTop(t, v)) == t.doubleFaultStack + 4096
    ensures v == 8 ==> Installed(t, stubs, unhandled)
  {
    EveryVectorResolves(p, t, stubs, unhandled, v);
    OnlyDoubleFaultSwitches(p, t, stubs, unhandled, v);
    AgreedExactly(v, error);
    hide *;
    ghost var top, m := p.FrameTop(t, v), p.ram.cells;
    InstalledTables(t, stubs, unhandled);
    frame := DeliverAndRun(p, t, code, stubs, unhandled, v, error);
    if v == 8 {
      InsideStackSpares(t, |m|, frame, top);
      t.TablesKept(m, p.ram.cells, stubs, unhandled, frame, top);
      StillInstalled(t, stubs, unhandled);
    }
  }

  lemma InstalledTables(t: Tables, stubs: seq<u64>, unhandled: u64)
    requires Installed(t, stubs, unhandled)
    ensures t.gdtr == TableRegister(t.gdt, 39) && t.idtr == TableRegister(t.idt, 4095)
    ensures t.TablesIn(t.ram.cells, stubs, unhandled) && t.PlacedIn(|t.ram.cells|) && |stubs| == 32
  {
  }

  lemma StillInstalled(t: Tables, stubs: seq<u64>, unhandled: u64)
    requires t.gdtr == TableRegister(t.gdt, 39) && t.idtr == TableRegister(t.idt, 4095)
    requires t.TablesIn(t.ram.cells, stubs, unhandled) && |stubs| == 32
    ensures Installed(t, stubs, unhandled)
  {
  }

  lemma InsideStackSpares(t: Tables, memory: nat, lo: nat, hi: nat)
    requires t.PlacedIn(memory) && lo <= hi
    requires t.doubleFaultStack <= lo && hi == t.doubleFaultStack + 4096
    ensures t.Spares(lo, hi)
  {
  }

  lemma TopAligned(p: Processor, t: Tables, v: nat)
    requires p.Deliverable(t, v)
    ensures p.FrameTop(t, v) % 16 == 0
  {
  }

  lemma StackHolds(p: Processor)
    requires p.Stack()
    ensures Holds(p.ram.cells, p.core.rsp, p.pushed)
  {
  }

  /** Stub words plus error code are two words exactly when both sides agree. */
  lemma StubSizes(stub: Stub, v: nat, error: ErrorCode)
    requires stub == StubFor(v)
    ensures !stub.Unhandled? ==> stub.vector < 32
    ensures |StubWords(stub)| == if v < 32 && StubTakesError(v) then 1 else 2
  {
  }

  lemma AlignedWhenAgreed(top: nat, frame: int, v: nat, error: ErrorCode)
    requires top % 16 == 0
    requires frame == top - (if error.Code? then 48 else 40) - 120 - 8 * (if v < 32 && StubTakesError(v) then 1 else 2)
    ensures frame % 16 == 0 <==> Agreed(v, error)
  {
  }

  /** The words of both sides, put together, are the frame. */
  lemma FrameWhenAgreed(m: seq<byte>, frame: nat, pushed: seq<u64>, interrupted: seq<u64>, before: Core,
                        v: nat, error: ErrorCode)
    requires v < IDT_ENTRIES && Agreed(v, error) && Holds(m, frame, pushed)
    requires pushed == Saved(before.g) + StubWords(StubFor(v)) + interrupted
    requires interrupted == (if error.Code? then [error.value] else [])
                            + [before.rip, before.cs, before.rflags, before.rsp, before.ss]
    ensures frame + FRAME_BYTES <= |m| && FrameAt(m, frame) == Expected(before, v, error)
  {
    var vector, code := if v < 32 then v else VECTOR_UNKNOWN, if error.Code? then error.value else 0;
    assert pushed == Saved(before.g) + [vector, code, before.rip, before.cs, before.rflags, before.rsp, before.ss];
    hide Saved, FrameAt, Holds;
    FrameOfStack(m, frame, before.g, vector, code, before.rip, before.cs, before.rflags, before.rsp, before.ss);
  }

  /** One word too many or too few: the words read as RIP and CS are others, and cannot
      both be right unless the selector was null. */
  lemma FrameWhenDisagreed(m: seq<byte>, frame: nat, pushed: seq<u64>, interrupted: seq<u64>, before: Core,
                           v: nat, error: ErrorCode)
    requires v < IDT_ENTRIES && !Agreed(v, error) && Holds(m, frame, pushed)
    requires pushed == Saved(before.g) + StubWords(StubFor(v)) + interrupted
    requires interrupted == (if error.Code? then [error.value] else [])
                            + [before.rip, before.cs, before.rflags, before.rsp, before.ss]
    requires frame + FRAME_BYTES <= |m| && before.cs != 0
    ensures FrameAt(m, frame) != Expected(before, v, error)
  {
    ShiftedWords(m, frame, pushed, interrupted, before, v, error);
    hide Get64, Saved, Holds, Agreed, StubWords, StubFor;
  }

  /** The words the handler takes for error code, RIP and CS. */
  lemma ShiftedWords(m: seq<byte>, frame: nat, pushed: seq<u64>, interrupted: seq<u64>, before: Core,
                     v: nat, error: ErrorCode)
    requires v < IDT_ENTRIES && !Agreed(v, error) && Holds(m, frame, pushed)
    requires pushed == Saved(before.g) + StubWords(StubFor(v)) + interrupted
    requires interrupted == (if error.Code? then [error.value] else [])
                            + [before.rip, before.cs, before.rflags, before.rsp, before.ss]
    requires frame + FRAME_BYTES <= |m|
    ensures error.Code? ==>
      Get64(m, frame + 136) == error.value && Get64(m, frame + 128) == 0 && Get64(m, frame + 144) == before.rip
    ensures error.NoCode? ==> Get64(m, frame + 128) == before.rip && Get64(m, frame + 136) == before.cs
  {
    var words := StubWords(StubFor(v));
    assert |Saved(before.g)| == 15 && |words| == if error.Code? then 2 else 1;
    assert error.Code? ==> pushed[16] == words[1] == 0 && pushed[17] == error.value && pushed[18] == before.rip;
    assert error.NoCode? ==> pushed[16] == before.rip && pushed[17] == before.cs;
    hide Get64, Saved, StubWords, StubFor, Agreed;
    WordOf(m, frame, pushed, 16);
    WordOf(m, frame, pushed, 17);
    WordOf(m, frame, pushed, 18);
  }

  /** Vectors 29 and 30 with the error code the AMD64 manual gives them (volume 2, chapter
      8): the handler sees error code 0, the code as RIP, and RIP as CS. */
  lemma AmdErrorCodeMisread(m: seq<byte>, frame: nat, before: Core, v: nat, code: u64)
    requires v == 29 || v == 30
    requires Holds(m, frame, Saved(before.g) + StubWords(StubFor(v))
                             + [code, before.rip, before.cs, before.rflags, before.rsp, before.ss])
    ensures !Agreed(v, Code(code)) && frame + FRAME_BYTES <= |m|
    ensures FrameAt(m, frame).vector == v && FrameAt(m, frame).errorCode == 0
    ensures FrameAt(m, frame).rip == code && FrameAt(m, frame).cs == before.rip && FrameAt(m, frame).rflags == before.cs
    ensures before.cs != 0 ==> FrameAt(m, frame) != Expected(before, v, Code(code))
  {
    CodeShiftsFrame(m, frame, before, v, code);
    hide Get64, Saved, Holds;
  }

  lemma CodeShiftsFrame(m: seq<byte>, frame: nat, before: Core, v: nat, code: u64)
    requires v == 29 || v == 30
    requires Holds(m, frame, Saved(before.g) + StubWords(StubFor(v))
                             + [code, before.rip, before.cs, before.rflags, before.rsp, before.ss])
    ensures frame + FRAME_BYTES <= |m|
    ensures Get64(m, frame + 120) == v && Get64(m, frame + 128) == 0 && Get64(m, frame + 136) == code
    ensures Get64(m, frame + 144) == before.rip && Get64(m, frame + 152) == before.cs
  {
    var interrupted := [code, before.rip, before.cs, before.rflags, before.rsp, before.ss];
    var pushed := Saved(before.g) + StubWords(StubFor(v)) + interrupted;
    assert |Saved(before.g)| == 15 && StubWords(StubFor(v)) == [v, 0];
    assert pushed[15] == v && pushed[16] == 0 && pushed[17] == code && pushed[18] == before.rip && pushed[19] == before.cs;
    hide Get64, Saved, StubWords;
    WordOf(m, frame, pushed, 15);
    WordOf(m, frame, pushed, 16);
    WordOf(m, frame, pushed, 17);
    WordOf(m, frame, pushed, 18);
    WordOf(m, frame, pushed, 19);
  }

  lemma InAddressSpace(t: Tables, stubs: seq<u64>, unhandled: u64)
    requires Installed(t, stubs, unhandled)
    ensures |t.ram.cells| < 0x1_0000_0000_0000_0000
  {
  }
}
