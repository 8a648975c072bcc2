/** The parts of the processor that exception delivery depends on: how it reads the
    descriptor tables in memory (AMD64 Architecture Programmer's Manual, volume 2,
    sections 4.8, 8.9 and 12.2.5). */
module Cpu {
  import opened Words
  import opened Storage

  /** A descriptor-table register: address of the table and offset of its last byte. */
  datatype TableRegister = TableRegister(base: u64, limit: u16)

  // ---- error codes --------------------------------------------------------------------

  /** The vectors on which every processor of the family pushes an error code. */
  predicate PushesErrorCode(v: nat) {
    v in {8, 10, 11, 12, 13, 14, 17, 21}
  }

  /** AMD's virtualisation and security exceptions (chapter 8) push one as well. */
  predicate AmdPushesErrorCode(v: nat) {
    v in {8, 10, 11, 12, 13, 14, 17, 21, 29, 30}
  }

  // ---- gates ------------------------------------------------------------------------

  const GATE_BYTES := 16

  /** An interrupt gate as the processor decodes it. */
  datatype Gate = Gate(offset: u64, selector: u16, ist: nat, attributes: byte)

  function GateAt(m: seq<byte>, a: nat): Gate
    requires a + GATE_BYTES <= |m|
  {
    Gate(Get16(m, a) + 0x1_0000 * Get16(m, a + 6) + 0x1_0000_0000 * Get32(m, a + 8),
         Get16(m, a + 2), m[a + 4] % 8, m[a + 5])
  }

  /** Present, system, type 0xE: a 64-bit interrupt gate; reserved bits zero. */
  predicate GateUsable(m: seq<byte>, a: nat)
    requires a + GATE_BYTES <= |m|
  {
    var attributes := m[a + 5];
    && attributes / 0x80 == 1 && attributes / 0x10 % 2 == 0 && attributes % 0x10 == 0xE
    && m[a + 4] / 8 == 0 && Get32(m, a + 12) == 0
  }

  /** The privilege level a software interrupt needs to enter the gate. */
  function GateDpl(g: Gate): nat {
    g.attributes / 0x20 % 4
  }

  // ---- segment descriptors ------------------------------------------------------------

  /** A present 64-bit code segment of ring 0: P, S and E set, L set and D clear. */
  predicate LongCode(m: seq<byte>, a: nat)
    requires a + 8 <= |m|
  {
    var access, flags := m[a + 5], m[a + 6] / 0x10;
    && access / 0x80 == 1 && access / 0x20 % 4 == 0 && access / 0x10 % 2 == 1 && access / 8 % 2 == 1
    && flags / 2 % 2 == 1 && flags / 4 % 2 == 0
  }

  /** A present writable data segment of ring 0. */
  predicate WritableData(m: seq<byte>, a: nat)
    requires a + 8 <= |m|
  {
    var access := m[a + 5];
    && access / 0x80 == 1 && access / 0x20 % 4 == 0 && access / 0x10 % 2 == 1
    && access / 8 % 2 == 0 && access / 2 % 2 == 1
  }

  /** A 64-bit TSS descriptor: 16 bytes over two rows, the base in four pieces. */
  function TssBase(m: seq<byte>, a: nat): u64
    requires a + 16 <= |m|
  {
    Get16(m, a + 2) + 0x1_0000 * (m[a + 4] as int) + 0x100_0000 * (m[a + 7] as int) + 0x1_0000_0000 * Get32(m, a + 8)
  }

  function TssLimit(m: seq<byte>, a: nat): nat
    requires a + 16 <= |m|
  {
    Get16(m, a) + 0x1_0000 * (m[a + 6] as int % 0x10)
  }

  /** Present, system, type 9 (available), byte granularity, upper row clean. */
  predicate TssUsable(m: seq<byte>, a: nat)
    requires a + 16 <= |m|
  {
    m[a + 5] == 0x89 && m[a + 6] / 0x80 == 0 && Get32(m, a + 12) == 0
  }

  const TSS_BYTES := 104

  /** Interrupt stack `ist`, numbered from 1, of the TSS at `tss`. */
  function InterruptStack(m: seq<byte>, tss: nat, ist: nat): u64
    requires 1 <= ist <= 7 && tss + TSS_BYTES <= |m|
  {
    Get64(m, tss + 36 + 8 * (ist - 1))
  }
}
