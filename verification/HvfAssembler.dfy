/** hvf_probe.c's mini assembler: instruction words as the encoders compute them, and the emitting functions. */
module HvfAssembler {

  /** The operand fields of a system register name, S<op0>_<op1>_C<crn>_C<crm>_<op2>. */
  datatype SysReg = SysReg(op0: bv32, op1: bv32, crn: bv32, crm: bv32, op2: bv32) {
    predicate Valid() { (op0 == 2 || op0 == 3) && op1 < 8 && crn < 16 && crm < 16 && op2 < 8 }
  }

  function Low32(v: bv64): bv32 { (v & 0xFFFF_FFFF) as bv32 }

  function EncSys(r: SysReg): bv32 {
    ((r.op0 & 1) << 19) | (r.op1 << 16) | (r.crn << 12) | (r.crm << 8) | (r.op2 << 5)
  }

  function EncMrs(rt: bv32, r: SysReg): bv32 { 0xD530_0000 | EncSys(r) | rt }

  function EncMsr(r: SysReg, rt: bv32): bv32 { 0xD510_0000 | EncSys(r) | rt }

  /** `hw` is the shift divided by 16. */
  function EncMovz(rd: bv32, imm16: bv32, hw: bv32): bv32 { 0xD280_0000 | (hw << 21) | (imm16 << 5) | rd }

  function EncMovk(rd: bv32, imm16: bv32, hw: bv32): bv32 { 0xF280_0000 | (hw << 21) | (imm16 << 5) | rd }

  function EncStr(rt: bv32, rn: bv32, off: bv32): bv32 { 0xF900_0000 | ((off >> 3) << 10) | (rn << 5) | rt }

  function EncAddi(rd: bv32, rn: bv32, imm: bv32): bv32 { 0x9100_0000 | (imm << 10) | (rn << 5) | rd }

  /** `rel` is a signed 64-bit distance; the arithmetic and the logical shift agree on the 26 bits that are kept. */
  function EncB(rel: bv64): bv32 { 0x1400_0000 | (Low32(rel >> 2) & 0x3FF_FFFF) }

  function EncUbfx(rd: bv32, rn: bv32, lsb: bv32, width: bv32): bv32 {
    0xD340_0000 | (lsb << 16) | ((lsb + width - 1) << 10) | (rn << 5) | rd
  }

  function EncCmpi(rn: bv32, imm: bv32): bv32 { 0xF100_001F | (imm << 10) | (rn << 5) }

  function EncBcond(cond: bv32, rel: bv64): bv32 { 0x5400_0000 | ((Low32(rel >> 2) & 0x7_FFFF) << 5) | cond }

  const ERET: bv32 := 0xD69F_03E0

  /** The 64-bit two's-complement pattern of an integer, bit by bit. */
  function Wrap(d: int): bv64
    decreases if d < 0 then -d else d
  {
    if d == 0 then 0
    else if d == -1 then 0xFFFF_FFFF_FFFF_FFFF
    else (Wrap(d / 2) << 1) | (if d % 2 == 1 then 1 else 0)
  }

  /** Sixteen bits of a constant, as MOV64 passes them on. */
  function Part(v: bv64, shift: nat): bv32
    requires shift <= 48
  {
    Low32((v >> shift) & 0xFFFF)
  }

  function MoveWords(rd: bv32, v: bv64): seq<bv32> {
    [EncMovz(rd, Part(v, 0), 0), EncMovk(rd, Part(v, 16), 1), EncMovk(rd, Part(v, 32), 2), EncMovk(rd, Part(v, 48), 3)]
  }

  /** The handler: read and report both registers, */
  function ReportWords(esr: SysReg, elr: SysReg, dbEsr: bv32, dbElr: bv32): seq<bv32> {
    [EncMrs(10, esr), EncMrs(11, elr), EncStr(10, 9, dbEsr), EncStr(11, 9, dbElr)]
  }

  /** find the exception class and leave at once for SVC, HVC and SMC, */
  function ClassWords(): seq<bv32> {
    [EncUbfx(12, 10, 26, 6), EncCmpi(12, 0x15), EncBcond(0, 24), EncCmpi(12, 0x16), EncBcond(0, 16), EncCmpi(12, 0x17),
     EncBcond(0, 8)]
  }

  /** otherwise skip the instruction. */
  function ReturnWords(elr: SysReg): seq<bv32> { [EncAddi(11, 11, 4), EncMsr(elr, 11), ERET] }

  function HandlerWords(esr: SysReg, elr: SysReg, dbEsr: bv32, dbElr: bv32): seq<bv32> {
    ReportWords(esr, elr, dbEsr, dbElr) + ClassWords() + ReturnWords(elr)
  }

  /** Guest memory, by the address of each word. */
  type Memory = map<nat, bv32>

  /** The words lie one after the other from `at` on. */
  ghost predicate Placed(mem: Memory, at: nat, words: seq<bv32>) {
    forall k :: 0 <= k < |words| ==> at + 4 * k in mem && mem[at + 4 * k] == words[k]
  }

  /** Slot `i` of a table, 0x80 bytes each, and the branch that stands there. */
  function SlotAddress(table: nat, i: nat): nat { table + 0x80 * i }

  function SlotWord(i: nat): bv32 { EncB(Wrap(0x800 - 0x80 * i)) }

  ghost predicate SlotAt(mem: Memory, table: nat, i: nat) {
    SlotAddress(table, i) in mem && mem[SlotAddress(table, i)] == SlotWord(i)
  }

  ghost predicate Slots(mem: Memory, table: nat, n: nat) {
    forall i :: 0 <= i < n ==> SlotAt(mem, table, i)
  }

  lemma SlotsKept(before: Memory, after: Memory, table: nat, n: nat)
    requires Slots(before, table, n)
    requires forall a :: a in before && a < table + 0x80 * n ==> a in after && after[a] == before[a]
    ensures Slots(after, table, n)
  {
    hide SlotWord;
    forall i | 0 <= i < n
      ensures SlotAt(after, table, i)
    {
      assert SlotAt(before, table, i);
    }
  }

  lemma OneMoreSlot(mem: Memory, table: nat, n: nat)
    requires Slots(mem, table, n) && SlotAt(mem, table, n)
    ensures Slots(mem, table, n + 1)
  {
    hide SlotAt;
  }

  const GUEST_BASE: nat := 0x1000_0000

  const ESR_EL1 := SysReg(3, 0, 5, 2, 0)
  const ELR_EL1 := SysReg(3, 0, 4, 0, 1)
  const ESR_EL2 := SysReg(3, 4, 5, 2, 0)
  const ELR_EL2 := SysReg(3, 4, 4, 0, 1)
  const DB_EXC1_ESR: bv32 := 0x20
  const DB_EXC1_ELR: bv32 := 0x28
  const DB_EXC2_ESR: bv32 := 0x30
  const DB_EXC2_ELR: bv32 := 0x38
  const VBAR1_OFF: nat := 0x8000
  const VBAR2_OFF: nat := 0xA000

  ghost predicate TableAt(mem: Memory, table: nat, esr: SysReg, elr: SysReg, dbEsr: bv32, dbElr: bv32) {
    Slots(mem, table, 16) && Placed(mem, table + 0x800, HandlerWords(esr, elr, dbEsr, dbElr))
  }

  /** Both vector tables are in place. */
  ghost predicate Installed(mem: Memory) {
    && TableAt(mem, GUEST_BASE + VBAR1_OFF, ESR_EL1, ELR_EL1, DB_EXC1_ESR, DB_EXC1_ELR)
    && TableAt(mem, GUEST_BASE + VBAR2_OFF, ESR_EL2, ELR_EL2, DB_EXC2_ESR, DB_EXC2_ELR)
  }

  lemma TableKept(before: Memory, after: Memory, table: nat, esr: SysReg, elr: SysReg, dbEsr: bv32, dbElr: bv32)
    requires TableAt(before, table, esr, elr, dbEsr, dbElr)
    requires forall a :: a in before && a < table + 0x840 ==> a in after && after[a] == before[a]
    ensures TableAt(after, table, esr, elr, dbEsr, dbElr)
  {
    hide HandlerWords, Slots;
    var words := HandlerWords(esr, elr, dbEsr, dbElr);
    HandlerLength(esr, elr, dbEsr, dbElr);
    SlotsKept(before, after, table, 16);
    forall k | 0 <= k < |words|
      ensures table + 0x800 + 4 * k in after && after[table + 0x800 + 4 * k] == words[k]
    {
      assert before[table + 0x800 + 4 * k] == words[k];
    }
  }

  lemma HandlerLength(esr: SysReg, elr: SysReg, dbEsr: bv32, dbElr: bv32)
    ensures |HandlerWords(esr, elr, dbEsr, dbElr)| == 14
  {
  }

  /** Guest memory and the place the next word goes to. */
  class Assembler {
    var mem: Memory
    var here: nat

    constructor ()
      ensures mem == map[] && here == GUEST_BASE
    {
      mem, here := map[], GUEST_BASE;
    }

    method Begin(off: nat)
      modifies this
      ensures mem == old(mem) && here == GUEST_BASE + off
    {
      here := GUEST_BASE + off;
    }

    method Emit(w: bv32)
      modifies this
      ensures mem == old(mem)[old(here) := w] && here == old(here) + 4
    {
      mem := mem[here := w];
      here := here + 4;
    }

    /** Several words; nothing outside them changes. */
    method EmitAll(words: seq<bv32>)
      modifies this
      ensures Placed(mem, old(here), words) && here == old(here) + 4 * |words|
      ensures forall a :: a in old(mem) && !(old(here) <= a < here) ==> a in mem && mem[a] == old(mem)[a]
    {
      for i := 0 to |words|
        invariant here == old(here) + 4 * i && Placed(mem, old(here), words[..i])
        invariant forall a :: a in old(mem) && !(old(here) <= a < here) ==> a in mem && mem[a] == old(mem)[a]
      {
        Emit(words[i]);
      }
    }

    /** A constant in four instructions. */
    method Mov64(rd: bv32, v: bv64)
      modifies this
      ensures Placed(mem, old(here), MoveWords(rd, v)) && here == old(here) + 16
      ensures forall a :: a in old(mem) && !(old(here) <= a < here) ==> a in mem && mem[a] == old(mem)[a]
    {
      hide EncMovz, EncMovk, Part;
      EmitAll([EncMovz(rd, Part(v, 0), 0), EncMovk(rd, Part(v, 16), 1), EncMovk(rd, Part(v, 32), 2), EncMovk(rd, Part(v, 48), 3)]);
    }

    /** A vector table: sixteen branches to one handler, and the handler; nothing below it changes. */
    method GenVectors(table: nat, esr: SysReg, elr: SysReg, dbEsr: bv32, dbElr: bv32)
      modifies this
      ensures TableAt(mem, GUEST_BASE + table, esr, elr, dbEsr, dbElr)
      ensures forall a :: a in old(mem) && a < GUEST_BASE + table ==> a in mem && mem[a] == old(mem)[a]
    {
      hide HandlerWords, EncB, Wrap, Placed;
      var handler := GUEST_BASE + table + 0x800;
      for i := 0 to 16
        invariant Slots(mem, GUEST_BASE + table, i)
        invariant forall a :: a in old(mem) && a < GUEST_BASE + table ==> a in mem && mem[a] == old(mem)[a]
      {
        Begin(table + i * 0x80);
        ghost var before := mem;
        assert handler - here == 0x800 - 0x80 * i && here == SlotAddress(GUEST_BASE + table, i);
        Emit(EncB(Wrap(handler - here)));
        SlotsKept(before, mem, GUEST_BASE + table, i);
        OneMoreSlot(mem, GUEST_BASE + table, i);
      }
      Begin(table + 0x800);
      ghost var before := mem;
      EmitAll(HandlerWords(esr, elr, dbEsr, dbElr));
      SlotsKept(before, mem, GUEST_BASE + table, 16);
    }

    /** The two tables of install_fixed_code, one after the other. */
    method InstallVectors()
      modifies this
      ensures Installed(mem)
    {
      hide TableAt;
      GenVectors(VBAR1_OFF, ESR_EL1, ELR_EL1, DB_EXC1_ESR, DB_EXC1_ELR);
      ghost var before := mem;
      GenVectors(VBAR2_OFF, ESR_EL2, ELR_EL2, DB_EXC2_ESR, DB_EXC2_ELR);
      TableKept(before, mem, GUEST_BASE + VBAR1_OFF, ESR_EL1, ELR_EL1, DB_EXC1_ESR, DB_EXC1_ELR);
    }
  }
}
