/** A64 instructions as the processor reads and executes them, for the classes the assembler emits. */
module HvfMachine {

  datatype Instruction =
    | Mrs(rt: bv32, sys: bv32)
    | Msr(rt: bv32, sys: bv32)
    | Movz(rd: bv32, imm: bv64, hw: bv32)
    | Movk(rd: bv32, imm: bv64, hw: bv32)
    | Store(rt: bv32, rn: bv32, off: bv64)
    | AddImmediate(rd: bv32, rn: bv32, imm: bv64)
    | Ubfm(rd: bv32, rn: bv32, immr: bv32, imms: bv32)
    | SubsImmediate(rd: bv32, rn: bv32, imm: bv64)
    | BranchIf(cond: bv32, rel: bv64)
    | Branch(rel: bv64)
    | Eret
    | Other

  function Bits(w: bv32, lo: nat, mask: bv32): bv32
    requires lo < 32
  {
    (w >> lo) & mask
  }

  /** imm19 and imm26, sign-extended and scaled. */
  function Rel19(imm: bv32): bv64 { (((imm as bv64) ^ 0x4_0000) - 0x4_0000) << 2 }

  function Rel26(imm: bv32): bv64 { (((imm as bv64) ^ 0x200_0000) - 0x200_0000) << 2 }

  function Decode(w: bv32): Instruction {
    if w == 0xD69F_03E0 then Eret
    else if w & 0xFFF0_0000 == 0xD530_0000 then Mrs(w & 0x1F, Bits(w, 5, 0x7FFF))
    else if w & 0xFFF0_0000 == 0xD510_0000 then Msr(w & 0x1F, Bits(w, 5, 0x7FFF))
    else if w & 0xFF80_0000 == 0xD280_0000 then Movz(w & 0x1F, Bits(w, 5, 0xFFFF) as bv64, Bits(w, 21, 3))
    else if w & 0xFF80_0000 == 0xF280_0000 then Movk(w & 0x1F, Bits(w, 5, 0xFFFF) as bv64, Bits(w, 21, 3))
    else if w & 0xFFC0_0000 == 0xF900_0000 then Store(w & 0x1F, Bits(w, 5, 0x1F), (Bits(w, 10, 0xFFF) as bv64) << 3)
    else if w & 0xFFC0_0000 == 0x9100_0000 then AddImmediate(w & 0x1F, Bits(w, 5, 0x1F), Bits(w, 10, 0xFFF) as bv64)
    else if w & 0xFFC0_0000 == 0xD340_0000 then Ubfm(w & 0x1F, Bits(w, 5, 0x1F), Bits(w, 16, 0x3F), Bits(w, 10, 0x3F))
    else if w & 0xFFC0_0000 == 0xF100_0000 then SubsImmediate(w & 0x1F, Bits(w, 5, 0x1F), Bits(w, 10, 0xFFF) as bv64)
    else if w & 0xFF00_0010 == 0x5400_0000 then BranchIf(w & 0xF, Rel19(Bits(w, 5, 0x7_FFFF)))
    else if w & 0xFC00_0000 == 0x1400_0000 then Branch(Rel26(w & 0x3FF_FFFF))
    else Other
  }

  /** Names of registers: general ones by number, system ones by their fifteen operand bits. */
  datatype Name = X(n: bv32) | Sys(bits: bv32)

  /** A core at one exception level: what it stored, by data address, and whether it returned from its exception. */
  datatype Cpu = Cpu(pc: int, regs: map<Name, bv64>, zero: bool, stores: map<Location, bv64>, returned: bool)

  datatype Location = Location(address: bv64)

  function Get(c: Cpu, n: Name): bv64 { if n in c.regs then c.regs[n] else 0 }

  /** Register 31 reads as zero and ignores writes, in the operand positions used here. */
  function Read(c: Cpu, r: bv32): bv64 { if r == 31 then 0 else Get(c, X(r)) }

  function Write(c: Cpu, r: bv32, v: bv64): Cpu {
    if r == 31 then c else c.(regs := c.regs[X(r) := v])
  }

  function Signed(v: bv64): int {
    if v < 0x8000_0000_0000_0000 then v as int else v as int - 0x1_0000_0000_0000_0000
  }

  /** `v` with its quarter `hw` replaced. */
  function Insert(v: bv64, imm: bv64, hw: bv32): bv64 {
    if hw == 0 then (v & !0xFFFF) | imm
    else if hw == 1 then (v & !0xFFFF_0000) | (imm << 16)
    else if hw == 2 then (v & !0xFFFF_0000_0000) | (imm << 32)
    else (v & !0xFFFF_0000_0000_0000) | (imm << 48)
  }

  /** The field of `imms - immr + 1` bits from bit `immr` on. */
  function Field(v: bv64, immr: bv32, imms: bv32): bv64
    requires immr <= imms < 64
  {
    (v >> (immr as bv64)) & ((1 << ((imms - immr + 1) as bv64)) - 1)
  }

  /** 64-bit addition. */
  function Plus(a: bv64, b: bv64): bv64 { a + b }

  /** One instruction; `elr` names the exception link register of the level the core runs at.
      None is an instruction the model does not execute. */
  function Execute(c: Cpu, i: Instruction, elr: Name): Cpu {
    var next := c.(pc := c.pc + 4);
    match i
    case Mrs(rt, sys) => Write(next, rt, Get(c, Sys(sys)))
    case Msr(rt, sys) => next.(regs := c.regs[Sys(sys) := Read(c, rt)])
    case Movz(rd, imm, hw) => Write(next, rd, Insert(0, imm, hw))
    case Movk(rd, imm, hw) => Write(next, rd, Insert(Read(c, rd), imm, hw))
    case Store(rt, rn, off) => next.(stores := c.stores[Location(Plus(Get(c, X(rn)), off)) := Read(c, rt)])
    case AddImmediate(rd, rn, imm) => Write(next, rd, Plus(Get(c, X(rn)), imm))
    case Ubfm(rd, rn, immr, imms) => if immr <= imms < 64 then Write(next, rd, Field(Read(c, rn), immr, imms)) else c
    case SubsImmediate(rd, rn, imm) => Write(next.(zero := Get(c, X(rn)) == imm), rd, Get(c, X(rn)) - imm)
    case BranchIf(cond, rel) => if cond == 0 then (if c.zero then c.(pc := c.pc + Signed(rel)) else next) else c
    case Branch(rel) => c.(pc := c.pc + Signed(rel))
    case Eret => c.(pc := Get(c, elr) as int, returned := true)
    case Other => c
  }

  /** `n` instructions, fetched from `mem`; a core that has returned stays where it is. */
  function Run(mem: map<nat, bv32>, c: Cpu, n: nat, elr: Name): Cpu
    decreases n
  {
    if n == 0 || c.returned || c.pc < 0 || c.pc !in mem then c
    else Run(mem, Execute(c, Decode(mem[c.pc]), elr), n - 1, elr)
  }
}
