/** The assembled words do what the probe relies on. */
module HvfProofs {
  import opened HvfAssembler
  import opened HvfMachine

  // ---------- each encoder against the decoder ----------

  /** The fifteen bits that name a system register in MRS and MSR. */
  function SysBits(r: SysReg): bv32 { EncSys(r) >> 5 }

  function Wide(off: bv32): bv64 { off as bv64 }

  /** A doorbell offset STR can express. */
  predicate Doorbell(off: bv32) { off < 0x8000 && off & 7 == 0 }

  lemma MrsReads(rt: bv32, r: SysReg)
    requires r.Valid() && rt < 32
    ensures Decode(EncMrs(rt, r)) == Mrs(rt, SysBits(r))
  {
  }

  lemma MsrReads(rt: bv32, r: SysReg)
    requires r.Valid() && rt < 32
    ensures Decode(EncMsr(r, rt)) == Msr(rt, SysBits(r))
  {
  }

  /** Different system registers have different operand bits. */
  lemma SysFieldIsUnique(a: SysReg, b: SysReg)
    requires a.Valid() && b.Valid() && SysBits(a) == SysBits(b)
    ensures a == b
  {
  }

  predicate MoveOperands(rd: bv32, imm: bv32, hw: bv32) { rd < 32 && imm < 0x1_0000 && hw < 4 }

  lemma MovzFields(rd: bv32, imm: bv32, hw: bv32)
    requires MoveOperands(rd, imm, hw)
    ensures var w := EncMovz(rd, imm, hw);
            w & 0x1F == rd && Bits(w, 5, 0xFFFF) == imm && Bits(w, 21, 3) == hw && w & 0xFF80_0000 == 0xD280_0000
  {
  }

  lemma MovkFields(rd: bv32, imm: bv32, hw: bv32)
    requires MoveOperands(rd, imm, hw)
    ensures var w := EncMovk(rd, imm, hw);
            w & 0x1F == rd && Bits(w, 5, 0xFFFF) == imm && Bits(w, 21, 3) == hw && w & 0xFF80_0000 == 0xF280_0000
  {
  }

  lemma MovClass(w: bv32)
    ensures w & 0xFF80_0000 == 0xD280_0000 || w & 0xFF80_0000 == 0xF280_0000 ==>
              w != 0xD69F_03E0 && w & 0xFFF0_0000 != 0xD530_0000 && w & 0xFFF0_0000 != 0xD510_0000
  {
  }

  lemma MovzReads(rd: bv32, imm: bv32, hw: bv32)
    requires MoveOperands(rd, imm, hw)
    ensures Decode(EncMovz(rd, imm, hw)) == Movz(rd, imm as bv64, hw)
  {
    hide EncMovz, Bits, MoveOperands;
    MovzFields(rd, imm, hw);
    MovClass(EncMovz(rd, imm, hw));
  }

  lemma MovkReads(rd: bv32, imm: bv32, hw: bv32)
    requires MoveOperands(rd, imm, hw)
    ensures Decode(EncMovk(rd, imm, hw)) == Movk(rd, imm as bv64, hw)
  {
    hide EncMovk, Bits, MoveOperands;
    MovkFields(rd, imm, hw);
    MovClass(EncMovk(rd, imm, hw));
  }

  lemma StrReads(rt: bv32, rn: bv32, off: bv32)
    requires rt < 32 && rn < 32 && Doorbell(off)
    ensures Decode(EncStr(rt, rn, off)) == Store(rt, rn, Wide(off))
  {
  }

  // ---------- branches ----------

  lemma BranchFields(x: bv32)
    ensures var w := 0x1400_0000 | (x & 0x3FF_FFFF); w & 0xFC00_0000 == 0x1400_0000 && w & 0x3FF_FFFF == x & 0x3FF_FFFF
  {
  }

  lemma BranchClass(w: bv32)
    requires w & 0xFC00_0000 == 0x1400_0000
    ensures w != 0xD69F_03E0 && w & 0xFFF0_0000 != 0xD530_0000 && w & 0xFFF0_0000 != 0xD510_0000
    ensures w & 0xFF80_0000 != 0xD280_0000 && w & 0xFF80_0000 != 0xF280_0000 && w & 0xFFC0_0000 != 0xF900_0000
    ensures w & 0xFFC0_0000 != 0x9100_0000 && w & 0xFFC0_0000 != 0xD340_0000 && w & 0xFFC0_0000 != 0xF100_0000
    ensures w & 0xFF00_0010 != 0x5400_0000
  {
  }

  /** A B word with the given imm26. */
  predicate BranchWord(w: bv32, imm: bv32) { w & 0xFC00_0000 == 0x1400_0000 && w & 0x3FF_FFFF == imm }

  lemma BranchDecodes(w: bv32, imm: bv32)
    requires BranchWord(w, imm)
    ensures Decode(w) == Branch(Rel26(imm))
  {
    hide Rel26, Bits;
    BranchClass(w);
  }

  /** What is left of a distance after encoding and decoding. */
  function Kept(rel: bv64): bv64 { ((((rel >> 2) & 0x3FF_FFFF) ^ 0x200_0000) - 0x200_0000) << 2 }

  function Low26(rel: bv64): bv32 { Low32(rel >> 2) & 0x3FF_FFFF }

  lemma EncodedBranch(rel: bv64)
    ensures Decode(EncB(rel)) == Branch(Kept(rel))
  {
    hide Rel26, Decode, Kept, EncB, BranchWord, Low26;
    EncBFields(rel);
    BranchDecodes(EncB(rel), Low26(rel));
    KeptIsDecoded(rel);
  }

  lemma EncBFields(rel: bv64)
    ensures BranchWord(EncB(rel), Low26(rel))
  {
    hide Low32;
    BranchFields(Low32(rel >> 2));
  }

  lemma KeptIsDecoded(rel: bv64)
    ensures Rel26(Low26(rel)) == Kept(rel)
  {
  }

  lemma SignExtend(x: bv64)
    requires x < 0x400_0000
    ensures x < 0x200_0000 ==> (x ^ 0x200_0000) - 0x200_0000 == x
    ensures x >= 0x200_0000 ==> (x ^ 0x200_0000) - 0x200_0000 == x | 0xFFFF_FFFF_FC00_0000
  {
  }

  lemma KeptIs(rel: bv64)
    ensures Kept(rel) == if rel & 0x800_0000 == 0 then rel & 0xFFF_FFFC else (rel & 0xFFF_FFFC) | 0xFFFF_FFFF_F000_0000
  {
    SignExtend((rel >> 2) & 0x3FF_FFFF);
  }

  /** Within 2^27 bytes either way, as a signed number. */
  predicate Near(rel: bv64) { rel + 0x800_0000 < 0x1000_0000 }

  predicate SignOnly(rel: bv64) {
    rel & 0xFFFF_FFFF_F800_0000 == 0 || rel & 0xFFFF_FFFF_F800_0000 == 0xFFFF_FFFF_F800_0000
  }

  lemma NearIsSignOnly(rel: bv64)
    ensures Near(rel) <==> SignOnly(rel)
  {
  }

  lemma PositiveKept(rel: bv64)
    requires rel & 0x800_0000 == 0
    ensures rel & 0xFFF_FFFC == rel ==> rel & 3 == 0 && SignOnly(rel)
  {
  }

  lemma PositiveKeeps(rel: bv64)
    requires rel & 0x800_0000 == 0
    ensures rel & 3 == 0 && SignOnly(rel) ==> rel & 0xFFF_FFFC == rel
  {
  }

  lemma NegativeKept(rel: bv64)
    requires rel & 0x800_0000 != 0
    ensures (rel & 0xFFF_FFFC) | 0xFFFF_FFFF_F000_0000 == rel ==> rel & 3 == 0 && SignOnly(rel)
  {
  }

  lemma NegativeKeeps(rel: bv64)
    requires rel & 0x800_0000 != 0
    ensures rel & 3 == 0 && SignOnly(rel) ==> (rel & 0xFFF_FFFC) | 0xFFFF_FFFF_F000_0000 == rel
  {
  }

  /** The branch encoder is inverted exactly on multiples of four within 2^27 bytes. */
  lemma BranchInvertedIff(rel: bv64)
    ensures Decode(EncB(rel)) == Branch(rel) <==> rel & 3 == 0 && Near(rel)
  {
    hide Kept, SignOnly, Decode, EncB, Near;
    EncodedBranch(rel);
    NearIsSignOnly(rel);
    KeptIs(rel);
    if rel & 0x800_0000 == 0 {
      PositiveKept(rel);
      PositiveKeeps(rel);
    } else {
      NegativeKept(rel);
      NegativeKeeps(rel);
    }
  }

  /** kxref.py's reading of a B or BL word: imm26, made negative by subtracting 2^26, times four. */
  function ScannedOffset(imm: bv32): bv64
    requires imm < 0x400_0000
  {
    (if imm & 0x200_0000 != 0 then (imm as bv64) - 0x400_0000 else imm as bv64) << 2
  }

  function ScannedDistance(w: bv32): bv64 {
    SmallField(w);
    ScannedOffset(w & 0x3FF_FFFF)
  }

  predicate ScannedBranch(w: bv32) { w & 0x7C00_0000 == 0x1400_0000 }

  lemma SmallField(w: bv32)
    ensures w & 0x3FF_FFFF < 0x400_0000
  {
  }

  lemma ForwardOffset(imm: bv32)
    requires imm < 0x400_0000 && imm & 0x200_0000 == 0
    ensures ScannedOffset(imm) == Rel26(imm)
  {
    assert (imm as bv64) ^ 0x200_0000 == (imm as bv64) + 0x200_0000;
  }

  lemma BackwardOffset(imm: bv32)
    requires imm < 0x400_0000 && imm & 0x200_0000 != 0
    ensures ScannedOffset(imm) == Rel26(imm)
  {
    assert (imm as bv64) ^ 0x200_0000 == (imm as bv64) - 0x200_0000;
  }

  lemma OffsetIsExtended(imm: bv32)
    requires imm < 0x400_0000
    ensures ScannedOffset(imm) == Rel26(imm)
  {
    hide ScannedOffset, Rel26;
    if imm & 0x200_0000 == 0 {
      ForwardOffset(imm);
    } else {
      BackwardOffset(imm);
    }
  }

  lemma ScansB(w: bv32)
    requires w & 0xFC00_0000 == 0x1400_0000
    ensures ScannedBranch(w) && w & 0x3FF_FFFF < 0x400_0000 && BranchWord(w, w & 0x3FF_FFFF)
  {
  }

  /** The cross-reference scanner reads a B word as the processor does. */
  lemma ScannerAgrees(w: bv32, imm: bv32)
    requires BranchWord(w, imm)
    ensures ScannedBranch(w) && Decode(w) == Branch(ScannedDistance(w))
  {
    hide Decode, ScannedOffset, Rel26, ScannedBranch;
    ScansB(w);
    BranchDecodes(w, imm);
    OffsetIsExtended(w & 0x3FF_FFFF);
  }

  /** So the scanner inverts the encoder on exactly the distances the encoder can express. */
  lemma ScannerInvertsIff(rel: bv64)
    ensures ScannedBranch(EncB(rel)) && (ScannedDistance(EncB(rel)) == rel <==> rel & 3 == 0 && Near(rel))
  {
    hide Decode, Low26, ScannedDistance, Near, EncB, BranchWord;
    EncBFields(rel);
    ScannerAgrees(EncB(rel), Low26(rel));
    BranchInvertedIff(rel);
  }

  // ---------- constants ----------

  lemma PartIsSmall(v: bv64, shift: nat)
    requires shift <= 48
    ensures Part(v, shift) < 0x1_0000 && (Part(v, shift) as bv64) == (v >> shift) & 0xFFFF
  {
  }

  /** The value after the first `k + 1` quarters of a constant have been moved in. */
  function Quarters(v: bv64, k: nat): bv64 {
    if k == 0 then Insert(0, Part(v, 0) as bv64, 0)
    else if k == 1 then Insert(Quarters(v, 0), Part(v, 16) as bv64, 1)
    else if k == 2 then Insert(Quarters(v, 1), Part(v, 32) as bv64, 2)
    else Insert(Quarters(v, 2), Part(v, 48) as bv64, 3)
  }

  function Low(v: bv64, k: nat): bv64 {
    if k == 0 then v & 0xFFFF else if k == 1 then v & 0xFFFF_FFFF else if k == 2 then v & 0xFFFF_FFFF_FFFF else v
  }

  function TopPart(v: bv64): bv64 { v & 0xFFFF_0000_0000_0000 }

  lemma Join0(v: bv64)
    ensures Insert(0, Part(v, 0) as bv64, 0) == Low(v, 0)
  {
  }

  lemma Join1(v: bv64)
    ensures Insert(Low(v, 0), Part(v, 16) as bv64, 1) == Low(v, 1)
  {
  }

  lemma Join2(v: bv64)
    ensures Insert(Low(v, 1), Part(v, 32) as bv64, 2) == Low(v, 2)
  {
  }

  lemma Join3Low(v: bv64)
    ensures Low(Insert(Low(v, 2), Part(v, 48) as bv64, 3), 2) == Low(v, 2)
  {
  }

  lemma Join3Top(v: bv64)
    ensures TopPart(Insert(Low(v, 2), Part(v, 48) as bv64, 3)) == TopPart(v)
  {
  }

  lemma HalvesDecide(x: bv64, v: bv64)
    requires Low(x, 2) == Low(v, 2) && TopPart(x) == TopPart(v)
    ensures x == v
  {
  }

  lemma QuarterSteps(v: bv64)
    ensures Insert(0, Part(v, 0) as bv64, 0) == Quarters(v, 0)
    ensures Insert(Quarters(v, 0), Part(v, 16) as bv64, 1) == Quarters(v, 1)
    ensures Insert(Quarters(v, 1), Part(v, 32) as bv64, 2) == Quarters(v, 2)
    ensures Insert(Quarters(v, 2), Part(v, 48) as bv64, 3) == Quarters(v, 3)
  {
    hide Insert, Part;
  }

  lemma QuartersBelow(v: bv64)
    ensures Quarters(v, 2) == Low(v, 2)
  {
    hide Quarters, Part, Insert, Low;
    QuarterSteps(v);
    Join0(v);
    Join1(v);
    Join2(v);
  }

  lemma QuartersJoin(v: bv64)
    ensures Quarters(v, 3) == v
  {
    hide Quarters, Part, Insert, Low, TopPart;
    QuarterSteps(v);
    QuartersBelow(v);
    Join3Low(v);
    Join3Top(v);
    HalvesDecide(Quarters(v, 3), v);
  }

  lemma Go(mem: Memory, c: Cpu, n: nat, elr: Name, i: Instruction)
    requires !c.returned && 0 <= c.pc && c.pc in mem && Decode(mem[c.pc]) == i
    ensures Run(mem, c, n + 1, elr) == Run(mem, Execute(c, i, elr), n, elr)
  {
    hide Decode, Execute;
  }
}
