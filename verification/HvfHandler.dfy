/** The assembled constants, vector slots and exception handler, executed word by word. */
module HvfHandler {
  import opened HvfAssembler
  import opened HvfMachine
  import opened HvfProofs

  /** One placed word is fetched and executed. */
  lemma Fetch(mem: Memory, at: nat, words: seq<bv32>, k: nat, c: Cpu, n: nat, elr: Name, i: Instruction)
    requires Placed(mem, at, words) && k < |words| && Decode(words[k]) == i
    requires !c.returned && c.pc == at + 4 * k
    ensures Run(mem, c, n + 1, elr) == Run(mem, Execute(c, i, elr), n, elr)
  {
    hide Decode, Execute, Run;
    assert mem[at + 4 * k] == words[k];
    Go(mem, c, n, elr, i);
  }

  // ---------- constants ----------

  function Loaded(c: Cpu, pc: int, rd: bv32, v: bv64): Cpu { c.(pc := pc, regs := c.regs[X(rd) := v]) }

  lemma FirstQuarter(c: Cpu, at: int, rd: bv32, v: bv64, elr: Name)
    requires rd < 31 && c.pc == at
    ensures Execute(c, Movz(rd, Part(v, 0) as bv64, 0), elr) == Loaded(c, at + 4, rd, Quarters(v, 0))
  {
    hide Part, Get, Insert;
  }

  lemma NextQuarter(c: Cpu, at: int, rd: bv32, v: bv64, k: nat, hw: bv32, imm: bv64, elr: Name)
    requires rd < 31 && 0 < k < 4 && Insert(Quarters(v, k - 1), imm, hw) == Quarters(v, k)
    ensures var before := Loaded(c, at + 4 * k, rd, Quarters(v, k - 1));
            Execute(before, Movk(rd, imm, hw), elr) == Loaded(c, at + 4 * k + 4, rd, Quarters(v, k))
  {
    hide Insert, Quarters;
    var a, b := Quarters(v, k - 1), Quarters(v, k);
    assert c.regs[X(rd) := a][X(rd) := b] == c.regs[X(rd) := b];
  }

  lemma MoveDecodes(rd: bv32, v: bv64)
    requires rd < 31
    ensures var words := MoveWords(rd, v);
            && Decode(words[0]) == Movz(rd, Part(v, 0) as bv64, 0) && Decode(words[1]) == Movk(rd, Part(v, 16) as bv64, 1)
            && Decode(words[2]) == Movk(rd, Part(v, 32) as bv64, 2) && Decode(words[3]) == Movk(rd, Part(v, 48) as bv64, 3)
  {
    hide Decode, EncMovz, EncMovk, Part, MoveOperands;
    PartFits(rd, v, 0, 0);
    PartFits(rd, v, 16, 1);
    PartFits(rd, v, 32, 2);
    PartFits(rd, v, 48, 3);
    MovzReads(rd, Part(v, 0), 0);
    MovkReads(rd, Part(v, 16), 1);
    MovkReads(rd, Part(v, 32), 2);
    MovkReads(rd, Part(v, 48), 3);
  }

  lemma PartFits(rd: bv32, v: bv64, shift: nat, hw: bv32)
    requires rd < 31 && shift <= 48 && hw < 4
    ensures MoveOperands(rd, Part(v, shift), hw)
  {
    PartIsSmall(v, shift);
  }

  /** MOV64 leaves any 64-bit value in its register and nothing else changed. */
  lemma MoveRuns(mem: Memory, c: Cpu, at: nat, rd: bv32, v: bv64, n: nat, elr: Name)
    requires Placed(mem, at, MoveWords(rd, v)) && rd < 31 && c.pc == at && !c.returned
    ensures Run(mem, c, n + 4, elr) == Run(mem, c.(pc := at + 16, regs := c.regs[X(rd) := v]), n, elr)
  {
    hide Decode, Run, Placed, MoveWords, Part, Execute, Quarters, Insert;
    var words := MoveWords(rd, v);
    assert |words| == 4 by { MoveLength(rd, v); }
    MoveDecodes(rd, v);
    QuarterSteps(v);
    FirstQuarter(c, at, rd, v, elr);
    Fetch(mem, at, words, 0, c, n + 3, elr, Movz(rd, Part(v, 0) as bv64, 0));
    var c1 := Loaded(c, at + 4, rd, Quarters(v, 0));
    NextQuarter(c, at, rd, v, 1, 1, Part(v, 16) as bv64, elr);
    Fetch(mem, at, words, 1, c1, n + 2, elr, Movk(rd, Part(v, 16) as bv64, 1));
    var c2 := Loaded(c, at + 8, rd, Quarters(v, 1));
    NextQuarter(c, at, rd, v, 2, 2, Part(v, 32) as bv64, elr);
    Fetch(mem, at, words, 2, c2, n + 1, elr, Movk(rd, Part(v, 32) as bv64, 2));
    var c3 := Loaded(c, at + 12, rd, Quarters(v, 2));
    NextQuarter(c, at, rd, v, 3, 3, Part(v, 48) as bv64, elr);
    Fetch(mem, at, words, 3, c3, n, elr, Movk(rd, Part(v, 48) as bv64, 3));
    QuartersJoin(v);
  }

  lemma MoveLength(rd: bv32, v: bv64)
    ensures |MoveWords(rd, v)| == 4
  {
  }

  // ---------- slots ----------

  function Twice(v: bv64): bv64 { v << 1 }

  lemma Double(h: int)
    requires h > 0
    ensures Wrap(2 * h) == Twice(Wrap(h))
  {
  }

  lemma DoubleAndOne(h: int)
    requires h > 0
    ensures Wrap(2 * h + 1) == Twice(Wrap(h)) | 1
  {
  }

  function Times128(v: bv64): bv64 { v << 7 }

  lemma SevenTimes(v: bv64)
    ensures Twice(Twice(Twice(Twice(Twice(Twice(Twice(v))))))) == Times128(v)
  {
  }

  lemma WrapTimes128(m: int)
    requires m > 0
    ensures Wrap(0x80 * m) == Times128(Wrap(m))
  {
    hide Wrap, Twice, Times128;
    Double(m);
    Double(2 * m);
    Double(4 * m);
    Double(8 * m);
    Double(16 * m);
    Double(32 * m);
    Double(64 * m);
    SevenTimes(Wrap(m));
  }

  lemma FirstWraps()
    ensures Wrap(1) == 1 && Wrap(2) == 2 && Wrap(3) == 3
  {
    assert Wrap(0) == 0;
    assert Wrap(1) == 1;
    Double(1);
    DoubleAndOne(1);
  }

  lemma Twices()
    ensures Twice(2) == 4 && Twice(2) | 1 == 5 && Twice(3) == 6 && Twice(3) | 1 == 7
    ensures Twice(4) == 8 && Twice(4) | 1 == 9 && Twice(5) == 10 && Twice(5) | 1 == 11
    ensures Twice(6) == 12 && Twice(6) | 1 == 13 && Twice(7) == 14 && Twice(7) | 1 == 15 && Twice(8) == 16
  {
  }

  lemma SmallWraps()
    ensures Wrap(4) == 4 && Wrap(5) == 5 && Wrap(6) == 6 && Wrap(7) == 7 && Wrap(8) == 8
  {
    hide Wrap, Twice;
    FirstWraps();
    Twices();
    Double(2);
    DoubleAndOne(2);
    Double(3);
    DoubleAndOne(3);
    Double(4);
  }

  lemma MoreWraps()
    ensures Wrap(9) == 9 && Wrap(10) == 10 && Wrap(11) == 11 && Wrap(12) == 12 && Wrap(13) == 13 && Wrap(14) == 14
    ensures Wrap(15) == 15 && Wrap(16) == 16
  {
    hide Wrap, Twice;
    SmallWraps();
    Twices();
    DoubleAndOne(4);
    Double(5);
    DoubleAndOne(5);
    Double(6);
    DoubleAndOne(6);
    Double(7);
    DoubleAndOne(7);
    Double(8);
  }

  /** A distance a branch can express, and the integer it stands for. */
  predicate Reaches(rel: bv64, d: int) { rel & 3 == 0 && Near(rel) && Signed(rel) == d }

  lemma SlotDistances()
    ensures Reaches(Times128(1), 0x80) && Reaches(Times128(2), 0x100) && Reaches(Times128(3), 0x180) && Reaches(Times128(4), 0x200)
    ensures Reaches(Times128(5), 0x280) && Reaches(Times128(6), 0x300) && Reaches(Times128(7), 0x380) && Reaches(Times128(8), 0x400)
    ensures Reaches(Times128(9), 0x480) && Reaches(Times128(10), 0x500) && Reaches(Times128(11), 0x580) && Reaches(Times128(12), 0x600)
    ensures Reaches(Times128(13), 0x680) && Reaches(Times128(14), 0x700) && Reaches(Times128(15), 0x780) && Reaches(Times128(16), 0x800)
  {
  }

  lemma SlotReaches(m: nat)
    requires 1 <= m <= 16
    ensures Reaches(Wrap(0x80 * m), 0x80 * m)
  {
    hide Wrap, Times128, Reaches;
    FirstWraps();
    SmallWraps();
    MoreWraps();
    SlotDistances();
    WrapTimes128(m);
    assert m == 1 || m == 2 || m == 3 || m == 4 || m == 5 || m == 6 || m == 7 || m == 8
        || m == 9 || m == 10 || m == 11 || m == 12 || m == 13 || m == 14 || m == 15 || m == 16;
  }

  lemma ReachesDecodes(rel: bv64, d: int)
    requires Reaches(rel, d)
    ensures Decode(EncB(rel)) == Branch(rel) && Signed(rel) == d
  {
    hide Decode, EncB, Near, Signed;
    BranchInvertedIff(rel);
  }

  /** All sixteen slots of an assembled table branch to its handler. */
  lemma SlotBranches(mem: Memory, c: Cpu, table: nat, i: nat, n: nat, elr: Name)
    requires Slots(mem, table, 16) && i < 16 && c.pc == SlotAddress(table, i) && !c.returned
    ensures Run(mem, c, n + 1, elr) == Run(mem, c.(pc := table + 0x800), n, elr)
  {
    hide Decode, Run, Reaches, Signed, EncB, Wrap;
    assert SlotAt(mem, table, i);
    var rel := Wrap(0x800 - 0x80 * i);
    SlotReaches(16 - i);
    assert 0x80 * (16 - i) == 0x800 - 0x80 * i;
    ReachesDecodes(rel, 0x800 - 0x80 * i);
    Go(mem, c, n, elr, Branch(rel));
  }

  // ---------- the handler ----------

  lemma FieldWord()
    ensures Decode(EncUbfx(12, 10, 26, 6)) == Ubfm(12, 10, 26, 31)
  {
  }

  lemma CompareWord(ec: bv32)
    requires ec < 0x1000
    ensures Decode(EncCmpi(12, ec)) == SubsImmediate(31, 12, ec as bv64)
  {
  }

  lemma BranchIfWord(rel: bv64)
    requires rel == 24 || rel == 16 || rel == 8
    ensures Decode(EncBcond(0, rel)) == BranchIf(0, rel)
  {
  }

  lemma CompareWords()
    ensures Decode(EncCmpi(12, 0x15)) == SubsImmediate(31, 12, 0x15) && Decode(EncCmpi(12, 0x16)) == SubsImmediate(31, 12, 0x16)
    ensures Decode(EncCmpi(12, 0x17)) == SubsImmediate(31, 12, 0x17)
  {
    hide Decode, EncCmpi;
    CompareWord(0x15);
    CompareWord(0x16);
    CompareWord(0x17);
  }

  lemma FixedWords()
    ensures Decode(EncUbfx(12, 10, 26, 6)) == Ubfm(12, 10, 26, 31)
    ensures Decode(EncCmpi(12, 0x15)) == SubsImmediate(31, 12, 0x15) && Decode(EncCmpi(12, 0x16)) == SubsImmediate(31, 12, 0x16)
    ensures Decode(EncCmpi(12, 0x17)) == SubsImmediate(31, 12, 0x17)
    ensures Decode(EncBcond(0, 24)) == BranchIf(0, 24) && Decode(EncBcond(0, 16)) == BranchIf(0, 16)
    ensures Decode(EncBcond(0, 8)) == BranchIf(0, 8)
    ensures Decode(EncAddi(11, 11, 4)) == AddImmediate(11, 11, 4) && Decode(ERET) == Eret
  {
    hide Decode, EncUbfx, EncCmpi, EncBcond, EncAddi;
    FieldWord();
    CompareWords();
    BranchIfWord(24);
    BranchIfWord(16);
    BranchIfWord(8);
    ClosingWords();
  }

  lemma ClosingWords()
    ensures Decode(EncAddi(11, 11, 4)) == AddImmediate(11, 11, 4) && Decode(ERET) == Eret
  {
  }

  lemma ShortDistances()
    ensures Signed(24) == 24 && Signed(16) == 16 && Signed(8) == 8
  {
  }

  /** The exception class of a syndrome. */
  function Class(esr: bv64): bv64 { (esr >> 26) & 0x3F }

  lemma ClassField(esr: bv64)
    ensures Field(esr, 26, 31) == Class(esr)
  {
  }

  lemma OpeningWords(esr: SysReg, elr: SysReg, dbEsr: bv32, dbElr: bv32)
    requires esr.Valid() && elr.Valid() && Doorbell(dbEsr) && Doorbell(dbElr)
    ensures Decode(EncMrs(10, esr)) == Mrs(10, SysBits(esr)) && Decode(EncMrs(11, elr)) == Mrs(11, SysBits(elr))
    ensures Decode(EncStr(10, 9, dbEsr)) == Store(10, 9, Wide(dbEsr))
    ensures Decode(EncStr(11, 9, dbElr)) == Store(11, 9, Wide(dbElr))
    ensures Decode(EncMsr(elr, 11)) == Msr(11, SysBits(elr))
  {
    hide Decode, EncMrs, EncMsr, EncStr, SysBits, Wide, Doorbell, SysReg.Valid;
    MrsReads(10, esr);
    MrsReads(11, elr);
    MsrReads(11, elr);
    StrReads(10, 9, dbEsr);
    StrReads(11, 9, dbElr);
  }

  /** The handler as the processor reads it. */
  ghost predicate Reads(words: seq<bv32>, e: bv32, l: bv32, a: bv64, b: bv64) {
    && |words| == 14
    && Decode(words[0]) == Mrs(10, e) && Decode(words[1]) == Mrs(11, l)
    && Decode(words[2]) == Store(10, 9, a) && Decode(words[3]) == Store(11, 9, b) && Decode(words[4]) == Ubfm(12, 10, 26, 31)
    && Decode(words[5]) == SubsImmediate(31, 12, 0x15) && Decode(words[6]) == BranchIf(0, 24)
    && Decode(words[7]) == SubsImmediate(31, 12, 0x16) && Decode(words[8]) == BranchIf(0, 16)
    && Decode(words[9]) == SubsImmediate(31, 12, 0x17) && Decode(words[10]) == BranchIf(0, 8)
    && Decode(words[11]) == AddImmediate(11, 11, 4) && Decode(words[12]) == Msr(11, l) && Decode(words[13]) == Eret
  }

  lemma WordsAre(esr: SysReg, elr: SysReg, dbEsr: bv32, dbElr: bv32)
    ensures var w := HandlerWords(esr, elr, dbEsr, dbElr);
            && |w| == 14
            && w[0] == EncMrs(10, esr) && w[1] == EncMrs(11, elr) && w[2] == EncStr(10, 9, dbEsr) && w[3] == EncStr(11, 9, dbElr)
            && w[4] == EncUbfx(12, 10, 26, 6) && w[5] == EncCmpi(12, 0x15) && w[6] == EncBcond(0, 24)
            && w[7] == EncCmpi(12, 0x16) && w[8] == EncBcond(0, 16) && w[9] == EncCmpi(12, 0x17) && w[10] == EncBcond(0, 8)
            && w[11] == EncAddi(11, 11, 4) && w[12] == EncMsr(elr, 11) && w[13] == ERET
  {
    hide EncMrs, EncMsr, EncStr, EncUbfx, EncCmpi, EncBcond, EncAddi, ReportWords, ClassWords, ReturnWords;
    ReportsAre(esr, elr, dbEsr, dbElr);
    ClassesAre();
    ReturnsAre(elr);
  }

  lemma ReportsAre(esr: SysReg, elr: SysReg, dbEsr: bv32, dbElr: bv32)
    ensures var w := ReportWords(esr, elr, dbEsr, dbElr);
            |w| == 4 && w[0] == EncMrs(10, esr) && w[1] == EncMrs(11, elr) && w[2] == EncStr(10, 9, dbEsr)
            && w[3] == EncStr(11, 9, dbElr)
  {
    hide EncMrs, EncStr;
  }

  lemma ClassesAre()
    ensures var w := ClassWords();
            |w| == 7 && w[0] == EncUbfx(12, 10, 26, 6) && w[1] == EncCmpi(12, 0x15) && w[2] == EncBcond(0, 24)
            && w[3] == EncCmpi(12, 0x16) && w[4] == EncBcond(0, 16) && w[5] == EncCmpi(12, 0x17) && w[6] == EncBcond(0, 8)
  {
    hide EncUbfx, EncCmpi, EncBcond;
  }

  lemma ReturnsAre(elr: SysReg)
    ensures var w := ReturnWords(elr);
            |w| == 3 && w[0] == EncAddi(11, 11, 4) && w[1] == EncMsr(elr, 11) && w[2] == ERET
  {
    hide EncAddi, EncMsr;
  }

  lemma HandlerReads(esr: SysReg, elr: SysReg, dbEsr: bv32, dbElr: bv32)
    requires esr.Valid() && elr.Valid() && Doorbell(dbEsr) && Doorbell(dbElr)
    ensures Reads(HandlerWords(esr, elr, dbEsr, dbElr), SysBits(esr), SysBits(elr), Wide(dbEsr), Wide(dbElr))
  {
    hide Decode, EncMrs, EncMsr, EncStr, EncUbfx, EncCmpi, EncBcond, EncAddi, Doorbell, SysBits, Wide, SysReg.Valid,
         HandlerWords;
    WordsAre(esr, elr, dbEsr, dbElr);
    OpeningWords(esr, elr, dbEsr, dbElr);
    FixedWords();
  }

  /** The registers and doorbell stores after the handler's first five instructions. */
  function Entered(c: Cpu, h: int, e: bv64, l: bv64, a: bv64, b: bv64): Cpu {
    var db := Get(c, X(9));
    c.(pc := h + 20, regs := c.regs[X(10) := e][X(11) := l][X(12) := Class(e)],
       stores := c.stores[Location(Plus(db, a)) := e][Location(Plus(db, b)) := l])
  }

  lemma ReadsSystem(c: Cpu, rt: bv32, name: bv32, elr: Name)
    requires rt < 31
    ensures Execute(c, Mrs(rt, name), elr) == c.(pc := c.pc + 4, regs := c.regs[X(rt) := Get(c, Sys(name))])
  {
    hide Plus, Field, Insert, Signed;
  }

  lemma StoresRegister(c: Cpu, rt: bv32, off: bv64, elr: Name)
    requires rt < 31
    ensures Execute(c, Store(rt, 9, off), elr)
         == c.(pc := c.pc + 4, stores := c.stores[Location(Plus(Get(c, X(9)), off)) := Get(c, X(rt))])
  {
    hide Plus, Field, Insert, Signed;
  }

  lemma ExtractsClass(c: Cpu, elr: Name)
    ensures Execute(c, Ubfm(12, 10, 26, 31), elr) == c.(pc := c.pc + 4, regs := c.regs[X(12) := Class(Get(c, X(10)))])
  {
    hide Plus, Field, Insert, Signed, Class;
    ClassField(Get(c, X(10)));
  }

  lemma ReadsBoth(mem: Memory, c: Cpu, h: nat, words: seq<bv32>, e: bv32, l: bv32, n: nat)
    requires Placed(mem, h, words) && |words| > 1 && c.pc == h && !c.returned
    requires Decode(words[0]) == Mrs(10, e) && Decode(words[1]) == Mrs(11, l)
    ensures var after := c.(pc := h + 8, regs := c.regs[X(10) := Get(c, Sys(e))][X(11) := Get(c, Sys(l))]);
            Run(mem, c, n + 2, Sys(l)) == Run(mem, after, n, Sys(l))
  {
    hide Decode, Run, Placed, Execute;
    ReadsSystem(c, 10, e, Sys(l));
    Fetch(mem, h, words, 0, c, n + 1, Sys(l), Mrs(10, e));
    var c1 := c.(pc := h + 4, regs := c.regs[X(10) := Get(c, Sys(e))]);
    ReadsSystem(c1, 11, l, Sys(l));
    Fetch(mem, h, words, 1, c1, n, Sys(l), Mrs(11, l));
  }

  lemma Reports(mem: Memory, c: Cpu, h: nat, words: seq<bv32>, a: bv64, b: bv64, n: nat, elr: Name)
    requires Placed(mem, h, words) && |words| > 3 && c.pc == h + 8 && !c.returned
    requires Decode(words[2]) == Store(10, 9, a) && Decode(words[3]) == Store(11, 9, b)
    ensures var db := Get(c, X(9));
            var stores := c.stores[Location(Plus(db, a)) := Get(c, X(10))][Location(Plus(db, b)) := Get(c, X(11))];
            Run(mem, c, n + 2, elr) == Run(mem, c.(pc := h + 16, stores := stores), n, elr)
  {
    hide Decode, Run, Placed, Execute, Plus;
    StoresRegister(c, 10, a, elr);
    Fetch(mem, h, words, 2, c, n + 1, elr, Store(10, 9, a));
    var c1 := c.(pc := h + 12, stores := c.stores[Location(Plus(Get(c, X(9)), a)) := Get(c, X(10))]);
    StoresRegister(c1, 11, b, elr);
    Fetch(mem, h, words, 3, c1, n, elr, Store(11, 9, b));
  }

  lemma Opening(mem: Memory, c: Cpu, h: nat, words: seq<bv32>, e: bv32, l: bv32, a: bv64, b: bv64, n: nat)
    requires Placed(mem, h, words) && c.pc == h && !c.returned && |words| > 4
    requires Decode(words[0]) == Mrs(10, e) && Decode(words[1]) == Mrs(11, l) && Decode(words[2]) == Store(10, 9, a)
    requires Decode(words[3]) == Store(11, 9, b) && Decode(words[4]) == Ubfm(12, 10, 26, 31)
    ensures Run(mem, c, n + 5, Sys(l)) == Run(mem, Entered(c, h, Get(c, Sys(e)), Get(c, Sys(l)), a, b), n, Sys(l))
  {
    hide Decode, Run, Placed, Execute, Class, Plus;
    var ev, lv, db := Get(c, Sys(e)), Get(c, Sys(l)), Get(c, X(9));
    ReadsBoth(mem, c, h, words, e, l, n + 3);
    var c2 := c.(pc := h + 8, regs := c.regs[X(10) := ev][X(11) := lv]);
    Reports(mem, c2, h, words, a, b, n + 1, Sys(l));
    var c4 := c2.(pc := h + 16, stores := c.stores[Location(Plus(db, a)) := ev][Location(Plus(db, b)) := lv]);
    ExtractsClass(c4, Sys(l));
    Fetch(mem, h, words, 4, c4, n, Sys(l), Ubfm(12, 10, 26, 31));
  }

  /** A compare-and-branch pair: to the MSR when the class matches, else on. */
  lemma Compares(mem: Memory, c: Cpu, h: nat, words: seq<bv32>, k: nat, ec: bv64, rel: bv64, n: nat, elr: Name)
    requires Placed(mem, h, words) && k + 1 < |words| && c.pc == h + 4 * k && !c.returned
    requires Decode(words[k]) == SubsImmediate(31, 12, ec) && Decode(words[k + 1]) == BranchIf(0, rel)
    ensures var hit := Get(c, X(12)) == ec;
            var after := c.(zero := hit, pc := c.pc + if hit then 4 + Signed(rel) else 8);
            Run(mem, c, n + 2, elr) == Run(mem, after, n, elr)
  {
    hide Decode, Run, Placed, Signed, Plus, Field, Insert;
    Fetch(mem, h, words, k, c, n + 1, elr, SubsImmediate(31, 12, ec));
    var c1 := c.(zero := Get(c, X(12)) == ec, pc := c.pc + 4);
    Fetch(mem, h, words, k + 1, c1, n, elr, BranchIf(0, rel));
  }

  /** ADD x11, x11, #4. */
  lemma Skips(mem: Memory, c: Cpu, h: nat, words: seq<bv32>, n: nat, elr: Name)
    requires Placed(mem, h, words) && |words| > 11 && Decode(words[11]) == AddImmediate(11, 11, 4)
    requires c.pc == h + 44 && !c.returned
    ensures Run(mem, c, n + 1, elr) == Run(mem, c.(pc := h + 48, regs := c.regs[X(11) := Plus(Get(c, X(11)), 4)]), n, elr)
  {
    hide Decode, Run, Placed, Plus, Field, Insert, Signed;
    Fetch(mem, h, words, 11, c, n, elr, AddImmediate(11, 11, 4));
  }

  /** The core after MSR ELR, x11 and ERET. */
  function Left(c: Cpu, elr: Name): Cpu {
    var v := Get(c, X(11));
    c.(pc := v as int, returned := true, regs := c.regs[elr := v])
  }

  lemma Leaves(mem: Memory, c: Cpu, h: nat, words: seq<bv32>, l: bv32, n: nat)
    requires Placed(mem, h, words) && |words| > 13 && Decode(words[12]) == Msr(11, l) && Decode(words[13]) == Eret
    requires c.pc == h + 48 && !c.returned
    ensures Run(mem, c, n + 2, Sys(l)) == Left(c, Sys(l))
  {
    hide Decode, Run, Placed, Plus, Field, Insert, Signed;
    Fetch(mem, h, words, 12, c, n + 1, Sys(l), Msr(11, l));
    var c1 := c.(pc := h + 52, regs := c.regs[Sys(l) := Get(c, X(11))]);
    Fetch(mem, h, words, 13, c1, n, Sys(l), Eret);
    Stays(mem, Left(c, Sys(l)), n, Sys(l));
  }

  lemma Stays(mem: Memory, c: Cpu, n: nat, elr: Name)
    requires c.returned
    ensures Run(mem, c, n, elr) == c
  {
  }

  /** SVC, HVC and SMC have left the return address behind the instruction already. */
  predicate PastInstruction(ec: bv64) { ec == 0x15 || ec == 0x16 || ec == 0x17 }

  function Resume(esr: bv64, elr: bv64): bv64 { if PastInstruction(Class(esr)) then elr else Plus(elr, 4) }

  /** What an exception leaves behind: both values at their doorbells, and the core back at the right instruction. */
  ghost predicate Served(c: Cpu, d: Cpu, e: Name, l: Name, a: bv64, b: bv64) {
    var ev, lv, db := Get(c, e), Get(c, l), Get(c, X(9));
    && d.returned && d.pc == Resume(ev, lv) as int && Get(d, l) == Resume(ev, lv)
    && d.stores == c.stores[Location(Plus(db, a)) := ev][Location(Plus(db, b)) := lv]
    && forall r :: r !in {X(10), X(11), X(12), l} ==> Get(d, r) == Get(c, r)
  }

  lemma ServedWhenLeft(c: Cpu, h: int, z: bool, pc: int, e: bv32, l: bv32, a: bv64, b: bv64, v: bv64)
    requires v == Resume(Get(c, Sys(e)), Get(c, Sys(l)))
    ensures var entered := Entered(c, h, Get(c, Sys(e)), Get(c, Sys(l)), a, b);
            Served(c, Left(entered.(zero := z, pc := pc, regs := entered.regs[X(11) := v]), Sys(l)), Sys(e), Sys(l), a, b)
  {
    hide Plus, Resume, Class;
  }

  lemma EnteredReads(c: Cpu, h: int, e: bv64, l: bv64, a: bv64, b: bv64)
    ensures var d := Entered(c, h, e, l, a, b);
            X(11) in d.regs && Get(d, X(12)) == Class(e) && Get(d, X(11)) == l && d.pc == h + 20 && d.returned == c.returned
  {
    hide Class, Plus;
  }

  predicate After(c: Cpu, d: Cpu, h: int, e: bv32, l: bv32, a: bv64, b: bv64) {
    d == Entered(c, h, Get(c, Sys(e)), Get(c, Sys(l)), a, b).(zero := d.zero, pc := d.pc)
  }

  lemma EnteredIsAfter(c: Cpu, h: int, e: bv32, l: bv32, a: bv64, b: bv64)
    ensures After(c, Entered(c, h, Get(c, Sys(e)), Get(c, Sys(l)), a, b), h, e, l, a, b)
  {
    hide Entered;
  }

  lemma AfterReads(c: Cpu, d: Cpu, h: int, e: bv32, l: bv32, a: bv64, b: bv64)
    requires After(c, d, h, e, l, a, b)
    ensures X(11) in d.regs && Get(d, X(12)) == Class(Get(c, Sys(e))) && Get(d, X(11)) == Get(c, Sys(l))
    ensures d.returned == c.returned && forall z, pc :: After(c, d.(zero := z, pc := pc), h, e, l, a, b)
  {
    hide Entered, Class;
    EnteredReads(c, h, Get(c, Sys(e)), Get(c, Sys(l)), a, b);
  }

  /** Leaving after the opening, with the right address in x11, is having served the exception. */
  lemma LeftServes(c: Cpu, d: Cpu, h: int, pc: int, e: bv32, l: bv32, a: bv64, b: bv64, v: bv64)
    requires After(c, d, h, e, l, a, b) && v == Resume(Get(c, Sys(e)), Get(c, Sys(l)))
    ensures Served(c, Left(d.(pc := pc, regs := d.regs[X(11) := v]), Sys(l)), Sys(e), Sys(l), a, b)
  {
    hide Entered, Served, Left, Resume, Plus;
    ServedWhenLeft(c, h, d.zero, pc, e, l, a, b, v);
  }

  lemma Finish(mem: Memory, c: Cpu, d: Cpu, h: nat, words: seq<bv32>, e: bv32, l: bv32, a: bv64, b: bv64, n: nat)
    requires Placed(mem, h, words) && Reads(words, e, l, a, b) && After(c, d, h, e, l, a, b) && d.pc == h + 48 && !c.returned
    requires PastInstruction(Class(Get(c, Sys(e))))
    ensures Served(c, Run(mem, d, n + 2, Sys(l)), Sys(e), Sys(l), a, b)
  {
    hide Decode, Run, Placed, Class, Plus, Served, Left, Reads, After;
    AfterReads(c, d, h, e, l, a, b);
    Parts(words, e, l, a, b);
    Leaves(mem, d, h, words, l, n);
    SameRegister(d, Get(c, Sys(l)));
    LeftServes(c, d, h, d.pc, e, l, a, b, Get(c, Sys(l)));
  }

  lemma SameRegister(c: Cpu, v: bv64)
    requires X(11) in c.regs && Get(c, X(11)) == v
    ensures c.(pc := c.pc, regs := c.regs[X(11) := v]) == c
  {
    assert c.regs[X(11) := v] == c.regs;
  }

  lemma FinishSkipping(mem: Memory, c: Cpu, d: Cpu, h: nat, words: seq<bv32>, e: bv32, l: bv32, a: bv64, b: bv64)
    requires Placed(mem, h, words) && Reads(words, e, l, a, b) && After(c, d, h, e, l, a, b) && d.pc == h + 44 && !c.returned
    requires !PastInstruction(Class(Get(c, Sys(e))))
    ensures Served(c, Run(mem, d, 3, Sys(l)), Sys(e), Sys(l), a, b)
  {
    hide Decode, Run, Placed, Class, Plus, Served, Left, Reads, After;
    AfterReads(c, d, h, e, l, a, b);
    Parts(words, e, l, a, b);
    Skips(mem, d, h, words, 2, Sys(l));
    var v := Plus(Get(c, Sys(l)), 4);
    Leaves(mem, d.(pc := h + 48, regs := d.regs[X(11) := v]), h, words, l, 0);
    LeftServes(c, d, h, h + 48, e, l, a, b, v);
  }

  lemma Parts(words: seq<bv32>, e: bv32, l: bv32, a: bv64, b: bv64)
    requires Reads(words, e, l, a, b)
    ensures |words| == 14
    ensures Decode(words[0]) == Mrs(10, e) && Decode(words[1]) == Mrs(11, l) && Decode(words[2]) == Store(10, 9, a)
    ensures Decode(words[3]) == Store(11, 9, b) && Decode(words[4]) == Ubfm(12, 10, 26, 31)
    ensures Decode(words[11]) == AddImmediate(11, 11, 4) && Decode(words[12]) == Msr(11, l) && Decode(words[13]) == Eret
  {
    hide Decode;
  }

  lemma Comparison(words: seq<bv32>, k: nat, e: bv32, l: bv32, a: bv64, b: bv64)
    requires Reads(words, e, l, a, b)
    ensures |words| == 14
    ensures k == 5 ==> Decode(words[5]) == SubsImmediate(31, 12, 0x15) && Decode(words[6]) == BranchIf(0, 24)
    ensures k == 7 ==> Decode(words[7]) == SubsImmediate(31, 12, 0x16) && Decode(words[8]) == BranchIf(0, 16)
    ensures k == 9 ==> Decode(words[9]) == SubsImmediate(31, 12, 0x17) && Decode(words[10]) == BranchIf(0, 8)
  {
  }

  /** The last comparison, against SMC. */
  lemma TestsSmc(mem: Memory, c: Cpu, d: Cpu, h: nat, words: seq<bv32>, e: bv32, l: bv32, a: bv64, b: bv64)
    requires Placed(mem, h, words) && Reads(words, e, l, a, b) && After(c, d, h, e, l, a, b) && d.pc == h + 36 && !c.returned
    requires Class(Get(c, Sys(e))) != 0x15 && Class(Get(c, Sys(e))) != 0x16
    ensures Served(c, Run(mem, d, 5, Sys(l)), Sys(e), Sys(l), a, b)
  {
    hide Decode, Run, Placed, Class, Plus, Served, Reads, Signed, After;
    AfterReads(c, d, h, e, l, a, b);
    ShortDistances();
    Comparison(words, 9, e, l, a, b);
    Compares(mem, d, h, words, 9, 0x17, 8, 3, Sys(l));
    if Class(Get(c, Sys(e))) == 0x17 {
      Finish(mem, c, d.(zero := true, pc := h + 48), h, words, e, l, a, b, 1);
    } else {
      FinishSkipping(mem, c, d.(zero := false, pc := h + 44), h, words, e, l, a, b);
    }
  }

  /** The second comparison, against HVC. */
  lemma TestsHvc(mem: Memory, c: Cpu, d: Cpu, h: nat, words: seq<bv32>, e: bv32, l: bv32, a: bv64, b: bv64)
    requires Placed(mem, h, words) && Reads(words, e, l, a, b) && After(c, d, h, e, l, a, b) && d.pc == h + 28 && !c.returned
    requires Class(Get(c, Sys(e))) != 0x15
    ensures Served(c, Run(mem, d, 7, Sys(l)), Sys(e), Sys(l), a, b)
  {
    hide Decode, Run, Placed, Class, Plus, Served, Reads, Signed, After;
    AfterReads(c, d, h, e, l, a, b);
    ShortDistances();
    Comparison(words, 7, e, l, a, b);
    Compares(mem, d, h, words, 7, 0x16, 16, 5, Sys(l));
    if Class(Get(c, Sys(e))) == 0x16 {
      Finish(mem, c, d.(zero := true, pc := h + 48), h, words, e, l, a, b, 3);
    } else {
      TestsSmc(mem, c, d.(zero := false, pc := h + 36), h, words, e, l, a, b);
    }
  }

  /** The first comparison, against SVC. */
  lemma TestsSvc(mem: Memory, c: Cpu, d: Cpu, h: nat, words: seq<bv32>, e: bv32, l: bv32, a: bv64, b: bv64)
    requires Placed(mem, h, words) && Reads(words, e, l, a, b) && After(c, d, h, e, l, a, b) && d.pc == h + 20 && !c.returned
    ensures Served(c, Run(mem, d, 9, Sys(l)), Sys(e), Sys(l), a, b)
  {
    hide Decode, Run, Placed, Class, Plus, Served, Reads, Signed, After;
    AfterReads(c, d, h, e, l, a, b);
    ShortDistances();
    Comparison(words, 5, e, l, a, b);
    Compares(mem, d, h, words, 5, 0x15, 24, 7, Sys(l));
    if Class(Get(c, Sys(e))) == 0x15 {
      Finish(mem, c, d.(zero := true, pc := h + 48), h, words, e, l, a, b, 5);
    } else {
      TestsHvc(mem, c, d.(zero := false, pc := h + 28), h, words, e, l, a, b);
    }
  }

  /** The handler, run for any syndrome and any return address: at most fourteen instructions serve the exception. */
  lemma HandlerServes(mem: Memory, c: Cpu, h: nat, words: seq<bv32>, e: bv32, l: bv32, a: bv64, b: bv64)
    requires Placed(mem, h, words) && Reads(words, e, l, a, b) && c.pc == h && !c.returned
    ensures Served(c, Run(mem, c, 14, Sys(l)), Sys(e), Sys(l), a, b)
  {
    hide Decode, Run, Placed, Class, Plus, Served, Entered, Reads, After;
    EnteredReads(c, h, Get(c, Sys(e)), Get(c, Sys(l)), a, b);
    EnteredIsAfter(c, h, e, l, a, b);
    Parts(words, e, l, a, b);
    Opening(mem, c, h, words, e, l, a, b, 9);
    TestsSvc(mem, c, Entered(c, h, Get(c, Sys(e)), Get(c, Sys(l)), a, b), h, words, e, l, a, b);
  }

  /** From any of the sixteen slots of an assembled vector table, every exception is reported and resumed. */
  lemma VectorsServe(mem: Memory, table: nat, esr: SysReg, elr: SysReg, dbEsr: bv32, dbElr: bv32, c: Cpu, i: nat)
    requires esr.Valid() && elr.Valid() && Doorbell(dbEsr) && Doorbell(dbElr)
    requires Slots(mem, table, 16) && Placed(mem, table + 0x800, HandlerWords(esr, elr, dbEsr, dbElr))
    requires i < 16 && c.pc == SlotAddress(table, i) && !c.returned
    ensures var (e, l) := (Sys(SysBits(esr)), Sys(SysBits(elr)));
            Served(c, Run(mem, c, 15, l), e, l, Wide(dbEsr), Wide(dbElr))
  {
    hide Decode, Run, Placed, Served, SysBits, Wide, Doorbell, SysReg.Valid, HandlerWords, Reads, Slots;
    var l := Sys(SysBits(elr));
    var h := c.(pc := table + 0x800);
    HandlerReads(esr, elr, dbEsr, dbElr);
    SlotBranches(mem, c, table, i, 14, l);
    HandlerServes(mem, h, table + 0x800, HandlerWords(esr, elr, dbEsr, dbElr), SysBits(esr), SysBits(elr), Wide(dbEsr), Wide(dbElr));
    SameService(c, h, Run(mem, h, 14, l), Sys(SysBits(esr)), l, Wide(dbEsr), Wide(dbElr));
  }

  lemma SameService(c: Cpu, h: Cpu, d: Cpu, e: Name, l: Name, a: bv64, b: bv64)
    requires h == c.(pc := h.pc) && Served(h, d, e, l, a, b)
    ensures Served(c, d, e, l, a, b)
  {
    hide Plus, Resume;
  }

  /** The two installed tables serve exceptions taken at their own level. */
  lemma InstalledVectorsServe(mem: Memory, c: Cpu, i: nat)
    requires Installed(mem) && i < 16 && !c.returned
    ensures c.pc == SlotAddress(GUEST_BASE + VBAR1_OFF, i) ==>
              Served(c, Run(mem, c, 15, Sys(SysBits(ELR_EL1))), Sys(SysBits(ESR_EL1)), Sys(SysBits(ELR_EL1)), 0x20, 0x28)
    ensures c.pc == SlotAddress(GUEST_BASE + VBAR2_OFF, i) ==>
              Served(c, Run(mem, c, 15, Sys(SysBits(ELR_EL2))), Sys(SysBits(ESR_EL2)), Sys(SysBits(ELR_EL2)), 0x30, 0x38)
  {
    hide Decode, Run, Placed, Served, SysBits, HandlerWords, Slots, Doorbell, SysReg.Valid, Wide;
    Constants();
    if c.pc == SlotAddress(GUEST_BASE + VBAR1_OFF, i) {
      VectorsServe(mem, GUEST_BASE + VBAR1_OFF, ESR_EL1, ELR_EL1, DB_EXC1_ESR, DB_EXC1_ELR, c, i);
    }
    if c.pc == SlotAddress(GUEST_BASE + VBAR2_OFF, i) {
      VectorsServe(mem, GUEST_BASE + VBAR2_OFF, ESR_EL2, ELR_EL2, DB_EXC2_ESR, DB_EXC2_ELR, c, i);
    }
  }

  lemma Constants()
    ensures ESR_EL1.Valid() && ELR_EL1.Valid() && ESR_EL2.Valid() && ELR_EL2.Valid()
    ensures Doorbell(DB_EXC1_ESR) && Doorbell(DB_EXC1_ELR) && Doorbell(DB_EXC2_ESR) && Doorbell(DB_EXC2_ELR)
    ensures Wide(DB_EXC1_ESR) == 0x20 && Wide(DB_EXC1_ELR) == 0x28 && Wide(DB_EXC2_ESR) == 0x30 && Wide(DB_EXC2_ELR) == 0x38
  {
  }
}
