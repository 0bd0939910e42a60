/** dcp_dtable.py's interpreter: just enough AArch64 to walk a compiler-generated switch, from decoded instructions on. */
module DcpInterpreter {
  import opened Results
  import opened Bytes

  const LIMIT64 := 0x1_0000_0000_0000_0000
  const LIMIT32 := 0x1_0000_0000
  const BASE := 0xFFFF_FFF0_0700_4000

  datatype Error = NoInstruction | BadAddress | BadShift | NoReturn

  /** x0..x30 or w0..w30; number 31 is the zero register of either width. */
  datatype Reg = Reg(n: nat, wide: bool)

  datatype Operand = Imm(value: int) | Val(reg: Reg)

  /** What may follow the last operand. */
  datatype Extension = Lsl(k: nat) | Uxtw(k: nat) | Sxtw(k: nat)

  datatype Cond = EQ | NE | HS | LO | MI | PL | VS | VC | HI | LS | GE | LT | GT | LE | AL

  datatype Logic = And | Orr | Eor

  /** [base, index] with the extensions of the index. */
  datatype Address = Address(base: Reg, index: Operand, ext: seq<Extension>)

  datatype Op =
    | Skip
    | Mov(dst: Reg, src: Operand)
    | Movk(dst: Reg, imm: nat, shift: nat)
    | Arith(into: Option<Reg>, a: Reg, b: Operand, ext: seq<Extension>, sub: bool, sets: bool)
    | Bitwise(logic: Logic, dst: Reg, a: Reg, b: Operand)
    | Shift(left: bool, dst: Reg, a: Reg, b: Operand)
    | Csel(dst: Reg, a: Reg, other: Reg, cc: Cond)
    | Csneg(dst: Reg, a: Reg, other: Reg, cc: Cond)
    | Cset(dst: Reg, cc: Cond)
    | Ccmp(a: Reg, b: Operand, nzcv: nat, cc: Cond)
    | Adr(dst: Reg, target: int)
    | Ldrsw(dst: Reg, from: Address)
    | Ldr(dst: Reg, from: Address)
    | B(target: int)
    | Bcond(cc: Cond, target: int)
    | Cbz(reg: Reg, target: int, zero: bool)
    | Tbz(reg: Reg, bit: nat, target: int, zero: bool)
    | Br(reg: Reg)
    | Braa(reg: Reg)
    | Ret

  datatype Flags = Flags(n: bool, z: bool, c: bool, v: bool)

  datatype State = State(r: seq<int>, flags: Flags, pc: int)

  /** The registers are those of a 64-bit machine. */
  predicate Sound(s: State) { |s.r| == 32 && forall i :: 0 <= i < 32 ==> 0 <= s.r[i] < LIMIT64 }

  function Width(wide: bool): (m: int)
    ensures m > 1 && m % 2 == 0
  {
    if wide then LIMIT64 else LIMIT32
  }

  /** rd: the zero register reads as zero, a w name as the low half. */
  function Rd(r: seq<int>, reg: Reg): int
    requires |r| == 32
  {
    if reg.n >= 31 then 0 else r[reg.n] % Width(reg.wide)
  }

  /** wr: a w name clears the upper half. */
  function Wr(r: seq<int>, reg: Reg, val: int): seq<int>
    requires |r| == 32
  {
    if reg.n >= 31 then r else r[reg.n := val % Width(reg.wide)]
  }

  /** sx: the low `m` values read as two's complement. */
  function Sx(v: int, m: int): int
    requires m > 1 && m % 2 == 0
  {
    var u := v % m;
    if u >= m / 2 then u - m else u
  }

  /** The top bit of a value below `m`. */
  predicate Top(u: int, m: int)
    requires m > 1
  {
    u >= m / 2
  }

  /** flags: NZCV of a - b or a + b on values of width `m`, and the result. */
  function SetFlags(a0: int, b0: int, m: int, sub: bool): (Flags, int)
    requires m > 1 && m % 2 == 0
  {
    var a, b := a0 % m, b0 % m;
    if sub then
      var res := (a - b) % m;
      (Flags(Top(res, m), res == 0, a >= b, Top(a, m) != Top(b, m) && Top(a, m) != Top(res, m)), res)
    else
      var res := (a + b) % m;
      (Flags(Top(res, m), res == 0, a + b > m - 1, Top(a, m) == Top(b, m) && Top(a, m) != Top(res, m)), res)
  }

  predicate Holds(f: Flags, cc: Cond) {
    match cc
    case EQ => f.z
    case NE => !f.z
    case HS => f.c
    case LO => !f.c
    case MI => f.n
    case PL => !f.n
    case VS => f.v
    case VC => !f.v
    case HI => f.c && !f.z
    case LS => !f.c || f.z
    case GE => f.n == f.v
    case LT => f.n != f.v
    case GT => !f.z && f.n == f.v
    case LE => f.z || f.n != f.v
    case AL => true
  }

  function Pow2(n: nat): (p: int)
    ensures p > 0
  {
    if n == 0 then 1 else 2 * Pow2(n - 1)
  }

  function Value(r: seq<int>, o: Operand): int
    requires |r| == 32
  {
    match o
    case Imm(v) => v
    case Val(reg) => Rd(r, reg)
  }

  /** The extensions of an arithmetic operand, in order. */
  function Extend(b: int, ext: seq<Extension>): int
    decreases |ext|
  {
    if ext == [] then b
    else
      var v := match ext[0]
               case Lsl(k) => (b * Pow2(k)) % LIMIT64
               case Uxtw(k) => b % LIMIT32 * Pow2(k)
               case Sxtw(k) => (Sx(b, LIMIT32) * Pow2(k)) % LIMIT64;
      Extend(v, ext[1..])
  }

  /** The extensions of an index: a shift and a sign may leave 64 bits here; the mask comes at the end. */
  function ExtendIndex(i: int, ext: seq<Extension>): int
    decreases |ext|
  {
    if ext == [] then i
    else
      var v := match ext[0]
               case Lsl(k) => i * Pow2(k)
               case Uxtw(k) => i % LIMIT32 * Pow2(k)
               case Sxtw(k) => Sx(i, LIMIT32) * Pow2(k);
      ExtendIndex(v, ext[1..])
  }

  /** _mem, summed up: the sum itself is not reduced to 64 bits. */
  function Effective(r: seq<int>, m: Address): int
    requires |r| == 32
  {
    Rd(r, m.base) + ExtendIndex(Value(r, m.index), m.ext) % LIMIT64
  }

  /** Bit by bit, on non-negative numbers below 2^bits. */
  function BitOp(l: Logic, a: int, b: int, bits: nat): int
    decreases bits
  {
    if bits == 0 then 0
    else
      var x, y := a % 2 == 1, b % 2 == 1;
      var bit := match l
                 case And => x && y
                 case Orr => x || y
                 case Eor => x != y;
      (if bit then 1 else 0) + 2 * BitOp(l, a / 2, b / 2, bits - 1)
  }

  /** d[i:j] as Python slices, where a negative index counts from the end. */
  function PySlice(d: seq<byte>, i: int, j: int): seq<byte> {
    var lo := if i < 0 then (if i + |d| < 0 then 0 else i + |d|) else if i > |d| then |d| else i;
    var hi := if j < 0 then (if j + |d| < 0 then 0 else j + |d|) else if j > |d| then |d| else j;
    if lo >= hi then [] else d[lo..hi]
  }

  /** struct.unpack of the `n` bytes at an address of the image. */
  function Load(d: seq<byte>, va: int, n: nat): Result<int, Error> {
    var b := PySlice(d, va - BASE, va - BASE + n);
    if |b| != n then Err(BadAddress) else Ok(Little(b))
  }

  /** A chained-fixup word names a file offset; anything else is an address. */
  function Rebase(v: int): int {
    if v / LIMIT32 == 0xFFFF_FFF0 then v
    else if v / 0x8000_0000_0000_0000 != 0 then BASE + v % LIMIT32
    else v
  }

  /** What one instruction does: go on, or return a value. */
  datatype Effect = Go(s: State) | Return(value: int)

  function Flagged(s: State, f: Flags): State { s.(flags := f) }

  function To(s: State, pc: int): Effect { Go(s.(pc := pc)) }

  function Set(s: State, reg: Reg, val: int): Effect
    requires |s.r| == 32
  {
    Go(s.(r := Wr(s.r, reg, val), pc := s.pc + 4))
  }

  function Step(s: State, op: Op, d: seq<byte>): Result<Effect, Error>
    requires |s.r| == 32
  {
    match op
    case Skip => Ok(To(s, s.pc + 4))
    case Mov(dst, src) => Ok(Set(s, dst, Value(s.r, src)))
    case Movk(dst, imm, shift) => Ok(Set(s, dst, Insert(Rd(s.r, dst), imm, shift)))
    case Arith(dst, a, b, ext, sub, sets) => Ok(StepArith(s, dst, a, b, ext, sub, sets))
    case Bitwise(l, dst, a, b) => Ok(Set(s, dst, BitOp(l, Rd(s.r, a), Value(s.r, b) % LIMIT64, 64)))
    case Shift(left, dst, a, b) =>
      var count := Value(s.r, b);
      if count < 0 then Err(BadShift)
      else Ok(Set(s, dst, if left then Rd(s.r, a) * Pow2(count) else Rd(s.r, a) / Pow2(count)))
    case Csel(dst, a, b, cc) => Ok(Set(s, dst, if Holds(s.flags, cc) then Rd(s.r, a) else Rd(s.r, b)))
    case Csneg(dst, a, b, cc) => Ok(Set(s, dst, if Holds(s.flags, cc) then Rd(s.r, a) else -Rd(s.r, b) % LIMIT64))
    case Cset(dst, cc) => Ok(Set(s, dst, if Holds(s.flags, cc) then 1 else 0))
    case Ccmp(a, b, nzcv, cc) =>
      var f := if Holds(s.flags, cc) then SetFlags(Rd(s.r, a), Value(s.r, b), Width(a.wide), true).0
               else Flags(nzcv / 8 % 2 == 1, nzcv / 4 % 2 == 1, nzcv / 2 % 2 == 1, nzcv % 2 == 1);
      Ok(To(Flagged(s, f), s.pc + 4))
    case Adr(dst, target) => Ok(Set(s, dst, target))
    case Ldrsw(dst, from) =>
      var v :- Load(d, Effective(s.r, from), 4);
      Ok(Set(s, dst, Sx(v, LIMIT32) % LIMIT64))
    case Ldr(dst, from) =>
      var v :- Load(d, Effective(s.r, from), if dst.wide then 8 else 4);
      Ok(Set(s, dst, v))
    case B(target) => Ok(To(s, target))
    case Bcond(cc, target) => Ok(To(s, if Holds(s.flags, cc) then target else s.pc + 4))
    case Cbz(reg, target, zero) => Ok(To(s, if (Rd(s.r, reg) == 0) == zero then target else s.pc + 4))
    case Tbz(reg, bit, target, zero) =>
      Ok(To(s, if (Rd(s.r, reg) / Pow2(bit) % 2 == 0) == zero then target else s.pc + 4))
    case Br(reg) => Ok(To(s, Rd(s.r, reg)))
    case Braa(reg) => Ok(To(s, Rebase(Rd(s.r, reg))))
    case Ret => Ok(Return(Rebase(s.r[0])))
  }

  /** movk: sixteen bits from `shift` on replaced. */
  function Insert(cur: int, imm: nat, shift: nat): int {
    cur - cur / Pow2(shift) % 0x1_0000 * Pow2(shift) + imm * Pow2(shift)
  }

  function StepArith(s: State, dst: Option<Reg>, a: Reg, b: Operand, ext: seq<Extension>, sub: bool, sets: bool): Effect
    requires |s.r| == 32
  {
    var m := Width(match dst case Some(d) => d.wide case None => a.wide);
    var x, y := Rd(s.r, a), Extend(Value(s.r, b), ext);
    var (f, res) := SetFlags(x, y, m, sub);
    var t := if sets then Flagged(s, f) else s;
    if dst.Some? then Set(t, dst.value, res) else To(t, t.pc + 4)
  }

  /** insn: the decoded instruction at an address, when there is one the interpreter knows. */
  type Code = int -> Option<Op>

  function Run(s: State, code: Code, d: seq<byte>, limit: nat): Result<int, Error>
    requires |s.r| == 32
    decreases limit
  {
    if limit == 0 then Err(NoReturn)
    else match code(s.pc)
      case None => Err(NoInstruction)
      case Some(op) =>
        match Step(s, op, d)
        case Err(e) => Err(e)
        case Ok(Return(v)) => Ok(v)
        case Ok(Go(t)) => Run(t, code, d, limit - 1)
  }

  function Initial(entry: int, namereg: nat, name: int): State
    requires namereg < 32
  {
    State(seq(32, _ => 0)[namereg := name], Flags(false, false, false, false), entry)
  }

  lemma StepKeepsLength(s: State, op: Op, d: seq<byte>)
    requires |s.r| == 32
    ensures Step(s, op, d).Ok? && Step(s, op, d).value.Go? ==> |Step(s, op, d).value.s.r| == 32
  {
    hide Insert, BitOp, Effective, Load, Extend, SetFlags;
  }
}
