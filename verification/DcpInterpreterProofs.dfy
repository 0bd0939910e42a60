/** The interpreter's conditions are comparisons, its steps keep the register file sound, and its switches dispatch. */
module DcpInterpreterProofs {
  import opened Results
  import opened Bytes
  import opened DcpInterpreter

  // ---------- conditions ----------

  /** The comparison each condition names, on the operands as unsigned and as two's-complement numbers. */
  predicate Compares(cc: Cond, a: int, b: int, m: int)
    requires m > 1 && m % 2 == 0
  {
    match cc
    case EQ => a % m == b % m
    case NE => a % m != b % m
    case HS => a % m >= b % m
    case LO => a % m < b % m
    case HI => a % m > b % m
    case LS => a % m <= b % m
    case GE => Sx(a, m) >= Sx(b, m)
    case LT => Sx(a, m) < Sx(b, m)
    case GT => Sx(a, m) > Sx(b, m)
    case LE => Sx(a, m) <= Sx(b, m)
    case MI => Sx(a - b, m) < 0
    case PL => Sx(a - b, m) >= 0
    case VS => !(-(m / 2) <= Sx(a, m) - Sx(b, m) < m / 2)
    case VC => -(m / 2) <= Sx(a, m) - Sx(b, m) < m / 2
    case AL => true
  }

  lemma Reduced64(a: int, b: int)
    ensures (a % 0x1_0000_0000_0000_0000 - b % 0x1_0000_0000_0000_0000) % 0x1_0000_0000_0000_0000 == (a - b) % 0x1_0000_0000_0000_0000
  {
  }

  lemma Reduced32(a: int, b: int)
    ensures (a % 0x1_0000_0000 - b % 0x1_0000_0000) % 0x1_0000_0000 == (a - b) % 0x1_0000_0000
  {
  }

  lemma MulSign(q: int, m: nat)
    ensures q >= 0 ==> q * m >= 0
    ensures q <= -2 ==> q * m <= -2 * m
  {
  }

  lemma NegativeMod(d: int, m: nat)
    requires 0 - m < d < 0
    ensures d % m == d + m
  {
    MulSign(d / m, m);
    assert d == d / m * m + d % m;
  }

  /** For reduced operands the difference wraps at most once. */
  lemma Wraps(x: int, y: int, m: nat)
    requires 0 <= x < m && 0 <= y < m
    ensures (x - y) % m == if x >= y then x - y else x - y + m
  {
    if x < y {
      NegativeMod(x - y, m);
    }
  }

  lemma Reduced(a: int, b: int, wide: bool)
    ensures (a % Width(wide) - b % Width(wide)) % Width(wide) == (a - b) % Width(wide)
  {
    Reduced64(a, b);
    Reduced32(a, b);
  }

  /** After the interpreter's subtraction every condition is the comparison it names, at both widths. */
  lemma CondIsComparison(a: int, b: int, wide: bool, cc: Cond)
    ensures Holds(SetFlags(a, b, Width(wide), true).0, cc) <==> Compares(cc, a, b, Width(wide))
  {
    hide Width;
    var m := Width(wide);
    Wraps(a % m, b % m, m);
    Reduced(a, b, wide);
  }

  lemma Reduced64Sum(a: int, b: int)
    ensures (a % 0x1_0000_0000_0000_0000 + b % 0x1_0000_0000_0000_0000) % 0x1_0000_0000_0000_0000 == (a + b) % 0x1_0000_0000_0000_0000
  {
  }

  lemma Reduced32Sum(a: int, b: int)
    ensures (a % 0x1_0000_0000 + b % 0x1_0000_0000) % 0x1_0000_0000 == (a + b) % 0x1_0000_0000
  {
  }

  lemma SumWraps(x: int, y: int, m: nat)
    requires 0 <= x < m && 0 <= y < m
    ensures (x + y) % m == if x + y < m then x + y else x + y - m
  {
    if x + y >= m {
      OneMore(x + y - m, m);
    }
  }

  lemma OneMore(d: int, m: nat)
    requires 0 <= d < m
    ensures (d + m) % m == d
  {
    var q, r := (d + m) / m, (d + m) % m;
    assert d + m == q * m + r;
    MulSign(q - 2, m);
    MulSign(q - 1, m);
    assert (q - 2) * m == q * m - 2 * m && (q - 1) * m == q * m - m;
  }

  /** After an addition: carry is unsigned overflow, overflow is signed overflow, N and Z describe the reduced sum. */
  lemma AdditionFlags(a: int, b: int, wide: bool)
    ensures var m := Width(wide);
            var (f, res) := SetFlags(a, b, m, false);
            && res == (a + b) % m
            && (f.c <==> a % m + b % m >= m) && (f.z <==> (a + b) % m == 0) && (f.n <==> Sx(a + b, m) < 0)
            && (f.v <==> !(-(m / 2) <= Sx(a, m) + Sx(b, m) < m / 2))
  {
    hide Width;
    var m := Width(wide);
    SumWraps(a % m, b % m, m);
    ReducedSum(a, b, wide);
  }

  lemma ReducedSum(a: int, b: int, wide: bool)
    ensures (a % Width(wide) + b % Width(wide)) % Width(wide) == (a + b) % Width(wide)
  {
    Reduced64Sum(a, b);
    Reduced32Sum(a, b);
  }

  // ---------- the register file ----------

  /** The register an instruction writes. */
  function Dest(op: Op): Option<Reg> {
    match op
    case Mov(dst, _) => Some(dst)
    case Movk(dst, _, _) => Some(dst)
    case Arith(into, _, _, _, _, _) => into
    case Bitwise(_, dst, _, _) => Some(dst)
    case Shift(_, dst, _, _) => Some(dst)
    case Csel(dst, _, _, _) => Some(dst)
    case Csneg(dst, _, _, _) => Some(dst)
    case Cset(dst, _) => Some(dst)
    case Adr(dst, _) => Some(dst)
    case Ldrsw(dst, _) => Some(dst)
    case Ldr(dst, _) => Some(dst)
    case _ => None
  }

  /** Only the destination changes; written under a w name it is zero-extended; the zero register is not a register. */
  predicate WritesOnly(before: seq<int>, after: seq<int>, dst: Option<Reg>)
    requires |before| == 32 && |after| == 32
  {
    && (forall i :: 0 <= i < 32 && !(dst.Some? && dst.value.n == i && i < 31) ==> after[i] == before[i])
    && (dst.Some? && dst.value.n < 31 ==> 0 <= after[dst.value.n] < Width(dst.value.wide))
  }

  lemma WrWritesOnly(r: seq<int>, reg: Reg, val: int)
    requires |r| == 32
    ensures |Wr(r, reg, val)| == 32 && WritesOnly(r, Wr(r, reg, val), Some(reg))
  {
  }

  lemma StepWritesOnly(s: State, op: Op, d: seq<byte>)
    requires |s.r| == 32 && Step(s, op, d).Ok? && Step(s, op, d).value.Go?
    ensures |Step(s, op, d).value.s.r| == 32 && WritesOnly(s.r, Step(s, op, d).value.s.r, Dest(op))
  {
    hide Insert, BitOp, Effective, Load, Extend, SetFlags, Width, Rd, Value, Pow2, Holds, Sx, Rebase;
    var t := Step(s, op, d).value.s;
    if Dest(op).Some? {
      var val := Written(s, op, d);
      WrWritesOnly(s.r, Dest(op).value, val);
    }
  }

  lemma Written(s: State, op: Op, d: seq<byte>) returns (val: int)
    requires |s.r| == 32 && Step(s, op, d).Ok? && Step(s, op, d).value.Go? && Dest(op).Some?
    ensures Step(s, op, d).value.s.r == Wr(s.r, Dest(op).value, val)
  {
    hide Insert, BitOp, Effective, Load, Extend, SetFlags, Width, Rd, Value, Pow2, Holds, Sx, Rebase;
    match op
    case Mov(dst, src) => val := Value(s.r, src);
    case Movk(dst, imm, shift) => val := Insert(Rd(s.r, dst), imm, shift);
    case Arith(into, a, b, ext, sub, sets) =>
      val := SetFlags(Rd(s.r, a), Extend(Value(s.r, b), ext), Width(into.value.wide), sub).1;
    case Bitwise(l, dst, a, b) => val := BitOp(l, Rd(s.r, a), Value(s.r, b) % LIMIT64, 64);
    case Shift(left, dst, a, b) =>
      val := if left then Rd(s.r, a) * Pow2(Value(s.r, b)) else Rd(s.r, a) / Pow2(Value(s.r, b));
    case Csel(dst, a, b, cc) => val := if Holds(s.flags, cc) then Rd(s.r, a) else Rd(s.r, b);
    case Csneg(dst, a, b, cc) => val := if Holds(s.flags, cc) then Rd(s.r, a) else -Rd(s.r, b) % LIMIT64;
    case Cset(dst, cc) => val := if Holds(s.flags, cc) then 1 else 0;
    case Adr(dst, target) => val := target;
    case Ldrsw(dst, from) => val := Sx(Load(d, Effective(s.r, from), 4).value, LIMIT32) % LIMIT64;
    case Ldr(dst, from) => val := Load(d, Effective(s.r, from), if dst.wide then 8 else 4).value;
  }

  lemma StepKeepsSound(s: State, op: Op, d: seq<byte>)
    requires Sound(s) && Step(s, op, d).Ok? && Step(s, op, d).value.Go?
    ensures Sound(Step(s, op, d).value.s)
  {
    hide Step;
    StepWritesOnly(s, op, d);
  }

  /** The state after `n` instructions, when none of them returns or fails. */
  function After(s: State, code: Code, d: seq<byte>, n: nat): Option<State>
    requires |s.r| == 32
    decreases n
  {
    if n == 0 then Some(s)
    else match code(s.pc)
      case None => None
      case Some(op) =>
        match Step(s, op, d)
        case Ok(Go(t)) => (StepKeepsLength(s, op, d); After(t, code, d, n - 1))
        case _ => None
  }

  /** Every state the interpreter goes through keeps its registers below 2^64. */
  lemma {:induction false} RunKeepsSound(s: State, code: Code, d: seq<byte>, n: nat)
    requires Sound(s) && After(s, code, d, n).Some?
    ensures Sound(After(s, code, d, n).value)
    decreases n
  {
    hide Step;
    if n > 0 {
      var t := Step(s, code(s.pc).value, d).value.s;
      StepKeepsSound(s, code(s.pc).value, d);
      assert |t.r| == 32 by { StepKeepsLength(s, code(s.pc).value, d); }
      RunKeepsSound(t, code, d, n - 1);
    }
  }

  lemma {:induction false} RunAfter(s: State, code: Code, d: seq<byte>, n: nat, limit: nat)
    requires |s.r| == 32 && After(s, code, d, n).Some?
    ensures |After(s, code, d, n).value.r| == 32
    ensures Run(s, code, d, n + limit) == Run(After(s, code, d, n).value, code, d, limit)
    decreases n
  {
    hide Step;
    if n > 0 {
      var t := Step(s, code(s.pc).value, d).value.s;
      StepKeepsLength(s, code(s.pc).value, d);
      RunAfter(t, code, d, n - 1, limit);
    }
  }

  // ---------- switches ----------

  /** The head of a compiler-generated switch: one subtraction, one unsigned comparison, one branch. The base may be
      subtracted or its negative added; the branch may be taken on >= n or on > n - 1. */
  ghost predicate SwitchHead(code: Code, at: int, name: Reg, k: Reg, base: int, n: int, default: int) {
    && !name.wide && !k.wide && name.n < 31 && k.n < 31
    && (code(at) == Some(Arith(Some(k), name, Imm(base), [], true, false))
        || code(at) == Some(Arith(Some(k), name, Imm(-base), [], false, false)))
    && ((code(at + 4) == Some(Arith(None, k, Imm(n), [], true, true)) && code(at + 8) == Some(Bcond(HS, default)))
        || (code(at + 4) == Some(Arith(None, k, Imm(n - 1), [], true, true)) && code(at + 8) == Some(Bcond(HI, default))))
  }

  /** The distance of a name from the base, as the register holds it. */
  function Index(name: int, base: int): int { (name - base) % 0x1_0000_0000 }

  lemma Offset(name: int, base: int)
    ensures (name % 0x1_0000_0000 - base % 0x1_0000_0000) % 0x1_0000_0000 == Index(name, base)
    ensures (name % 0x1_0000_0000 + (-base) % 0x1_0000_0000) % 0x1_0000_0000 == Index(name, base)
  {
    Reduced32(name, base);
    Reduced32Sum(name, -base);
  }

  /** One subtraction and one unsigned comparison test both ends of a range. */
  lemma RangeByOneSubtraction(name: int, base: int, n: int)
    requires 0 <= name < 0x1_0000_0000 && 0 <= base && 0 < n && base + n <= 0x1_0000_0000
    ensures Index(name, base) < n <==> base <= name < base + n
    ensures base <= name < base + n ==> Index(name, base) == name - base
  {
    Wraps(name, base, 0x1_0000_0000);
  }

  lemma Subtracts(s: State, name: Reg, k: Reg, base: int, d: seq<byte>, sub: bool)
    requires |s.r| == 32 && !name.wide && !k.wide && k.n < 31
    ensures var op := Arith(Some(k), name, Imm(if sub then base else -base), [], sub, false);
            Step(s, op, d) == Ok(Go(s.(r := s.r[k.n := Index(Rd(s.r, name), base)], pc := s.pc + 4)))
  {
    hide Rd;
    var x := Rd(s.r, name);
    Offset(x, base);
    assert Extend(Value(s.r, Imm(base)), []) == base && Extend(Value(s.r, Imm(-base)), []) == -base;
    IndexReduced(x, base);
  }

  lemma IndexReduced(name: int, base: int)
    ensures 0 <= Index(name, base) < 0x1_0000_0000 && Index(name, base) % 0x1_0000_0000 == Index(name, base)
  {
  }

  lemma ComparesAndBranches(s: State, code: Code, d: seq<byte>, k: Reg, n: int, cc: Cond, imm: int, default: int)
    requires |s.r| == 32 && !k.wide && k.n < 31 && 0 <= s.r[k.n] < 0x1_0000_0000 && 0 < n <= 0x1_0000_0000
    requires (cc == HS && imm == n && n < 0x1_0000_0000) || (cc == HI && imm == n - 1)
    requires code(s.pc) == Some(Arith(None, k, Imm(imm), [], true, true)) && code(s.pc + 4) == Some(Bcond(cc, default))
    ensures var t := After(s, code, d, 2);
            t.Some? && t.value.r == s.r && t.value.pc == if s.r[k.n] < n then s.pc + 8 else default
  {
    hide SetFlags, Holds, After;
    var op := Arith(None, k, Imm(imm), [], true, true);
    ComparesStep(s, d, k, imm);
    var t := Step(s, op, d).value.s;
    CondIsComparison(s.r[k.n], imm, false, cc);
    TwoSteps(s, code, d, op, Bcond(cc, default));
  }

  lemma ComparesStep(s: State, d: seq<byte>, k: Reg, imm: int)
    requires |s.r| == 32 && !k.wide && k.n < 31 && 0 <= s.r[k.n] < 0x1_0000_0000
    ensures Step(s, Arith(None, k, Imm(imm), [], true, true), d)
         == Ok(Go(s.(flags := SetFlags(s.r[k.n], imm, Width(false), true).0, pc := s.pc + 4)))
  {
    hide SetFlags;
    assert Extend(Value(s.r, Imm(imm)), []) == imm;
    assert Rd(s.r, k) == s.r[k.n];
  }

  lemma TwoSteps(s: State, code: Code, d: seq<byte>, first: Op, second: Op)
    requires |s.r| == 32 && code(s.pc) == Some(first) && Step(s, first, d).Ok? && Step(s, first, d).value.Go?
    requires |Step(s, first, d).value.s.r| == 32 && code(Step(s, first, d).value.s.pc) == Some(second)
    requires Step(Step(s, first, d).value.s, second, d).Ok? && Step(Step(s, first, d).value.s, second, d).value.Go?
    ensures After(s, code, d, 2) == Some(Step(Step(s, first, d).value.s, second, d).value.s)
  {
    hide Step;
    var t := Step(s, first, d).value.s;
    StepKeepsLength(t, second, d);
    assert After(t, code, d, 1) == Some(Step(t, second, d).value.s);
  }

  /** The head of a switch leaves exactly the names from base to base + n - 1 to the cases behind it. */
  lemma SwitchChecksRange(s: State, code: Code, d: seq<byte>, name: Reg, k: Reg, base: int, n: int, default: int)
    requires |s.r| == 32 && SwitchHead(code, s.pc, name, k, base, n, default)
    requires 0 <= base && 0 < n && base + n <= 0x1_0000_0000 && n < 0x1_0000_0000
    ensures var x, t := Rd(s.r, name), After(s, code, d, 3);
            && t.Some? && |t.value.r| == 32
            && t.value.pc == (if base <= x < base + n then s.pc + 12 else default)
            && t.value.r == s.r[k.n := Index(x, base)]
            && (base <= x < base + n ==> Index(x, base) == x - base)
  {
    hide Step, Index, Rd;
    var x := Rd(s.r, name);
    NameIsNarrow(s, name);
    Subtracts(s, name, k, base, d, true);
    Subtracts(s, name, k, base, d, false);
    IndexReduced(x, base);
    RangeByOneSubtraction(x, base, n);
    var t := s.(r := s.r[k.n := Index(x, base)], pc := s.pc + 4);
    if code(s.pc + 4) == Some(Arith(None, k, Imm(n), [], true, true)) && code(s.pc + 8) == Some(Bcond(HS, default)) {
      ComparesAndBranches(t, code, d, k, n, HS, n, default);
    } else {
      ComparesAndBranches(t, code, d, k, n, HI, n - 1, default);
    }
  }

  lemma NameIsNarrow(s: State, name: Reg)
    requires |s.r| == 32 && !name.wide
    ensures 0 <= Rd(s.r, name) < 0x1_0000_0000
  {
  }

  /** The cases: the table's address, the entry of the name, their sum, and a jump there. */
  ghost predicate JumpTable(code: Code, at: int, k: Reg, table: int) {
    && !k.wide && k.n < 31
    && code(at) == Some(Adr(Reg(9, true), table))
    && code(at + 4) == Some(Ldrsw(Reg(10, true), Address(Reg(9, true), Val(k), [Uxtw(2)])))
    && code(at + 8) == Some(Arith(Some(Reg(9, true)), Reg(9, true), Val(Reg(10, true)), [], false, false))
    && code(at + 12) == Some(Br(Reg(9, true)))
  }

  lemma EntryAddress(r: seq<int>, table: int, k: Reg, i: int)
    requires |r| == 32 && !k.wide && k.n < 31 && k.n != 9 && 0 <= i < 0x1_0000_0000
    requires r[9] == table && 0 <= table < LIMIT64 && r[k.n] == i
    ensures Effective(r, Address(Reg(9, true), Val(k), [Uxtw(2)])) == table + 4 * i
  {
    assert Pow2(2) == 2 * Pow2(1) && Pow2(1) == 2 * Pow2(0);
    assert ExtendIndex(i, [Uxtw(2)]) == i % LIMIT32 * Pow2(2);
  }

  /** A jump table goes to the table's address plus the signed entry of the index. */
  lemma TableJumps(s: State, code: Code, d: seq<byte>, k: Reg, table: int, entry: int)
    requires |s.r| == 32 && JumpTable(code, s.pc, k, table) && k.n != 9 && 0 <= table < LIMIT64
    requires 0 <= s.r[k.n] < 0x1_0000_0000 && Load(d, table + 4 * s.r[k.n], 4) == Ok(entry)
    ensures var t := After(s, code, d, 4); t.Some? && t.value.pc == (table + Sx(entry, LIMIT32)) % LIMIT64
  {
    hide Load, Sx, Effective, Step, After;
    var i := s.r[k.n];
    var w := Sx(entry, LIMIT32) % LIMIT64;
    var s1 := s.(r := s.r[9 := table], pc := s.pc + 4);
    var s2 := s1.(r := s1.r[10 := w], pc := s.pc + 8);
    var sum := (table + w) % LIMIT64;
    var s3 := s2.(r := s2.r[9 := sum], pc := s.pc + 12);
    EntryAddress(s1.r, table, k, i);
    AdrStep(s, d, table);
    LdrswStep(s1, d, k, table, entry);
    AddStep(s2, d);
    BrStep(s3, d);
    FourSteps(s, code, d, s1, s2, s3);
    Reduced64Sum(table, Sx(entry, LIMIT32));
  }

  lemma AdrStep(s: State, d: seq<byte>, table: int)
    requires |s.r| == 32 && 0 <= table < LIMIT64
    ensures Step(s, Adr(Reg(9, true), table), d) == Ok(Go(s.(r := s.r[9 := table], pc := s.pc + 4)))
  {
  }

  lemma LdrswStep(s: State, d: seq<byte>, k: Reg, table: int, entry: int)
    requires |s.r| == 32 && Load(d, Effective(s.r, Address(Reg(9, true), Val(k), [Uxtw(2)])), 4) == Ok(entry)
    ensures Step(s, Ldrsw(Reg(10, true), Address(Reg(9, true), Val(k), [Uxtw(2)])), d)
         == Ok(Go(s.(r := s.r[10 := Sx(entry, LIMIT32) % LIMIT64], pc := s.pc + 4)))
  {
    hide Load, Effective, Sx;
  }

  lemma AddStep(s: State, d: seq<byte>)
    requires |s.r| == 32 && 0 <= s.r[9] < LIMIT64 && 0 <= s.r[10] < LIMIT64
    ensures Step(s, Arith(Some(Reg(9, true)), Reg(9, true), Val(Reg(10, true)), [], false, false), d)
         == Ok(Go(s.(r := s.r[9 := (s.r[9] + s.r[10]) % LIMIT64], pc := s.pc + 4)))
  {
    hide Rd, SetFlags;
    RdWide(s.r, 9);
    RdWide(s.r, 10);
    assert Extend(s.r[10], []) == s.r[10];
    WideSum(s.r[9], s.r[10]);
  }

  lemma RdWide(r: seq<int>, n: nat)
    requires |r| == 32 && n < 31 && 0 <= r[n] < LIMIT64
    ensures Rd(r, Reg(n, true)) == r[n]
  {
  }

  lemma WideSum(x: int, y: int)
    requires 0 <= x < LIMIT64 && 0 <= y < LIMIT64
    ensures SetFlags(x, y, Width(true), false).1 == (x + y) % LIMIT64
    ensures (x + y) % LIMIT64 % LIMIT64 == (x + y) % LIMIT64
  {
  }

  lemma BrStep(s: State, d: seq<byte>)
    requires |s.r| == 32 && 0 <= s.r[9] < LIMIT64
    ensures Step(s, Br(Reg(9, true)), d) == Ok(Go(s.(pc := s.r[9])))
  {
  }

  lemma FourSteps(s: State, code: Code, d: seq<byte>, s1: State, s2: State, s3: State)
    requires |s.r| == 32 && |s1.r| == 32 && |s2.r| == 32 && |s3.r| == 32
    requires code(s.pc).Some? && Step(s, code(s.pc).value, d) == Ok(Go(s1))
    requires code(s1.pc).Some? && Step(s1, code(s1.pc).value, d) == Ok(Go(s2))
    requires code(s2.pc).Some? && Step(s2, code(s2.pc).value, d) == Ok(Go(s3))
    requires code(s3.pc).Some? && Step(s3, code(s3.pc).value, d).Ok? && Step(s3, code(s3.pc).value, d).value.Go?
    ensures After(s, code, d, 4) == Some(Step(s3, code(s3.pc).value, d).value.s)
  {
    hide Step;
    StepKeepsLength(s3, code(s3.pc).value, d);
    assert After(s3, code, d, 1) == Some(Step(s3, code(s3.pc).value, d).value.s);
    assert After(s2, code, d, 2) == After(s3, code, d, 1);
    assert After(s1, code, d, 3) == After(s2, code, d, 2);
  }

  /** A whole jump-table switch, for every name: out of range to the default, else to the table plus the name's entry. */
  lemma SwitchDispatches(s: State, code: Code, d: seq<byte>, name: Reg, k: Reg, base: int, n: int, default: int, table: int,
                         limit: nat) returns (t: State)
    requires |s.r| == 32 && SwitchHead(code, s.pc, name, k, base, n, default) && JumpTable(code, s.pc + 12, k, table)
    requires 0 <= base && 0 < n < 0x1_0000_0000 && base + n <= 0x1_0000_0000 && k.n != 9 && 0 <= table < LIMIT64
    requires forall i :: 0 <= i < n ==> Load(d, table + 4 * i, 4).Ok?
    ensures |t.r| == 32
    ensures base <= Rd(s.r, name) < base + n ==>
              t.pc == (table + Sx(Load(d, table + 4 * (Rd(s.r, name) - base), 4).value, LIMIT32)) % LIMIT64
              && Run(s, code, d, 7 + limit) == Run(t, code, d, limit)
    ensures !(base <= Rd(s.r, name) < base + n) ==> t.pc == default && Run(s, code, d, 3 + limit) == Run(t, code, d, limit)
  {
    hide Step, Index, Rd, Load, Sx, SwitchHead, JumpTable, After, Run;
    var x := Rd(s.r, name);
    SwitchChecksRange(s, code, d, name, k, base, n, default);
    t := After(s, code, d, 3).value;
    if base <= x < base + n {
      InJumpTable(code, s.pc + 12, k, table);
      RunAfter(s, code, d, 3, 4 + limit);
      var entry := Load(d, table + 4 * (x - base), 4).value;
      TableJumps(t, code, d, k, table, entry);
      RunAfter(t, code, d, 4, limit);
      t := After(t, code, d, 4).value;
    } else {
      RunAfter(s, code, d, 3, limit);
    }
  }

  lemma InJumpTable(code: Code, at: int, k: Reg, table: int)
    requires JumpTable(code, at, k, table)
    ensures k.n < 31
  {
  }

  // ---------- fixups and loads ----------

  /** Rebasing a second time changes nothing if and only if the word was no fixup or its offset stays in the first 4 GiB
      page of kernel addresses. */
  lemma RebaseTwiceIff(v: int)
    requires 0 <= v < LIMIT64
    ensures Rebase(Rebase(v)) == Rebase(v) <==>
              (v / LIMIT32 == 0xFFFF_FFF0 || v < 0x8000_0000_0000_0000 || v % LIMIT32 < LIMIT32 - 0x0700_4000)
  {
    if v / LIMIT32 != 0xFFFF_FFF0 && v >= 0x8000_0000_0000_0000 {
      var w := BASE + v % LIMIT32;
      assert w / LIMIT32 == if v % LIMIT32 < LIMIT32 - 0x0700_4000 then 0xFFFF_FFF0 else 0xFFFF_FFF1;
    }
  }

  /** Where in the image a load of `n` bytes reads. Below the image Python's slice counts from the end. */
  function Position(d: seq<byte>, va: int, n: nat): Option<int> {
    var o := va - BASE;
    if 0 <= o && o + n <= |d| then Some(o)
    else if 0 <= o + |d| && o + n < 0 then Some(o + |d|)
    else None
  }

  /** A load succeeds if and only if its range lies in the image, or lies below it by no more than the image's length;
      then it gives the bytes there, or those as far from the image's end. */
  lemma LoadIff(d: seq<byte>, va: int, n: nat)
    requires n > 0
    ensures match Position(d, va, n)
            case None => Load(d, va, n) == Err(BadAddress)
            case Some(p) => 0 <= p && p + n <= |d| && Load(d, va, n) == Ok(Little(d[p..p + n]))
  {
  }

  /** The address an operand names in 64-bit arithmetic. */
  function Named(r: seq<int>, m: Address): int
    requires |r| == 32
  {
    (Rd(r, m.base) + ExtendIndex(Value(r, m.index), m.ext)) % LIMIT64
  }

  /** The unreduced sum is that address if and only if base and masked index stay below 2^64. */
  lemma EffectiveIsNamedIff(s: State, m: Address)
    requires Sound(s)
    ensures var (b, i) := (Rd(s.r, m.base), ExtendIndex(Value(s.r, m.index), m.ext));
            && 0 <= b < LIMIT64
            && Effective(s.r, m) == Named(s.r, m) + (if b + i % LIMIT64 < LIMIT64 then 0 else LIMIT64)
            && (-LIMIT64 <= i < LIMIT64 ==> (b + i % LIMIT64 < LIMIT64 <==> if i < 0 then b + i < 0 else b + i < LIMIT64))
  {
    hide ExtendIndex, Value;
    var (b, i) := (Rd(s.r, m.base), ExtendIndex(Value(s.r, m.index), m.ext));
    RdBelow(s, m.base);
    SumWraps(b, i % LIMIT64, LIMIT64);
    Reduced64Sum(b, i);
    Small64(b);
    if -LIMIT64 < i < 0 {
      NegativeMod(i, LIMIT64);
    }
  }

  lemma Small64(b: int)
    requires 0 <= b < LIMIT64
    ensures b % LIMIT64 == b
  {
  }

  lemma RdBelow(s: State, reg: Reg)
    requires Sound(s)
    ensures 0 <= Rd(s.r, reg) < LIMIT64
  {
  }

  /** A load reads at the address it names if and only if the sum does not leave 64 bits and the range lies in the
      image. */
  lemma LoadReadsItsWordIff(s: State, d: seq<byte>, m: Address, n: nat)
    requires Sound(s) && n > 0
    ensures var (b, i) := (Rd(s.r, m.base), ExtendIndex(Value(s.r, m.index), m.ext));
            Position(d, Effective(s.r, m), n) == Some(Named(s.r, m) - BASE)
            <==> b + i % LIMIT64 < LIMIT64 && BASE <= Named(s.r, m) <= BASE + |d| - n
  {
    hide ExtendIndex, Value, Rd, Named, Effective;
    EffectiveIsNamedIff(s, m);
  }

  /** What the two load instructions do, by position. */
  lemma LoadsByPosition(s: State, d: seq<byte>, dst: Reg, m: Address)
    requires |s.r| == 32
    ensures var n := if dst.wide then 8 else 4;
            match Position(d, Effective(s.r, m), n)
            case None => Step(s, Ldr(dst, m), d) == Err(BadAddress)
            case Some(p) => 0 <= p && p + n <= |d| && Step(s, Ldr(dst, m), d) == Ok(Set(s, dst, Little(d[p..p + n])))
    ensures match Position(d, Effective(s.r, m), 4)
            case None => Step(s, Ldrsw(dst, m), d) == Err(BadAddress)
            case Some(p) =>
              0 <= p && p + 4 <= |d| && Step(s, Ldrsw(dst, m), d) == Ok(Set(s, dst, Sx(Little(d[p..p + 4]), LIMIT32) % LIMIT64))
  {
    hide Load, Effective, Sx;
    LoadIff(d, Effective(s.r, m), 4);
    LoadIff(d, Effective(s.r, m), if dst.wide then 8 else 4);
  }

  /** A negative index is masked but the sum is not, so such a load never succeeds on an image of fewer than 2^63 bytes. */
  lemma NegativeIndexNeverLoads(s: State, d: seq<byte>, dst: Reg, m: Address)
    requires Sound(s) && |d| < 0x8000_0000_0000_0000 && BASE <= Rd(s.r, m.base)
    requires -0x10_0000_0000 <= ExtendIndex(Value(s.r, m.index), m.ext) < 0
    ensures Step(s, Ldrsw(dst, m), d) == Err(BadAddress) && Step(s, Ldr(dst, m), d) == Err(BadAddress)
  {
    hide ExtendIndex, Value, Rd;
    PastTheEnd(d, Effective(s.r, m), 4);
    PastTheEnd(d, Effective(s.r, m), 8);
  }

  lemma PastTheEnd(d: seq<byte>, va: int, n: nat)
    requires va - BASE >= |d| && n > 0
    ensures Load(d, va, n) == Err(BadAddress)
  {
  }
}
