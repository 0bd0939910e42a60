/** What each instruction of dcp_dtable.py's interpreter leaves behind, said of the bits and numbers in its
    registers and not in the terms the interpreter computes with. */
module DcpInstructions {
  import opened Results
  import opened Bytes
  import opened DcpInterpreter
  import opened DcpInterpreterProofs
  import Arithmetic

  // ---------- bits ----------

  /** Bit `i` of a number, of a negative one in two's complement. */
  predicate Bit(v: int, i: nat)
    decreases i
  {
    if i == 0 then v % 2 == 1 else Bit(v / 2, i - 1)
  }

  lemma QuotientIs(x: int, n: nat, q: int, r: int)
    requires 0 <= r < n && x == q * n + r
    ensures x / n == q && x % n == r
  {
    var q', r' := x / n, x % n;
    assert x == q' * n + r';
    Arithmetic.MulSub(q, q', n);
    Arithmetic.MulSub(q', q, n);
    Arithmetic.AtLeastOne(q - q', n);
    Arithmetic.AtLeastOne(q' - q, n);
  }

  /** Dividing by a power of two one binary digit at a time. */
  lemma HalveFirst(v: int, p: nat)
    requires p > 0
    ensures v / (2 * p) == v / 2 / p && v % (2 * p) == v % 2 + 2 * (v / 2 % p)
  {
    var q, r := v / 2 / p, v / 2 % p;
    assert v / 2 == q * p + r;
    assert v == q * (2 * p) + (v % 2 + 2 * r) by { Twice(q, p); }
    QuotientIs(v, 2 * p, q, v % 2 + 2 * r);
  }

  lemma Twice(q: int, p: int)
    ensures q * (2 * p) == 2 * (q * p)
  {
  }

  lemma {:induction false} ShiftedRight(v: int, k: nat, i: nat)
    ensures Bit(v / Pow2(k), i) <==> Bit(v, i + k)
    decreases k
  {
    if k > 0 {
      HalveFirst(v, Pow2(k - 1));
      ShiftedRight(v / 2, k - 1, i);
    }
  }

  lemma {:induction false} ShiftedLeft(v: int, k: nat, i: nat)
    ensures Bit(v * Pow2(k), i) <==> i >= k && Bit(v, i - k)
    decreases k
  {
    if k > 0 {
      var w := v * Pow2(k - 1);
      Twice(v, Pow2(k - 1));
      assert v * Pow2(k) == 2 * w;
      if i > 0 { ShiftedLeft(v, k - 1, i - 1); }
    }
  }

  /** The low `n` bits of a number replaced by those of another. */
  lemma {:induction false} LowReplaced(v: int, low: int, n: nat, i: nat)
    requires 0 <= low < Pow2(n)
    ensures Bit(v - v % Pow2(n) + low, i) <==> if i < n then Bit(low, i) else Bit(v, i)
    decreases n
  {
    if n > 0 {
      HalveFirst(v, Pow2(n - 1));
      var w := v - v % Pow2(n) + low;
      assert w % 2 == low % 2 && w / 2 == v / 2 - v / 2 % Pow2(n - 1) + low / 2;
      if i > 0 { LowReplaced(v / 2, low / 2, n - 1, i - 1); }
    } else {
      assert v % 1 == 0;
    }
  }

  lemma {:induction false} Cut(v: int, n: nat, i: nat)
    ensures Bit(v % Pow2(n), i) <==> i < n && Bit(v, i)
    decreases n
  {
    if n > 0 {
      HalveFirst(v, Pow2(n - 1));
      var w := v % Pow2(n);
      assert w % 2 == v % 2 && w / 2 == v / 2 % Pow2(n - 1);
      if i > 0 { Cut(v / 2, n - 1, i - 1); }
    } else {
      assert v % 1 == 0;
      ZeroBits(i);
    }
  }

  lemma {:induction false} ZeroBits(i: nat)
    ensures !Bit(0, i)
  {
    if i > 0 { ZeroBits(i - 1); }
  }

  /** The connective on truth values. */
  predicate Connects(l: Logic, x: bool, y: bool) {
    match l
    case And => x && y
    case Orr => x || y
    case Eor => x != y
  }

  lemma {:induction false} BitOpBits(l: Logic, a: int, b: int, n: nat, i: nat)
    ensures Bit(BitOp(l, a, b, n), i) <==> i < n && Connects(l, Bit(a, i), Bit(b, i))
    ensures 0 <= BitOp(l, a, b, n) < Pow2(n)
    decreases n
  {
    if n == 0 {
      ZeroBits(i);
    } else {
      var rest := BitOp(l, a / 2, b / 2, n - 1);
      BitOpBits(l, a / 2, b / 2, n - 1, if i > 0 then i - 1 else 0);
      var whole := BitOp(l, a, b, n);
      assert whole / 2 == rest && (whole % 2 == 1 <==> Connects(l, a % 2 == 1, b % 2 == 1));
    }
  }

  /** Sixteen bits from `shift` on replaced. */
  lemma {:induction false} InsertBits(v: int, imm: nat, shift: nat, i: nat)
    requires imm < 0x1_0000
    ensures Bit(Insert(v, imm, shift), i) <==> if shift <= i < shift + 16 then Bit(imm, i - shift) else Bit(v, i)
    decreases shift
  {
    hide Insert;
    if shift == 0 {
      InsertLow(v, imm);
      LowReplaced(v, imm, 16, i);
    } else {
      InsertHalves(v, imm, shift);
      if i > 0 { InsertBits(v / 2, imm, shift - 1, i - 1); }
    }
  }

  lemma InsertLow(v: int, imm: nat)
    ensures Pow2(16) == 0x1_0000 && Insert(v, imm, 0) == v - v % Pow2(16) + imm
  {
    Sixteen();
    assert v / 1 == v;
  }

  lemma Sixteen()
    ensures Pow2(16) == 0x1_0000
  {
    assert Pow2(4) == 16 && Pow2(8) == 256 && Pow2(12) == 4096;
  }

  lemma InsertHalves(v: int, imm: nat, shift: nat)
    requires shift > 0
    ensures Insert(v, imm, shift) % 2 == v % 2 && Insert(v, imm, shift) / 2 == Insert(v / 2, imm, shift - 1)
  {
    var p := Pow2(shift - 1);
    HalveFirst(v, p);
    var was := v / Pow2(shift) % 0x1_0000;
    Twice(was, p);
    Twice(imm, p);
    var less, more := was * p, imm * p;
    assert Insert(v, imm, shift) == v - 2 * less + 2 * more;
    assert Insert(v / 2, imm, shift - 1) == v / 2 - less + more;
  }

  // ---------- numbers in registers ----------

  /** The number a register's name shows on a sound machine. */
  function Number(r: seq<int>, reg: Reg): int
    requires |r| == 32
  {
    if reg.n > 30 then 0 else if reg.wide then r[reg.n] else r[reg.n] % 0x1_0000_0000
  }

  function NumberOf(r: seq<int>, o: Operand): int
    requires |r| == 32
  {
    match o case Imm(v) => v case Val(reg) => Number(r, reg)
  }

  function Bits(reg: Reg): nat { if reg.wide then 64 else 32 }

  function Range(wide: bool): (m: int)
    ensures m > 0
  {
    if wide then 0x1_0000_0000_0000_0000 else 0x1_0000_0000
  }

  /** The step goes on behind the instruction, with these flags and this number in one register; number 31
      keeps nothing. */
  predicate Leaves(s: State, step: Result<Effect, Error>, dst: Reg, v: int, flags: Flags)
    requires |s.r| == 32
  {
    step.Ok? && step.value.Go?
    && var t := step.value.s;
       t.pc == s.pc + 4 && t.flags == flags && |t.r| == 32
       && (forall n :: 0 <= n < 32 && (n != dst.n || n == 31) ==> t.r[n] == s.r[n])
       && 0 <= v < Range(dst.wide) && (dst.n < 31 ==> t.r[dst.n] == v)
  }

  /** The same number to a register's width. */
  predicate Same(v: int, w: int, wide: bool) { (v - w) % Range(wide) == 0 }

  lemma NumberIs(s: State, reg: Reg)
    requires Sound(s)
    ensures Rd(s.r, reg) == Number(s.r, reg) && 0 <= Number(s.r, reg) < Range(reg.wide)
  {
  }

  lemma OperandIs(s: State, o: Operand)
    requires Sound(s)
    ensures Value(s.r, o) == NumberOf(s.r, o)
  {
    if o.Val? { NumberIs(s, o.reg); }
  }

  lemma CutIsSame(v: int, wide: bool)
    ensures Same(v % Range(wide), v, wide) && Width(wide) == Range(wide)
  {
    var m := Range(wide);
    assert v % m - v == 0 - v / m * m;
    Multiple(0 - v / m, m);
  }

  lemma Multiple(q: int, m: nat)
    requires m > 0
    ensures q * m % m == 0
  {
    QuotientIs(q * m, m, q, 0);
  }

  /** A step that sets a register to a value leaves that value cut to the register's width. */
  lemma SetLeaves(s: State, dst: Reg, v: int, flags: Flags)
    requires |s.r| == 32
    ensures Leaves(s, Ok(Set(Flagged(s, flags), dst, v)), dst, v % Range(dst.wide), flags)
    ensures Same(v % Range(dst.wide), v, dst.wide)
  {
    CutIsSame(v, dst.wide);
  }

  lemma Unflagged(s: State)
    ensures Flagged(s, s.flags) == s
  {
  }

  // ---------- moves ----------

  lemma MovLeaves(s: State, dst: Reg, src: Operand, d: seq<byte>) returns (v: int)
    requires Sound(s)
    ensures Leaves(s, Step(s, Mov(dst, src), d), dst, v, s.flags) && Same(v, NumberOf(s.r, src), dst.wide)
  {
    hide Leaves, Same, Set, Value;
    OperandIs(s, src);
    Unflagged(s);
    SetLeaves(s, dst, Value(s.r, src), s.flags);
    v := Value(s.r, src) % Range(dst.wide);
  }

  /** movk: sixteen bits become those of the immediate and all others stay. */
  lemma MovkLeaves(s: State, dst: Reg, imm: nat, shift: nat, d: seq<byte>) returns (v: int)
    requires Sound(s) && imm < 0x1_0000
    ensures Leaves(s, Step(s, Movk(dst, imm, shift), d), dst, v, s.flags)
    ensures forall i :: 0 <= i < Bits(dst) ==>
              (Bit(v, i) <==> if shift <= i < shift + 16 then Bit(imm, i - shift) else Bit(Number(s.r, dst), i))
  {
    hide Leaves, Same, Set, Insert, Bit, Number;
    var whole := Insert(Rd(s.r, dst), imm, shift);
    NumberIs(s, dst);
    Unflagged(s);
    SetLeaves(s, dst, whole, s.flags);
    v := whole % Range(dst.wide);
    forall i | 0 <= i < Bits(dst)
      ensures Bit(v, i) <==> if shift <= i < shift + 16 then Bit(imm, i - shift) else Bit(Number(s.r, dst), i)
    {
      CutBits(whole, dst, i);
      InsertBits(Rd(s.r, dst), imm, shift, i);
    }
  }

  lemma CutBits(v: int, reg: Reg, i: nat)
    ensures Bit(v % Range(reg.wide), i) <==> i < Bits(reg) && Bit(v, i)
  {
    Powers();
    Cut(v, Bits(reg), i);
  }

  lemma Powers()
    ensures Pow2(32) == 0x1_0000_0000 && Pow2(64) == 0x1_0000_0000_0000_0000
  {
    Sixteen();
    Sum(16, 16);
    Sum(32, 32);
  }

  lemma {:induction false} Sum(m: nat, n: nat)
    ensures Pow2(m + n) == Pow2(m) * Pow2(n)
  {
    if m > 0 {
      Sum(m - 1, n);
      Twice(Pow2(n), Pow2(m - 1));
    }
  }

  // ---------- logic and shifts ----------

  /** Each bit of the result is the connective of the operands' bits. */
  lemma BitwiseLeaves(s: State, l: Logic, dst: Reg, a: Reg, b: Operand, d: seq<byte>) returns (v: int)
    requires Sound(s)
    ensures Leaves(s, Step(s, Bitwise(l, dst, a, b), d), dst, v, s.flags)
    ensures forall i :: 0 <= i < Bits(dst) ==>
              (Bit(v, i) <==> Connects(l, Bit(Number(s.r, a), i), Bit(NumberOf(s.r, b), i)))
  {
    hide Leaves, Same, Set, BitOp, Bit, Number, NumberOf, Connects, Value;
    var y := Value(s.r, b) % LIMIT64;
    var whole := BitOp(l, Rd(s.r, a), y, 64);
    NumberIs(s, a);
    OperandIs(s, b);
    Unflagged(s);
    SetLeaves(s, dst, whole, s.flags);
    v := whole % Range(dst.wide);
    forall i | 0 <= i < Bits(dst)
      ensures Bit(v, i) <==> Connects(l, Bit(Number(s.r, a), i), Bit(NumberOf(s.r, b), i))
    {
      CutBits(whole, dst, i);
      BitOpBits(l, Rd(s.r, a), y, 64, i);
      CutBits(Value(s.r, b), Reg(0, true), i);
    }
  }

  /** Each bit of the result is one `count` places away, zero where there is none; a negative count is refused. */
  lemma ShiftLeaves(s: State, left: bool, dst: Reg, a: Reg, b: Operand, d: seq<byte>) returns (v: int)
    requires Sound(s)
    ensures var count := NumberOf(s.r, b); var step := Step(s, Shift(left, dst, a, b), d);
            if count < 0 then step == Err(BadShift)
            else Leaves(s, step, dst, v, s.flags)
                 && forall i :: 0 <= i < Bits(dst) ==>
                      (Bit(v, i) <==> if left then i >= count && Bit(Number(s.r, a), i - count)
                                      else Bit(Number(s.r, a), i + count))
  {
    hide Leaves, Same, Set, Bit, Number, NumberOf, Value, Pow2, Rd, Range, Bits;
    NumberIs(s, a);
    OperandIs(s, b);
    Unflagged(s);
    var count, x := Value(s.r, b), Rd(s.r, a);
    if count < 0 {
      v := 0;
    } else {
      var whole := if left then x * Pow2(count) else x / Pow2(count);
      SetLeaves(s, dst, whole, s.flags);
      v := whole % Range(dst.wide);
      ShiftedBits(x, count, left, dst, v);
    }
  }

  lemma ShiftedBits(x: int, count: nat, left: bool, dst: Reg, v: int)
    requires v == (if left then x * Pow2(count) else x / Pow2(count)) % Range(dst.wide)
    ensures forall i :: 0 <= i < Bits(dst) ==>
              (Bit(v, i) <==> if left then i >= count && Bit(x, i - count) else Bit(x, i + count))
  {
    hide Bit, Pow2, Range, Bits;
    var whole := if left then x * Pow2(count) else x / Pow2(count);
    forall i | 0 <= i < Bits(dst)
      ensures Bit(v, i) <==> if left then i >= count && Bit(x, i - count) else Bit(x, i + count)
    {
      CutBits(whole, dst, i);
      ShiftedLeft(x, count, i);
      ShiftedRight(x, count, i);
    }
  }

  // ---------- selections ----------

  lemma CselLeaves(s: State, dst: Reg, a: Reg, b: Reg, cc: Cond, d: seq<byte>) returns (v: int)
    requires Sound(s)
    ensures Leaves(s, Step(s, Csel(dst, a, b, cc), d), dst, v, s.flags)
    ensures Same(v, if Holds(s.flags, cc) then Number(s.r, a) else Number(s.r, b), dst.wide)
  {
    hide Leaves, Same, Set, Holds;
    NumberIs(s, a);
    NumberIs(s, b);
    Unflagged(s);
    var whole := if Holds(s.flags, cc) then Rd(s.r, a) else Rd(s.r, b);
    SetLeaves(s, dst, whole, s.flags);
    v := whole % Range(dst.wide);
  }

  /** The first operand, or the one number that added to the second gives zero at the destination's width. */
  lemma CsnegLeaves(s: State, dst: Reg, a: Reg, b: Reg, cc: Cond, d: seq<byte>) returns (v: int)
    requires Sound(s)
    ensures Leaves(s, Step(s, Csneg(dst, a, b, cc), d), dst, v, s.flags)
    ensures if Holds(s.flags, cc) then Same(v, Number(s.r, a), dst.wide) else (v + Number(s.r, b)) % Range(dst.wide) == 0
  {
    hide Leaves, Set, Holds;
    NumberIs(s, a);
    NumberIs(s, b);
    Unflagged(s);
    var whole := if Holds(s.flags, cc) then Rd(s.r, a) else -Rd(s.r, b) % LIMIT64;
    SetLeaves(s, dst, whole, s.flags);
    v := whole % Range(dst.wide);
    NegatedSame(v, Number(s.r, b), dst.wide);
  }

  lemma NegatedSame(v: int, b: int, wide: bool)
    ensures v == -b % LIMIT64 % Range(wide) ==> (v + b) % Range(wide) == 0
  {
    var n, m := -b, Range(wide);
    RemainderOfRemainder(n);
    NarrowSame(n % LIMIT64, n, wide);
    CutIsSame(n, wide);
    assert n % m + b == n % m - n;
  }

  lemma RemainderOfRemainder(n: int)
    ensures n % LIMIT64 % LIMIT64 == n % LIMIT64
  {
    QuotientIs(n % LIMIT64, LIMIT64, 0, n % LIMIT64);
  }

  lemma CsetLeaves(s: State, dst: Reg, cc: Cond, d: seq<byte>)
    requires Sound(s)
    ensures Leaves(s, Step(s, Cset(dst, cc), d), dst, if Holds(s.flags, cc) then 1 else 0, s.flags)
  {
    hide Leaves, Set, Holds;
    Unflagged(s);
    SetLeaves(s, dst, if Holds(s.flags, cc) then 1 else 0, s.flags);
  }

  lemma AdrLeaves(s: State, dst: Reg, target: int, d: seq<byte>) returns (v: int)
    requires Sound(s)
    ensures Leaves(s, Step(s, Adr(dst, target), d), dst, v, s.flags) && Same(v, target, dst.wide)
  {
    hide Leaves, Same, Set;
    Unflagged(s);
    SetLeaves(s, dst, target, s.flags);
    v := target % Range(dst.wide);
  }

  // ---------- sums, differences and flags ----------

  function Doubled(n: int, k: nat): int
    decreases k
  {
    if k == 0 then n else 2 * Doubled(n, k - 1)
  }

  /** The low half read as two's complement. */
  function Signed32(n: int): int {
    var low := n % 0x1_0000_0000;
    if low < 0x8000_0000 then low else low - 0x1_0000_0000
  }

  /** The operand the extensions mean, without regard to any width. */
  function Meant(n: int, ext: seq<Extension>): int
    decreases |ext|
  {
    if ext == [] then n
    else
      Meant(match ext[0]
            case Lsl(k) => Doubled(n, k)
            case Uxtw(k) => Doubled(n % 0x1_0000_0000, k)
            case Sxtw(k) => Doubled(Signed32(n), k), ext[1..])
  }

  lemma {:induction false} DoubledIs(n: int, k: nat)
    ensures Doubled(n, k) == n * Pow2(k)
  {
    if k > 0 {
      DoubledIs(n, k - 1);
      Twice(n, Pow2(k - 1));
    }
  }

  /** Masking a shifted operand to 64 bits as it goes changes nothing a 64-bit machine can see. */
  lemma {:induction false} ExtendMeans(b: int, n: int, ext: seq<Extension>)
    requires b % LIMIT64 == n % LIMIT64
    ensures Extend(b, ext) % LIMIT64 == Meant(n, ext) % LIMIT64
    decreases |ext|
  {
    hide Pow2, Doubled;
    if ext != [] {
      Halves(b, n);
      match ext[0]
      case Lsl(k) =>
        DoubledIs(n, k);
        Scaled(b, n, Pow2(k));
        ExtendMeans((b * Pow2(k)) % LIMIT64, Doubled(n, k), ext[1..]);
      case Uxtw(k) =>
        DoubledIs(n % 0x1_0000_0000, k);
        ExtendMeans(b % LIMIT32 * Pow2(k), Doubled(n % 0x1_0000_0000, k), ext[1..]);
      case Sxtw(k) =>
        DoubledIs(Signed32(n), k);
        ExtendMeans((Sx(b, LIMIT32) * Pow2(k)) % LIMIT64, Doubled(Signed32(n), k), ext[1..]);
    }
  }

  lemma Halves(b: int, n: int)
    requires b % LIMIT64 == n % LIMIT64
    ensures b % LIMIT32 == n % LIMIT32 && Sx(b, LIMIT32) == Signed32(n)
  {
    LowHalf(b);
    LowHalf(n);
  }

  lemma LowHalf(x: int)
    ensures x % LIMIT32 == x % LIMIT64 % LIMIT32
  {
    var high, low := x / LIMIT64, x % LIMIT64;
    QuotientIs(x, LIMIT32, high * LIMIT32 + low / LIMIT32, low % LIMIT32);
  }

  lemma Scaled(b: int, n: int, p: int)
    requires b % LIMIT64 == n % LIMIT64
    ensures (b * p) % LIMIT64 == (n * p) % LIMIT64
  {
    var q := b / LIMIT64 - n / LIMIT64;
    assert b == n + q * LIMIT64;
    assert b * p == n * p + (q * p) * LIMIT64 by { Spread(n, q, p); }
    var r := (n * p) / LIMIT64;
    QuotientIs(b * p, LIMIT64, r + q * p, (n * p) % LIMIT64);
  }

  lemma Spread(n: int, q: int, p: int)
    ensures (n + q * LIMIT64) * p == n * p + (q * p) * LIMIT64
  {
  }

  /** Flags as those of a difference: each condition is the comparison it names. */
  predicate OfDifference(f: Flags, x: int, y: int, wide: bool) {
    forall cc :: Holds(f, cc) <==> Compares(cc, x, y, Range(wide))
  }

  /** Flags as those of a sum. */
  predicate OfSum(f: Flags, x: int, y: int, wide: bool) {
    var m := Range(wide);
    && (f.z <==> (x + y) % m == 0) && (f.n <==> (x + y) % m >= m / 2)
    && (f.c <==> x % m + y % m >= m)
    && (f.v <==> !(-(m / 2) <= Sx(x, m) + Sx(y, m) < m / 2))
  }

  lemma FlagsAre(x: int, y: int, y': int, wide: bool, sub: bool)
    requires y % LIMIT64 == y' % LIMIT64
    ensures var (f, res) := SetFlags(x, y, Width(wide), sub);
            Same(res, if sub then x - y' else x + y', wide) && 0 <= res < Range(wide)
            && if sub then OfDifference(f, x, y', wide) else OfSum(f, x, y', wide)
  {
    hide SetFlags, Holds, Compares, Sx, Width, OfSum;
    SameFlags(x, y, y', wide, sub);
    if sub {
      forall cc ensures Holds(SetFlags(x, y', Width(wide), true).0, cc) <==> Compares(cc, x, y', Width(wide)) {
        CondIsComparison(x, y', wide, cc);
      }
      DifferenceIs(x, y', wide);
      CutIsSame(x - y', wide);
    } else {
      SumIs(x, y', wide);
      CutIsSame(x + y', wide);
    }
  }

  lemma SameFlags(x: int, y: int, y': int, wide: bool, sub: bool)
    requires y % LIMIT64 == y' % LIMIT64
    ensures SetFlags(x, y, Width(wide), sub) == SetFlags(x, y', Width(wide), sub)
  {
    NarrowSame(y, y', wide);
    hide Width;
  }

  lemma SumIs(x: int, y: int, wide: bool)
    ensures OfSum(SetFlags(x, y, Width(wide), false).0, x, y, wide)
    ensures SetFlags(x, y, Width(wide), false).1 == (x + y) % Range(wide)
  {
    AdditionFlags(x, y, wide);
    TopIs(x + y, wide);
    hide SetFlags, Sx;
  }

  lemma NarrowSame(y: int, y': int, wide: bool)
    requires y % LIMIT64 == y' % LIMIT64
    ensures y % Width(wide) == y' % Width(wide)
  {
    Halves(y, y');
  }

  lemma TopIs(n: int, wide: bool)
    ensures Sx(n, Width(wide)) < 0 <==> n % Range(wide) >= Range(wide) / 2
  {
  }

  lemma DifferenceIs(x: int, y: int, wide: bool)
    ensures SetFlags(x, y, Width(wide), true).1 == (x - y) % Range(wide)
  {
    Reduced(x, y, wide);
  }

  /** Sums, differences and comparisons: the number left and, where the instruction sets them, the flags. */
  lemma ArithLeaves(s: State, dst: Option<Reg>, a: Reg, b: Operand, ext: seq<Extension>, sub: bool, sets: bool, d: seq<byte>)
    returns (v: int, flags: Flags)
    requires Sound(s)
    ensures var step := Step(s, Arith(dst, a, b, ext, sub, sets), d);
            var wide := if dst.Some? then dst.value.wide else a.wide;
            var x, y := Number(s.r, a), Meant(NumberOf(s.r, b), ext);
            Leaves(s, step, if dst.Some? then dst.value else Reg(31, wide), v, flags)
            && Same(v, if sub then x - y else x + y, wide)
            && (if !sets then flags == s.flags else if sub then OfDifference(flags, x, y, wide) else OfSum(flags, x, y, wide))
  {
    hide Leaves, Same, Set, Extend, Meant, Value, NumberOf, OfSum, OfDifference, SetFlags, Number, Rd, Width;
    NumberIs(s, a);
    OperandIs(s, b);
    var wide := if dst.Some? then dst.value.wide else a.wide;
    var x, y := Rd(s.r, a), Extend(Value(s.r, b), ext);
    ExtendMeans(Value(s.r, b), Value(s.r, b), ext);
    FlagsAre(x, y, Meant(NumberOf(s.r, b), ext), wide, sub);
    var (f, res) := SetFlags(x, y, Width(wide), sub);
    flags := if sets then f else s.flags;
    v := res;
    var reg := if dst.Some? then dst.value else Reg(31, wide);
    SetLeaves(s, reg, res, flags);
    SmallCut(res, wide);
    Unflagged(s);
    GoesOn(s, wide, res, flags);
  }

  lemma SmallCut(v: int, wide: bool)
    requires 0 <= v < Range(wide)
    ensures v % Range(wide) == v
  {
  }

  /** Writing register 31 is going on. */
  lemma GoesOn(s: State, wide: bool, v: int, flags: Flags)
    requires |s.r| == 32
    ensures Set(Flagged(s, flags), Reg(31, wide), v) == To(Flagged(s, flags), s.pc + 4)
  {
  }

  /** ccmp: where the condition holds, the flags of the difference; elsewhere the four bits of the immediate. */
  lemma CcmpLeaves(s: State, a: Reg, b: Operand, nzcv: nat, cc: Cond, d: seq<byte>) returns (flags: Flags)
    requires Sound(s)
    ensures Leaves(s, Step(s, Ccmp(a, b, nzcv, cc), d), Reg(31, true), 0, flags)
    ensures if Holds(s.flags, cc) then OfDifference(flags, Number(s.r, a), NumberOf(s.r, b), a.wide)
            else flags == Flags(Bit(nzcv, 3), Bit(nzcv, 2), Bit(nzcv, 1), Bit(nzcv, 0))
  {
    hide Leaves, Same, Value, NumberOf, OfDifference, SetFlags, Number, Rd, Width, Holds;
    NumberIs(s, a);
    OperandIs(s, b);
    FlagsAre(Rd(s.r, a), Value(s.r, b), Value(s.r, b), a.wide, true);
    FourBits(nzcv);
    flags := if Holds(s.flags, cc) then SetFlags(Rd(s.r, a), Value(s.r, b), Width(a.wide), true).0
             else Flags(Bit(nzcv, 3), Bit(nzcv, 2), Bit(nzcv, 1), Bit(nzcv, 0));
    SetLeaves(s, Reg(31, true), 0, flags);
    GoesOn(s, true, 0, flags);
  }

  lemma FourBits(n: nat)
    ensures Bit(n, 0) == (n % 2 == 1) && Bit(n, 1) == (n / 2 % 2 == 1) && Bit(n, 2) == (n / 4 % 2 == 1)
         && Bit(n, 3) == (n / 8 % 2 == 1)
  {
    assert n / 2 / 2 == n / 4 && n / 4 / 2 == n / 8;
    assert Bit(n, 2) == Bit(n / 2, 1) == Bit(n / 4, 0);
    assert Bit(n, 3) == Bit(n / 2, 2) == Bit(n / 4, 1) == Bit(n / 8, 0);
  }

  // ---------- addresses ----------

  lemma {:induction false} IndexMeans(n: int, ext: seq<Extension>)
    ensures ExtendIndex(n, ext) == Meant(n, ext)
    decreases |ext|
  {
    hide Pow2, Doubled;
    if ext != [] {
      match ext[0]
      case Lsl(k) =>
        DoubledIs(n, k);
        IndexMeans(n * Pow2(k), ext[1..]);
      case Uxtw(k) =>
        DoubledIs(n % 0x1_0000_0000, k);
        IndexMeans(n % LIMIT32 * Pow2(k), ext[1..]);
      case Sxtw(k) =>
        DoubledIs(Signed32(n), k);
        IndexMeans(Sx(n, LIMIT32) * Pow2(k), ext[1..]);
    }
  }

  /** The address of a load: base and index, the index cut to 64 bits and the sum left as it is; the word
      there is read least byte first, a signed one as two's complement. */
  lemma LoadLeaves(s: State, dst: Reg, from: Address, d: seq<byte>, signed: bool) returns (v: int)
    requires Sound(s)
    ensures var address := Number(s.r, from.base) + Meant(NumberOf(s.r, from.index), from.ext) % 0x1_0000_0000_0000_0000;
            var n := if signed || !dst.wide then 4 else 8;
            var step := Step(s, if signed then Ldrsw(dst, from) else Ldr(dst, from), d);
            match Position(d, address, n)
            case None => step == Err(BadAddress)
            case Some(p) =>
              0 <= p && p + n <= |d| && Leaves(s, step, dst, v, s.flags)
              && Same(v, if signed then Signed32(Little(d[p..p + n])) else Little(d[p..p + n]), dst.wide)
  {
    hide Leaves, Same, Set, Value, NumberOf, Number, Rd, ExtendIndex, Meant, Load, Little, Position;
    NumberIs(s, from.base);
    OperandIs(s, from.index);
    IndexMeans(Value(s.r, from.index), from.ext);
    var n := if signed || !dst.wide then 4 else 8;
    var address := Effective(s.r, from);
    LoadIff(d, address, n);
    Unflagged(s);
    v := 0;
    if Position(d, address, n).Some? {
      var word := Load(d, address, n).value;
      var whole := if signed then Sx(word, LIMIT32) % LIMIT64 else word;
      SetLeaves(s, dst, whole, s.flags);
      v := whole % Range(dst.wide);
      if signed {
        SignedSame(word, v, dst.wide);
      }
    }
  }

  lemma SignedSame(word: int, v: int, wide: bool)
    requires v == Sx(word, LIMIT32) % LIMIT64 % Range(wide)
    ensures Same(v, Signed32(word), wide)
  {
    Halves(word, word);
    var n := Signed32(word);
    hide Signed32, Sx;
    RemainderOfRemainder(n);
    NarrowSame(n % LIMIT64, n, wide);
    CutIsSame(n, wide);
  }

  // ---------- branches ----------

  /** The address a chained-fixup word names. */
  function Pointer(v: int): int {
    if v < 0x8000_0000_0000_0000 || 0xFFFF_FFF0_0000_0000 <= v < 0xFFFF_FFF1_0000_0000 then v
    else 0xFFFF_FFF0_0700_4000 + v % 0x1_0000_0000
  }

  /** Where a branch goes; None when it is not taken. */
  function Taken(s: State, op: Op): Option<int>
    requires |s.r| == 32
  {
    match op
    case B(target) => Some(target)
    case Bcond(cc, target) => if Holds(s.flags, cc) then Some(target) else None
    case Cbz(reg, target, zero) => if zero == (Number(s.r, reg) == 0) then Some(target) else None
    case Tbz(reg, bit, target, zero) => if zero != Bit(Number(s.r, reg), bit) then Some(target) else None
    case Br(reg) => Some(Number(s.r, reg))
    case Braa(reg) => Some(Pointer(Number(s.r, reg)))
    case _ => None
  }

  lemma BranchGoes(s: State, op: Op, d: seq<byte>)
    requires Sound(s) && (op.B? || op.Bcond? || op.Cbz? || op.Tbz? || op.Br? || op.Braa? || op.Skip?)
    ensures Step(s, op, d) == Ok(Go(s.(pc := match Taken(s, op) case Some(to) => to case None => s.pc + 4)))
  {
    hide Holds, Pow2, Number, Rd, Bit, Rebase, Pointer;
    match op
    case Cbz(reg, target, zero) => NumberIs(s, reg);
    case Tbz(reg, bit, target, zero) =>
      NumberIs(s, reg);
      TestedBit(Number(s.r, reg), bit);
    case Br(reg) => NumberIs(s, reg);
    case Braa(reg) =>
      NumberIs(s, reg);
      RebaseIsPointer(Number(s.r, reg));
    case _ =>
  }

  lemma TestedBit(v: int, i: nat)
    ensures Bit(v, i) <==> v / Pow2(i) % 2 == 1
  {
    ShiftedRight(v, i, 0);
  }

  lemma RebaseIsPointer(v: int)
    requires 0 <= v < 0x1_0000_0000_0000_0000
    ensures Rebase(v) == Pointer(v)
  {
  }

  lemma RetReturns(s: State, d: seq<byte>)
    requires Sound(s)
    ensures Step(s, Ret, d) == Ok(Return(Pointer(s.r[0])))
  {
    RebaseIsPointer(s.r[0]);
  }
}
