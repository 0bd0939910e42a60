/** dcp_dtable.py's Emu as it runs: registers and flags updated in place, one decoded instruction after the other. */
module DcpEmulator {
  import opened Results
  import opened Bytes
  import opened DcpInterpreter
  import opened DcpInterpreterProofs

  /** Where an instruction leads: another address, or out of the routine. */
  datatype Next = Jump(pc: int) | Out(value: int)

  class Emu {
    var r: seq<int>
    var n: bool
    var z: bool
    var c: bool
    var v: bool
    const code: Code
    const image: seq<byte>

    constructor (code: Code, image: seq<byte>)
      ensures this.code == code && this.image == image
    {
      this.code, this.image := code, image;
      r, n, z, c, v := [], false, false, false, false;
    }

    ghost function At(pc: int): State
      reads this
    {
      State(r, Flags(n, z, c, v), pc)
    }

    /** wr: reading the register back gives the value cut to the name's width, its 64-bit name shows nothing above
        that width, and no other register is touched. */
    method Write(reg: Reg, val: int)
      requires |r| == 32
      modifies this`r
      ensures |r| == 32 && Rd(r, reg) == if reg.n >= 31 then 0 else val % Width(reg.wide)
      ensures Rd(r, Reg(reg.n, true)) == Rd(r, reg)
      ensures forall other: Reg :: other.n != reg.n ==> Rd(r, other) == Rd(old(r), other)
      ensures r == Wr(old(r), reg, val)
    {
      if reg.n >= 31 {
        return;
      }
      r := r[reg.n := if reg.wide then val % LIMIT64 else val % LIMIT32];
      ReadBack(val, reg.wide);
    }

    /** flags: after a subtraction each condition is the comparison it names; after an addition carry and overflow are
        those of the unsigned and the signed sum. */
    method Compute(a: int, b: int, wide: bool, sub: bool) returns (res: int)
      modifies this`n, this`z, this`c, this`v
      ensures res == (if sub then a - b else a + b) % Width(wide)
      ensures sub ==> forall cc :: Holds(Flags(n, z, c, v), cc) <==> Compares(cc, a, b, Width(wide))
      ensures !sub ==> (c <==> a % Width(wide) + b % Width(wide) >= Width(wide))
      ensures !sub ==> (v <==> !(-(Width(wide) / 2) <= Sx(a, Width(wide)) + Sx(b, Width(wide)) < Width(wide) / 2))
      ensures (Flags(n, z, c, v), res) == SetFlags(a, b, Width(wide), sub)
    {
      var m := Width(wide);
      var x, y := a % m, b % m;
      if sub {
        res := (x - y) % m;
        c := x >= y;
        v := Top(x, m) != Top(y, m) && Top(x, m) != Top(res, m);
      } else {
        res := (x + y) % m;
        c := x + y > m - 1;
        v := Top(x, m) == Top(y, m) && Top(x, m) != Top(res, m);
      }
      n := Top(res, m);
      z := res == 0;
      FlagsMean(a, b, wide, sub);
    }

    /** One instruction: the specified step on the fields, or the specified error. */
    method Execute(op: Op, pc: int) returns (step: Result<Next, Error>)
      requires |r| == 32
      modifies this
      ensures |r| == 32 && Follows(step, Step(old(At(pc)), op, image))
    {
      hide Holds, Rd, Rebase, Pow2, StepArith, SetFlags, Load, Set;
      match op
      case Skip => step := Ok(Jump(pc + 4));
      case Arith(dst, a, b, ext, sub, sets) =>
        Arithmetic(dst, a, b, ext, sub, sets, pc);
        step := Ok(Jump(pc + 4));
      case Ccmp(a, b, nzcv, cc) =>
        Compare(a, b, nzcv, cc);
        step := Ok(Jump(pc + 4));
      case B(target) => step := Ok(Jump(target));
      case Bcond(cc, target) => step := Ok(Jump(if Holds(Flags(n, z, c, v), cc) then target else pc + 4));
      case Cbz(reg, target, zero) => step := Ok(Jump(if (Rd(r, reg) == 0) == zero then target else pc + 4));
      case Tbz(reg, bit, target, zero) =>
        step := Ok(Jump(if (Rd(r, reg) / Pow2(bit) % 2 == 0) == zero then target else pc + 4));
      case Br(reg) => step := Ok(Jump(Rd(r, reg)));
      case Braa(reg) => step := Ok(Jump(Rebase(Rd(r, reg))));
      case Ret => step := Ok(Out(Rebase(r[0])));
      case _ => step := Move(op, pc);
    }

    /** What an answer and the fields say about a specified step. */
    ghost predicate Follows(step: Result<Next, Error>, want: Result<Effect, Error>)
      reads this
    {
      match want
      case Err(e) => step == Err(e)
      case Ok(Return(value)) => step == Ok(Out(value))
      case Ok(Go(t)) => step.Ok? && step.value.Jump? && At(step.value.pc) == t
    }

    /** The instructions that write one register and nothing else. */
    method Move(op: Op, pc: int) returns (step: Result<Next, Error>)
      requires |r| == 32
      requires op.Mov? || op.Movk? || op.Bitwise? || op.Shift? || op.Csel? || op.Csneg? || op.Cset? || op.Adr? || op.Ldrsw?
               || op.Ldr?
      modifies this`r
      ensures |r| == 32 && Follows(step, Step(old(At(pc)), op, image))
    {
      hide Insert, BitOp, Effective, Load, Holds, Width, Rd, Wr, Pow2, Value, Sx;
      step := Ok(Jump(pc + 4));
      match op
      case Mov(dst, src) => Write(dst, Value(r, src));
      case Movk(dst, imm, shift) => Write(dst, Insert(Rd(r, dst), imm, shift));
      case Bitwise(l, dst, a, b) => Write(dst, BitOp(l, Rd(r, a), Value(r, b) % LIMIT64, 64));
      case Shift(left, dst, a, b) =>
        var count := Value(r, b);
        if count < 0 {
          return Err(BadShift);
        }
        Write(dst, if left then Rd(r, a) * Pow2(count) else Rd(r, a) / Pow2(count));
      case Csel(dst, a, b, cc) => Write(dst, if Holds(Flags(n, z, c, v), cc) then Rd(r, a) else Rd(r, b));
      case Csneg(dst, a, b, cc) => Write(dst, if Holds(Flags(n, z, c, v), cc) then Rd(r, a) else -Rd(r, b) % LIMIT64);
      case Cset(dst, cc) => Write(dst, if Holds(Flags(n, z, c, v), cc) then 1 else 0);
      case Adr(dst, target) => Write(dst, target);
      case Ldrsw(dst, from) =>
        var word := Load(image, Effective(r, from), 4);
        if word.Err? {
          return Err(word.error);
        }
        Write(dst, Sx(word.value, LIMIT32) % LIMIT64);
      case Ldr(dst, from) =>
        var word := Load(image, Effective(r, from), if dst.wide then 8 else 4);
        if word.Err? {
          return Err(word.error);
        }
        Write(dst, word.value);
    }

    /** ccmp: compare, or set the flags from the immediate. */
    method Compare(a: Reg, b: Operand, nzcv: nat, cc: Cond)
      requires |r| == 32
      modifies this`n, this`z, this`c, this`v
      ensures Flags(n, z, c, v) ==
              if Holds(old(Flags(n, z, c, v)), cc) then SetFlags(Rd(r, a), Value(r, b), Width(a.wide), true).0
              else Flags(nzcv / 8 % 2 == 1, nzcv / 4 % 2 == 1, nzcv / 2 % 2 == 1, nzcv % 2 == 1)
    {
      hide Holds, Rd, Value, SetFlags, Compares, Width;
      if Holds(Flags(n, z, c, v), cc) {
        var _ := Compute(Rd(r, a), Value(r, b), a.wide, true);
      } else {
        n, z, c, v := nzcv / 8 % 2 == 1, nzcv / 4 % 2 == 1, nzcv / 2 % 2 == 1, nzcv % 2 == 1;
      }
    }

    /** add, sub and their flag-setting and comparing forms. */
    method Arithmetic(dst: Option<Reg>, a: Reg, b: Operand, ext: seq<Extension>, sub: bool, sets: bool, pc: int)
      requires |r| == 32
      modifies this
      ensures |r| == 32 && Go(At(pc + 4)) == StepArith(old(At(pc)), dst, a, b, ext, sub, sets)
    {
      hide Extend, SetFlags, Compares, Holds, Width, Rd, Wr, Value, Sx;
      var wide := match dst case Some(d) => d.wide case None => a.wide;
      var x, y := Rd(r, a), Extend(Value(r, b), ext);
      var res;
      if sets {
        res := Compute(x, y, wide, sub);
      } else {
        res := (if sub then x - y else x + y) % Width(wide);
        FlagsMean(x, y, wide, sub);
      }
      if dst.Some? {
        Write(dst.value, res);
      }
    }

    /** run: at most `limit` instructions from `entry`, with the name in its register. */
    method Interpret(entry: int, namereg: nat, name: int, limit: nat) returns (result: Result<int, Error>)
      requires namereg < 32
      modifies this
      ensures result == Run(Initial(entry, namereg, name), code, image, limit)
    {
      hide Step;
      r := seq(32, _ => 0)[namereg := name];
      n, z, c, v := false, false, false, false;
      var pc := entry;
      assert At(pc) == Initial(entry, namereg, name);
      for i := 0 to limit
        invariant |r| == 32
        invariant Run(Initial(entry, namereg, name), code, image, limit) == Run(At(pc), code, image, limit - i)
      {
        var op := code(pc);
        if op.None? {
          return Err(NoInstruction);
        }
        var step := Execute(op.value, pc);
        if step.Err? {
          return Err(step.error);
        }
        match step.value {
          case Out(value) => return Ok(value);
          case Jump(target) => pc := target;
        }
      }
      result := Err(NoReturn);
    }
  }

  lemma ReadBack(val: int, wide: bool)
    ensures 0 <= val % Width(wide) < LIMIT64 && val % Width(wide) % Width(wide) == val % Width(wide)
    ensures val % Width(wide) % LIMIT64 == val % Width(wide)
  {
  }

  lemma FlagsMean(a: int, b: int, wide: bool, sub: bool)
    ensures var m := Width(wide);
            var (f, res) := SetFlags(a, b, m, sub);
            && res == (if sub then a - b else a + b) % m
            && (sub ==> forall cc :: Holds(f, cc) <==> Compares(cc, a, b, m))
            && (!sub ==> (f.c <==> a % m + b % m >= m)
                         && (f.v <==> !(-(m / 2) <= Sx(a, m) + Sx(b, m) < m / 2)))
  {
    hide Holds, Compares, Width;
    if sub {
      forall cc
        ensures Holds(SetFlags(a, b, Width(wide), sub).0, cc) <==> Compares(cc, a, b, Width(wide))
      {
        CondIsComparison(a, b, wide, cc);
      }
      Reduced(a, b, wide);
    } else {
      AdditionFlags(a, b, wide);
    }
  }
}
