/** The globals of dvm_hid.c and the code that updates them under the lock. Every method is tied to the
    transition of DvmHid.dfy on the abstract value of the globals. */
module DvmHidDaemon {
  import opened DvmHid

  /** A ring's content: `len` slots from `head`, wrapping at the last slot. */
  function RingContents(slots: seq<Op>, head: nat, len: nat): (s: seq<Op>)
    requires |slots| == OP_QUEUE && head < OP_QUEUE && len <= OP_QUEUE
    ensures |s| == len
  {
    if head + len <= OP_QUEUE then slots[head..head + len]
    else slots[head..] + slots[..head + len - OP_QUEUE]
  }

  lemma RingPush(slots: seq<Op>, head: nat, len: nat, op: Op)
    requires |slots| == OP_QUEUE && head < OP_QUEUE && len < OP_QUEUE
    ensures RingContents(slots[(head + len) % OP_QUEUE := op], head, len + 1) == RingContents(slots, head, len) + [op]
  {
    var after := slots[(head + len) % OP_QUEUE := op];
    if head + len >= OP_QUEUE {
      assert after[head..] == slots[head..];
      assert after[..head + len + 1 - OP_QUEUE] == slots[..head + len - OP_QUEUE] + [op];
    }
  }

  lemma RingAt(slots: seq<Op>, head: nat, len: nat, k: nat)
    requires |slots| == OP_QUEUE && head < OP_QUEUE && len <= OP_QUEUE && k < len
    ensures RingContents(slots, head, len)[k] == slots[(head + k) % OP_QUEUE]
  {
  }

  lemma RingPop(slots: seq<Op>, head: nat, len: nat)
    requires |slots| == OP_QUEUE && head < OP_QUEUE && 0 < len <= OP_QUEUE
    ensures RingContents(slots, head, len) == [slots[head]] + RingContents(slots, (head + 1) % OP_QUEUE, len - 1)
  {
    hide RingContents;
    var next := (head + 1) % OP_QUEUE;
    RingAt(slots, head, len, 0);
    forall k | 1 <= k < len
      ensures RingContents(slots, head, len)[k] == RingContents(slots, next, len - 1)[k - 1]
    {
      RingAt(slots, head, len, k);
      RingAt(slots, next, len - 1, k - 1);
    }
  }

  class Daemon {
    const tb: Timebase
    var state: ServiceState
    var needRecovery: bool
    var epoch: nat
    var held: bool
    var heldX: real
    var heldY: real
    var gestureBaseMach: nat
    var gestureBaseHostMs: int
    var ops: array<Op>
    var opHead: nat
    var opLen: nat
    var failures: nat

    ghost predicate Valid()
      reads this
    {
      tb.Valid() && ops.Length == OP_QUEUE && opHead < OP_QUEUE && opLen <= OP_QUEUE
    }

    ghost function Contents(): seq<Op>
      requires ops.Length == OP_QUEUE && opHead < OP_QUEUE && opLen <= OP_QUEUE
      reads this`ops, this`opHead, this`opLen, ops
    {
      RingContents(ops[..], opHead, opLen)
    }

    ghost function Abs(): Core
      requires Valid()
      reads this, ops
    {
      Core(state, needRecovery, epoch, held, heldX, heldY, gestureBaseMach, gestureBaseHostMs, Contents())
    }

    constructor (tb: Timebase)
      requires tb.Valid()
      ensures Valid() && fresh(ops) && Abs() == InitialCore() && failures == 0 && this.tb == tb
    {
      this.tb := tb;
      state, needRecovery, epoch, held, heldX, heldY := Initialising, false, 0, false, 0.0, 0.0;
      gestureBaseMach, gestureBaseHostMs, opHead, opLen, failures := 0, 0, 0, 0, 0;
      ops := new Op[OP_QUEUE](_ => Op(0, 0, TouchOp, 0.0, 0.0, false, false, 0, 0, 0));
    }

    method Queue(r: Record, kind: OpKind, x: real, y: real, down: bool, edge: bool, usage: nat, now: nat)
      returns (ok: bool)
      requires Valid()
      modifies this`opLen, ops
      ensures Valid()
      ensures (Abs(), ok) == QueueOp(old(Abs()), MakeOp(old(Abs()), r, kind, x, y, down, edge, usage, now, tb))
    {
      hide RingContents, TimelineTimestamp;
      if opLen >= OP_QUEUE {
        return false;
      }
      ghost var before := ops[..];
      ops[(opHead + opLen) % OP_QUEUE] :=
        Op(r.epoch, r.number, kind, x, y, down, edge, usage,
           TimelineTimestamp(r.hostMs, gestureBaseMach, gestureBaseHostMs, now, tb), r.c);
      RingPush(before, opHead, opLen, ops[(opHead + opLen) % OP_QUEUE]);
      assert ops[..] == before[(opHead + opLen) % OP_QUEUE := ops[(opHead + opLen) % OP_QUEUE]];
      opLen := opLen + 1;
      ok := true;
    }

    method Release(r: Record, now: nat) returns (ok: bool)
      requires Valid()
      modifies this`held, this`opLen, ops
      ensures Valid()
      ensures (Abs(), ok) == ReleaseContact(old(Abs()), r, now, tb)
    {
      hide Contents, TimelineTimestamp;
      if !held {
        return true;
      }
      held := false;
      ok := Queue(r, TouchOp, heldX, heldY, false, true, 0, now);
    }

    /** `lost` is the unlocked write of the notification callback, between the two reads of the state. */
    method HandleRecord(r: Record, t: Readings, lost: bool) returns (reply: Reply)
      requires Valid()
      modifies this, ops
      ensures Valid() && ops == old(ops) && failures == old(failures)
      ensures (Abs(), reply) == Handle(old(Abs()), r, t, lost, tb)
    {
      hide Contents, ReleaseContact, Act;
      if r.epoch != epoch {
        if state.Ready? {
          var _ := Release(r, t.release);
        }
        held := false;
        epoch := r.epoch;
      }
      if lost {
        state := Lost;
      }
      reply := Switch(r, t);
    }

    method Switch(r: Record, t: Readings) returns (reply: Reply)
      requires Valid()
      modifies this, ops
      ensures Valid() && ops == old(ops) && failures == old(failures)
      ensures (Abs(), reply) == Act(old(Abs()), r, t, tb)
    {
      hide Contents, MakeOp, X, Y;
      var ok := true;
      match r.kind {
        case Ping => return Queued;
        case Cancel =>
          if !state.Ready? {
            held := false;
            return Queued;
          }
          ok := Release(r, t.release);
          return if ok then Queued else Failed;
        case Button =>
          if !state.Ready? {
            return NotReady;
          }
          gestureBaseMach, gestureBaseHostMs := t.base, r.hostMs;
          ok := Queue(r, ButtonOp, 0.0, 0.0, r.b != 0, true, r.a, t.event);
          return if ok then Queued else Failed;
        case Wheel =>
          if !state.Ready? {
            return NotReady;
          }
          if held {
            return Queued;
          }
          ok := Queue(r, WheelOp, X(r), Y(r), false, false, 0, t.event);
          return if ok then Queued else Failed;
        case _ =>
      }
      reply := TouchRecord(r, t);
    }

    /** The code after the switch: down, move and up. */
    method TouchRecord(r: Record, t: Readings) returns (reply: Reply)
      requires Valid() && (r.kind.Down? || r.kind.Move? || r.kind.Up?)
      modifies this, ops
      ensures Valid() && ops == old(ops) && failures == old(failures)
      ensures (Abs(), reply) == Act(old(Abs()), r, t, tb)
    {
      hide Contents, MakeOp, X, Y;
      var ok := true;
      if !state.Ready? {
        held := false;
        return NotReady;
      }
      if r.kind.Down? {
        if held {
          var _ := Release(r, t.release);
        }
        gestureBaseMach, gestureBaseHostMs := t.base, r.hostMs;
        held, heldX, heldY := true, X(r), Y(r);
        ok := Queue(r, TouchOp, X(r), Y(r), true, true, 0, t.event);
        return if ok then Queued else Failed;
      }
      if !held {
        return Queued;
      }
      heldX, heldY := X(r), Y(r);
      if r.kind.Up? {
        held := false;
      }
      ok := Queue(r, TouchOp, X(r), Y(r), r.kind.Move?, r.kind.Up?, 0, t.event);
      return if ok then Queued else Failed;
    }

    /** The reader's last act when its input ends. */
    method EndOfInput(now: nat, ghost s: System)
      requires Valid() && s.core == Abs() && Enabled(s, Eof(now))
      modifies this`held, this`opLen, ops
      ensures Valid() && Abs() == Step(s, Eof(now), tb).core
    {
      hide Contents, ReleaseContact;
      if state.Ready? {
        var _ := Release(Record(epoch, 0, Ping, 0, 0, 0, 0), now);
      }
    }

    /** The worker's turn with the lock: reset the ring for a recovery, or take the oldest operation. */
    method Turn(ghost s: System) returns (next: Phase)
      requires Valid() && s.core == Abs() && Enabled(s, Take)
      modifies this`opHead, this`opLen
      ensures Valid() && Abs() == TakeTurn(s).core && next == TakeTurn(s).phase
    {
      if needRecovery {
        opHead, opLen := 0, 0;
        return Resetting;
      }
      hide RingContents;
      RingPop(ops[..], opHead, opLen);
      next := Dispatching(ops[opHead]);
      opHead := (opHead + 1) % OP_QUEUE;
      opLen := opLen - 1;
    }

    /** After a dispatch: two failures in a row ask for recovery. */
    method Finish(ok: bool, ghost s: System)
      requires Valid() && s.core == Abs() && s.failures == failures && Enabled(s, Report(ok))
      modifies this`failures, this`needRecovery
      ensures Valid() && Abs() == FinishDispatch(s, ok).core && failures == FinishDispatch(s, ok).failures
    {
      failures := if ok then 0 else failures + 1;
      if failures >= 2 {
        needRecovery := true;
      }
    }

    method BeginRecovery(ghost s: System)
      requires Valid() && s.core == Abs() && Enabled(s, RecoverBegin)
      modifies this`state
      ensures Valid() && Abs() == Step(s, RecoverBegin, tb).core
    {
      state := Initialising;
    }

    /** One attempt to create both services. */
    method AttemptRecovery(ok: bool, ghost s: System)
      requires Valid() && s.core == Abs() && s.failures == failures && Enabled(s, RecoverAttempt(ok))
      modifies this`needRecovery, this`held, this`state, this`failures
      ensures Valid() && Abs() == Step(s, RecoverAttempt(ok), tb).core
      ensures failures == Step(s, RecoverAttempt(ok), tb).failures
    {
      if ok {
        needRecovery, held, state, failures := false, false, Ready, 0;
      }
    }
  }
}
