/** Exactly when the timestamps of dvm_hid.c stay in order, whatever the host times do. */
module DvmHidOrder {
  import opened DvmHid
  import opened DvmHidProofs
  import opened DvmHidTimeline

  /** The base gives this host time a place on the timeline. */
  predicate Usable(c: Core, hostMs: int) { hostMs != 0 && c.baseMach != 0 && c.baseHost <= hostMs }

  /** That place, in the 64-bit arithmetic of the code. */
  function Mark(c: Core, hostMs: int, tb: Timebase): nat
    requires tb.Valid() && Usable(c, hostMs)
  {
    (c.baseMach + (hostMs - c.baseHost) * 1000000 * tb.denom % WORD64 / tb.numer) % WORD64
  }

  lemma MarkIsElapsed(c: Core, hostMs: int, tb: Timebase)
    requires tb.Valid() && Usable(c, hostMs) && Fits(c.baseMach, c.baseHost, hostMs, tb)
    ensures Mark(c, hostMs, tb) == c.baseMach + Ticks(hostMs - c.baseHost, tb)
  {
    NonNegative(hostMs - c.baseHost, tb.denom);
    Small((hostMs - c.baseHost) * 1000000 * tb.denom);
    Small(c.baseMach + Ticks(hostMs - c.baseHost, tb));
  }

  lemma StampIs(c: Core, hostMs: int, now: nat, tb: Timebase)
    requires tb.Valid()
    ensures Stamp(c, hostMs, now, tb) == if Usable(c, hostMs) then Min(Mark(c, hostMs, tb), now) else now
  {
  }

  /** A base set by this very record stamps at its own reading, or at the clock. */
  lemma NewBaseStamp(c: Core, hostMs: int, now: nat, tb: Timebase)
    requires tb.Valid() && c.baseHost == hostMs && c.baseMach <= now && c.baseMach < WORD64
    ensures Stamp(c, hostMs, now, tb) >= c.baseMach
  {
    if Usable(c, hostMs) {
      assert 0 * 1000000 * tb.denom == 0;
      Small(c.baseMach);
    }
  }

  /** The timestamp pushed last. */
  function Last(ops: seq<Op>): nat { if ops == [] then 0 else ops[|ops| - 1].ts }

  lemma LastBelow(ops: seq<Op>, limit: nat)
    requires Ordered(ops, limit)
    ensures Last(ops) <= limit
  {
  }

  lemma PushIff(before: seq<Op>, c: Core, op: Op, now: nat)
    requires Ordered(before + c.queue, now) && op.ts <= now && |c.queue| < OP_QUEUE
    ensures Ordered(before + QueueOp(c, op).0.queue, now) <==> Last(before + c.queue) <= op.ts
    ensures Last(before + QueueOp(c, op).0.queue) == op.ts
  {
    var ops := before + c.queue;
    assert before + (c.queue + [op]) == ops + [op];
    if ops != [] && Ordered(ops + [op], now) {
      assert (ops + [op])[|ops| - 1].ts <= (ops + [op])[|ops|].ts;
    }
  }

  lemma PrefixOrdered(ops: seq<Op>, all: seq<Op>, limit: nat, wider: nat)
    requires ops <= all && Ordered(all, wider) && (forall i :: 0 <= i < |ops| ==> ops[i].ts <= limit)
    ensures Ordered(ops, limit)
  {
    assert forall i :: 0 <= i < |ops| ==> ops[i] == all[i];
  }

  // ---------- the two halves of a record ----------

  predicate Releases(c: Core, r: Record) {
    c.state.Ready? && c.held && |c.queue| < OP_QUEUE && r.epoch != c.epoch
  }

  lemma EpochOrder(before: seq<Op>, c: Core, r: Record, now: nat, tb: Timebase)
    requires tb.Valid() && Ordered(before + c.queue, now) && |c.queue| <= OP_QUEUE
    ensures var c1 := EnterEpoch(c, r, now, tb);
            && c1 == c.(held := c.held && r.epoch == c.epoch, epoch := r.epoch, queue := c1.queue)
            && (!Releases(c, r) ==> c1.queue == c.queue)
            && (Releases(c, r) ==> |c1.queue| == |c.queue| + 1 && c.queue <= c1.queue
                                   && Last(before + c1.queue) == Stamp(c, r.hostMs, now, tb))
            && (Ordered(before + c1.queue, now) <==>
                (Releases(c, r) ==> Last(before + c.queue) <= Stamp(c, r.hostMs, now, tb)))
  {
    hide TimelineTimestamp, Ordered, Last;
    if Releases(c, r) {
      var op := MakeOp(c, r, TouchOp, c.heldX, c.heldY, false, true, 0, now, tb);
      StampBelow(c, r.hostMs, now, tb);
      PushIff(before, c.(held := false), op, now);
    }
  }

  /** An operation of the kind switch that is stamped on the base the record meets. */
  predicate OldBase(c: Core, r: Record) {
    c.state.Ready? && |c.queue| < OP_QUEUE &&
    match r.kind
    case Cancel | Down | Move | Up => c.held
    case Wheel => !c.held
    case _ => false
  }

  /** The reading such an operation is stamped with. */
  function OldReading(r: Record, t: Readings): nat { if r.kind.Cancel? || r.kind.Down? then t.release else t.event }

  lemma ActOrder(before: seq<Op>, c: Core, r: Record, t: Readings, tb: Timebase)
    requires tb.Valid() && Ordered(before + c.queue, t.release) && |c.queue| <= OP_QUEUE
    requires t.release <= t.base <= t.event && t.base < WORD64
    ensures c.queue <= Act(c, r, t, tb).0.queue
    ensures Ordered(before + Act(c, r, t, tb).0.queue, t.event) <==>
            (OldBase(c, r) ==> Last(before + c.queue) <= Stamp(c, r.hostMs, OldReading(r, t), tb))
  {
    hide TimelineTimestamp, X, Y, Ordered, Last;
    Loosen(before + c.queue, t.release, t.event);
    StampBelow(c, r.hostMs, t.release, tb);
    StampBelow(c, r.hostMs, t.event, tb);
    if c.state.Ready? && |c.queue| < OP_QUEUE {
      match r.kind
      case Ping =>
      case Cancel =>
        if c.held {
          PushIff(before, c.(held := false), MakeOp(c, r, TouchOp, c.heldX, c.heldY, false, true, 0, t.release, tb), t.event);
        }
      case Button =>
        NewBasePush(before, c.(baseMach := t.base, baseHost := r.hostMs), r, t, ButtonOp, 0.0, 0.0, r.b != 0, r.a, tb);
      case Wheel =>
        if !c.held {
          PushIff(before, c, MakeOp(c, r, WheelOp, X(r), Y(r), false, false, 0, t.event, tb), t.event);
        }
      case Down => DownOrder(before, c, r, t, tb);
      case Move | Up =>
        if c.held {
          var c1 := c.(heldX := X(r), heldY := Y(r), held := r.kind.Move?);
          PushIff(before, c1, MakeOp(c1, r, TouchOp, X(r), Y(r), r.kind.Move?, r.kind.Up?, 0, t.event, tb), t.event);
        }
    }
  }

  /** A push on a base set from this record's reading always comes after everything queued before that reading. */
  lemma NewBasePush(before: seq<Op>, c: Core, r: Record, t: Readings, kind: OpKind, x: real, y: real, down: bool,
                    usage: nat, tb: Timebase)
    requires tb.Valid() && Ordered(before + c.queue, t.release) && t.release <= t.base <= t.event && t.base < WORD64
    requires c.baseMach == t.base && c.baseHost == r.hostMs
    ensures Ordered(before + QueueOp(c, MakeOp(c, r, kind, x, y, down, true, usage, t.event, tb)).0.queue, t.event)
  {
    hide TimelineTimestamp, Ordered, Last;
    NewBaseStamp(c, r.hostMs, t.event, tb);
    StampBelow(c, r.hostMs, t.event, tb);
    LastBelow(before + c.queue, t.release);
    Loosen(before + c.queue, t.release, t.event);
    if |c.queue| < OP_QUEUE {
      PushIff(before, c, MakeOp(c, r, kind, x, y, down, true, usage, t.event, tb), t.event);
    }
  }

  lemma DownOrder(before: seq<Op>, c: Core, r: Record, t: Readings, tb: Timebase)
    requires tb.Valid() && Ordered(before + c.queue, t.release) && |c.queue| < OP_QUEUE && r.kind.Down? && c.state.Ready?
    requires t.release <= t.base <= t.event && t.base < WORD64
    ensures Ordered(before + Act(c, r, t, tb).0.queue, t.event) <==>
            (c.held ==> Last(before + c.queue) <= Stamp(c, r.hostMs, t.release, tb))
  {
    hide TimelineTimestamp, X, Y, Ordered, Last;
    var c1 := ReleaseContact(c, r, t.release, tb).0;
    var c2 := c1.(baseMach := t.base, baseHost := r.hostMs, held := true, heldX := X(r), heldY := Y(r));
    StampBelow(c, r.hostMs, t.release, tb);
    if c.held {
      PushIff(before, c.(held := false), MakeOp(c, r, TouchOp, c.heldX, c.heldY, false, true, 0, t.release, tb), t.release);
    }
    if Ordered(before + c1.queue, t.release) {
      NewBasePush(before, c2, r, t, TouchOp, X(r), Y(r), true, 0, tb);
    } else {
      var op := MakeOp(c2, r, TouchOp, X(r), Y(r), true, true, 0, t.event, tb);
      ReleasedStays(before, c, r, op, t, tb);
    }
  }

  /** What broke the order before the second push still does after it. */
  lemma ReleasedStays(before: seq<Op>, c: Core, r: Record, op: Op, t: Readings, tb: Timebase)
    requires tb.Valid() && c.held && |c.queue| < OP_QUEUE && Ordered(before + c.queue, t.release)
    requires !Ordered(before + ReleaseContact(c, r, t.release, tb).0.queue, t.release)
    ensures !Ordered(before + QueueOp(ReleaseContact(c, r, t.release, tb).0, op).0.queue, t.event)
  {
    hide TimelineTimestamp;
    var released := ReleaseContact(c, r, t.release, tb).0.queue;
    var all := before + QueueOp(ReleaseContact(c, r, t.release, tb).0, op).0.queue;
    assert before + released <= all;
    StampBelow(c, r.hostMs, t.release, tb);
    var p := MakeOp(c, r, TouchOp, c.heldX, c.heldY, false, true, 0, t.release, tb);
    assert before + released == before + c.queue + [p];
    if Ordered(all, t.event) {
      PrefixOrdered(before + released, all, t.release, t.event);
    }
  }

  // ---------- one record ----------

  /** The record pushes something stamped on the base it meets: guards a caller can read off beforehand. */
  predicate OldBasePush(c: Core, r: Record, lost: bool) {
    && c.state.Ready? && |c.queue| < OP_QUEUE
    && (if r.epoch != c.epoch then c.held || (!lost && r.kind.Wheel?)
        else !lost && match r.kind
                      case Cancel | Down | Move | Up => c.held
                      case Wheel => !c.held
                      case _ => false)
  }

  predicate InOrder(s: System, r: Record, lost: bool, tb: Timebase)
    requires tb.Valid()
  {
    OldBasePush(s.core, r, lost) && Usable(s.core, r.hostMs) ==> Last(s.pushed) <= Mark(s.core, r.hostMs, tb)
  }

  /** The clock readings of an event do not run backwards. */
  predicate Clocked(s: System, e: Event) {
    match e
    case Line(_, t, _) => s.now <= t.release <= t.base <= t.event && t.base < WORD64
    case Eof(now) => s.now <= now
    case _ => true
  }

  lemma StampReaches(c: Core, hostMs: int, now: nat, last: nat, tb: Timebase)
    requires tb.Valid() && last <= now
    ensures last <= Stamp(c, hostMs, now, tb) <==> (Usable(c, hostMs) ==> last <= Mark(c, hostMs, tb))
  {
    hide Mark, TimelineTimestamp;
    StampIs(c, hostMs, now, tb);
  }

  /** From any ordered state: the stamps stay in order after a record if and only if it pushes nothing on its old base,
      or that base is not usable for its host time, or the base puts it no earlier than the last stamp. */
  lemma LineOrderedIff(s: System, r: Record, t: Readings, lost: bool, tb: Timebase)
    requires tb.Valid() && Conserved(s) && Ordered(s.pushed, s.now) && !s.closed && Clocked(s, Line(r, t, lost))
    ensures var s' := Step(s, Line(r, t, lost), tb);
            Ordered(s'.pushed, s'.now) <==> InOrder(s, r, lost, tb)
  {
    hide TimelineTimestamp, Ordered, Last, Mark, EnterEpoch, Act, PoppedOps, Reported;
    var (before, c) := (Ops(s.gone), s.core);
    var c1 := EnterEpoch(c, r, t.release, tb);
    var c2 := if lost then c1.(state := Lost) else c1;
    StepConserves(s, Line(r, t, lost), tb);
    Loosen(s.pushed, s.now, t.release);
    LastBelow(s.pushed, s.now);
    EpochOrder(before, c, r, t.release, tb);
    StampReaches(c, r.hostMs, t.release, Last(s.pushed), tb);
    StampReaches(c, r.hostMs, t.event, Last(s.pushed), tb);
    if Ordered(before + c1.queue, t.release) {
      ActOrder(before, c2, r, t, tb);
      SameStamp(c, c2, r.hostMs, t.release, t.event, tb);
    } else {
      EpochBreaks(s, r, t, lost, tb);
    }
  }

  lemma SameStamp(c: Core, c2: Core, hostMs: int, release: nat, event: nat, tb: Timebase)
    requires tb.Valid() && (c.baseMach, c.baseHost) == (c2.baseMach, c2.baseHost) && release <= event
    ensures Stamp(c, hostMs, release, tb) <= Stamp(c2, hostMs, event, tb)
    ensures Stamp(c, hostMs, release, tb) == Stamp(c2, hostMs, release, tb)
    ensures Stamp(c, hostMs, event, tb) == Stamp(c2, hostMs, event, tb)
  {
  }

  lemma EpochBreaks(s: System, r: Record, t: Readings, lost: bool, tb: Timebase)
    requires tb.Valid() && Conserved(s) && Ordered(s.pushed, s.now) && !s.closed && Clocked(s, Line(r, t, lost))
    requires !Ordered(Ops(s.gone) + EnterEpoch(s.core, r, t.release, tb).queue, t.release)
    ensures !Ordered(Step(s, Line(r, t, lost), tb).pushed, t.event)
  {
    hide TimelineTimestamp, Act, PoppedOps, Reported;
    var c1 := EnterEpoch(s.core, r, t.release, tb);
    var all := Step(s, Line(r, t, lost), tb).pushed;
    StepConserves(s, Line(r, t, lost), tb);
    Loosen(s.pushed, s.now, t.release);
    EpochOrder(Ops(s.gone), s.core, r, t.release, tb);
    ActExtends(if lost then c1.(state := Lost) else c1, r, t, tb);
    StampBelow(s.core, r.hostMs, t.release, tb);
    var op := MakeOp(s.core, r, TouchOp, s.core.heldX, s.core.heldY, false, true, 0, t.release, tb);
    assert Ops(s.gone) + c1.queue == s.pushed + [op];
    assert Ops(s.gone) + c1.queue <= all;
    if Ordered(all, t.event) {
      PrefixOrdered(Ops(s.gone) + c1.queue, all, t.release, t.event);
    }
  }

  lemma ActExtends(c: Core, r: Record, t: Readings, tb: Timebase)
    requires tb.Valid()
    ensures c.queue <= Act(c, r, t, tb).0.queue
  {
    hide MakeOp, X, Y;
  }

  // ---------- runs ----------

  predicate AllClocked(s: System, events: seq<Event>, tb: Timebase)
    requires tb.Valid() && Runs(s, events, tb)
    decreases |events|
  {
    events == [] || (Clocked(s, events[0]) && AllClocked(Step(s, events[0], tb), events[1..], tb))
  }

  predicate AllInOrder(s: System, events: seq<Event>, tb: Timebase)
    requires tb.Valid() && Runs(s, events, tb)
    decreases |events|
  {
    events == [] ||
    (&& (events[0].Line? ==> InOrder(s, events[0].r, events[0].lost, tb))
     && AllInOrder(Step(s, events[0], tb), events[1..], tb))
  }

  lemma StepOrderedIff(s: System, e: Event, tb: Timebase)
    requires tb.Valid() && Conserved(s) && Ordered(s.pushed, s.now) && Enabled(s, e) && Clocked(s, e)
    ensures var s' := Step(s, e, tb);
            Ordered(s'.pushed, s'.now) <==> (e.Line? ==> InOrder(s, e.r, e.lost, tb))
  {
    hide InOrder, Ordered, Handle, PoppedOps, Reported;
    match e
    case Line(r, t, lost) => LineOrderedIff(s, r, t, lost, tb);
    case Eof(now) => EofOrder(s, now, tb);
    case _ =>
  }

  lemma EofOrder(s: System, now: nat, tb: Timebase)
    requires tb.Valid() && Conserved(s) && Ordered(s.pushed, s.now) && Enabled(s, Eof(now)) && s.now <= now
    ensures Ordered(Step(s, Eof(now), tb).pushed, now)
  {
    hide Ordered, PoppedOps, Reported;
    StepConserves(s, Eof(now), tb);
    Loosen(s.pushed, s.now, now);
    if s.core.state.Ready? {
      ReleaseOrdered(Ops(s.gone), s.core, EofRecord(s.core), now, now, tb);
    }
  }

  lemma StepExtends(s: System, e: Event, tb: Timebase)
    requires tb.Valid() && Conserved(s) && Enabled(s, e)
    ensures s.pushed <= Step(s, e, tb).pushed
  {
    hide Handle, ReleaseContact;
  }

  lemma {:induction false} RunExtends(s: System, events: seq<Event>, tb: Timebase)
    requires tb.Valid() && Conserved(s) && Runs(s, events, tb)
    ensures s.pushed <= After(s, events, tb).pushed
    decreases |events|
  {
    hide Step, Conserved;
    if events != [] {
      StepExtends(s, events[0], tb);
      StepConserves(s, events[0], tb);
      RunExtends(Step(s, events[0], tb), events[1..], tb);
    }
  }

  lemma {:induction false} RunOrderedIff(s: System, events: seq<Event>, tb: Timebase)
    requires tb.Valid() && Conserved(s) && Ordered(s.pushed, s.now) && Runs(s, events, tb) && AllClocked(s, events, tb)
    ensures Ordered(After(s, events, tb).pushed, After(s, events, tb).now) <==> AllInOrder(s, events, tb)
    decreases |events|
  {
    hide Step, Conserved, Ordered, Clocked, InOrder;
    if events != [] {
      var s' := Step(s, events[0], tb);
      StepOrderedIff(s, events[0], tb);
      StepConserves(s, events[0], tb);
      if Ordered(s'.pushed, s'.now) {
        RunOrderedIff(s', events[1..], tb);
      } else {
        RunExtends(s', events[1..], tb);
        StaysBroken(s, events, tb);
      }
    }
  }

  predicate Below(ops: seq<Op>, limit: nat) { forall i :: 0 <= i < |ops| ==> ops[i].ts <= limit }

  lemma ReleaseBelow(c: Core, r: Record, now: nat, tb: Timebase)
    requires tb.Valid() && Below(c.queue, now)
    ensures Below(ReleaseContact(c, r, now, tb).0.queue, now)
  {
    hide TimelineTimestamp;
  }

  lemma ActBelow(c: Core, r: Record, t: Readings, tb: Timebase)
    requires tb.Valid() && Below(c.queue, t.release) && t.release <= t.event
    ensures Below(Act(c, r, t, tb).0.queue, t.event)
  {
    hide TimelineTimestamp, X, Y, ReleaseContact;
    ReleaseBelow(c, r, t.release, tb);
  }

  /** No stamp is later than the clock, in order or not. */
  lemma BelowClock(s: System, e: Event, tb: Timebase)
    requires tb.Valid() && Conserved(s) && Below(s.pushed, s.now) && Enabled(s, e) && Clocked(s, e)
    ensures Below(Step(s, e, tb).pushed, Step(s, e, tb).now)
  {
    hide TimelineTimestamp, ReleaseContact, Act, PoppedOps, Reported;
    StepConserves(s, e, tb);
    var before := Ops(s.gone);
    assert forall i :: 0 <= i < |s.core.queue| ==> s.core.queue[i] == s.pushed[|before| + i];
    match e
    case Line(r, t, lost) =>
      ReleaseBelow(s.core, r, t.release, tb);
      var c1 := EnterEpoch(s.core, r, t.release, tb);
      ActBelow(if lost then c1.(state := Lost) else c1, r, t, tb);
      BelowJoined(s, Step(s, e, tb).core.queue, t.event);
    case Eof(now) =>
      ReleaseBelow(s.core, EofRecord(s.core), now, tb);
      BelowJoined(s, Step(s, e, tb).core.queue, now);
    case _ =>
  }

  lemma BelowJoined(s: System, queue: seq<Op>, limit: nat)
    requires Conserved(s) && Below(s.pushed, s.now) && s.now <= limit && Below(queue, limit)
    ensures Below(Ops(s.gone) + queue, limit)
  {
    assert forall i :: 0 <= i < |Ops(s.gone)| ==> Ops(s.gone)[i] == s.pushed[i];
  }

  lemma StaysBroken(s: System, events: seq<Event>, tb: Timebase)
    requires tb.Valid() && Conserved(s) && Ordered(s.pushed, s.now) && events != [] && Runs(s, events, tb)
    requires AllClocked(s, events, tb)
    requires var s' := Step(s, events[0], tb); !Ordered(s'.pushed, s'.now) && s'.pushed <= After(s, events, tb).pushed
    ensures !Ordered(After(s, events, tb).pushed, After(s, events, tb).now)
  {
    hide Step, Conserved;
    var s' := Step(s, events[0], tb);
    BelowClock(s, events[0], tb);
    if Ordered(After(s, events, tb).pushed, After(s, events, tb).now) {
      PrefixOrdered(s'.pushed, After(s, events, tb).pushed, s'.now, After(s, events, tb).now);
    }
  }

  /** Over every run whose clock does not run backwards, and with no hypothesis on host times: the pushed timestamps
      are in order and below the clock if and only if every record is placed no earlier than the last stamp. */
  lemma TimestampsOrderedIff(events: seq<Event>, tb: Timebase)
    requires tb.Valid() && Runs(Initial(), events, tb) && AllClocked(Initial(), events, tb)
    ensures Ordered(After(Initial(), events, tb).pushed, After(Initial(), events, tb).now)
            <==> AllInOrder(Initial(), events, tb)
  {
    RunOrderedIff(Initial(), events, tb);
  }

  // ---------- host times that run backwards ----------

  const NANOSECONDS := Timebase(1, 1)

  function Finger(kind: Kind, hostMs: int, now: nat): Event {
    Line(Record(0, 1, kind, 0, 0, 0, hostMs), Readings(now, now, now), false)
  }

  /** A finger put down at host time 5, moved at 10, and moved again by a record that says 9. */
  function BackwardsRun(n1: nat, n2: nat): seq<Event> {
    [Initialised(true), Finger(Down, 5, 1), Finger(Move, 10, n1), Finger(Move, 9, n2)]
  }

  lemma FingerDown(s: System)
    requires s == Step(Initial(), Initialised(true), NANOSECONDS)
    ensures Enabled(s, Finger(Down, 5, 1)) && Clocked(s, Finger(Down, 5, 1)) && InOrder(s, Finger(Down, 5, 1).r, false, NANOSECONDS)
    ensures var s' := Step(s, Finger(Down, 5, 1), NANOSECONDS);
            && s'.core.state.Ready? && s'.core.held && s'.core.epoch == 0 && !s'.closed && s'.now == 1
            && s'.core.baseMach == 1 && s'.core.baseHost == 5 && |s'.core.queue| == 1 && |s'.pushed| == 1 && Last(s'.pushed) == 1
  {
    hide X, Y;
  }

  lemma FingerMoves(s: System, hostMs: int, now: nat)
    requires s.core.state.Ready? && s.core.held && s.core.epoch == 0 && s.core.baseMach == 1 && s.core.baseHost == 5
    requires |s.core.queue| < OP_QUEUE && !s.closed && 5 <= hostMs <= 10 && s.now <= now
    ensures Enabled(s, Finger(Move, hostMs, now)) && Clocked(s, Finger(Move, hostMs, now)) <==> now < WORD64
    ensures InOrder(s, Finger(Move, hostMs, now).r, false, NANOSECONDS) <==> Last(s.pushed) <= 1 + (hostMs - 5) * 1000000
    ensures var s' := Step(s, Finger(Move, hostMs, now), NANOSECONDS);
            && s'.core.state.Ready? && s'.core.held && s'.core.epoch == 0 && !s'.closed && s'.now == now
            && s'.core.baseMach == 1 && s'.core.baseHost == 5 && |s'.core.queue| == |s.core.queue| + 1
            && Last(s'.pushed) == Min(1 + (hostMs - 5) * 1000000, now)
  {
    hide X, Y;
    assert Mark(s.core, hostMs, NANOSECONDS) == 1 + (hostMs - 5) * 1000000;
  }

  lemma NothingLeft(s: System)
    ensures Runs(s, [], NANOSECONDS) && AllClocked(s, [], NANOSECONDS) && AllInOrder(s, [], NANOSECONDS)
  {
  }

  /** One event of a run, for everything said about runs. */
  lemma Unfold(s: System, es: seq<Event>, k: nat)
    requires k < |es| && Enabled(s, es[k]) && Runs(Step(s, es[k], NANOSECONDS), es[k + 1..], NANOSECONDS)
    ensures Runs(s, es[k..], NANOSECONDS)
    ensures var s' := Step(s, es[k], NANOSECONDS);
            && (AllClocked(s, es[k..], NANOSECONDS) <==> Clocked(s, es[k]) && AllClocked(s', es[k + 1..], NANOSECONDS))
            && (AllInOrder(s, es[k..], NANOSECONDS) <==>
                (es[k].Line? ==> InOrder(s, es[k].r, es[k].lost, NANOSECONDS)) && AllInOrder(s', es[k + 1..], NANOSECONDS))
  {
    hide Step, InOrder, Clocked;
    assert es[k..][0] == es[k] && es[k..][1..] == es[k + 1..];
  }

  /** The order then depends on the clock alone: stamps cut at a clock that lags stay in order, others do not. */
  lemma BackwardHostTimes(n1: nat, n2: nat)
    requires 1 <= n1 <= n2 < WORD64
    ensures Runs(Initial(), BackwardsRun(n1, n2), NANOSECONDS)
    ensures var s := After(Initial(), BackwardsRun(n1, n2), NANOSECONDS);
            Ordered(s.pushed, s.now) <==> n1 <= 4_000_001
  {
    hide Step, InOrder, Ordered;
    var es := BackwardsRun(n1, n2);
    var s1 := Step(Initial(), Initialised(true), NANOSECONDS);
    FingerDown(s1);
    var s2 := Step(s1, es[1], NANOSECONDS);
    FingerMoves(s2, 10, n1);
    var s3 := Step(s2, es[2], NANOSECONDS);
    FingerMoves(s3, 9, n2);
    NothingLeft(Step(s3, es[3], NANOSECONDS));
    Unfold(s3, es, 3);
    Unfold(s2, es, 2);
    Unfold(s1, es, 1);
    Unfold(Initial(), es, 0);
    assert es[0..] == es;
    TimestampsOrderedIff(es, NANOSECONDS);
  }
}
