/** The event timeline of dvm_hid.c: timestamps follow the host gesture and never run backwards. */
module DvmHidTimeline {
  import opened DvmHid
  import opened DvmHidProofs
  import Arithmetic

  function Ticks(elapsedMs: nat, tb: Timebase): nat
    requires tb.Valid()
  {
    elapsedMs * 1000000 * tb.denom / tb.numer
  }

  /** The 64-bit tick arithmetic of this base does not overflow at this host time. */
  predicate Fits(baseMach: nat, baseHost: int, hostMs: int, tb: Timebase)
    requires tb.Valid()
  {
    baseMach != 0 && baseHost <= hostMs ==>
      (hostMs - baseHost) * 1000000 * tb.denom < WORD64 && baseMach + Ticks(hostMs - baseHost, tb) < WORD64
  }

  lemma TicksMonotone(d1: nat, d2: nat, tb: Timebase)
    requires tb.Valid() && d1 <= d2
    ensures Ticks(d1, tb) <= Ticks(d2, tb)
  {
    var a, b, n := d1 * 1000000 * tb.denom, d2 * 1000000 * tb.denom, tb.numer;
    assert a <= b by {
      assert b - a == (d2 - d1) * 1000000 * tb.denom;
    }
    Arithmetic.DivMonotone(a, b, n);
  }

  /** Without overflow the timestamp is the base plus the elapsed ticks, cut at the clock. */
  lemma TimestampValue(hostMs: int, baseMach: nat, baseHost: int, now: nat, tb: Timebase)
    requires tb.Valid() && Fits(baseMach, baseHost, hostMs, tb)
    ensures TimelineTimestamp(hostMs, baseMach, baseHost, now, tb) ==
            if hostMs == 0 || baseMach == 0 || hostMs < baseHost then now
            else Min(baseMach + Ticks(hostMs - baseHost, tb), now)
  {
    if baseMach != 0 && baseHost <= hostMs {
      var product := (hostMs - baseHost) * 1000000 * tb.denom;
      NonNegative(hostMs - baseHost, tb.denom);
      Small(product);
      Small(baseMach + Ticks(hostMs - baseHost, tb));
    }
  }

  lemma NonNegative(d: nat, m: nat)
    ensures d * 1000000 * m >= 0
  {
  }

  lemma Small(v: nat)
    requires v < WORD64
    ensures v % WORD64 == v
  {
  }

  /** Later host time and later clock give a later timestamp on the same base. */
  lemma TimelineMonotone(h1: int, h2: int, baseMach: nat, baseHost: int, n1: nat, n2: nat, tb: Timebase)
    requires tb.Valid() && h1 <= h2 && n1 <= n2 && h1 != 0 && h2 != 0 && (baseMach != 0 ==> baseHost <= h1)
    requires Fits(baseMach, baseHost, h1, tb) && Fits(baseMach, baseHost, h2, tb)
    ensures TimelineTimestamp(h1, baseMach, baseHost, n1, tb) <= TimelineTimestamp(h2, baseMach, baseHost, n2, tb)
  {
    hide TimelineTimestamp, Ticks;
    TimestampValue(h1, baseMach, baseHost, n1, tb);
    TimestampValue(h2, baseMach, baseHost, n2, tb);
    if baseMach != 0 {
      TicksMonotone(h1 - baseHost, h2 - baseHost, tb);
    }
  }

  lemma AtItsBase(hostMs: int, base: nat, now: nat, tb: Timebase)
    requires tb.Valid() && 0 < base <= now && base < WORD64 && hostMs != 0
    ensures Fits(base, hostMs, hostMs, tb) && TimelineTimestamp(hostMs, base, hostMs, now, tb) == base
  {
    assert Ticks(0, tb) == 0;
    TimestampValue(hostMs, base, hostMs, now, tb);
  }

  // ---------- ordered rings ----------

  /** Timestamps never decrease and none exceeds `limit`. */
  predicate Ordered(ops: seq<Op>, limit: nat) {
    && (forall i :: 0 <= i < |ops| ==> ops[i].ts <= limit)
    && (forall i, j :: 0 <= i < j < |ops| ==> ops[i].ts <= ops[j].ts)
  }

  lemma PushOrdered(before: seq<Op>, c: Core, op: Op, limit: nat)
    requires Ordered(before + c.queue, limit) && limit <= op.ts
    ensures Ordered(before + QueueOp(c, op).0.queue, op.ts)
  {
    var c' := QueueOp(c, op).0;
    if |c.queue| < OP_QUEUE {
      assert before + (c.queue + [op]) == before + c.queue + [op];
    }
  }

  lemma ReleaseOrdered(before: seq<Op>, c: Core, r: Record, now: nat, limit: nat, tb: Timebase)
    requires tb.Valid() && Ordered(before + c.queue, limit)
    requires limit <= TimelineTimestamp(r.hostMs, c.baseMach, c.baseHost, now, tb)
    ensures Ordered(before + ReleaseContact(c, r, now, tb).0.queue, TimelineTimestamp(r.hostMs, c.baseMach, c.baseHost, now, tb))
  {
    hide TimelineTimestamp;
    if c.held {
      PushOrdered(before, c.(held := false), MakeOp(c, r, TouchOp, c.heldX, c.heldY, false, true, 0, now, tb), limit);
    }
  }

  function Stamp(c: Core, hostMs: int, now: nat, tb: Timebase): nat
    requires tb.Valid()
  {
    TimelineTimestamp(hostMs, c.baseMach, c.baseHost, now, tb)
  }

  /** The readings and the host time of this record, against the base it meets. */
  predicate GoodReadings(c: Core, r: Record, t: Readings, tb: Timebase)
    requires tb.Valid()
  {
    && 0 < r.hostMs && 0 < t.base && t.release <= t.base <= t.event && t.base < WORD64
    && Fits(c.baseMach, c.baseHost, r.hostMs, tb) && (c.baseMach != 0 ==> c.baseHost <= r.hostMs)
  }

  lemma EpochOrdered(before: seq<Op>, c: Core, r: Record, t: Readings, limit: nat, tb: Timebase)
    requires tb.Valid() && Ordered(before + c.queue, limit) && limit <= Stamp(c, r.hostMs, t.release, tb)
    ensures var c1 := EnterEpoch(c, r, t.release, tb);
            && Ordered(before + c1.queue, Stamp(c, r.hostMs, t.release, tb))
            && c1.baseMach == c.baseMach && c1.baseHost == c.baseHost
  {
    hide TimelineTimestamp;
    if r.epoch != c.epoch && c.state.Ready? {
      ReleaseOrdered(before, c, r, t.release, limit, tb);
    }
  }

  lemma ActOrdered(before: seq<Op>, c: Core, r: Record, t: Readings, tb: Timebase)
    requires tb.Valid() && GoodReadings(c, r, t, tb) && Ordered(before + c.queue, Stamp(c, r.hostMs, t.release, tb))
    ensures var c' := Act(c, r, t, tb).0;
            && Ordered(before + c'.queue, Stamp(c', r.hostMs, t.event, tb))
            && ((c'.baseMach, c'.baseHost) == (c.baseMach, c.baseHost)
                || (c'.baseMach, c'.baseHost) == (t.base, r.hostMs))
  {
    hide TimelineTimestamp, X, Y, Fits, Ordered;
    var limit := Stamp(c, r.hostMs, t.release, tb);
    var event := Stamp(c, r.hostMs, t.event, tb);
    TimelineMonotone(r.hostMs, r.hostMs, c.baseMach, c.baseHost, t.release, t.event, tb);
    Loosen(before + c.queue, limit, event);
    AtItsBase(r.hostMs, t.base, t.event, tb);
    StampBelow(c, r.hostMs, t.release, tb);
    match r.kind
    case Ping =>
    case Cancel =>
      ReleaseOrdered(before, c, r, t.release, limit, tb);
      Loosen(before + ReleaseContact(c, r, t.release, tb).0.queue, limit, event);
    case Button =>
      var c1 := c.(baseMach := t.base, baseHost := r.hostMs);
      PushOrdered(before, c1, MakeOp(c1, r, ButtonOp, 0.0, 0.0, r.b != 0, true, r.a, t.event, tb), limit);
      Loosen(before + c.queue, limit, t.base);
    case Wheel =>
      PushOrdered(before, c, MakeOp(c, r, WheelOp, X(r), Y(r), false, false, 0, t.event, tb), limit);
    case Down =>
      ReleaseOrdered(before, c, r, t.release, limit, tb);
      var c1 := ReleaseContact(c, r, t.release, tb).0;
      var c2 := c1.(baseMach := t.base, baseHost := r.hostMs, held := true, heldX := X(r), heldY := Y(r));
      PushOrdered(before, c2, MakeOp(c2, r, TouchOp, X(r), Y(r), true, true, 0, t.event, tb), limit);
      Loosen(before + c.queue, limit, t.base);
    case Move | Up =>
      var c1 := c.(heldX := X(r), heldY := Y(r), held := r.kind.Move?);
      PushOrdered(before, c1, MakeOp(c1, r, TouchOp, X(r), Y(r), r.kind.Move?, r.kind.Up?, 0, t.event, tb), limit);
  }

  lemma StampBelow(c: Core, hostMs: int, now: nat, tb: Timebase)
    requires tb.Valid()
    ensures Stamp(c, hostMs, now, tb) <= now
  {
  }

  lemma Loosen(ops: seq<Op>, limit: nat, wider: nat)
    requires Ordered(ops, limit) && limit <= wider
    ensures Ordered(ops, wider)
  {
  }

  // ---------- runs ----------

  /** The run hypotheses: clock readings and host times do not run backwards, host times are positive,
      and the tick product fits. */
  predicate WellTimed(s: System, e: Event, tb: Timebase)
    requires tb.Valid()
  {
    match e
    case Line(r, t, _) =>
      && s.now <= t.release <= t.base <= t.event && 0 < t.base < WORD64
      && 0 < r.hostMs && s.host <= r.hostMs && Fits(s.core.baseMach, s.core.baseHost, r.hostMs, tb)
    case Eof(now) => s.now <= now
    case _ => true
  }

  predicate AllWellTimed(s: System, events: seq<Event>, tb: Timebase)
    requires tb.Valid() && Runs(s, events, tb)
    decreases |events|
  {
    events == [] || (WellTimed(s, events[0], tb) && AllWellTimed(Step(s, events[0], tb), events[1..], tb))
  }

  predicate Timed(s: System, tb: Timebase)
    requires tb.Valid()
  {
    && Conserved(s)
    && Ordered(s.pushed, s.now)
    && (!s.closed ==>
        && (s.core.baseMach != 0 ==> s.core.baseHost <= s.host && s.host > 0)
        && Fits(s.core.baseMach, s.core.baseHost, s.host, tb)
        && Ordered(s.pushed, Stamp(s.core, s.host, s.now, tb)))
  }

  lemma RecordTimed(s: System, r: Record, t: Readings, lost: bool, tb: Timebase)
    requires tb.Valid() && Timed(s, tb) && !s.closed && WellTimed(s, Line(r, t, lost), tb)
    ensures Timed(Step(s, Line(r, t, lost), tb), tb)
  {
    hide TimelineTimestamp, Fits, EnterEpoch, Act, Ordered, PoppedOps, Reported;
    var e := Line(r, t, lost);
    var s' := Step(s, e, tb);
    var before := Ops(s.gone);
    StepConserves(s, e, tb);
    var c1 := EnterEpoch(s.core, r, t.release, tb);
    var c2 := if lost then c1.(state := Lost) else c1;
    StartOrdered(s, r, t, tb);
    EpochOrdered(before, s.core, r, t, Stamp(s.core, r.hostMs, t.release, tb), tb);
    ActOrdered(before, c2, r, t, tb);
    assert s'.pushed == before + s'.core.queue;
    AtItsBase(r.hostMs, t.base, t.event, tb);
    StampBelow(s'.core, r.hostMs, t.event, tb);
    Loosen(s'.pushed, Stamp(s'.core, r.hostMs, t.event, tb), t.event);
  }

  lemma StartOrdered(s: System, r: Record, t: Readings, tb: Timebase)
    requires tb.Valid() && Timed(s, tb) && !s.closed && WellTimed(s, Line(r, t, false), tb)
    ensures Ordered(Ops(s.gone) + s.core.queue, Stamp(s.core, r.hostMs, t.release, tb))
  {
    hide TimelineTimestamp, Fits, Ordered, PoppedOps, Reported;
    if s.host == 0 || s.core.baseMach == 0 {
      BaselessStamp(s.core, r.hostMs, t.release, tb);
      Loosen(s.pushed, s.now, t.release);
    } else {
      TimelineMonotone(s.host, r.hostMs, s.core.baseMach, s.core.baseHost, s.now, t.release, tb);
      Loosen(s.pushed, Stamp(s.core, s.host, s.now, tb), Stamp(s.core, r.hostMs, t.release, tb));
    }
  }

  lemma BaselessStamp(c: Core, hostMs: int, now: nat, tb: Timebase)
    requires tb.Valid() && c.baseMach == 0
    ensures Stamp(c, hostMs, now, tb) == now
  {
  }

  lemma EofTimed(s: System, now: nat, tb: Timebase)
    requires tb.Valid() && Timed(s, tb) && !s.closed && WellTimed(s, Eof(now), tb)
    ensures Timed(Step(s, Eof(now), tb), tb)
  {
    hide Fits, Ordered, PoppedOps, Reported;
    var s' := Step(s, Eof(now), tb);
    StepConserves(s, Eof(now), tb);
    Loosen(s.pushed, s.now, now);
    if s.core.state.Ready? {
      ReleaseOrdered(Ops(s.gone), s.core, EofRecord(s.core), now, now, tb);
    }
    assert s'.pushed == Ops(s'.gone) + s'.core.queue;
  }

  lemma StepTimed(s: System, e: Event, tb: Timebase)
    requires tb.Valid() && Timed(s, tb) && Enabled(s, e) && WellTimed(s, e, tb)
    ensures Timed(Step(s, e, tb), tb)
  {
    match e
    case Line(r, t, lost) => RecordTimed(s, r, t, lost, tb);
    case Eof(now) => EofTimed(s, now, tb);
    case _ => OtherTimed(s, e, tb);
  }

  lemma OtherTimed(s: System, e: Event, tb: Timebase)
    requires tb.Valid() && Timed(s, tb) && Enabled(s, e) && !e.Line? && !e.Eof?
    ensures Timed(Step(s, e, tb), tb)
  {
    hide Fits, Ordered, Conserved, TimelineTimestamp;
    StepConserves(s, e, tb);
  }

  lemma {:induction false} RunTimed(s: System, events: seq<Event>, tb: Timebase)
    requires tb.Valid() && Timed(s, tb) && Runs(s, events, tb) && AllWellTimed(s, events, tb)
    ensures Timed(After(s, events, tb), tb)
    decreases |events|
  {
    hide Timed, Step, WellTimed;
    if events != [] {
      StepTimed(s, events[0], tb);
      RunTimed(Step(s, events[0], tb), events[1..], tb);
    }
  }

  /** Over every well-timed run from start-up — base changes, epoch releases, recoveries, end of input —
      the timestamps of the pushed operations never decrease and never exceed the clock. */
  lemma TimestampsNeverDecrease(events: seq<Event>, tb: Timebase)
    requires tb.Valid() && Runs(Initial(), events, tb) && AllWellTimed(Initial(), events, tb)
    ensures Ordered(After(Initial(), events, tb).pushed, After(Initial(), events, tb).now)
  {
    RunTimed(Initial(), events, tb);
  }
}
