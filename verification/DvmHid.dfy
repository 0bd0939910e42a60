/** tools/input/dvm_hid.c: the reader's contact machine, the operation ring it shares with the worker,
    and service recovery, as transitions on values. DvmHidDaemon.dfy runs them on the C globals. */
module DvmHid {

  const OP_QUEUE := 32
  const WORD64 := 0x1_0000_0000_0000_0000

  datatype ServiceState = Initialising | Ready | Lost

  /** The record kinds the line parser lets through. */
  datatype Kind = Down | Move | Up | Wheel | Cancel | Ping | Button

  datatype Record = Record(epoch: nat, number: nat, kind: Kind, a: nat, b: nat, c: int, hostMs: int)

  /** The range checks that follow the scan of one line. */
  predicate Accepted(r: Record) {
    match r.kind
    case Down | Move | Up => r.a <= 32767 && r.b <= 32767 && r.c == 0
    case Wheel => r.a <= 32767 && r.b <= 32767 && r.c != 0 && -8 <= r.c <= 8
    case Cancel | Ping => r.a == 0 && r.b == 0 && r.c == 0
    case Button => r.a <= 0xffff && r.b <= 1 && r.c == 0
  }

  datatype OpKind = TouchOp | WheelOp | ButtonOp

  datatype Op = Op(epoch: nat, number: nat, kind: OpKind, x: real, y: real, down: bool, edge: bool,
                   usage: nat, ts: nat, notches: int)

  datatype Timebase = Timebase(numer: nat, denom: nat) {
    predicate Valid() { numer > 0 }
  }

  /** Everything the lock protects. */
  datatype Core = Core(state: ServiceState, needRecovery: bool, epoch: nat, held: bool, heldX: real, heldY: real,
                       baseMach: nat, baseHost: int, queue: seq<Op>)

  /** The clock readings one record can cause, in order: for a release, for a new base, for its own event. */
  datatype Readings = Readings(release: nat, base: nat, event: nat)

  datatype Reply = Queued | NotReady | Failed

  /** Host time since the gesture's base in ticks, never later than `now`; uint64_t wraps. */
  function TimelineTimestamp(hostMs: int, baseMach: nat, baseHost: int, now: nat, tb: Timebase): (ts: nat)
    requires tb.Valid()
    ensures ts <= now
  {
    if hostMs == 0 || baseMach == 0 || hostMs < baseHost then now
    else
      var ticks := (hostMs - baseHost) * 1000000 * tb.denom % WORD64 / tb.numer;
      var ts := (baseMach + ticks) % WORD64;
      if ts < now then ts else now
  }

  function MakeOp(c: Core, r: Record, kind: OpKind, x: real, y: real, down: bool, edge: bool, usage: nat, now: nat,
                  tb: Timebase): Op
    requires tb.Valid()
  {
    Op(r.epoch, r.number, kind, x, y, down, edge, usage,
       TimelineTimestamp(r.hostMs, c.baseMach, c.baseHost, now, tb), r.c)
  }

  function QueueOp(c: Core, op: Op): (Core, bool) {
    if |c.queue| >= OP_QUEUE then (c, false) else (c.(queue := c.queue + [op]), true)
  }

  function ReleaseContact(c: Core, r: Record, now: nat, tb: Timebase): (Core, bool)
    requires tb.Valid()
  {
    if !c.held then (c, true)
    else QueueOp(c.(held := false), MakeOp(c, r, TouchOp, c.heldX, c.heldY, false, true, 0, now, tb))
  }

  function X(r: Record): real { r.a as real / 32767.0 }
  function Y(r: Record): real { r.b as real / 32767.0 }

  /** The epoch check: a contact of the old epoch is released, and the answer of that push is dropped. */
  function EnterEpoch(c: Core, r: Record, now: nat, tb: Timebase): Core
    requires tb.Valid()
  {
    if r.epoch == c.epoch then c
    else
      var released := if c.state.Ready? then ReleaseContact(c, r, now, tb).0 else c;
      released.(held := false, epoch := r.epoch)
  }

  function Answer(result: (Core, bool)): (Core, Reply) {
    (result.0, if result.1 then Queued else Failed)
  }

  function Act(c: Core, r: Record, t: Readings, tb: Timebase): (Core, Reply)
    requires tb.Valid()
  {
    match r.kind
    case Ping => (c, Queued)
    case Cancel =>
      if !c.state.Ready? then (c.(held := false), Queued) else Answer(ReleaseContact(c, r, t.release, tb))
    case Button =>
      if !c.state.Ready? then (c, NotReady)
      else
        var c1 := c.(baseMach := t.base, baseHost := r.hostMs);
        Answer(QueueOp(c1, MakeOp(c1, r, ButtonOp, 0.0, 0.0, r.b != 0, true, r.a, t.event, tb)))
    case Wheel =>
      if !c.state.Ready? then (c, NotReady)
      else if c.held then (c, Queued)
      else Answer(QueueOp(c, MakeOp(c, r, WheelOp, X(r), Y(r), false, false, 0, t.event, tb)))
    case Down =>
      if !c.state.Ready? then (c.(held := false), NotReady)
      else
        var c1 := ReleaseContact(c, r, t.release, tb).0;
        var c2 := c1.(baseMach := t.base, baseHost := r.hostMs, held := true, heldX := X(r), heldY := Y(r));
        Answer(QueueOp(c2, MakeOp(c2, r, TouchOp, X(r), Y(r), true, true, 0, t.event, tb)))
    case Move | Up =>
      if !c.state.Ready? then (c.(held := false), NotReady)
      else if !c.held then (c, Queued)
      else
        var c1 := c.(heldX := X(r), heldY := Y(r), held := r.kind.Move?);
        Answer(QueueOp(c1, MakeOp(c1, r, TouchOp, X(r), Y(r), r.kind.Move?, r.kind.Up?, 0, t.event, tb)))
  }

  /** One record under the lock. `lost` says that the notification callback, which writes the state
      without the lock, did so between the epoch check and the kind switch. */
  function Handle(c: Core, r: Record, t: Readings, lost: bool, tb: Timebase): (Core, Reply)
    requires tb.Valid()
  {
    var c1 := EnterEpoch(c, r, t.release, tb);
    Act(if lost then c1.(state := Lost) else c1, r, t, tb)
  }

  /** The record the reader releases a held contact with when its input ends. */
  function EofRecord(c: Core): Record { Record(c.epoch, 0, Ping, 0, 0, 0, 0) }

  // ---------- the worker ----------

  /** Where the worker is: waiting for the lock, blocked in a dispatch, past the ring reset but not yet
      in recovery (the lock is free, the state still Ready), or re-creating the services. */
  datatype Phase = Waiting | Dispatching(op: Op) | Resetting | Recovering

  datatype Departure = Popped(op: Op) | Discarded(op: Op)

  /** The program, with what has been pushed, what has left the ring and what has been reported. */
  datatype System = System(core: Core, phase: Phase, failures: nat, closed: bool,
                           pushed: seq<Op>, gone: seq<Departure>, reports: seq<(Op, bool)>,
                           now: nat, host: int)

  datatype Event =
    | Initialised(ok: bool)
    | NotifyLost
    | NotifyRecover
    | Line(r: Record, t: Readings, lost: bool)
    | Eof(now: nat)
    | Take
    | Report(ok: bool)
    | RecoverBegin
    | RecoverAttempt(ok: bool)

  function InitialCore(): Core {
    Core(Initialising, false, 0, false, 0.0, 0.0, 0, 0, [])
  }

  function Initial(): System {
    System(InitialCore(), Waiting, 0, false, [], [], [], 0, 0)
  }

  predicate Enabled(s: System, e: Event) {
    match e
    case Initialised(_) | NotifyLost | NotifyRecover => true
    case Line(_, _, _) | Eof(_) => !s.closed
    case Take => s.phase.Waiting? && (s.core.queue != [] || s.core.needRecovery)
    case Report(_) => s.phase.Dispatching?
    case RecoverBegin => s.phase.Resetting?
    case RecoverAttempt(_) => s.phase.Recovering?
  }

  function Fresh(before: seq<Op>, after: seq<Op>): seq<Op> {
    if |before| <= |after| then after[|before|..] else []
  }

  function DiscardAll(queue: seq<Op>): seq<Departure> {
    seq(|queue|, i requires 0 <= i < |queue| => Discarded(queue[i]))
  }

  /** The worker's turn at the lock: drop everything when recovery is due, else take the oldest operation. */
  function TakeTurn(s: System): System
    requires Enabled(s, Take)
  {
    if s.core.needRecovery then
      s.(core := s.core.(queue := []), phase := Resetting, gone := s.gone + DiscardAll(s.core.queue))
    else
      s.(core := s.core.(queue := s.core.queue[1..]), phase := Dispatching(s.core.queue[0]),
         gone := s.gone + [Popped(s.core.queue[0])])
  }

  function FinishDispatch(s: System, ok: bool): System
    requires Enabled(s, Report(ok))
  {
    var failures := if ok then 0 else s.failures + 1;
    s.(phase := Waiting, failures := failures, reports := s.reports + [(s.phase.op, ok)],
       core := s.core.(needRecovery := s.core.needRecovery || failures >= 2))
  }

  function Step(s: System, e: Event, tb: Timebase): System
    requires tb.Valid() && Enabled(s, e)
  {
    match e
    case Initialised(ok) => s.(core := s.core.(state := if ok then Ready else Lost))
    case NotifyLost => s.(core := s.core.(state := Lost))
    case NotifyRecover => s.(core := s.core.(needRecovery := true))
    case Line(r, t, lost) =>
      var core := Handle(s.core, r, t, lost, tb).0;
      s.(core := core, pushed := s.pushed + Fresh(s.core.queue, core.queue), now := t.event, host := r.hostMs)
    case Eof(now) =>
      var core := if s.core.state.Ready? then ReleaseContact(s.core, EofRecord(s.core), now, tb).0 else s.core;
      s.(core := core, pushed := s.pushed + Fresh(s.core.queue, core.queue), now := now, closed := true)
    case Take => TakeTurn(s)
    case Report(ok) => FinishDispatch(s, ok)
    case RecoverBegin => s.(core := s.core.(state := Initialising), phase := Recovering)
    case RecoverAttempt(ok) =>
      if ok then
        s.(core := s.core.(needRecovery := false, held := false, state := Ready), phase := Waiting, failures := 0)
      else s
  }

  predicate Runs(s: System, events: seq<Event>, tb: Timebase)
    requires tb.Valid()
    decreases |events|
  {
    events == [] || (Enabled(s, events[0]) && Runs(Step(s, events[0], tb), events[1..], tb))
  }

  function After(s: System, events: seq<Event>, tb: Timebase): System
    requires tb.Valid() && Runs(s, events, tb)
    decreases |events|
  {
    if events == [] then s else After(Step(s, events[0], tb), events[1..], tb)
  }

  // ---------- what the touch screen sees ----------

  datatype Touch = TouchDown(x: real, y: real) | TouchMove(x: real, y: real) | TouchUp(x: real, y: real) | NoTouch

  const WHEEL_STEP := 0.05
  const WHEEL_MAX := 0.40

  function Clamp(v: real, lo: real, hi: real): real
    requires lo <= hi
  {
    if v < lo then lo else if v > hi then hi else v
  }

  function WheelEnd(y: real, notches: int): real {
    Clamp(y + Clamp(notches as real * WHEEL_STEP, -WHEEL_MAX, WHEEL_MAX), 0.02, 0.98)
  }

  function WheelMoves(x: real, y: real, end: real, i: nat): (moves: seq<Touch>)
    requires 1 <= i <= 9
    ensures |moves| == 9 - i
    decreases 9 - i
  {
    if i == 9 then []
    else [TouchMove(x, y + (end - y) * i as real / 8.0)] + WheelMoves(x, y, end, i + 1)
  }

  /** The posts of one wheel batch: a drag that ends at rest. */
  function ScrollGesture(x: real, y: real, notches: int): seq<Touch> {
    var end := WheelEnd(y, notches);
    [TouchDown(x, y)] + WheelMoves(x, y, end, 1) + [TouchUp(x, end)]
  }

  function Posts(op: Op): seq<Touch> {
    match op.kind
    case ButtonOp => []
    case WheelOp => ScrollGesture(op.x, op.y, op.notches)
    case TouchOp =>
      [if op.down && op.edge then TouchDown(op.x, op.y)
       else if op.down then TouchMove(op.x, op.y)
       else if op.edge then TouchUp(op.x, op.y)
       else NoTouch]
  }

  function AllPosts(ops: seq<Op>): seq<Touch> {
    if ops == [] then [] else AllPosts(ops[..|ops| - 1]) + Posts(ops[|ops| - 1])
  }
}
