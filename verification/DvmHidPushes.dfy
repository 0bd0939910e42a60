/** What the reader pushes, said of the record's own numbers: positions in 32767ths of the display,
    edges by kind, the answer it sends back; and, over whole runs, which record every queued operation
    comes from. */
module DvmHidPushes {
  import opened DvmHid

  /** `v` is the place `n` of 32767 along one side of the display. */
  predicate Marks(v: real, n: nat) { v * 32767.0 == n as real }

  /** `op` says what the record itself says. */
  predicate Tells(op: Op, r: Record) {
    op.epoch == r.epoch && op.number == r.number && op.notches == r.c
    && match r.kind
       case Down => op.kind.TouchOp? && op.down && op.edge && Marks(op.x, r.a) && Marks(op.y, r.b)
       case Move => op.kind.TouchOp? && op.down && !op.edge && Marks(op.x, r.a) && Marks(op.y, r.b)
       case Up => op.kind.TouchOp? && !op.down && op.edge && Marks(op.x, r.a) && Marks(op.y, r.b)
       case Wheel => op.kind.WheelOp? && Marks(op.x, r.a) && Marks(op.y, r.b)
       case Button => op.kind.ButtonOp? && op.usage == r.a && (op.down <==> r.b != 0)
       case Cancel | Ping => false
  }

  /** `op` lifts the contact where it was last seen. */
  predicate LiftsAt(op: Op, x: real, y: real) {
    op.kind.TouchOp? && !op.down && op.edge && op.x == x && op.y == y
  }

  /** The record ends a contact it did not begin: a new epoch, a cancel, or a down over a held finger. */
  predicate EndsHeld(c: Core, r: Record, lost: bool) {
    c.held && c.state.Ready? && (r.epoch != c.epoch || (!lost && (r.kind.Cancel? || r.kind.Down?)))
  }

  /** The finger is still the record's when its kind is looked at. */
  predicate Keeps(c: Core, r: Record) { c.held && r.epoch == c.epoch }

  /** The record has something of its own to say. */
  predicate Speaks(c: Core, r: Record, lost: bool) {
    c.state.Ready? && !lost
    && match r.kind
       case Down | Button => true
       case Move | Up => Keeps(c, r)
       case Wheel => !Keeps(c, r)
       case Cancel | Ping => false
  }

  /** The number of operations the record wants to push. */
  function Wanted(c: Core, r: Record, lost: bool): nat {
    (if EndsHeld(c, r, lost) then 1 else 0) + (if Speaks(c, r, lost) then 1 else 0)
  }

  lemma PlacesMark(r: Record)
    ensures Marks(X(r), r.a) && Marks(Y(r), r.b)
  {
  }

  /** Entering an epoch pushes the lift of an older contact and nothing else. */
  lemma EnterPushes(c: Core, r: Record, now: nat, tb: Timebase)
    requires tb.Valid() && |c.queue| <= OP_QUEUE
    ensures var c1 := EnterEpoch(c, r, now, tb); var n := |c.queue|;
            c1.held == Keeps(c, r) && c1.state == c.state && (c1.held ==> c1.heldX == c.heldX && c1.heldY == c.heldY)
            && c.queue <= c1.queue
            && |c1.queue| == n + (if c.held && c.state.Ready? && r.epoch != c.epoch && n < OP_QUEUE then 1 else 0)
            && (|c1.queue| > n ==> LiftsAt(c1.queue[n], c.heldX, c.heldY))
  {
    hide TimelineTimestamp;
  }

  lemma EnterSetsEpoch(c: Core, r: Record, now: nat, tb: Timebase)
    requires tb.Valid()
    ensures EnterEpoch(c, r, now, tb).epoch == r.epoch
  {
  }

  /** The kinds push a lift where they end a contact, then what the record says. */
  lemma ActPushes(c: Core, r: Record, t: Readings, tb: Timebase)
    requires tb.Valid() && |c.queue| <= OP_QUEUE && r.epoch == c.epoch
    ensures var after := Act(c, r, t, tb).0; var lifts := EndsHeld(c, r, false);
            |after.queue| == (if |c.queue| + Wanted(c, r, false) <= OP_QUEUE then |c.queue| + Wanted(c, r, false) else OP_QUEUE)
            && c.queue <= after.queue
            && forall i :: |c.queue| <= i < |after.queue| ==>
                 if lifts && i == |c.queue| then LiftsAt(after.queue[i], c.heldX, c.heldY) else Tells(after.queue[i], r)
  {
    hide TimelineTimestamp, X, Y, Marks;
    PlacesMark(r);
  }

  /** Every operation a record pushes, field by field: first the lift of the old contact, then its own. */
  lemma PushesTellTheRecord(c: Core, r: Record, t: Readings, lost: bool, tb: Timebase)
    requires tb.Valid() && |c.queue| <= OP_QUEUE
    ensures var after := Handle(c, r, t, lost, tb).0;
            |after.queue| == (if |c.queue| + Wanted(c, r, lost) <= OP_QUEUE then |c.queue| + Wanted(c, r, lost) else OP_QUEUE)
            && c.queue <= after.queue
            && forall i :: |c.queue| <= i < |after.queue| ==>
                 if EndsHeld(c, r, lost) && i == |c.queue| then LiftsAt(after.queue[i], c.heldX, c.heldY)
                 else Tells(after.queue[i], r)
  {
    hide TimelineTimestamp, EnterEpoch, Act, LiftsAt, Tells;
    EnterPushes(c, r, t.release, tb);
    var c1 := EnterEpoch(c, r, t.release, tb);
    EnterSetsEpoch(c, r, t.release, tb);
    ActPushes(if lost then c1.(state := Lost) else c1, r, t, tb);
  }

  /** The contact the reader remembers: which records open, move and close it, and where it is. */
  lemma HeldTellsTheRecord(c: Core, r: Record, t: Readings, lost: bool, tb: Timebase)
    requires tb.Valid()
    ensures var after := Handle(c, r, t, lost, tb).0; var serving := c.state.Ready? && !lost;
            (after.held <==> match r.kind
                             case Down => serving
                             case Move => serving && Keeps(c, r)
                             case Up | Cancel => false
                             case Wheel | Button | Ping => Keeps(c, r))
            && after.epoch == r.epoch && after.needRecovery == c.needRecovery
            && after.state == (if lost then Lost else c.state)
            && (if serving && (r.kind.Down? || ((r.kind.Move? || r.kind.Up?) && Keeps(c, r)))
                then Marks(after.heldX, r.a) && Marks(after.heldY, r.b)
                else after.heldX == c.heldX && after.heldY == c.heldY)
  {
    hide TimelineTimestamp, X, Y, Marks;
    PlacesMark(r);
  }

  /** The answer, from the ring's room and the state alone: N without services for anything that needs
      them, F exactly when the last push the answer speaks of found the ring full. */
  lemma AnswerTellsTheOutcome(c: Core, r: Record, t: Readings, lost: bool, tb: Timebase)
    requires tb.Valid() && |c.queue| <= OP_QUEUE
    ensures var (after, reply) := Handle(c, r, t, lost, tb); var serving := c.state.Ready? && !lost;
            (reply.NotReady? <==> !serving && !r.kind.Ping? && !r.kind.Cancel?)
            && (reply.Failed? <==>
                  |c.queue| + Wanted(c, r, lost) > OP_QUEUE
                  && (Speaks(c, r, lost) || (r.kind.Cancel? && serving && r.epoch == c.epoch)))
  {
    hide TimelineTimestamp;
  }

  /** A down or a button starts its gesture's clock: its own stamp is the base reading, or the event
      reading where that is earlier or the host sent no time. */
  lemma GestureStartsItsClock(c: Core, r: Record, t: Readings, lost: bool, tb: Timebase)
    requires tb.Valid() && |c.queue| + Wanted(c, r, lost) <= OP_QUEUE && Speaks(c, r, lost)
    requires (r.kind.Down? || r.kind.Button?) && t.base < WORD64
    ensures var after := Handle(c, r, t, lost, tb).0;
            after.baseMach == t.base && after.baseHost == r.hostMs
            && |after.queue| > 0
            && after.queue[|after.queue| - 1].ts
               == if r.hostMs != 0 && t.base != 0 && t.base < t.event then t.base else t.event
  {
    PushesTellTheRecord(c, r, t, lost, tb);
    hide Tells, LiftsAt;
    assert (r.hostMs - r.hostMs) * 1000000 * tb.denom % WORD64 / tb.numer == 0;
  }

  // ---------- over whole runs ----------

  predicate IsDrag(e: Event) { e.Line? && (e.r.kind.Down? || e.r.kind.Move?) }

  /** The index of the latest down or move line, or -1. */
  function LastDrag(past: seq<Event>): (k: int)
    ensures -1 <= k < |past| && (k >= 0 ==> IsDrag(past[k]))
    ensures forall j :: k < j < |past| ==> !IsDrag(past[j])
  {
    if past == [] then -1
    else if IsDrag(past[|past| - 1]) then |past| - 1 else LastDrag(past[..|past| - 1])
  }

  /** A place is that of the latest down or move line. */
  predicate AtLastDrag(past: seq<Event>, x: real, y: real) {
    LastDrag(past) >= 0 && Marks(x, past[LastDrag(past)].r.a) && Marks(y, past[LastDrag(past)].r.b)
  }

  /** Event `j` accounts for `op`: a line that says it, or one (or the end of input) that lifts the
      contact where the latest down or move line before it put the finger. */
  predicate Accounts(past: seq<Event>, j: nat, op: Op)
    requires j < |past|
  {
    (past[j].Line? && Tells(op, past[j].r))
    || ((past[j].Line? || past[j].Eof?) && LiftsAt(op, op.x, op.y) && AtLastDrag(past[..j], op.x, op.y))
  }

  predicate AccountedFor(past: seq<Event>, op: Op) { exists j :: 0 <= j < |past| && Accounts(past, j, op) }

  /** What a run keeps: the finger is held where the latest drag put it, and every push is accounted for. */
  predicate Known(past: seq<Event>, s: System) {
    |s.core.queue| <= OP_QUEUE
    && (s.core.held ==> AtLastDrag(past, s.core.heldX, s.core.heldY))
    && forall i :: 0 <= i < |s.pushed| ==> AccountedFor(past, s.pushed[i])
  }

  lemma AccountKept(past: seq<Event>, e: Event, op: Op)
    requires AccountedFor(past, op)
    ensures AccountedFor(past + [e], op)
  {
    var j :| 0 <= j < |past| && Accounts(past, j, op);
    assert (past + [e])[..j] == past[..j];
    assert Accounts(past + [e], j, op);
  }

  /** The event itself accounts for an operation it says, or lifts. */
  lemma AccountNew(past: seq<Event>, e: Event, op: Op)
    requires (e.Line? && Tells(op, e.r))
             || ((e.Line? || e.Eof?) && LiftsAt(op, op.x, op.y) && AtLastDrag(past, op.x, op.y))
    ensures AccountedFor(past + [e], op)
  {
    assert (past + [e])[..|past|] == past && (past + [e])[|past|] == e;
    assert Accounts(past + [e], |past|, op);
  }

  lemma LastDragGrows(past: seq<Event>, e: Event)
    ensures LastDrag(past + [e]) == if IsDrag(e) then |past| else LastDrag(past)
  {
    assert (past + [e])[..|past|] == past;
  }

  /** The end of input pushes at most the lift of the held contact. */
  lemma EndPushes(c: Core, now: nat, tb: Timebase)
    requires tb.Valid() && |c.queue| <= OP_QUEUE && c.state.Ready?
    ensures var after := ReleaseContact(c, EofRecord(c), now, tb).0; var n := |c.queue|;
            !after.held && c.queue <= after.queue
            && |after.queue| == n + (if c.held && n < OP_QUEUE then 1 else 0)
            && (|after.queue| > n ==> LiftsAt(after.queue[n], c.heldX, c.heldY))
  {
    hide TimelineTimestamp;
  }

  /** What a line does to the remembered place. */
  lemma LineKeepsPlace(past: seq<Event>, s: System, e: Event, tb: Timebase)
    requires tb.Valid() && Known(past, s) && e.Line?
    ensures var after := Handle(s.core, e.r, e.t, e.lost, tb).0;
            after.held ==> AtLastDrag(past + [e], after.heldX, after.heldY)
  {
    HeldTellsTheRecord(s.core, e.r, e.t, e.lost, tb);
    LastDragGrows(past, e);
    hide Handle, Marks, LastDrag, AccountedFor;
    var k := LastDrag(past);
    assert k >= 0 ==> (past + [e])[k] == past[k];
  }

  lemma NewAccounted(past: seq<Event>, s: System, e: Event, after: seq<Op>)
    requires Known(past, s) && s.core.queue <= after && (e.Line? || e.Eof?)
    requires forall i :: |s.core.queue| <= i < |after| ==>
               (e.Line? && Tells(after[i], e.r)) || (s.core.held && LiftsAt(after[i], s.core.heldX, s.core.heldY))
    ensures forall i :: 0 <= i < |Fresh(s.core.queue, after)| ==> AccountedFor(past + [e], Fresh(s.core.queue, after)[i])
  {
    hide AccountedFor, AtLastDrag, Tells;
    forall i | 0 <= i < |Fresh(s.core.queue, after)|
      ensures AccountedFor(past + [e], Fresh(s.core.queue, after)[i])
    {
      AccountNew(past, e, after[|s.core.queue| + i]);
    }
  }

  /** An event that is no line leaves the latest drag where it was. */
  lemma SameDrag(past: seq<Event>, s: System, s': System, e: Event)
    requires Known(past, s) && !IsDrag(e)
    requires s'.core.held ==> s.core.held && s'.core.heldX == s.core.heldX && s'.core.heldY == s.core.heldY
    ensures s'.core.held ==> AtLastDrag(past + [e], s'.core.heldX, s'.core.heldY)
  {
    LastDragGrows(past, e);
  }

  lemma StepKnown(past: seq<Event>, s: System, e: Event, tb: Timebase)
    requires tb.Valid() && Enabled(s, e) && Known(past, s)
    ensures Known(past + [e], Step(s, e, tb))
  {
    hide Handle, ReleaseContact, AccountedFor, AtLastDrag, Tells, LiftsAt;
    var s' := Step(s, e, tb);
    LastDragGrows(past, e);
    match e {
      case Line(r, t, lost) =>
        LineKeepsPlace(past, s, e, tb);
        PushesTellTheRecord(s.core, r, t, lost, tb);
        NewAccounted(past, s, e, s'.core.queue);
      case Eof(now) =>
        if s.core.state.Ready? {
          EndPushes(s.core, now, tb);
          NewAccounted(past, s, e, s'.core.queue);
        }
        SameDrag(past, s, s', e);
      case _ => SameDrag(past, s, s', e);
    }
    forall i | 0 <= i < |s'.pushed| ensures AccountedFor(past + [e], s'.pushed[i]) {
      if i < |s.pushed| { AccountKept(past, e, s.pushed[i]); }
    }
  }

  lemma {:induction false} RunKnown(past: seq<Event>, s: System, events: seq<Event>, tb: Timebase)
    requires tb.Valid() && Runs(s, events, tb) && Known(past, s)
    ensures Known(past + events, After(s, events, tb))
    decreases |events|
  {
    if events == [] {
      assert past + events == past;
    } else {
      StepKnown(past, s, events[0], tb);
      RunKnown(past + [events[0]], Step(s, events[0], tb), events[1..], tb);
      assert past + [events[0]] + events[1..] == past + events;
    }
  }

  /** In every run, every operation ever queued is what some line of the run says, or lifts the finger
      exactly where the latest down or move line before put it; and where a finger is held, it is held
      there. */
  lemma EveryPushHasItsLine(events: seq<Event>, tb: Timebase)
    requires tb.Valid() && Runs(Initial(), events, tb)
    ensures var s := After(Initial(), events, tb);
            (forall i :: 0 <= i < |s.pushed| ==> AccountedFor(events, s.pushed[i]))
            && (s.core.held ==> AtLastDrag(events, s.core.heldX, s.core.heldY))
  {
    assert Known([], Initial());
    RunKnown([], Initial(), events, tb);
    assert [] + events == events;
  }

  // ---------- where the touches are ----------

  predicate Within(v: real) { 0.0 <= v <= 1.0 }

  predicate OnDisplay(t: Touch) { t.NoTouch? || (Within(t.x) && Within(t.y)) }

  /** The place a wheel gesture ends at: a twentieth of the height per notch, at most eight, inside the
      margins of a fiftieth. */
  lemma WheelEndsAt(y: real, n: int)
    ensures var capped := if n > 8 then 8 else if n < -8 then -8 else n;
            var aim := y * 20.0 + capped as real; var end := WheelEnd(y, n) * 20.0;
            if aim < 0.4 then end == 0.4 else if aim > 19.6 then end == 19.6 else end == aim
  {
    assert n as real * WHEEL_STEP * 20.0 == n as real;
  }

  /** Positive notches drag downwards and negative ones upwards, exactly while the pointer is outside
      the margin they drag into. From inside it the finger is dragged the other way, or not at all. */
  lemma WheelGoesItsWayIff(y: real, n: int)
    requires n != 0
    ensures n > 0 ==> (WheelEnd(y, n) > y <==> y < 0.98)
    ensures n < 0 ==> (WheelEnd(y, n) < y <==> y > 0.02)
  {
    WheelEndsAt(y, n);
  }

  lemma {:induction false} WheelMoveAt(x: real, y: real, end: real, i: nat, k: nat)
    requires 1 <= i <= k <= 8
    ensures WheelMoves(x, y, end, i)[k - i] == TouchMove(x, y + (end - y) * k as real / 8.0)
    decreases k - i
  {
    if i < k { WheelMoveAt(x, y, end, i + 1, k); }
  }

  /** The ten posts of a wheel batch: down at the pointer, eight equal steps straight along the display's
      height, the last one already at the end, and up there. */
  lemma ScrollIsStraight(x: real, y: real, n: int)
    ensures var posts := ScrollGesture(x, y, n); var end := WheelEnd(y, n);
            |posts| == 10 && posts[0] == TouchDown(x, y) && posts[9] == TouchUp(x, end)
            && (forall k :: 1 <= k <= 8 ==>
                  posts[k].TouchMove? && posts[k].x == x && (posts[k].y - y) * 8.0 == (end - y) * k as real)
            && posts[8].y == end
  {
    hide WheelEnd, WheelMoves;
    var posts, end := ScrollGesture(x, y, n), WheelEnd(y, n);
    forall k | 1 <= k <= 8
      ensures posts[k] == TouchMove(x, y + (end - y) * k as real / 8.0)
    {
      WheelMoveAt(x, y, end, 1, k);
    }
  }

  function Times(u: real, f: real): real { u * f }

  lemma PartOf(u: real, f: real)
    requires Within(u) && f >= 0.0
    ensures 0.0 <= Times(u, f) <= f
  {
    Product(u, f);
    Product(1.0 - u, f);
    assert u * f + (1.0 - u) * f == f;
  }

  lemma Product(u: real, f: real)
    requires u >= 0.0 && f >= 0.0
    ensures u * f >= 0.0
  {
    if u == 0.0 {
      assert u * f == 0.0;
    } else if f == 0.0 {
      assert u * f == 0.0;
    } else {
      assert u > 0.0 && f > 0.0;
      assert u * f > 0.0;
    }
  }

  lemma Spread(at: real, y: real, end: real, f: real)
    requires (at - y) * 8.0 == (end - y) * f
    ensures at * 8.0 == Times(y, 8.0 - f) + Times(end, f)
  {
  }

  /** A mean of two places on the display is on it. */
  lemma StepBetween(y: real, end: real, f: real, at: real)
    requires Within(y) && Within(end) && 0.0 <= f <= 8.0 && (at - y) * 8.0 == (end - y) * f
    ensures Within(at)
  {
    hide Times;
    PartOf(y, 8.0 - f);
    PartOf(end, f);
    Spread(at, y, end, f);
  }

  lemma ScrollOnDisplay(x: real, y: real, end: real, posts: seq<Touch>)
    requires Within(x) && Within(y) && Within(end)
    requires |posts| == 10 && posts[0] == TouchDown(x, y) && posts[9] == TouchUp(x, end)
    requires forall k :: 1 <= k <= 8 ==>
               posts[k].TouchMove? && posts[k].x == x && (posts[k].y - y) * 8.0 == (end - y) * k as real
    ensures forall i :: 0 <= i < |posts| ==> OnDisplay(posts[i])
  {
    forall i | 0 <= i < |posts| ensures OnDisplay(posts[i]) {
      if 1 <= i <= 8 { StepBetween(y, end, i as real, posts[i].y); }
    }
  }

  /** An operation an accepted line says is posted on the display. */
  lemma PostsOnDisplay(op: Op)
    requires op.kind.ButtonOp? || (Within(op.x) && Within(op.y))
    ensures forall i :: 0 <= i < |Posts(op)| ==> OnDisplay(Posts(op)[i])
  {
    hide ScrollGesture, WheelEnd;
    if op.kind.WheelOp? {
      ScrollIsStraight(op.x, op.y, op.notches);
      WheelEndsAt(op.y, op.notches);
      var end := WheelEnd(op.y, op.notches);
      assert Within(end);
      ScrollOnDisplay(op.x, op.y, end, Posts(op));
    }
  }

  lemma MarkWithin(v: real, n: nat)
    requires Marks(v, n) && n <= 32767
    ensures Within(v)
  {
  }

  predicate AllAccepted(events: seq<Event>) {
    forall j :: 0 <= j < |events| && events[j].Line? ==> Accepted(events[j].r)
  }

  /** Over every run of lines that pass the range checks, no touch is ever posted off the display. */
  lemma TouchesStayOnDisplay(events: seq<Event>, tb: Timebase, i: nat)
    requires tb.Valid() && Runs(Initial(), events, tb) && AllAccepted(events)
    requires i < |After(Initial(), events, tb).pushed|
    ensures var posts := Posts(After(Initial(), events, tb).pushed[i]);
            forall k :: 0 <= k < |posts| ==> OnDisplay(posts[k])
  {
    var op := After(Initial(), events, tb).pushed[i];
    EveryPushHasItsLine(events, tb);
    var j :| 0 <= j < |events| && Accounts(events, j, op);
    hide After, Marks, Posts, LastDrag;
    if events[j].Line? && Tells(op, events[j].r) {
      assert Accepted(events[j].r);
      if !op.kind.ButtonOp? { MarkWithin(op.x, events[j].r.a); MarkWithin(op.y, events[j].r.b); }
    } else {
      var k := LastDrag(events[..j]);
      assert IsDrag(events[k]) && Accepted(events[k].r);
      MarkWithin(op.x, events[k].r.a);
      MarkWithin(op.y, events[k].r.b);
    }
    PostsOnDisplay(op);
  }
}
