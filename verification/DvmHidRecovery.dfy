/** Contacts across service recoveries: exactly which recoveries leave the new services a clean stream. */
module DvmHidRecovery {
  import opened Results
  import opened DvmHid
  import opened DvmHidProofs
  import DvmHidOrder

  // ---------- what a ring says about its stream ----------

  /** Nothing in the ring touches the screen. */
  predicate Untouched(ops: seq<Op>) { forall i :: 0 <= i < |ops| ==> ops[i].kind.ButtonOp? }

  /** The last operation that touches the screen, if any, leaves it. */
  predicate Lifted(ops: seq<Op>) {
    ops == [] ||
    match ops[|ops| - 1].kind
    case ButtonOp => Lifted(ops[..|ops| - 1])
    case WheelOp => true
    case TouchOp => !ops[|ops| - 1].down
  }

  lemma {:induction false} UntouchedIsClosed(ops: seq<Op>)
    requires Untouched(ops)
    ensures Stream(ops) == Closed
  {
    if ops != [] {
      var n := |ops| - 1;
      UntouchedIsClosed(ops[..n]);
      StreamAppend(ops[..n], ops[n]);
      assert ops == ops[..n] + [ops[n]];
    }
  }

  /** A legal stream is between contacts if and only if its last touch is a lift. */
  lemma {:induction false} ClosedIffLifted(ops: seq<Op>)
    requires Stream(ops) != Broken
    ensures Stream(ops) == Closed <==> Lifted(ops)
  {
    hide Stream, ScrollGesture;
    if ops == [] {
      UntouchedIsClosed(ops);
    } else {
      var init, last := ops[..|ops| - 1], ops[|ops| - 1];
      assert ops == init + [last];
      StreamAppend(init, last);
      BrokenStays(Posts(last));
      ClosedIffLifted(init);
      if last.kind.WheelOp? {
        ScrollIsOneContact(last.x, last.y, last.notches, Stream(init));
      } else if last.kind.TouchOp? {
        OnePost(Stream(init), Posts(last)[0]);
      }
    }
  }

  lemma BrokenGrows(a: seq<Op>, b: seq<Op>)
    requires a <= b && Stream(a) == Broken
    ensures Stream(b) == Broken && !Untouched(b)
  {
    assert b == a + b[|a|..];
    AllPostsConcat(a, b[|a|..]);
    FoldConcat(Closed, AllPosts(a), AllPosts(b[|a|..]));
    BrokenStays(AllPosts(b[|a|..]));
    if Untouched(b) {
      UntouchedIsClosed(b);
    }
  }

  lemma PushBreaks(ops: seq<Op>, op: Op)
    requires Untouched(ops) && op.kind.TouchOp? && !(op.down && op.edge)
    ensures Stream(ops + [op]) == Broken
  {
    UntouchedIsClosed(ops);
    StreamAppend(ops, op);
    OnePost(Closed, Posts(op)[0]);
  }

  // ---------- the window ----------

  predicate Full(c: Core) { |c.queue| >= OP_QUEUE }

  /** The ring after a reset that met a held finger: the first touch pushed breaks it, and a finger that is let go
      of without a push leaves nothing to push. */
  predicate HeldAtReset(c: Core) {
    Stream(c.queue) == Broken || (Untouched(c.queue) && (c.held || !c.state.Ready? || Full(c)))
  }

  /** The ring after a reset between contacts: still legal, and described by `held` while records can still push. */
  predicate FreeAtReset(c: Core) {
    Stream(c.queue) != Broken && (c.state.Ready? && !Full(c) ==> Tracks([], c))
  }

  predicate InWindow(held: bool, s: System) {
    && (s.phase.Resetting? || (s.phase.Recovering? && !s.core.state.Ready?))
    && |s.core.queue| <= OP_QUEUE
    && (if held then HeldAtReset(s.core) else FreeAtReset(s.core))
  }

  /** What the new services find: no touch at all when the reset cut through a contact, else no contact left open. */
  predicate CleanStart(held: bool, queue: seq<Op>) {
    if held then Untouched(queue) else Lifted(queue)
  }

  /** Nothing is pushed into a full ring or without services. */
  lemma NothingPushed(c: Core, r: Record, t: Readings, lost: bool, tb: Timebase)
    requires tb.Valid() && (!c.state.Ready? || Full(c))
    ensures var c' := Handle(c, r, t, lost, tb).0;
            c'.queue == c.queue && c'.state == (if lost then Lost else c.state)
  {
    hide MakeOp, X, Y;
  }

  lemma StateKept(c: Core, r: Record, t: Readings, lost: bool, tb: Timebase)
    requires tb.Valid()
    ensures Handle(c, r, t, lost, tb).0.state == if lost then Lost else c.state
  {
    hide MakeOp, X, Y;
  }

  lemma HeldRecord(c: Core, r: Record, t: Readings, lost: bool, tb: Timebase)
    requires tb.Valid() && |c.queue| <= OP_QUEUE && HeldAtReset(c)
    ensures HeldAtReset(Handle(c, r, t, lost, tb).0)
  {
    hide Stream, Untouched, Handle;
    var c' := Handle(c, r, t, lost, tb).0;
    RingGrowth(c, r, t, lost, tb);
    StateKept(c, r, t, lost, tb);
    if Stream(c.queue) == Broken {
      BrokenGrows(c.queue, c'.queue);
    } else if !c.state.Ready? || Full(c) {
      NothingPushed(c, r, t, lost, tb);
    } else if r.epoch != c.epoch {
      EpochBreaks(c, r, t, lost, tb);
    } else if !lost {
      SameEpochRecord(c, r, t, tb);
    } else {
      LostRecord(c, r, t, tb);
    }
  }

  lemma EpochBreaks(c: Core, r: Record, t: Readings, lost: bool, tb: Timebase)
    requires tb.Valid() && Untouched(c.queue) && c.held && c.state.Ready? && !Full(c) && r.epoch != c.epoch
    ensures Stream(Handle(c, r, t, lost, tb).0.queue) == Broken
  {
    hide Stream, Act, TimelineTimestamp;
    var op := MakeOp(c, r, TouchOp, c.heldX, c.heldY, false, true, 0, t.release, tb);
    var c1 := EnterEpoch(c, r, t.release, tb);
    assert c1.queue == c.queue + [op];
    PushBreaks(c.queue, op);
    DvmHidOrder.ActExtends(if lost then c1.(state := Lost) else c1, r, t, tb);
    BrokenGrows(c1.queue, Handle(c, r, t, lost, tb).0.queue);
  }

  lemma LostRecord(c: Core, r: Record, t: Readings, tb: Timebase)
    requires tb.Valid() && r.epoch == c.epoch
    ensures Handle(c, r, t, true, tb).0.queue == c.queue
  {
    hide MakeOp, X, Y;
  }

  lemma SameEpochRecord(c: Core, r: Record, t: Readings, tb: Timebase)
    requires tb.Valid() && Untouched(c.queue) && c.held && c.state.Ready? && !Full(c) && r.epoch == c.epoch
    ensures HeldAtReset(Handle(c, r, t, false, tb).0)
  {
    hide Stream, X, Y, TimelineTimestamp;
    var c' := Handle(c, r, t, false, tb).0;
    match r.kind
    case Ping | Wheel | Button =>
      assert c'.held && c'.queue[..|c.queue|] == c.queue;
    case Cancel =>
      PushBreaks(c.queue, MakeOp(c, r, TouchOp, c.heldX, c.heldY, false, true, 0, t.release, tb));
    case Down =>
      var op := MakeOp(c, r, TouchOp, c.heldX, c.heldY, false, true, 0, t.release, tb);
      PushBreaks(c.queue, op);
      assert c.queue + [op] <= c'.queue;
      BrokenGrows(c.queue + [op], c'.queue);
    case Move | Up =>
      PushBreaks(c.queue, MakeOp(c, r, TouchOp, X(r), Y(r), r.kind.Move?, r.kind.Up?, 0, t.event, tb));
  }

  lemma FreeRecord(c: Core, r: Record, t: Readings, lost: bool, tb: Timebase)
    requires tb.Valid() && |c.queue| <= OP_QUEUE && FreeAtReset(c)
    ensures FreeAtReset(Handle(c, r, t, lost, tb).0)
  {
    hide Stream, Handle;
    StateKept(c, r, t, lost, tb);
    assert [] + c.queue == c.queue;
    var c' := Handle(c, r, t, lost, tb).0;
    assert [] + c'.queue == c'.queue;
    if !c.state.Ready? || Full(c) {
      NothingPushed(c, r, t, lost, tb);
    } else if lost {
      LostKeepsLegal([], c, r, t, tb);
    } else if LosesContact(c, r) {
      LostDown(c, r, t, tb);
    } else {
      HandleTracksIff([], c, r, t, tb);
    }
  }

  lemma LostKeepsLegal(popped: seq<Op>, c: Core, r: Record, t: Readings, tb: Timebase)
    requires tb.Valid() && c.state.Ready? && Tracks(popped, c)
    ensures Handed(popped, Handle(c, r, t, true, tb).0) != Broken
  {
    hide Stream, EnterEpoch, MakeOp, X, Y;
    var c1 := EnterEpoch(c, r, t.release, tb);
    EpochStream(popped, c, r, t.release, tb);
    NothingPushed(c1.(state := Lost), r.(epoch := c1.epoch), t, false, tb);
    SameQueue(popped, c1, Handle(c, r, t, true, tb).0);
  }

  /** With one free slot only a down behind a release can be lost; the release fills the ring. */
  lemma LostDown(c: Core, r: Record, t: Readings, tb: Timebase)
    requires tb.Valid() && c.state.Ready? && !Full(c) && Tracks([], c) && LosesContact(c, r)
    ensures var c' := Handle(c, r, t, false, tb).0; Full(c') && Handed([], c') == Closed
  {
    hide Handed, X, Y, EnterEpoch, Act;
    var c1 := EnterEpoch(c, r, t.release, tb);
    EpochStream([], c, r, t.release, tb);
    EpochGrowth(c, r, t.release, tb);
    EpochSet(c, r, t.release, tb);
    ActStream([], c1, r, t, tb);
    RingGrowth(c, r, t, false, tb);
  }

  /** Everything but start-up, a success and the worker's other turns happens inside a window. */
  predicate WindowEvent(e: Event) {
    e.Line? || e.Eof? || e.NotifyLost? || e.NotifyRecover? || e.RecoverBegin? || e == RecoverAttempt(false)
  }

  lemma EofInWindow(held: bool, c: Core, now: nat, tb: Timebase)
    requires tb.Valid() && |c.queue| <= OP_QUEUE && c.state.Ready? && (if held then HeldAtReset(c) else FreeAtReset(c))
    ensures var c' := ReleaseContact(c, EofRecord(c), now, tb).0;
            |c'.queue| <= OP_QUEUE && if held then HeldAtReset(c') else FreeAtReset(c')
  {
    hide Stream, TimelineTimestamp, Act;
    var cancel := Record(c.epoch, 0, Cancel, 0, 0, 0, 0);
    var t := Readings(now, now, now);
    assert Handle(c, cancel, t, false, tb).0 == ReleaseContact(c, EofRecord(c), now, tb).0 by {
      CancelReleases(c, cancel, t, tb);
    }
    if held {
      HeldRecord(c, cancel, t, false, tb);
    } else {
      FreeRecord(c, cancel, t, false, tb);
    }
  }

  lemma CancelReleases(c: Core, r: Record, t: Readings, tb: Timebase)
    requires tb.Valid() && c.state.Ready? && r == Record(c.epoch, 0, Cancel, 0, 0, 0, 0)
    ensures Handle(c, r, t, false, tb).0 == ReleaseContact(c, EofRecord(c), t.release, tb).0
  {
    hide TimelineTimestamp;
  }

  lemma WindowStep(held: bool, s: System, e: Event, tb: Timebase)
    requires tb.Valid() && InWindow(held, s) && Enabled(s, e) && WindowEvent(e)
    ensures InWindow(held, Step(s, e, tb))
  {
    hide Stream, Handle, Untouched;
    match e
    case Line(r, t, lost) =>
      RingGrowth(s.core, r, t, lost, tb);
      StateKept(s.core, r, t, lost, tb);
      if held {
        HeldRecord(s.core, r, t, lost, tb);
      } else {
        FreeRecord(s.core, r, t, lost, tb);
      }
    case Eof(now) =>
      if s.core.state.Ready? {
        EofInWindow(held, s.core, now, tb);
      }
    case _ =>
  }

  lemma {:induction false} WindowKeeps(held: bool, s: System, events: seq<Event>, tb: Timebase)
    requires tb.Valid() && InWindow(held, s) && Runs(s, events, tb) && forall i :: 0 <= i < |events| ==> WindowEvent(events[i])
    ensures InWindow(held, After(s, events, tb))
    decreases |events|
  {
    hide InWindow, Step, WindowEvent;
    if events != [] {
      WindowStep(held, s, events[0], tb);
      WindowKeeps(held, Step(s, events[0], tb), events[1..], tb);
    }
  }

  lemma ResetOpensWindow(s: System)
    requires Enabled(s, Take) && s.core.needRecovery
    ensures InWindow(s.core.held, TakeTurn(s))
  {
    var none: seq<Op> := [];
    UntouchedIsClosed(none);
    assert none + none == none;
  }

  lemma WindowEnds(held: bool, s: System, tb: Timebase)
    requires tb.Valid() && InWindow(held, s) && Enabled(s, RecoverAttempt(true))
    ensures Tracks([], Step(s, RecoverAttempt(true), tb).core) <==> CleanStart(held, s.core.queue)
  {
    hide Stream;
    var c' := Step(s, RecoverAttempt(true), tb).core;
    assert [] + c'.queue == s.core.queue;
    if held {
      if Untouched(s.core.queue) {
        UntouchedIsClosed(s.core.queue);
      }
    } else {
      ClosedIffLifted(s.core.queue);
    }
  }

  /** For every window from the reset of the ring to the end of the recovery, whatever the reader and the
      notification callback do in between: the new services start on a stream that `held` describes if and only if the
      ring found at the end holds no touch (a finger was down at the reset) or does not end inside a contact. */
  lemma RecoveryIsCleanIff(s: System, mid: seq<Event>, tb: Timebase)
    requires tb.Valid() && Enabled(s, Take) && s.core.needRecovery && Runs(TakeTurn(s), mid, tb)
    requires (forall i :: 0 <= i < |mid| ==> WindowEvent(mid[i])) && Enabled(After(TakeTurn(s), mid, tb), RecoverAttempt(true))
    ensures var before := After(TakeTurn(s), mid, tb);
            var after := Step(before, RecoverAttempt(true), tb);
            && after.core.queue == before.core.queue && !after.core.held
            && (Tracks([], after.core) <==> CleanStart(s.core.held, before.core.queue))
  {
    hide InWindow, CleanStart, Tracks, TakeTurn;
    ResetOpensWindow(s);
    WindowKeeps(s.core.held, TakeTurn(s), mid, tb);
    WindowEnds(s.core.held, After(TakeTurn(s), mid, tb), tb);
  }

  /** While the services are ready and the ring has room, a window that began between contacts is clean exactly when
      no finger is held. */
  lemma CleanIffNotHeld(s: System)
    requires InWindow(false, s) && s.core.state.Ready? && !Full(s.core)
    ensures CleanStart(false, s.core.queue) <==> !s.core.held
  {
    hide Stream;
    assert [] + s.core.queue == s.core.queue;
    ClosedIffLifted(s.core.queue);
  }

  // ---------- the window that stacks contacts, and the one that cuts through one ----------

  /** A finger held at the reset, moved before the recovery begins: the move has no down in front of it. */
  lemma HeldFingerBreaks(s: System, r: Record, t: Readings, tb: Timebase)
    requires tb.Valid() && Enabled(s, Take) && s.core.needRecovery && s.core.held && s.core.state.Ready? && !s.closed
    requires r.kind.Move? && r.epoch == s.core.epoch
    ensures var mid := [Line(r, t, false), RecoverBegin];
            && Runs(TakeTurn(s), mid, tb) && Enabled(After(TakeTurn(s), mid, tb), RecoverAttempt(true))
            && !Tracks([], Step(After(TakeTurn(s), mid, tb), RecoverAttempt(true), tb).core)
  {
    hide Tracks, X, Y, TimelineTimestamp;
    var mid := [Line(r, t, false), RecoverBegin];
    var s1 := Step(TakeTurn(s), mid[0], tb);
    var s2 := Step(s1, RecoverBegin, tb);
    assert mid[1..] == [RecoverBegin] && mid[1..][1..] == [];
    assert Runs(s2, [], tb) && Runs(s1, mid[1..], tb) && After(s1, mid[1..], tb) == s2;
    assert !s2.core.queue[0].kind.ButtonOp?;
    RecoveryIsCleanIff(s, mid, tb);
  }

  // ---------- runs with recoveries ----------

  /** Services up and their contacts described; services lost; between the reset of the ring and new services. */
  datatype Mode = Tracking | Outage | Window(held: bool)

  /** The mode after an event. None where the hypotheses end: a contact lost to a full ring, a recovery that does not
      start clean, a second start-up. */
  function Next(mode: Mode, s: System, e: Event): Option<Mode> {
    match mode
    case Window(held) =>
      if e == RecoverAttempt(true) then (if CleanStart(held, s.core.queue) then Some(Tracking) else None)
      else if WindowEvent(e) then Some(mode) else None
    case _ =>
      match e
      case Take => Some(if s.core.needRecovery then Window(s.core.held) else mode)
      case Report(_) | NotifyRecover => Some(mode)
      case NotifyLost => Some(Outage)
      case Line(r, _, lost) =>
        if mode.Outage? || lost then Some(Outage) else if LosesContact(s.core, r) then None else Some(mode)
      case Eof(_) => if mode.Tracking? && s.core.held && Full(s.core) then None else Some(mode)
      case _ => None
  }

  function EndMode(mode: Mode, s: System, events: seq<Event>, tb: Timebase): Option<Mode>
    requires tb.Valid() && Runs(s, events, tb)
    decreases |events|
  {
    if events == [] then Some(mode)
    else
      var next :- Next(mode, s, events[0]);
      EndMode(next, Step(s, events[0], tb), events[1..], tb)
  }

  /** What the newest services have been handed: the ring's reset starts their stream. */
  function Served(popped: seq<Op>, s: System, e: Event): seq<Op>
    requires Enabled(s, e)
  {
    if !e.Take? then popped else if s.core.needRecovery then [] else popped + [s.core.queue[0]]
  }

  function ServedAfter(popped: seq<Op>, s: System, events: seq<Event>, tb: Timebase): seq<Op>
    requires tb.Valid() && Runs(s, events, tb)
    decreases |events|
  {
    if events == [] then popped else ServedAfter(Served(popped, s, events[0]), Step(s, events[0], tb), events[1..], tb)
  }

  /** The finished streams of the services that recoveries have replaced. */
  function Replaced(popped: seq<Op>, s: System, events: seq<Event>, tb: Timebase): seq<seq<Op>>
    requires tb.Valid() && Runs(s, events, tb)
    decreases |events|
  {
    if events == [] then []
    else
      (if events[0].Take? && s.core.needRecovery then [popped] else [])
      + Replaced(Served(popped, s, events[0]), Step(s, events[0], tb), events[1..], tb)
  }

  predicate Holds(mode: Mode, popped: seq<Op>, s: System) {
    && |s.core.queue| <= OP_QUEUE
    && match mode
       case Tracking => s.core.state.Ready? && !s.phase.Resetting? && !s.phase.Recovering? && Tracks(popped, s.core)
       case Outage => s.core.state.Lost? && !s.phase.Resetting? && !s.phase.Recovering? && Handed(popped, s.core) != Broken
       case Window(held) => popped == [] && InWindow(held, s)
  }

  lemma PopKeepsStream(popped: seq<Op>, c: Core)
    requires c.queue != []
    ensures Handed(popped + [c.queue[0]], c.(queue := c.queue[1..])) == Handed(popped, c)
  {
    assert popped + [c.queue[0]] + c.queue[1..] == popped + c.queue;
  }

  lemma PrefixLegal(popped: seq<Op>, c: Core)
    requires Handed(popped, c) != Broken
    ensures Stream(popped) != Broken
  {
    if Stream(popped) == Broken {
      BrokenGrows(popped, popped + c.queue);
    }
  }

  lemma TakeHolds(mode: Mode, popped: seq<Op>, s: System)
    requires Holds(mode, popped, s) && Enabled(s, Take) && !mode.Window?
    ensures Holds(if s.core.needRecovery then Window(s.core.held) else mode, Served(popped, s, Take), TakeTurn(s))
  {
    hide Stream, InWindow;
    if s.core.needRecovery {
      ResetOpensWindow(s);
    } else {
      PopKeepsStream(popped, s.core);
    }
  }

  lemma LineHolds(mode: Mode, popped: seq<Op>, s: System, e: Event, tb: Timebase)
    requires tb.Valid() && Holds(mode, popped, s) && Enabled(s, e) && e.Line? && !mode.Window? && Next(mode, s, e).Some?
    ensures Holds(Next(mode, s, e).value, popped, Step(s, e, tb))
  {
    hide Stream, Handle, LosesContact;
    var (c, r, t) := (s.core, e.r, e.t);
    RingGrowth(c, r, t, e.lost, tb);
    StateKept(c, r, t, e.lost, tb);
    if mode.Outage? {
      NothingPushed(c, r, t, e.lost, tb);
      SameQueue(popped, c, Step(s, e, tb).core);
    } else if e.lost {
      LostKeepsLegal(popped, c, r, t, tb);
    } else {
      HandleTracksIff(popped, c, r, t, tb);
    }
  }

  lemma EofHolds(mode: Mode, popped: seq<Op>, s: System, now: nat, tb: Timebase)
    requires tb.Valid() && Holds(mode, popped, s) && Enabled(s, Eof(now)) && !mode.Window? && Next(mode, s, Eof(now)).Some?
    ensures Holds(mode, popped, Step(s, Eof(now), tb))
  {
    hide Stream, Handed, ReleaseContact;
    ReleaseStream(popped, s.core, EofRecord(s.core), now, tb);
    ReleaseKeeps(s.core, EofRecord(s.core), now, tb);
  }

  lemma StepHolds(mode: Mode, popped: seq<Op>, s: System, e: Event, tb: Timebase)
    requires tb.Valid() && Holds(mode, popped, s) && Enabled(s, e) && Next(mode, s, e).Some?
    ensures Holds(Next(mode, s, e).value, Served(popped, s, e), Step(s, e, tb))
    ensures e.Take? ==> Stream(popped) != Broken
  {
    hide Stream, Handle, ReleaseContact, LosesContact, InWindow, CleanStart, WindowEvent;
    if mode.Window? {
      WindowHolds(mode, popped, s, e, tb);
    } else {
      match e
      case Take =>
        TakeHolds(mode, popped, s);
        PrefixLegal(popped, s.core);
      case Line(_, _, _) => LineHolds(mode, popped, s, e, tb);
      case Eof(now) => EofHolds(mode, popped, s, now, tb);
      case NotifyLost | NotifyRecover | Report(_) => SameQueue(popped, s.core, Step(s, e, tb).core);
    }
  }

  lemma WindowHolds(mode: Mode, popped: seq<Op>, s: System, e: Event, tb: Timebase)
    requires tb.Valid() && Holds(mode, popped, s) && Enabled(s, e) && mode.Window? && Next(mode, s, e).Some?
    ensures Holds(Next(mode, s, e).value, Served(popped, s, e), Step(s, e, tb)) && !e.Take?
  {
    hide Stream, Handle, ReleaseContact, CleanStart, HeldAtReset, FreeAtReset;
    if e == RecoverAttempt(true) {
      WindowEnds(mode.held, s, tb);
    } else {
      WindowStep(mode.held, s, e, tb);
    }
  }

  /** Over every run, recoveries included, that loses no contact to a full ring and whose recoveries all start clean:
      each pair of services is handed a legal stream of its own, and while services are up the newest stream followed by
      what is queued is the one that `held` and the held position describe. */
  lemma {:induction false} ContactsAcrossRecoveries(mode: Mode, popped: seq<Op>, s: System, events: seq<Event>, tb: Timebase)
    requires tb.Valid() && Holds(mode, popped, s) && Runs(s, events, tb) && EndMode(mode, s, events, tb).Some?
    ensures Holds(EndMode(mode, s, events, tb).value, ServedAfter(popped, s, events, tb), After(s, events, tb))
    ensures forall i :: 0 <= i < |Replaced(popped, s, events, tb)| ==> Stream(Replaced(popped, s, events, tb)[i]) != Broken
    decreases |events|
  {
    hide Stream, Holds, Next, Served, Step;
    if events != [] {
      var e := events[0];
      StepHolds(mode, popped, s, e, tb);
      ContactsAcrossRecoveries(Next(mode, s, e).value, Served(popped, s, e), Step(s, e, tb), events[1..], tb);
    }
  }

  /** Before the services are up, records push nothing and hold nothing. */
  lemma {:induction false} EarlyRecords(s: System, early: seq<Event>, tb: Timebase)
    requires tb.Valid() && Runs(s, early, tb) && (forall i :: 0 <= i < |early| ==> early[i].Line? && !early[i].lost)
    requires s.core.state.Initialising? && s.core.queue == [] && !s.core.held && s.phase.Waiting?
    ensures var s' := After(s, early, tb);
            s'.core.state.Initialising? && s'.core.queue == [] && !s'.core.held && s'.phase.Waiting?
    decreases |early|
  {
    hide Handle;
    if early != [] {
      var e := early[0];
      NothingPushed(s.core, e.r, e.t, false, tb);
      NothingHeld(s.core, e.r, e.t, tb);
      EarlyRecords(Step(s, e, tb), early[1..], tb);
    }
  }

  lemma NothingHeld(c: Core, r: Record, t: Readings, tb: Timebase)
    requires tb.Valid() && !c.state.Ready? && !c.held
    ensures !Handle(c, r, t, false, tb).0.held
  {
    hide MakeOp, X, Y;
  }

  /** From start-up: after any records that come too early, once the services are first ready, every further run that
      loses no contact to a full ring and whose recoveries start clean hands legal streams on. */
  lemma ContactsFromStartUp(early: seq<Event>, events: seq<Event>, tb: Timebase)
    requires tb.Valid() && Runs(Initial(), early, tb) && (forall i :: 0 <= i < |early| ==> early[i].Line? && !early[i].lost)
    requires var s := Step(After(Initial(), early, tb), Initialised(true), tb);
             Runs(s, events, tb) && EndMode(Tracking, s, events, tb) == Some(Tracking)
    ensures var s := Step(After(Initial(), early, tb), Initialised(true), tb);
            && Tracks(ServedAfter([], s, events, tb), After(s, events, tb).core)
            && forall i :: 0 <= i < |Replaced([], s, events, tb)| ==> Stream(Replaced([], s, events, tb)[i]) != Broken
  {
    hide Tracks, Stream, EndMode;
    EarlyRecords(Initial(), early, tb);
    var s := Step(After(Initial(), early, tb), Initialised(true), tb);
    NothingTracked(s.core);
    ContactsAcrossRecoveries(Tracking, [], s, events, tb);
  }

  lemma NothingTracked(c: Core)
    requires c.queue == [] && !c.held
    ensures Tracks([], c)
  {
    var none: seq<Op> := [];
    assert none + none == none;
  }
}
