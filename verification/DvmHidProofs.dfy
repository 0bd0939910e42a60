/** Runs of dvm_hid.c: conservation of operations, whole contacts, and an ordered event timeline. */
module DvmHidProofs {
  import opened DvmHid

  // ---------- every push is attempted, and refused only by a full ring ----------

  /** How many operations this record tries to push: guards a caller can evaluate beforehand. */
  function Attempts(c: Core, r: Record, lost: bool): (n: nat)
    ensures n <= 2
  {
    var entering := r.epoch != c.epoch;
    var first := if entering && c.state.Ready? && c.held then 1 else 0;
    var ready := c.state.Ready? && !lost;
    var holding := c.held && !entering;
    first + (match r.kind
             case Ping => 0
             case Cancel => if ready && holding then 1 else 0
             case Button => if ready then 1 else 0
             case Wheel => if ready && !holding then 1 else 0
             case Down => if !ready then 0 else if holding then 2 else 1
             case Move | Up => if ready && holding then 1 else 0)
  }

  function Min(a: nat, b: nat): nat { if a < b then a else b }

  lemma EpochGrowth(c: Core, r: Record, now: nat, tb: Timebase)
    requires tb.Valid() && |c.queue| <= OP_QUEUE
    ensures var c' := EnterEpoch(c, r, now, tb);
            && c.queue <= c'.queue && c'.state == c.state && c'.held == (c.held && r.epoch == c.epoch)
            && |c'.queue| == Min(OP_QUEUE, |c.queue| + if r.epoch != c.epoch && c.state.Ready? && c.held then 1 else 0)
  {
    hide MakeOp;
  }

  lemma ActGrowth(c: Core, r: Record, t: Readings, tb: Timebase)
    requires tb.Valid() && |c.queue| <= OP_QUEUE && r.epoch == c.epoch
    ensures var (c', reply) := Act(c, r, t, tb);
            && c.queue <= c'.queue && |c'.queue| == Min(OP_QUEUE, |c.queue| + Attempts(c, r, false))
            && (reply == Failed ==> |c.queue| + Attempts(c, r, false) > OP_QUEUE)
  {
    hide MakeOp, X, Y;
    match r.kind case _ =>
  }

  /** The ring grows by exactly the attempted pushes, cut at its capacity; what was queued stays in front.
      With two free slots no push of the record is refused. */
  lemma RingGrowth(c: Core, r: Record, t: Readings, lost: bool, tb: Timebase)
    requires tb.Valid() && |c.queue| <= OP_QUEUE
    ensures var (c', reply) := Handle(c, r, t, lost, tb);
            && |c'.queue| == Min(OP_QUEUE, |c.queue| + Attempts(c, r, lost)) && c.queue <= c'.queue
            && (|c.queue| <= OP_QUEUE - 2 ==> |c'.queue| == |c.queue| + Attempts(c, r, lost) && reply != Failed)
  {
    hide EnterEpoch, Act;
    EpochGrowth(c, r, t.release, tb);
    EpochSet(c, r, t.release, tb);
    var c1 := EnterEpoch(c, r, t.release, tb);
    ActGrowth(if lost then c1.(state := Lost) else c1, r, t, tb);
  }

  lemma EpochSet(c: Core, r: Record, now: nat, tb: Timebase)
    requires tb.Valid()
    ensures EnterEpoch(c, r, now, tb).epoch == r.epoch
    ensures r.epoch == c.epoch ==> EnterEpoch(c, r, now, tb) == c
  {
  }

  // ---------- conservation ----------

  function Ops(gone: seq<Departure>): seq<Op> {
    seq(|gone|, i requires 0 <= i < |gone| => gone[i].op)
  }

  function PoppedOps(gone: seq<Departure>): seq<Op> {
    if gone == [] then []
    else PoppedOps(gone[..|gone| - 1]) + (if gone[|gone| - 1].Popped? then [gone[|gone| - 1].op] else [])
  }

  function DiscardedCount(gone: seq<Departure>): nat {
    if gone == [] then 0
    else DiscardedCount(gone[..|gone| - 1]) + (if gone[|gone| - 1].Discarded? then 1 else 0)
  }

  function Reported(s: System): seq<Op> {
    seq(|s.reports|, i requires 0 <= i < |s.reports| => s.reports[i].0)
  }

  function InDispatch(s: System): seq<Op> {
    if s.phase.Dispatching? then [s.phase.op] else []
  }

  /** The ring is a queue: what was pushed is what left it, in that order, followed by what is in it;
      and what was popped is what was reported followed by what is being dispatched. */
  predicate Conserved(s: System) {
    && |s.core.queue| <= OP_QUEUE
    && s.pushed == Ops(s.gone) + s.core.queue
    && PoppedOps(s.gone) == Reported(s) + InDispatch(s)
  }

  lemma OpsConcat(a: seq<Departure>, b: seq<Departure>)
    ensures Ops(a + b) == Ops(a) + Ops(b)
  {
  }

  lemma {:induction false} DiscardingPopsNothing(gone: seq<Departure>, queue: seq<Op>)
    ensures PoppedOps(gone + DiscardAll(queue)) == PoppedOps(gone)
    ensures DiscardedCount(gone + DiscardAll(queue)) == DiscardedCount(gone) + |queue|
    decreases |queue|
  {
    var all := gone + DiscardAll(queue);
    if queue == [] {
      assert all == gone;
    } else {
      var n := |queue| - 1;
      assert all[..|all| - 1] == gone + DiscardAll(queue[..n]);
      DiscardingPopsNothing(gone, queue[..n]);
    }
  }

  lemma PopAppends(gone: seq<Departure>, op: Op)
    ensures PoppedOps(gone + [Popped(op)]) == PoppedOps(gone) + [op]
    ensures DiscardedCount(gone + [Popped(op)]) == DiscardedCount(gone)
  {
    assert (gone + [Popped(op)])[..|gone|] == gone;
  }

  lemma FreshExtends(before: seq<Op>, after: seq<Op>)
    requires before <= after
    ensures before + Fresh(before, after) == after
  {
  }

  lemma TakeConserves(s: System)
    requires Conserved(s) && Enabled(s, Take)
    ensures Conserved(TakeTurn(s))
  {
    var s' := TakeTurn(s);
    if s.core.needRecovery {
      var q := s.core.queue;
      OpsConcat(s.gone, DiscardAll(q));
      assert Ops(DiscardAll(q)) == q;
      DiscardingPopsNothing(s.gone, q);
      assert Reported(s') == Reported(s);
    } else {
      var op := s.core.queue[0];
      OpsConcat(s.gone, [Popped(op)]);
      assert Ops([Popped(op)]) == [op];
      assert s.core.queue == [op] + s.core.queue[1..];
      PopAppends(s.gone, op);
      assert Reported(s') == Reported(s);
    }
  }

  lemma ReportConserves(s: System, ok: bool)
    requires Conserved(s) && Enabled(s, Report(ok))
    ensures Conserved(FinishDispatch(s, ok))
  {
    assert Reported(FinishDispatch(s, ok)) == Reported(s) + [s.phase.op];
  }

  lemma PushConserves(s: System, s': System)
    requires Conserved(s) && s.core.queue <= s'.core.queue && |s'.core.queue| <= OP_QUEUE
    requires s'.pushed == s.pushed + Fresh(s.core.queue, s'.core.queue)
    requires s'.gone == s.gone && s'.reports == s.reports && s'.phase == s.phase
    ensures Conserved(s')
  {
    FreshExtends(s.core.queue, s'.core.queue);
    assert Reported(s') == Reported(s);
  }

  lemma StepConserves(s: System, e: Event, tb: Timebase)
    requires tb.Valid() && Conserved(s) && Enabled(s, e)
    ensures Conserved(Step(s, e, tb))
  {
    var s' := Step(s, e, tb);
    match e
    case Line(r, t, lost) =>
      RingGrowth(s.core, r, t, lost, tb);
      PushConserves(s, s');
    case Eof(now) => PushConserves(s, s');
    case Take => TakeConserves(s);
    case Report(ok) => ReportConserves(s, ok);
    case _ => assert Reported(s') == Reported(s);
  }

  lemma {:induction false} RunConserves(s: System, events: seq<Event>, tb: Timebase)
    requires tb.Valid() && Conserved(s) && Runs(s, events, tb)
    ensures Conserved(After(s, events, tb))
    decreases |events|
  {
    if events != [] {
      StepConserves(s, events[0], tb);
      RunConserves(Step(s, events[0], tb), events[1..], tb);
    }
  }

  lemma {:induction false} DeparturesCount(gone: seq<Departure>)
    ensures |gone| == |PoppedOps(gone)| + DiscardedCount(gone)
  {
    if gone != [] {
      DeparturesCount(gone[..|gone| - 1]);
    }
  }

  /** Over every run from start-up, recoveries included: pushes = reports + at most one in dispatch
      + ring length + operations dropped by recovery, and the ring never overruns its 32 slots. */
  lemma ConservationOverRuns(events: seq<Event>, tb: Timebase)
    requires tb.Valid() && Runs(Initial(), events, tb)
    ensures var s := After(Initial(), events, tb);
            && Conserved(s)
            && |s.pushed| == |s.reports| + |InDispatch(s)| + |s.core.queue| + DiscardedCount(s.gone)
            && |InDispatch(s)| <= 1
  {
    RunConserves(Initial(), events, tb);
    DeparturesCount(After(Initial(), events, tb).gone);
  }

  // ---------- the touch stream ----------

  datatype Contact = Closed | Open(x: real, y: real) | Broken

  /** The only legal streams: down, moves, up, again and again. */
  function Advance(k: Contact, t: Touch): Contact {
    match (k, t)
    case (Closed, TouchDown(x, y)) => Open(x, y)
    case (Open(_, _), TouchMove(x, y)) => Open(x, y)
    case (Open(_, _), TouchUp(_, _)) => Closed
    case _ => Broken
  }

  function Fold(k: Contact, ts: seq<Touch>): Contact
    decreases |ts|
  {
    if ts == [] then k else Fold(Advance(k, ts[0]), ts[1..])
  }

  lemma {:induction false} FoldConcat(k: Contact, a: seq<Touch>, b: seq<Touch>)
    ensures Fold(k, a + b) == Fold(Fold(k, a), b)
    decreases |a|
  {
    if a == [] {
      assert a + b == b;
    } else {
      assert (a + b)[1..] == a[1..] + b;
      FoldConcat(Advance(k, a[0]), a[1..], b);
    }
  }

  lemma {:induction false} AllPostsConcat(a: seq<Op>, b: seq<Op>)
    ensures AllPosts(a + b) == AllPosts(a) + AllPosts(b)
    decreases |b|
  {
    hide Posts;
    if b == [] {
      assert a + b == a;
    } else {
      assert (a + b)[..|a + b| - 1] == a + b[..|b| - 1];
      AllPostsConcat(a, b[..|b| - 1]);
    }
  }

  function Stream(ops: seq<Op>): Contact { Fold(Closed, AllPosts(ops)) }

  lemma StreamAppend(ops: seq<Op>, op: Op)
    ensures Stream(ops + [op]) == Fold(Stream(ops), Posts(op))
  {
    assert (ops + [op])[..|ops|] == ops;
    FoldConcat(Closed, AllPosts(ops), Posts(op));
  }

  lemma {:induction false} WheelMovesStayOpen(x: real, y: real, end: real, i: nat, k: Contact)
    requires 1 <= i <= 9 && k.Open?
    ensures Fold(k, WheelMoves(x, y, end, i)).Open?
    decreases 9 - i
  {
    if i < 9 {
      WheelMovesStayOpen(x, y, end, i + 1, Advance(k, WheelMoves(x, y, end, i)[0]));
    }
  }

  /** A wheel batch between contacts is one whole contact; inside a contact it breaks the stream. */
  lemma ScrollIsOneContact(x: real, y: real, notches: int, k: Contact)
    ensures Fold(k, ScrollGesture(x, y, notches)) == if k.Closed? then Closed else Broken
  {
    var end := WheelEnd(y, notches);
    var moves := WheelMoves(x, y, end, 1);
    FoldConcat(k, [TouchDown(x, y)] + moves, [TouchUp(x, end)]);
    FoldConcat(k, [TouchDown(x, y)], moves);
    if k.Closed? {
      WheelMovesStayOpen(x, y, end, 1, Open(x, y));
    } else {
      BrokenStays(moves);
    }
  }

  lemma {:induction false} BrokenStays(ts: seq<Touch>)
    ensures Fold(Broken, ts) == Broken
  {
    if ts != [] {
      BrokenStays(ts[1..]);
    }
  }

  /** The state of the stream of everything popped so far and still queued. */
  function Handed(popped: seq<Op>, c: Core): Contact { Stream(popped + c.queue) }

  /** `held` and the held position describe that stream. */
  predicate Tracks(popped: seq<Op>, c: Core) {
    Handed(popped, c) == if c.held then Open(c.heldX, c.heldY) else Closed
  }

  lemma PushStream(popped: seq<Op>, c: Core, op: Op)
    ensures Handed(popped, QueueOp(c, op).0) ==
            if |c.queue| < OP_QUEUE then Fold(Handed(popped, c), Posts(op)) else Handed(popped, c)
  {
    hide Posts, Fold, AllPosts;
    if |c.queue| < OP_QUEUE {
      assert popped + (c.queue + [op]) == popped + c.queue + [op];
      StreamAppend(popped + c.queue, op);
    }
  }

  lemma ReleaseStream(popped: seq<Op>, c: Core, r: Record, now: nat, tb: Timebase)
    requires tb.Valid()
    ensures Handed(popped, ReleaseContact(c, r, now, tb).0) ==
            if c.held && |c.queue| < OP_QUEUE then Advance(Handed(popped, c), TouchUp(c.heldX, c.heldY))
            else Handed(popped, c)
  {
    if c.held {
      PushStream(popped, c.(held := false), MakeOp(c, r, TouchOp, c.heldX, c.heldY, false, true, 0, now, tb));
    }
  }

  lemma OnePost(k: Contact, t: Touch)
    ensures Fold(k, [t]) == Advance(k, t)
  {
    assert Fold(Advance(k, t), [t][1..]) == Advance(k, t);
  }

  /** A record whose contact operation a full ring drops. The two exemptions are pushes whose absence
      nobody can see: a move to where the finger is, and a down exactly there when the release in front
      of it was dropped as well. */
  predicate LosesContact(c: Core, r: Record) {
    var same := X(r) == c.heldX && Y(r) == c.heldY;
    var room := OP_QUEUE - |c.queue|;
    var releases := c.held && (r.epoch != c.epoch || r.kind.Cancel? || r.kind.Down?);
    if r.kind.Down? then
      if releases then room < 2 && !(room < 1 && same) else room < 1
    else if releases then room < 1
    else if r.kind.Up? then c.held && room < 1
    else r.kind.Move? && c.held && room < 1 && !same
  }

  /** The stream after the epoch check. */
  lemma EpochStream(popped: seq<Op>, c: Core, r: Record, now: nat, tb: Timebase)
    requires tb.Valid() && c.state.Ready? && Tracks(popped, c)
    ensures var c1 := EnterEpoch(c, r, now, tb);
            && c1.state.Ready? && (r.epoch != c.epoch ==> !c1.held)
            && Handed(popped, c1) == if r.epoch != c.epoch && c.held && |c.queue| < OP_QUEUE then Closed
                                     else Handed(popped, c)
  {
    hide Handed, MakeOp, ReleaseContact;
    ReleaseStream(popped, c, r, now, tb);
    ReleaseKeeps(c, r, now, tb);
    if r.epoch != c.epoch {
      SameQueue(popped, ReleaseContact(c, r, now, tb).0, EnterEpoch(c, r, now, tb));
    }
  }

  lemma ReleaseKeeps(c: Core, r: Record, now: nat, tb: Timebase)
    requires tb.Valid()
    ensures var c' := ReleaseContact(c, r, now, tb).0;
            c' == c.(held := false, queue := c'.queue)
            && |c'.queue| == |c.queue| + (if c.held && |c.queue| < OP_QUEUE then 1 else 0)
  {
  }

  /** The stream after the kind switch, for any stream state before it. */
  lemma ActStream(popped: seq<Op>, c: Core, r: Record, t: Readings, tb: Timebase)
    requires tb.Valid() && c.state.Ready?
    ensures var c' := Act(c, r, t, tb).0;
            var k := Handed(popped, c);
            var room := |c.queue| < OP_QUEUE;
            Handed(popped, c') ==
            match r.kind
            case Ping | Button => k
            case Cancel => if c.held && room then Advance(k, TouchUp(c.heldX, c.heldY)) else k
            case Wheel => if c.held || !room then k else if k.Closed? then Closed else Broken
            case Move => if c.held && room then Advance(k, TouchMove(X(r), Y(r))) else k
            case Up => if c.held && room then Advance(k, TouchUp(X(r), Y(r))) else k
            case Down =>
              var k1 := if c.held && room then Advance(k, TouchUp(c.heldX, c.heldY)) else k;
              if |c.queue| + (if c.held then 1 else 0) < OP_QUEUE then Advance(k1, TouchDown(X(r), Y(r))) else k1
  {
    hide Handed, X, Y, ScrollGesture, Advance, TimelineTimestamp;
    match r.kind
    case Ping =>
    case Cancel => ReleaseStream(popped, c, r, t.release, tb);
    case Button =>
      var c1 := c.(baseMach := t.base, baseHost := r.hostMs);
      PushStream(popped, c1, MakeOp(c1, r, ButtonOp, 0.0, 0.0, r.b != 0, true, r.a, t.event, tb));
      SameQueue(popped, c, c1);
    case Wheel =>
      var op := MakeOp(c, r, WheelOp, X(r), Y(r), false, false, 0, t.event, tb);
      PushStream(popped, c, op);
      ScrollIsOneContact(op.x, op.y, op.notches, Handed(popped, c));
    case Down =>
      var c1 := ReleaseContact(c, r, t.release, tb).0;
      var c2 := c1.(baseMach := t.base, baseHost := r.hostMs, held := true, heldX := X(r), heldY := Y(r));
      ReleaseStream(popped, c, r, t.release, tb);
      SameQueue(popped, c1, c2);
      PushStream(popped, c2, MakeOp(c2, r, TouchOp, X(r), Y(r), true, true, 0, t.event, tb));
      OnePost(Handed(popped, c2), TouchDown(X(r), Y(r)));
    case Move | Up =>
      var c1 := c.(heldX := X(r), heldY := Y(r), held := r.kind.Move?);
      SameQueue(popped, c, c1);
      PushStream(popped, c1, MakeOp(c1, r, TouchOp, X(r), Y(r), r.kind.Move?, r.kind.Up?, 0, t.event, tb));
      OnePost(Handed(popped, c), if r.kind.Move? then TouchMove(X(r), Y(r)) else TouchUp(X(r), Y(r)));
  }

  lemma SameQueue(popped: seq<Op>, c: Core, c': Core)
    requires c.queue == c'.queue
    ensures Handed(popped, c) == Handed(popped, c')
  {
  }

  /** For every record handled while the services are ready: the contact fields still describe the stream
      afterwards if and only if the record does not lose a contact operation to a full ring. */
  lemma HandleTracksIff(popped: seq<Op>, c: Core, r: Record, t: Readings, tb: Timebase)
    requires tb.Valid() && c.state.Ready? && |c.queue| <= OP_QUEUE && Tracks(popped, c)
    ensures var c' := Handle(c, r, t, false, tb).0;
            c'.state.Ready? && |c'.queue| <= OP_QUEUE && (Tracks(popped, c') <==> !LosesContact(c, r))
  {
    hide Handed, X, Y, EnterEpoch, Act;
    var c1 := EnterEpoch(c, r, t.release, tb);
    EpochStream(popped, c, r, t.release, tb);
    EpochGrowth(c, r, t.release, tb);
    EpochSet(c, r, t.release, tb);
    ActStream(popped, c1, r, t, tb);
    ActFields(c1, r, t, tb);
    RingGrowth(c, r, t, false, tb);
  }

  /** The fields other than the ring after the kind switch. */
  lemma ActFields(c: Core, r: Record, t: Readings, tb: Timebase)
    requires tb.Valid() && c.state.Ready?
    ensures var c' := Act(c, r, t, tb).0;
            && c'.state == c.state && c'.needRecovery == c.needRecovery
            && c'.held == (match r.kind case Down => true case Up | Cancel => false case _ => c.held)
            && (c'.heldX, c'.heldY) == (if r.kind.Down? || ((r.kind.Move? || r.kind.Up?) && c.held) then (X(r), Y(r))
                                        else (c.heldX, c.heldY))
            && (c'.baseMach, c'.baseHost) == (if r.kind.Down? || r.kind.Button? then (t.base, r.hostMs)
                                              else (c.baseMach, c.baseHost))
  {
    hide X, Y, MakeOp;
    match r.kind case _ =>
  }

  /** Two free slots are enough for every record. */
  lemma RoomLosesNothing(c: Core, r: Record)
    requires |c.queue| <= OP_QUEUE - 2
    ensures !LosesContact(c, r)
  {
    hide X, Y;
  }

  /** A stretch of records, ring turns and reports with the services ready, no recovery due and no
      contact operation lost. */
  predicate Quiet(s: System, events: seq<Event>, tb: Timebase)
    requires tb.Valid()
    decreases |events|
  {
    events == [] ||
    (&& Enabled(s, events[0]) && s.core.state.Ready? && !s.core.needRecovery
     && (match events[0]
         case Line(r, t, lost) => !lost && !LosesContact(s.core, r)
         case Take | Report(_) => true
         case _ => false)
     && Quiet(Step(s, events[0], tb), events[1..], tb))
  }

  lemma {:induction false} QuietRuns(s: System, events: seq<Event>, tb: Timebase)
    requires tb.Valid() && Quiet(s, events, tb)
    ensures Runs(s, events, tb)
    decreases |events|
  {
    if events != [] {
      QuietRuns(Step(s, events[0], tb), events[1..], tb);
    }
  }

  lemma QuietStep(popped: seq<Op>, s: System, e: Event, tb: Timebase) returns (added: seq<Op>)
    requires tb.Valid() && Quiet(s, [e], tb) && |s.core.queue| <= OP_QUEUE && Tracks(popped, s.core)
    ensures PoppedOps(Step(s, e, tb).gone) == PoppedOps(s.gone) + added
    ensures |Step(s, e, tb).core.queue| <= OP_QUEUE && Tracks(popped + added, Step(s, e, tb).core)
  {
    hide Handle, LosesContact, Stream;
    assert popped + [] == popped && PoppedOps(s.gone) + [] == PoppedOps(s.gone);
    added := [];
    match e
    case Line(r, t, lost) => HandleTracksIff(popped, s.core, r, t, tb);
    case Take =>
      added := [s.core.queue[0]];
      PopAppends(s.gone, s.core.queue[0]);
      assert popped + added + s.core.queue[1..] == popped + s.core.queue;
    case Report(ok) =>
  }

  /** Over every quiet stretch that starts with an empty ring and no finger down, what was popped since
      followed by what is queued is a legal touch stream, and `held` says whether it ends inside a contact. */
  lemma {:induction false} ContactsOverQuietRuns(popped: seq<Op>, s: System, events: seq<Event>, tb: Timebase)
    returns (added: seq<Op>)
    requires tb.Valid() && Quiet(s, events, tb) && Runs(s, events, tb)
    requires |s.core.queue| <= OP_QUEUE && Tracks(popped, s.core)
    ensures PoppedOps(After(s, events, tb).gone) == PoppedOps(s.gone) + added
    ensures Tracks(popped + added, After(s, events, tb).core)
    decreases |events|
  {
    hide Step, Stream, LosesContact;
    if events == [] {
      added := [];
      assert popped + [] == popped && PoppedOps(s.gone) + [] == PoppedOps(s.gone);
    } else {
      var first := QuietStep(popped, s, events[0], tb);
      var rest := ContactsOverQuietRuns(popped + first, Step(s, events[0], tb), events[1..], tb);
      added := first + rest;
      assert popped + first + rest == popped + added;
      assert PoppedOps(s.gone) + first + rest == PoppedOps(s.gone) + added;
    }
  }

  // ---------- what a legal stream is ----------

  /** One finger contact: where it goes down, where it moves, where it goes up. */
  datatype Whole = Whole(down: (real, real), moves: seq<(real, real)>, up: (real, real))

  function Moves(ps: seq<(real, real)>): seq<Touch> {
    seq(|ps|, i requires 0 <= i < |ps| => TouchMove(ps[i].0, ps[i].1))
  }

  /** An unfinished contact, given by its positions; nothing when there are none. */
  function Unfinished(ps: seq<(real, real)>): seq<Touch> {
    if ps == [] then [] else [TouchDown(ps[0].0, ps[0].1)] + Moves(ps[1..])
  }

  function Flatten(ws: seq<Whole>): seq<Touch> {
    if ws == [] then []
    else Flatten(ws[..|ws| - 1]) + Unfinished([ws[|ws| - 1].down] + ws[|ws| - 1].moves)
         + [TouchUp(ws[|ws| - 1].up.0, ws[|ws| - 1].up.1)]
  }

  lemma FoldAppend(k: Contact, ts: seq<Touch>, t: Touch)
    ensures Fold(k, ts + [t]) == Advance(Fold(k, ts), t)
  {
    FoldConcat(k, ts, [t]);
    OnePost(Fold(k, ts), t);
  }

  lemma UnfinishedGrows(ps: seq<(real, real)>, p: (real, real))
    requires ps != []
    ensures Unfinished(ps + [p]) == Unfinished(ps) + [TouchMove(p.0, p.1)]
  {
    assert (ps + [p])[1..] == ps[1..] + [p];
    assert Moves(ps[1..] + [p]) == Moves(ps[1..]) + [TouchMove(p.0, p.1)];
  }

  /** A stream the automaton accepts is whole contacts followed by at most one unfinished contact. */
  lemma {:induction false} LegalStreamIsContacts(ts: seq<Touch>) returns (ws: seq<Whole>, open: seq<(real, real)>)
    requires Fold(Closed, ts) != Broken
    ensures ts == Flatten(ws) + Unfinished(open)
    ensures Fold(Closed, ts) == if open == [] then Closed else Open(open[|open| - 1].0, open[|open| - 1].1)
    decreases |ts|
  {
    hide Flatten, Unfinished, Moves;
    if ts == [] {
      ws, open := [], [];
      NothingFlattens();
    } else {
      var n := |ts| - 1;
      var t := ts[n];
      assert ts == ts[..n] + [t];
      FoldAppend(Closed, ts[..n], t);
      var ws', open' := LegalStreamIsContacts(ts[..n]);
      ws, open := ExtendContacts(ts[..n], ws', open', t);
    }
  }

  lemma NothingFlattens()
    ensures Flatten([]) == [] && Unfinished([]) == []
  {
  }

  lemma ExtendContacts(ts: seq<Touch>, ws: seq<Whole>, open: seq<(real, real)>, t: Touch)
    returns (ws': seq<Whole>, open': seq<(real, real)>)
    requires ts == Flatten(ws) + Unfinished(open)
    requires var k := if open == [] then Closed else Open(open[|open| - 1].0, open[|open| - 1].1);
             Advance(k, t) != Broken
    ensures ts + [t] == Flatten(ws') + Unfinished(open')
    ensures var k := if open == [] then Closed else Open(open[|open| - 1].0, open[|open| - 1].1);
            Advance(k, t) == if open' == [] then Closed else Open(open'[|open'| - 1].0, open'[|open'| - 1].1)
  {
    match t
    case TouchDown(x, y) =>
      ws', open' := ws, [(x, y)];
      assert Unfinished([]) == [] && Unfinished([(x, y)]) == [t];
    case TouchMove(x, y) =>
      UnfinishedGrows(open, (x, y));
      ws', open' := ws, open + [(x, y)];
    case TouchUp(x, y) =>
      var w := Whole(open[0], open[1..], (x, y));
      ws', open' := ws + [w], [];
      assert (ws + [w])[..|ws|] == ws;
      assert [w.down] + w.moves == open;
      assert Unfinished([]) == [];
  }

  lemma {:induction false} MovesStayOpen(k: Contact, ps: seq<(real, real)>)
    requires k.Open?
    ensures Fold(k, Moves(ps)) == if ps == [] then k else Open(ps[|ps| - 1].0, ps[|ps| - 1].1)
    decreases |ps|
  {
    if ps != [] {
      assert Moves(ps)[1..] == Moves(ps[1..]);
      MovesStayOpen(Open(ps[0].0, ps[0].1), ps[1..]);
    }
  }

  /** And every sequence of whole contacts is accepted. */
  lemma {:induction false} ContactsAreLegal(ws: seq<Whole>)
    ensures Fold(Closed, Flatten(ws)) == Closed
  {
    if ws != [] {
      var w := ws[|ws| - 1];
      var ps := [w.down] + w.moves;
      ContactsAreLegal(ws[..|ws| - 1]);
      FoldConcat(Closed, Flatten(ws[..|ws| - 1]), Unfinished(ps));
      assert ps[1..] == w.moves;
      FoldConcat(Closed, [TouchDown(w.down.0, w.down.1)], Moves(w.moves));
      OnePost(Closed, TouchDown(w.down.0, w.down.1));
      MovesStayOpen(Open(w.down.0, w.down.1), w.moves);
      FoldAppend(Closed, Flatten(ws[..|ws| - 1]) + Unfinished(ps), TouchUp(w.up.0, w.up.1));
    }
  }

  // ---------- why the stretch must be free of recovery ----------

  function DownAt(number: nat): Event {
    Line(Record(0, number, Down, 0, 0, 0, 1), Readings(1, 1, 1), false)
  }

  /** The worker drops the ring and releases the lock with the state still ready. A down that arrives in
      that window survives the recovery, while the recovery forgets that a finger is held; the next down
      then lands inside the contact that is still open. */
  function WindowRun(): seq<Event> {
    [Initialised(true), NotifyRecover, Take, DownAt(1), RecoverBegin, RecoverAttempt(true), DownAt(2)]
  }

  lemma DownStep(s: System, number: nat, tb: Timebase) returns (op: Op)
    requires tb.Valid() && !s.closed && s.core.state.Ready? && s.core.epoch == 0 && !s.core.held
    requires |s.core.queue| < OP_QUEUE
    ensures var s' := Step(s, DownAt(number), tb);
            && s'.core.queue == s.core.queue + [op] && op.kind.TouchOp? && op.down && op.edge
            && s'.core.held && s'.core.state.Ready? && s'.core.epoch == 0 && s'.core.needRecovery == s.core.needRecovery
            && s'.gone == s.gone && s'.phase == s.phase && !s'.closed
  {
    hide X, Y, TimelineTimestamp;
    op := Step(s, DownAt(number), tb).core.queue[|s.core.queue|];
  }

  lemma TwoDownsBreak(a: Op, b: Op)
    requires a.kind.TouchOp? && a.down && a.edge && b.kind.TouchOp? && b.down && b.edge
    ensures Stream([a, b]) == Broken
  {
    assert [a, b] == [] + [a] + [b];
    StreamAppend([], a);
    StreamAppend([] + [a], b);
    assert Fold(Closed, []) == Closed;
    OnePost(Closed, TouchDown(a.x, a.y));
    OnePost(Open(a.x, a.y), TouchDown(b.x, b.y));
  }

  lemma RecoveryWindowStacksContacts(tb: Timebase)
    requires tb.Valid()
    ensures Runs(Initial(), WindowRun(), tb)
    ensures var s := After(Initial(), WindowRun(), tb);
            s.core.state.Ready? && s.core.held && s.gone == [] && Stream(s.core.queue) == Broken
  {
    hide Handle, Stream;
    var s3 := Step(Step(Step(Initial(), Initialised(true), tb), NotifyRecover, tb), Take, tb);
    var a := DownStep(s3, 1, tb);
    var s4 := Step(s3, DownAt(1), tb);
    var s6 := Step(Step(s4, RecoverBegin, tb), RecoverAttempt(true), tb);
    var b := DownStep(s6, 2, tb);
    var s7 := Step(s6, DownAt(2), tb);
    assert s7.core.queue == [a, b];
    TwoDownsBreak(a, b);
    UnfoldWindow(Initial(), s3, s4, s6, s7, tb);
  }

  lemma UnfoldWindow(s0: System, s3: System, s4: System, s6: System, s7: System, tb: Timebase)
    requires tb.Valid() && s0 == Initial()
    requires s3 == Step(Step(Step(s0, Initialised(true), tb), NotifyRecover, tb), Take, tb)
    requires Enabled(s3, DownAt(1)) && s4 == Step(s3, DownAt(1), tb) && Enabled(s4, RecoverBegin)
    requires s6 == Step(Step(s4, RecoverBegin, tb), RecoverAttempt(true), tb)
    requires Enabled(s6, DownAt(2)) && s7 == Step(s6, DownAt(2), tb)
    ensures Runs(s0, WindowRun(), tb) && After(s0, WindowRun(), tb) == s7
  {
    hide Handle;
    var es := WindowRun();
    var s1 := Step(s0, Initialised(true), tb);
    var s2 := Step(s1, NotifyRecover, tb);
    var s5 := Step(s4, RecoverBegin, tb);
    UnfoldRun(s0, s1, es, tb);
    UnfoldRun(s1, s2, es[1..], tb);
    UnfoldRun(s2, s3, es[2..], tb);
    UnfoldRun(s3, s4, es[3..], tb);
    UnfoldRun(s4, s5, es[4..], tb);
    UnfoldRun(s5, s6, es[5..], tb);
    UnfoldRun(s6, s7, es[6..], tb);
  }

  lemma UnfoldRun(s: System, next: System, events: seq<Event>, tb: Timebase)
    requires tb.Valid() && events != [] && Enabled(s, events[0]) && next == Step(s, events[0], tb)
    ensures Runs(s, events, tb) <==> Runs(next, events[1..], tb)
    ensures Runs(s, events, tb) ==> After(s, events, tb) == After(next, events[1..], tb)
  {
    hide Step;
  }
}
