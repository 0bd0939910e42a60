/** Every run of relay, line and helper: what coalescing keeps and what the helper applies. */
module RelayProofs {
  import opened Results
  import opened Relay

  /** The whole path. The line is what was ever put on it: a delivery may lose, repeat or reorder records.
      `arrived`, `sent`, `applied` and `acked` are its history. */
  datatype System = System(
    relay: Sender, helper: Helper, packets: set<Packet>, acks: set<Ack>,
    arrived: seq<Event>, sent: seq<Packet>, applied: seq<Packet>, acked: nat)

  datatype Action = Arrive(e: Event) | Send(kind: char) | Deliver(p: Packet, posted: bool) | Reply(a: Ack) | Timeout

  predicate Enabled(s: System, a: Action) {
    match a
    case Arrive(e) => !s.relay.failed
    case Send(_) => CanSend(s.relay)
    case Deliver(p, _) => p in s.packets
    case Reply(a) => !s.relay.failed && a in s.acks
    case Timeout => s.relay.pending.Some?
  }

  function Next(s: System, a: Action): System
    requires Enabled(s, a)
  {
    match a
    case Arrive(e) =>
      s.(relay := Arrives(s.relay, e), arrived := if Enqueue(s.relay.queue, e).Ok? then s.arrived + [e] else s.arrived)
    case Send(kind) =>
      var p := NextPacket(s.relay, kind);
      s.(relay := Sends(s.relay, kind), packets := s.packets + {p}, sent := s.sent + [p])
    case Deliver(p, posted) =>
      var (h, ack) := Take(s.helper, p, posted);
      if ack.None? then s.(helper := h)
      else s.(helper := h, acks := s.acks + {ack.value}, applied := s.applied + [p])
    case Reply(a) =>
      var relay := Replied(s.relay, a);
      s.(relay := relay, acked := if relay.pending != s.relay.pending then s.acked + 1 else s.acked)
    case Timeout => s.(relay := s.relay.(failed := true))
  }

  predicate Legal(s: System, run: seq<Action>)
    decreases |run|
  {
    run == [] || (Enabled(s, run[0]) && Legal(Next(s, run[0]), run[1..]))
  }

  function After(s: System, run: seq<Action>): System
    requires Legal(s, run)
    decreases |run|
  {
    if run == [] then s else After(Next(s, run[0]), run[1..])
  }

  /** The relay starts at `first`; the helper has taken nothing later. */
  function Start(first: nat, helper: Helper): System {
    System(Sender([], first, None, false), helper, {}, {}, [], [], [], 0)
  }

  // ---------- the link ----------

  ghost predicate LinkHolds(s: System, first: nat, before: nat) {
    var n, k := |s.sent|, |s.applied|;
    && k <= n && s.applied == s.sent[..k]
    && s.acked <= k && n <= s.acked + 1
    && s.relay.sequence == first + n
    && (forall i :: 0 <= i < n ==> s.sent[i].sequence == first + 1 + i)
    && s.helper.last == (if k == 0 then before else first + k)
    && (forall p :: p in s.packets ==> p in s.sent)
    && (forall a :: a in s.acks ==> first < a.sequence <= first + k)
    && (if s.relay.pending.Some? then n == s.acked + 1 && s.relay.pending.value == s.sent[n - 1] else n == s.acked)
  }

  lemma SendKeepsLink(s: System, kind: char, first: nat, before: nat)
    requires LinkHolds(s, first, before) && before <= first && CanSend(s.relay)
    ensures LinkHolds(Next(s, Send(kind)), first, before)
  {
  }

  lemma DeliverKeepsLink(s: System, p: Packet, posted: bool, first: nat, before: nat)
    requires LinkHolds(s, first, before) && before <= first && p in s.packets
    ensures LinkHolds(Next(s, Deliver(p, posted)), first, before)
  {
    hide Accepted, Submitted;
    var i :| 0 <= i < |s.sent| && s.sent[i] == p;
    if p.sequence > s.helper.last {
      assert i == |s.applied|;
      assert s.sent[..i + 1] == s.sent[..i] + [s.sent[i]];
    }
  }

  lemma ReplyKeepsLink(s: System, a: Ack, first: nat, before: nat)
    requires LinkHolds(s, first, before) && before <= first && a in s.acks && !s.relay.failed
    ensures LinkHolds(Next(s, Reply(a)), first, before)
  {
  }

  lemma StepKeepsLink(s: System, a: Action, first: nat, before: nat)
    requires LinkHolds(s, first, before) && before <= first && Enabled(s, a)
    ensures LinkHolds(Next(s, a), first, before)
  {
    hide Enqueue, Take, Sends, Replied;
    match a
    case Arrive(_) =>
    case Send(kind) => SendKeepsLink(s, kind, first, before);
    case Deliver(p, posted) => DeliverKeepsLink(s, p, posted, first, before);
    case Reply(x) => ReplyKeepsLink(s, x, first, before);
    case Timeout =>
  }

  lemma {:induction false} RunKeepsLink(s: System, run: seq<Action>, first: nat, before: nat)
    requires LinkHolds(s, first, before) && before <= first && Legal(s, run)
    ensures LinkHolds(After(s, run), first, before)
    decreases |run|
  {
    hide LinkHolds, Next, Enabled;
    if run != [] {
      StepKeepsLink(s, run[0], first, before);
      RunKeepsLink(Next(s, run[0]), run[1..], first, before);
    }
  }

  /** However records are lost, repeated or reordered, the helper applies a prefix of what was sent, each packet
      once, and is never more than one packet from what was acknowledged. */
  lemma AppliedIsPrefix(first: nat, helper: Helper, run: seq<Action>)
    requires helper.last <= first && Legal(Start(first, helper), run)
    ensures var s := After(Start(first, helper), run);
            s.applied <= s.sent && s.acked <= |s.applied| <= |s.sent| <= s.acked + 1
    ensures var s := After(Start(first, helper), run);
            forall i, j :: 0 <= i < j < |s.applied| ==> s.applied[i].sequence < s.applied[j].sequence
  {
    RunKeepsLink(Start(first, helper), run, first, helper.last);
    var s := After(Start(first, helper), run);
    assert forall i :: 0 <= i < |s.applied| ==> s.applied[i] == s.sent[i];
  }

  /** A helper that has already taken a later sequence applies nothing at all. */
  ghost predicate Deaf(s: System, first: nat, last: nat) {
    && s.helper.last == last && s.applied == [] && s.acks == {} && |s.sent| <= 1
    && s.relay.sequence == first + |s.sent|
    && (|s.sent| == 1 <==> s.relay.pending.Some?) && (forall p :: p in s.packets ==> p.sequence <= first + 1)
  }

  lemma {:induction false} StaleStartIsDeaf(s: System, run: seq<Action>, first: nat, last: nat)
    requires Deaf(s, first, last) && first < last && Legal(s, run)
    ensures Deaf(After(s, run), first, last)
    decreases |run|
  {
    hide Accepted, Enqueue, Submitted;
    if run != [] {
      StaleStartIsDeaf(Next(s, run[0]), run[1..], first, last);
    }
  }

  /** So the helper's earlier state must lie below the relay's first sequence, or nothing is ever applied. */
  lemma NothingAppliedWhenStale(first: nat, helper: Helper, run: seq<Action>)
    requires helper.last > first && Legal(Start(first, helper), run)
    ensures After(Start(first, helper), run).applied == [] && |After(Start(first, helper), run).sent| <= 1
  {
    StaleStartIsDeaf(Start(first, helper), run, first, helper.last);
  }

  /** A helper that has taken nothing later hears the first packet, when it arrives. */
  lemma FirstPacketHeard(first: nat, helper: Helper) returns (run: seq<Action>)
    requires helper.last <= first
    ensures Legal(Start(first, helper), run) && After(Start(first, helper), run).applied != []
  {
    var e := Event(true, 0, 0);
    var p := Packet(first + 1, 'T', e);
    run := [Arrive(e), Send('T'), Deliver(p, true)];
    var s0 := Start(first, helper);
    var s1 := Next(s0, run[0]);
    var s2 := Next(s1, run[1]);
    var s3 := Next(s2, run[2]);
    assert p in s2.packets && s3.applied == [p];
    assert run[1..][1..] == [run[2]] && run[1..][1..][1..] == [];
    assert Legal(s3, []) && Legal(s2, [run[2]]) && Legal(s1, run[1..]);
    assert After(s2, [run[2]]) == s3 && After(s1, run[1..]) == s3;
  }

  /** Something can be applied at all if and only if the helper has not yet taken a later sequence number. */
  lemma HelperHearsIff(first: nat, helper: Helper)
    ensures (exists run :: Legal(Start(first, helper), run) && After(Start(first, helper), run).applied != [])
            <==> helper.last <= first
  {
    hide Next, Enabled;
    if helper.last <= first {
      var run := FirstPacketHeard(first, helper);
    } else {
      forall run | Legal(Start(first, helper), run)
        ensures After(Start(first, helper), run).applied == []
      {
        NothingAppliedWhenStale(first, helper, run);
      }
    }
  }

  // ---------- the queue ----------

  function Events(q: seq<Record>): (r: seq<Event>)
    ensures |r| == |q| && forall i :: 0 <= i < |q| ==> r[i] == q[i].event
  {
    if q == [] then [] else [q[0].event] + Events(q[1..])
  }

  function Payloads(ps: seq<Packet>): (r: seq<Event>)
    ensures |r| == |ps| && forall i :: 0 <= i < |ps| ==> r[i] == ps[i].event
  {
    if ps == [] then [] else [ps[0].event] + Payloads(ps[1..])
  }

  /** What was sent followed by what is queued. */
  function Kept(s: System): seq<Event> { Payloads(s.sent) + Events(s.relay.queue) }

  predicate FirstOfRun(es: seq<Event>, i: nat)
    requires i < |es|
  {
    i == 0 || es[i - 1].down != es[i].down
  }

  predicate LastOfRun(es: seq<Event>, i: nat)
    requires i < |es|
  {
    i == |es| - 1 || es[i + 1].down != es[i].down
  }

  /** `picks` are the positions in `es` of the events in `kept`; no end of a run is left out. */
  ghost predicate KeepsEdges(es: seq<Event>, kept: seq<Event>, picks: seq<nat>) {
    && |picks| == |kept|
    && (forall i :: 0 <= i < |picks| ==> picks[i] < |es| && es[picks[i]] == kept[i])
    && (forall i, j :: 0 <= i < j < |picks| ==> picks[i] < picks[j])
    && (forall k :: 0 <= k < |es| && (FirstOfRun(es, k) || LastOfRun(es, k)) ==> k in picks)
  }

  /** Entries of one run in the queue: an edge, then at most one motion. */
  predicate QueueShape(q: seq<Record>) {
    && |q| <= CAPACITY
    && (forall m :: 1 <= m < |q| ==> (q[m].edge <==> q[m - 1].event.down != q[m].event.down))
    && (forall m :: 0 <= m < |q| - 1 && !q[m].edge ==> q[m].event.down != q[m + 1].event.down)
  }

  /** A motion left at the head of the queue follows a sent event of its own run. */
  predicate HeadFollows(sent: seq<Event>, q: seq<Record>) {
    q != [] && !q[0].edge ==> sent != [] && sent[|sent| - 1].down == q[0].event.down
  }

  ghost predicate QueueHolds(s: System) {
    && QueueShape(s.relay.queue) && HeadFollows(Payloads(s.sent), s.relay.queue)
    && exists picks :: KeepsEdges(s.arrived, Kept(s), picks)
  }

  lemma LastKept(es: seq<Event>, kept: seq<Event>, picks: seq<nat>)
    requires KeepsEdges(es, kept, picks)
    ensures |picks| == |kept| && (es == [] <==> kept == [])
    ensures es != [] ==> picks[|picks| - 1] == |es| - 1 && kept[|kept| - 1] == es[|es| - 1]
  {
    if es != [] {
      assert LastOfRun(es, |es| - 1);
    }
  }

  lemma EdgesAppend(es: seq<Event>, kept: seq<Event>, picks: seq<nat>, e: Event)
    requires KeepsEdges(es, kept, picks)
    ensures KeepsEdges(es + [e], kept + [e], picks + [|es|])
  {
    var es', picks' := es + [e], picks + [|es|];
    forall k | 0 <= k < |es'| && (FirstOfRun(es', k) || LastOfRun(es', k))
      ensures k in picks'
    {
      if k < |es| {
        assert FirstOfRun(es, k) || LastOfRun(es, k);
        var i :| 0 <= i < |picks| && picks[i] == k;
        assert picks'[i] == k;
      } else {
        assert picks'[|picks|] == k;
      }
    }
  }

  /** Replacing the last kept event by a later one of its run, when an earlier one of the run is kept too. */
  lemma EdgesReplace(es: seq<Event>, kept: seq<Event>, picks: seq<nat>, e: Event)
    requires KeepsEdges(es, kept, picks) && |kept| >= 2
    requires kept[|kept| - 1].down == e.down && kept[|kept| - 2].down == e.down
    ensures KeepsEdges(es + [e], kept[|kept| - 1 := e], picks[|picks| - 1 := |es|])
  {
    var m := |picks| - 1;
    var es', picks' := es + [e], picks[m := |es|];
    LastKept(es, kept, picks);
    forall k | 0 <= k < |es'| && (FirstOfRun(es', k) || LastOfRun(es', k))
      ensures k in picks'
    {
      if k == |es| {
        assert picks'[m] == k;
      } else {
        assert FirstOfRun(es, k) || LastOfRun(es, k);
        var i :| 0 <= i < |picks| && picks[i] == k;
        if i == m {
          InsideRun(es, kept, picks);
        } else {
          assert picks'[i] == k;
        }
      }
    }
  }

  lemma PickBefore(es: seq<Event>, kept: seq<Event>, picks: seq<nat>)
    requires KeepsEdges(es, kept, picks) && |kept| >= 2
    ensures |es| >= 2 && picks[|picks| - 2] < |es| - 1 && (|es| - 2 in picks ==> picks[|picks| - 2] == |es| - 2)
  {
    LastKept(es, kept, picks);
    var m := |picks| - 1;
    assert picks[m - 1] < picks[m];
    if |es| - 2 in picks {
      var i :| 0 <= i < |picks| && picks[i] == |es| - 2;
    }
  }

  lemma InsideRun(es: seq<Event>, kept: seq<Event>, picks: seq<nat>)
    requires KeepsEdges(es, kept, picks) && |kept| >= 2 && kept[|kept| - 2].down == kept[|kept| - 1].down
    ensures |es| >= 2 && !FirstOfRun(es, |es| - 1)
  {
    LastKept(es, kept, picks);
    PickBefore(es, kept, picks);
    var n := |es| - 1;
    assert LastOfRun(es, n - 1) <==> es[n - 1].down != es[n].down;
  }

  lemma EventsUpdate(q: seq<Record>, r: Record)
    requires q != []
    ensures Events(q[|q| - 1 := r]) == Events(q)[|q| - 1 := r.event]
  {
  }

  lemma EventsAppend(q: seq<Record>, r: Record)
    ensures Events(q + [r]) == Events(q) + [r.event]
  {
  }

  lemma ArriveKeepsQueue(s: System, e: Event)
    requires QueueHolds(s) && !s.relay.failed
    ensures QueueHolds(Next(s, Arrive(e)))
  {
    hide KeepsEdges, Events, Payloads, Enqueue, QueueShape, HeadFollows;
    var q := s.relay.queue;
    var picks: seq<nat> :| KeepsEdges(s.arrived, Kept(s), picks);
    if Enqueue(q, e).Ok? {
      EnqueueShape(q, e);
      HeadStays(Payloads(s.sent), q, e);
      var picks' := ArriveKeepsEdges(s, e, picks);
      assert KeepsEdges(Next(s, Arrive(e)).arrived, Kept(Next(s, Arrive(e))), picks');
    } else {
      assert KeepsEdges(s.arrived, Kept(Next(s, Arrive(e))), picks);
    }
  }

  lemma ArriveKeepsEdges(s: System, e: Event, picks: seq<nat>) returns (picks': seq<nat>)
    requires QueueShape(s.relay.queue) && HeadFollows(Payloads(s.sent), s.relay.queue) && Enqueue(s.relay.queue, e).Ok?
    requires KeepsEdges(s.arrived, Kept(s), picks)
    ensures KeepsEdges(s.arrived + [e], Payloads(s.sent) + Events(Enqueue(s.relay.queue, e).value), picks')
  {
    hide KeepsEdges, Events, Payloads, ValidEvent;
    var q, kept := s.relay.queue, Kept(s);
    var n := |q|;
    LastKept(s.arrived, kept, picks);
    if n > 0 && q[n - 1].event.down == e.down && !q[n - 1].edge {
      EventsUpdate(q, Record(e, false));
      assert Payloads(s.sent) + Events(q)[n - 1 := e] == kept[|kept| - 1 := e];
      EdgesReplace(s.arrived, kept, picks, e);
      picks' := picks[|picks| - 1 := |s.arrived|];
    } else {
      var r := Enqueue(q, e).value[n];
      EventsAppend(q, r);
      assert Payloads(s.sent) + (Events(q) + [e]) == kept + [e];
      EdgesAppend(s.arrived, kept, picks, e);
      picks' := picks + [|s.arrived|];
    }
  }

  lemma HeadStays(sent: seq<Event>, q: seq<Record>, e: Event)
    requires HeadFollows(sent, q) && Enqueue(q, e).Ok?
    ensures HeadFollows(sent, Enqueue(q, e).value)
  {
  }

  lemma EnqueueShape(q: seq<Record>, e: Event)
    requires QueueShape(q) && Enqueue(q, e).Ok?
    ensures QueueShape(Enqueue(q, e).value)
    ensures var q' := Enqueue(q, e).value;
            q' != [] && ((|q| > 0 && q' == q[|q| - 1 := Record(e, false)]) || (|q'| == |q| + 1 && q'[..|q|] == q))
    ensures |q| > 0 ==> Enqueue(q, e).value[0].edge == q[0].edge && Enqueue(q, e).value[0].event.down == q[0].event.down
    ensures |q| == 0 ==> Enqueue(q, e).value[0].edge
  {
  }

  lemma SendKeepsQueue(s: System, kind: char)
    requires QueueHolds(s) && CanSend(s.relay)
    ensures QueueHolds(Next(s, Send(kind)))
  {
    hide KeepsEdges, Payloads, Events, Kept;
    var t := Next(s, Send(kind));
    SendKeepsEvents(s, kind);
    var picks: seq<nat> :| KeepsEdges(s.arrived, Kept(s), picks);
    assert KeepsEdges(t.arrived, Kept(t), picks);
  }

  lemma StepKeepsQueue(s: System, a: Action)
    requires QueueHolds(s) && Enabled(s, a)
    ensures QueueHolds(Next(s, a))
  {
    hide QueueShape, HeadFollows, KeepsEdges, Payloads, Events, Take;
    match a
    case Arrive(e) => ArriveKeepsQueue(s, e);
    case Send(kind) => SendKeepsQueue(s, kind);
    case Deliver(p, posted) => assert Kept(Next(s, a)) == Kept(s);
    case Reply(x) => assert Kept(Next(s, a)) == Kept(s);
    case Timeout => assert Kept(Next(s, a)) == Kept(s);
  }

  lemma {:induction false} RunKeepsQueue(s: System, run: seq<Action>)
    requires QueueHolds(s) && Legal(s, run)
    ensures QueueHolds(After(s, run))
    decreases |run|
  {
    hide QueueHolds, Next, Enabled;
    if run != [] {
      StepKeepsQueue(s, run[0]);
      RunKeepsQueue(Next(s, run[0]), run[1..]);
    }
  }

  lemma StartHolds(first: nat, helper: Helper)
    ensures QueueHolds(Start(first, helper))
  {
    assert KeepsEdges([], Kept(Start(first, helper)), []);
  }

  /** In every run, what was sent and what is queued are the arrived events with the first and last of every run of
      equal button states, and the queue never exceeds its bound. */
  lemma CoalescingKeepsEdges(first: nat, helper: Helper, run: seq<Action>)
    requires Legal(Start(first, helper), run)
    ensures var s := After(Start(first, helper), run);
            (exists picks :: KeepsEdges(s.arrived, Kept(s), picks)) && |s.relay.queue| <= CAPACITY
  {
    StartHolds(first, helper);
    RunKeepsQueue(Start(first, helper), run);
  }

  /** No run ever has three entries in the queue. */
  lemma AtMostTwoPerRun(first: nat, helper: Helper, run: seq<Action>, m: nat)
    requires Legal(Start(first, helper), run) && m + 2 < |After(Start(first, helper), run).relay.queue|
    ensures var q := After(Start(first, helper), run).relay.queue;
            !(q[m].event.down == q[m + 1].event.down == q[m + 2].event.down)
  {
    hide KeepsEdges, Kept, HeadFollows, Start;
    StartHolds(first, helper);
    RunKeepsQueue(Start(first, helper), run);
    var q := After(Start(first, helper), run).relay.queue;
    assert QueueShape(q);
    assert q[m + 1].edge <==> q[m].event.down != q[m + 1].event.down;
  }

  // ---------- presses and releases ----------

  /** The sequence of button states without repetitions. */
  function Presses(es: seq<Event>): seq<bool> {
    var n := |es|;
    if n == 0 then []
    else if n > 1 && es[n - 2].down == es[n - 1].down then Presses(es[..n - 1])
    else Presses(es[..n - 1]) + [es[n - 1].down]
  }

  lemma PressesAppend(es: seq<Event>, e: Event)
    ensures Presses(es + [e]) == if es != [] && es[|es| - 1].down == e.down then Presses(es) else Presses(es) + [e.down]
  {
    assert (es + [e])[..|es|] == es;
  }

  lemma PressesReplace(es: seq<Event>, e: Event)
    requires es != [] && es[|es| - 1].down == e.down
    ensures Presses(es[|es| - 1 := e]) == Presses(es)
  {
    assert es[|es| - 1 := e][..|es| - 1] == es[..|es| - 1];
  }

  lemma {:induction false} PressesPrefix(es: seq<Event>, n: nat)
    requires n <= |es|
    ensures Presses(es[..n]) <= Presses(es)
    decreases |es|
  {
    if n == |es| {
      assert es[..n] == es;
    } else {
      PressesPrefix(es[..|es| - 1], n);
      assert es[..|es| - 1][..n] == es[..n];
    }
  }

  ghost predicate SamePresses(s: System) {
    QueueHolds(s) && Presses(Kept(s)) == Presses(s.arrived)
  }

  lemma StepKeepsPresses(s: System, a: Action)
    requires SamePresses(s) && Enabled(s, a)
    ensures SamePresses(Next(s, a))
  {
    hide QueueHolds, Presses, Take, Payloads, Events;
    StepKeepsQueue(s, a);
    var t := Next(s, a);
    if a.Arrive? && Enqueue(s.relay.queue, a.e).Ok? {
      ArrivePresses(s, a.e);
    } else if a.Send? {
      SendKeepsEvents(s, a.kind);
    } else {
      assert Kept(t) == Kept(s);
    }
  }

  lemma SendKeepsEvents(s: System, kind: char)
    requires CanSend(s.relay)
    ensures Kept(Next(s, Send(kind))) == Kept(s)
  {
    hide Payloads;
    var q, p := s.relay.queue, NextPacket(s.relay, kind);
    PayloadsAppend(s.sent, p);
    Regroup(Payloads(s.sent), [p.event], Events(q[1..]));
  }

  lemma PayloadsAppend(ps: seq<Packet>, p: Packet)
    ensures Payloads(ps + [p]) == Payloads(ps) + [p.event]
  {
  }

  lemma Regroup(a: seq<Event>, b: seq<Event>, c: seq<Event>)
    ensures a + (b + c) == a + b + c
  {
  }

  lemma ArrivePresses(s: System, e: Event)
    requires SamePresses(s) && !s.relay.failed && Enqueue(s.relay.queue, e).Ok?
    ensures Presses(Kept(Next(s, Arrive(e)))) == Presses(s.arrived + [e])
  {
    hide Presses, Payloads, Events, KeepsEdges, QueueShape, HeadFollows;
    var q, t, kept := s.relay.queue, Next(s, Arrive(e)), Kept(s);
    var picks: seq<nat> :| KeepsEdges(s.arrived, kept, picks);
    LastKept(s.arrived, kept, picks);
    PressesAppend(s.arrived, e);
    var n := |q|;
    if n > 0 && q[n - 1].event.down == e.down && !q[n - 1].edge {
      EventsUpdate(q, Record(e, false));
      assert Kept(t) == kept[|kept| - 1 := e];
      PressesReplace(kept, e);
    } else {
      EventsAppend(q, Enqueue(q, e).value[n]);
      assert Kept(t) == kept + [e];
      PressesAppend(kept, e);
    }
  }

  lemma {:induction false} RunKeepsPresses(s: System, run: seq<Action>)
    requires SamePresses(s) && Legal(s, run)
    ensures SamePresses(After(s, run))
    decreases |run|
  {
    hide SamePresses, Next, Enabled;
    if run != [] {
      StepKeepsPresses(s, run[0]);
      RunKeepsPresses(Next(s, run[0]), run[1..]);
    }
  }

  lemma EmptyPresses(first: nat, helper: Helper)
    ensures Presses(Kept(Start(first, helper))) == Presses(Start(first, helper).arrived)
  {
  }

  /** From pointer to guest: the presses and releases the helper applies are a prefix of those that happened, and
      none of what was sent or queued is missing from them. */
  lemma GuestSeesThePresses(first: nat, helper: Helper, run: seq<Action>)
    requires helper.last <= first && Legal(Start(first, helper), run)
    ensures var s := After(Start(first, helper), run);
            Presses(Payloads(s.applied)) <= Presses(s.arrived) && Presses(Kept(s)) == Presses(s.arrived)
  {
    hide QueueHolds, Presses, Kept, Payloads;
    StartHolds(first, helper);
    EmptyPresses(first, helper);
    RunKeepsPresses(Start(first, helper), run);
    AppliedIsPrefix(first, helper, run);
    var s := After(Start(first, helper), run);
    AppliedKept(s);
    PressesPrefix(Kept(s), |s.applied|);
  }

  lemma AppliedKept(s: System)
    requires s.applied <= s.sent
    ensures |s.applied| <= |Kept(s)| && Payloads(s.applied) == Kept(s)[..|s.applied|]
  {
    hide Payloads, Events;
  }
}
