/** When the worker asks for recovery, said of the reports and notices of the run. */
module DvmHidFailures {
  import opened DvmHid

  /** An event that forgives: a dispatch that succeeded, or new services. */
  predicate Forgives(e: Event) { e == Report(true) || e == RecoverAttempt(true) }

  /** `i..j` are failed reports and events that are no reports: nothing in between forgives. */
  predicate InARow(events: seq<Event>, i: nat, j: nat)
    requires i < j < |events|
  {
    events[i] == Report(false) && events[j] == Report(false) && forall k :: i < k < j ==> !Forgives(events[k])
  }

  /** At event `j` somebody asks for recovery: a notice, or the second of two failures in a row. */
  predicate Asks(events: seq<Event>, j: nat)
    requires j < |events|
  {
    events[j] == NotifyRecover || exists i :: 0 <= i < j && InARow(events, i, j)
  }

  /** Somebody asked and no services were created since. */
  predicate Due(events: seq<Event>) {
    exists j :: 0 <= j < |events| && Asks(events, j) && forall k :: j < k < |events| ==> events[k] != RecoverAttempt(true)
  }

  /** A failed report nothing forgave since. */
  predicate Failing(events: seq<Event>) {
    exists i :: 0 <= i < |events| && events[i] == Report(false) && forall k :: i < k < |events| ==> !Forgives(events[k])
  }

  /** What a run keeps. */
  predicate Counts(past: seq<Event>, s: System) {
    (s.failures > 0 <==> Failing(past)) && (s.core.needRecovery <==> Due(past))
  }

  lemma FailingGrows(past: seq<Event>, e: Event)
    ensures Failing(past + [e]) <==> e == Report(false) || (Failing(past) && !Forgives(e))
  {
    var all := past + [e];
    assert forall k :: 0 <= k < |past| ==> all[k] == past[k];
    if Failing(past) && !Forgives(e) {
      var i :| 0 <= i < |past| && past[i] == Report(false) && forall k :: i < k < |past| ==> !Forgives(past[k]);
      assert all[i] == Report(false);
    }
    if e == Report(false) {
      assert all[|past|] == Report(false);
    }
    if Failing(all) {
      var i :| 0 <= i < |all| && all[i] == Report(false) && forall k :: i < k < |all| ==> !Forgives(all[k]);
      assert i < |past| ==> past[i] == Report(false) && !Forgives(all[|past|]);
    }
  }

  /** The new event asks exactly when it is a notice, or a failure behind a failure. */
  lemma AsksLast(past: seq<Event>, e: Event)
    ensures Asks(past + [e], |past|) <==> e == NotifyRecover || (e == Report(false) && Failing(past))
    ensures forall j :: 0 <= j < |past| ==> Asks(past + [e], j) == Asks(past, j)
  {
    var all := past + [e];
    assert forall k :: 0 <= k < |past| ==> all[k] == past[k];
    if e == Report(false) && Failing(past) {
      var i :| 0 <= i < |past| && past[i] == Report(false) && forall k :: i < k < |past| ==> !Forgives(past[k]);
      assert InARow(all, i, |past|);
    }
    forall i, j | 0 <= i < j < |past| ensures InARow(all, i, j) == InARow(past, i, j) {
    }
  }

  lemma DueGrows(past: seq<Event>, e: Event)
    ensures Due(past + [e]) <==>
              e == NotifyRecover || (e == Report(false) && Failing(past)) || (Due(past) && e != RecoverAttempt(true))
  {
    hide Asks, Failing;
    var all := past + [e];
    AsksLast(past, e);
    assert forall k :: 0 <= k < |past| ==> all[k] == past[k];
    if Due(past) && e != RecoverAttempt(true) {
      var j :| 0 <= j < |past| && Asks(past, j) && forall k :: j < k < |past| ==> past[k] != RecoverAttempt(true);
      assert Asks(all, j);
    }
    if Asks(all, |past|) {
      assert Due(all);
    }
    if Due(all) {
      var j :| 0 <= j < |all| && Asks(all, j) && forall k :: j < k < |all| ==> all[k] != RecoverAttempt(true);
      if j < |past| { assert Asks(past, j) && all[|past|] != RecoverAttempt(true); }
    }
  }

  lemma StepCounts(past: seq<Event>, s: System, e: Event, tb: Timebase)
    requires tb.Valid() && Enabled(s, e) && Counts(past, s)
    ensures Counts(past + [e], Step(s, e, tb))
  {
    FailingGrows(past, e);
    DueGrows(past, e);
    if e.Line? { LineAsksNothing(s, e, tb); }
    if e.Eof? { EndAsksNothing(s, e, tb); }
    hide Failing, Due, Handle, ReleaseContact;
  }

  lemma LineAsksNothing(s: System, e: Event, tb: Timebase)
    requires tb.Valid() && e.Line?
    ensures Handle(s.core, e.r, e.t, e.lost, tb).0.needRecovery == s.core.needRecovery
  {
    hide TimelineTimestamp, X, Y;
  }

  lemma EndAsksNothing(s: System, e: Event, tb: Timebase)
    requires tb.Valid() && e.Eof?
    ensures ReleaseContact(s.core, EofRecord(s.core), e.now, tb).0.needRecovery == s.core.needRecovery
  {
    hide TimelineTimestamp;
  }

  lemma {:induction false} RunCounts(past: seq<Event>, s: System, events: seq<Event>, tb: Timebase)
    requires tb.Valid() && Runs(s, events, tb) && Counts(past, s)
    ensures Counts(past + events, After(s, events, tb))
    decreases |events|
  {
    hide Counts, Step;
    if events == [] {
      assert past + events == past;
    } else {
      StepCounts(past, s, events[0], tb);
      RunCounts(past + [events[0]], Step(s, events[0], tb), events[1..], tb);
      assert past + [events[0]] + events[1..] == past + events;
    }
  }

  /** In every run, recovery is asked for exactly when a notice or the second of two failed dispatches in a
      row asked for it and no new services were created since; one success in between forgives the first. */
  lemma RecoveryIsDueIff(events: seq<Event>, tb: Timebase)
    requires tb.Valid() && Runs(Initial(), events, tb)
    ensures After(Initial(), events, tb).core.needRecovery <==> Due(events)
  {
    RunCounts([], Initial(), events, tb);
    assert [] + events == events;
  }
}
