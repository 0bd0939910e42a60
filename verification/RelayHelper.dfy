/** The guest helper of the older input path, over whole runs: which records it answers, with what, and when it
    believes a finger is down. */
module RelayHelper {
  import opened Results
  import opened Relay

  /** A record and what the event service would answer to it. */
  datatype Arrival = Arrival(packet: Packet, posted: bool)

  function Last(past: seq<Arrival>): Arrival
    requires past != []
  {
    past[|past| - 1]
  }

  function HelperAfter(h: Helper, past: seq<Arrival>): Helper {
    if past == [] then h else Take(HelperAfter(h, past[..|past| - 1]), Last(past).packet, Last(past).posted).0
  }

  /** A well-formed record with a later number than the helper began with and than every well-formed one before. */
  predicate IsNew(h: Helper, past: seq<Arrival>, j: nat)
    requires j < |past|
  {
    Accepted(past[j].packet) && past[j].packet.sequence > h.last
    && forall i :: 0 <= i < j && Accepted(past[i].packet) ==> past[i].packet.sequence < past[j].packet.sequence
  }

  /** A live touch the helper took and the service posted. */
  predicate Touches(h: Helper, past: seq<Arrival>, j: nat)
    requires j < |past|
  {
    IsNew(h, past, j) && past[j].packet.kind == 'T' && past[j].posted
  }

  /** The latest such touch is a press; before the first, what the helper began with. */
  predicate FingerDown(h: Helper, past: seq<Arrival>) {
    if exists j :: 0 <= j < |past| && Touches(h, past, j) then
      exists j :: 0 <= j < |past| && Touches(h, past, j) && past[j].packet.event.down
                  && forall k :: j < k < |past| ==> !Touches(h, past, k)
    else h.down
  }

  /** No well-formed record so far has a later number than this. */
  predicate Newest(h: Helper, past: seq<Arrival>, n: nat) {
    h.last <= n && (forall i :: 0 <= i < |past| && Accepted(past[i].packet) ==> past[i].packet.sequence <= n)
    && (n == h.last || exists i :: 0 <= i < |past| && Accepted(past[i].packet) && past[i].packet.sequence == n)
  }

  lemma SamePast(h: Helper, past: seq<Arrival>, a: Arrival)
    ensures forall j :: 0 <= j < |past| ==> IsNew(h, past + [a], j) == IsNew(h, past, j)
    ensures forall j :: 0 <= j < |past| ==> Touches(h, past + [a], j) == Touches(h, past, j)
  {
    hide Accepted;
    var all := past + [a];
    assert forall i :: 0 <= i < |past| ==> all[i] == past[i];
  }

  /** The new record is new exactly when its number is later than all before. */
  lemma NewestDecides(h: Helper, past: seq<Arrival>, a: Arrival, n: nat)
    requires Newest(h, past, n)
    ensures IsNew(h, past + [a], |past|) <==> Accepted(a.packet) && a.packet.sequence > n
    ensures Newest(h, past + [a], if Accepted(a.packet) && a.packet.sequence > n then a.packet.sequence else n)
  {
    hide Accepted;
    var all := past + [a];
    assert forall i :: 0 <= i < |past| ==> all[i] == past[i];
    if Accepted(a.packet) && a.packet.sequence > n {
      assert all[|past|] == a;
    } else if n != h.last {
      var i :| 0 <= i < |past| && Accepted(past[i].packet) && past[i].packet.sequence == n;
      assert all[i] == past[i];
    }
  }

  lemma FingerMoves(h: Helper, past: seq<Arrival>, a: Arrival)
    ensures FingerDown(h, past + [a]) <==>
              if Touches(h, past + [a], |past|) then a.packet.event.down else FingerDown(h, past)
  {
    hide IsNew, Accepted;
    var all := past + [a];
    SamePast(h, past, a);
    assert all[|past|] == a && forall i :: 0 <= i < |past| ==> all[i] == past[i];
    hide Touches;
    if Touches(h, all, |past|) {
    } else if j :| 0 <= j < |past| && Touches(h, past, j) {
      assert Touches(h, all, j);
    }
  }

  /** The helper's state after any records: the latest number it saw, and the finger. */
  lemma {:induction false} HelperIs(h: Helper, past: seq<Arrival>)
    ensures Newest(h, past, HelperAfter(h, past).last) && HelperAfter(h, past).down == FingerDown(h, past)
    decreases |past|
  {
    hide Accepted, FingerDown, Newest;
    if past == [] {
      NothingYet(h);
    } else {
      var init := past[..|past| - 1];
      assert past == init + [Last(past)];
      HelperIs(h, init);
      NewestDecides(h, init, Last(past), HelperAfter(h, init).last);
      FingerMoves(h, init, Last(past));
    }
  }

  lemma NothingYet(h: Helper)
    ensures Newest(h, [], h.last) && FingerDown(h, []) == h.down
  {
  }

  /** After any records, the helper is silent exactly to a record that is not new, and otherwise answers with its
      number: always well to a ping, as the service did to everything else, except that a tap is refused while
      the latest posted touch is a press. */
  lemma AnswersIff(h: Helper, past: seq<Arrival>, a: Arrival)
    ensures var ack := Take(HelperAfter(h, past), a.packet, a.posted).1;
            (ack.Some? <==> IsNew(h, past + [a], |past|))
            && (ack.Some? ==>
                  ack.value.sequence == a.packet.sequence
                  && (ack.value.success <==>
                        a.packet.kind == 'S' || (a.posted && !(a.packet.kind == 'P' && FingerDown(h, past)))))
  {
    HelperIs(h, past);
    NewestDecides(h, past, a, HelperAfter(h, past).last);
    hide Accepted, IsNew, FingerDown, Newest;
  }
}
