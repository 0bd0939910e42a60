/** The older input path: relay.py's coalescing queue and one-in-flight link, dvm_input.c's sequence filter. */
module Relay {
  import opened Results

  datatype Event = Event(down: bool, x: int, y: int)

  /** A queued event; `edge` marks the start of a run of equal button states in the queue. */
  datatype Record = Record(event: Event, edge: bool)

  datatype Error = InvalidState | QueueFull

  const CAPACITY := 64

  predicate ValidEvent(e: Event) { 0 <= e.x <= 32767 && 0 <= e.y <= 32767 }

  /** enqueue: a motion replaces the motion before it, never a button edge. */
  function Enqueue(queue: seq<Record>, e: Event): Result<seq<Record>, Error> {
    var n := |queue|;
    if !ValidEvent(e) then Err(InvalidState)
    else if n > 0 && queue[n - 1].event.down == e.down && !queue[n - 1].edge then Ok(queue[n - 1 := Record(e, false)])
    else if n >= CAPACITY then Err(QueueFull)
    else Ok(queue + [Record(e, n == 0 || queue[n - 1].event.down != e.down)])
  }

  datatype Packet = Packet(sequence: nat, kind: char, event: Event)

  /** dvm_input.c's parse, on a record that arrived whole. */
  predicate Accepted(p: Packet) {
    || ((p.kind == 'T' || p.kind == 'R') && ValidEvent(p.event))
    || (p.kind == 'H' && p.event.x == 0 && p.event.y == 0)
    || (p.kind == 'P' && !p.event.down && ValidEvent(p.event))
    || (p.kind == 'S' && p.event == Event(false, 0, 0))
  }

  datatype Ack = Ack(sequence: nat, success: bool)

  /** The guest helper: the last sequence it took and whether a finger is down. */
  datatype Helper = Helper(last: nat, down: bool)

  /** `posted` is what the event service answers, were it asked. */
  function Submitted(h: Helper, p: Packet, posted: bool): bool {
    p.kind == 'S' || (if p.kind == 'P' then !h.down && posted else posted)
  }

  function Take(h: Helper, p: Packet, posted: bool): (Helper, Option<Ack>) {
    if !Accepted(p) || p.sequence <= h.last then (h, None)
    else
      var ok := Submitted(h, p, posted);
      (Helper(p.sequence, if p.kind == 'T' && ok then p.event.down else h.down), Some(Ack(p.sequence, ok)))
  }

  /** The relay: its queue, the last sequence it used, the packet in flight and whether it gave up. */
  datatype Sender = Sender(queue: seq<Record>, sequence: nat, pending: Option<Packet>, failed: bool)

  function Arrives(s: Sender, e: Event): Sender {
    match Enqueue(s.queue, e)
    case Ok(q) => s.(queue := q)
    case Err(_) => s.(failed := true)
  }

  predicate CanSend(s: Sender) { !s.failed && s.pending.None? && s.queue != [] }

  function NextPacket(s: Sender, kind: char): Packet
    requires CanSend(s)
  {
    Packet(s.sequence + 1, kind, s.queue[0].event)
  }

  function Sends(s: Sender, kind: char): Sender
    requires CanSend(s)
  {
    Sender(s.queue[1..], s.sequence + 1, Some(NextPacket(s, kind)), false)
  }

  function Replied(s: Sender, a: Ack): Sender {
    if s.pending.None? || s.pending.value.sequence != a.sequence then s
    else if a.success then s.(pending := None)
    else s.(failed := true)
  }

  // ---------- as the program holds them ----------

  /** relay.py's loop state: the deque and the variables of main. */
  class RelayLoop {
    var queue: seq<Record>
    var sequence: nat
    var pending: Option<Packet>
    var failed: bool

    ghost function State(): Sender
      reads this
    {
      Sender(queue, sequence, pending, failed)
    }

    constructor (start: nat)
      ensures State() == Sender([], start, None, false)
    {
      queue, sequence, pending, failed := [], start, None, false;
    }

    method Arrive(e: Event) returns (r: Result<(), Error>)
      modifies this
      ensures State() == Arrives(old(State()), e)
      ensures match Enqueue(old(queue), e)
              case Ok(_) => r == Ok(())
              case Err(x) => r == Err(x)
    {
      if !(0 <= e.x <= 32767 && 0 <= e.y <= 32767) {
        failed := true;
        return Err(InvalidState);
      }
      var record := Record(e, true);
      var n := |queue|;
      if n > 0 && queue[n - 1].event.down == e.down && !queue[n - 1].edge {
        queue := queue[n - 1 := record.(edge := false)];
      } else {
        if n >= CAPACITY {
          failed := true;
          return Err(QueueFull);
        }
        if n > 0 && queue[n - 1].event.down == e.down {
          record := record.(edge := false);
        }
        queue := queue + [record];
      }
      r := Ok(());
    }

    /** The sending half of a turn: nothing while a packet is in flight or the queue is empty. */
    method Send(kind: char) returns (packet: Option<Packet>)
      requires !failed
      modifies this
      ensures if CanSend(old(State())) then packet == Some(NextPacket(old(State()), kind)) && State() == Sends(old(State()), kind)
              else packet == None && State() == old(State())
    {
      if pending.Some? || queue == [] {
        return None;
      }
      var record := queue[0];
      queue := queue[1..];
      sequence := sequence + 1;
      pending := Some(Packet(sequence, kind, record.event));
      packet := pending;
    }

    method Reply(a: Ack)
      modifies this
      ensures State() == Replied(old(State()), a)
    {
      if pending.None? || a.sequence != pending.value.sequence {
        return;
      }
      if !a.success {
        failed := true;
        return;
      }
      pending := None;
    }
  }

  /** dvm_input.c's loop state. */
  class HelperLoop {
    var last: nat
    var down: bool

    ghost function State(): Helper
      reads this
    {
      Helper(last, down)
    }

    constructor ()
      ensures State() == Helper(0, false)
    {
      last, down := 0, false;
    }

    method Line(p: Packet, posted: bool) returns (ack: Option<Ack>)
      modifies this
      ensures (State(), ack) == Take(old(State()), p, posted)
    {
      if !Accepted(p) || p.sequence <= last {
        return None;
      }
      var ok := p.kind == 'S' || (if p.kind == 'P' then !down && posted else posted);
      if p.kind == 'T' && ok {
        down := p.event.down;
      }
      last := p.sequence;
      ack := Some(Ack(p.sequence, ok));
    }
  }
}
