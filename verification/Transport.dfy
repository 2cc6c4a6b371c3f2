/**
 The host side of the serial link as a state machine: session lock, sequence numbers, and the
 retransmission queue driven by acknowledgements, rejections and timeouts.
 */
module Transport {
  import opened Bytes
  import opened Frame
  import Varint

  const MAX_RETRIES: nat := 3
  const ACK_TIMEOUT: real := 2.0

  datatype Session = Session(id: nat, counter: nat, locked: bool)

  datatype Entry = Entry(frame: seq<Byte>, retries: nat, sentAt: real)

  // The pending dictionary with its insertion order.
  datatype Queue = Queue(pending: map<nat, Entry>, order: seq<nat>)

  // One frame put on the wire.
  datatype Sent = Sent(number: nat, frame: seq<Byte>)

  datatype State = State(session: Session, queue: Queue, wire: seq<Sent>)

  // ---- the queue ----

  function Without(order: seq<nat>, n: nat): (r: seq<nat>)
    ensures forall x :: x in r <==> x in order && x != n
    ensures n !in order ==> r == order
  {
    if order == [] then [] else
    (if order[0] == n then [] else [order[0]]) + Without(order[1..], n)
  }

  function Enqueue(q: Queue, n: nat, frame: seq<Byte>, now: real): Queue
  {
    Queue(q.pending[n := Entry(frame, 0, now)], if n in q.pending then q.order else q.order + [n])
  }

  function Remove(q: Queue, n: nat): Queue { Queue(q.pending - {n}, Without(q.order, n)) }

  function OnAck(q: Queue, n: nat): Queue { if n in q.pending then Remove(q, n) else q }

  // The queue after a rejection or timeout of frame n, and what is sent again.
  function OnNack(q: Queue, n: nat, now: real): (Queue, seq<Sent>)
  {
    if n !in q.pending then (q, [])
    else
      var e := q.pending[n];
      if e.retries + 1 > MAX_RETRIES then (Remove(q, n), [])
      else (q.(pending := q.pending[n := Entry(e.frame, e.retries + 1, now)]), [Sent(n, e.frame)])
  }

  // The expired numbers among `order`, in that order.
  function Expired(q: Queue, order: seq<nat>, now: real): (r: seq<nat>)
    decreases |order|
  {
    if order == [] then []
    else
      var n := order[|order| - 1];
      Expired(q, order[..|order| - 1], now)
      + (if n in q.pending && now - q.pending[n].sentAt > ACK_TIMEOUT then [n] else [])
  }

  function NackAll(q: Queue, ns: seq<nat>, now: real): (Queue, seq<Sent>)
    decreases |ns|
  {
    if ns == [] then (q, [])
    else
      var (q1, sent1) := OnNack(q, ns[0], now);
      var (q2, sent2) := NackAll(q1, ns[1..], now);
      (q2, sent1 + sent2)
  }

  function CheckTimeouts(q: Queue, now: real): (Queue, seq<Sent>) { NackAll(q, Expired(q, q.order, now), now) }

  // ---- incoming payloads ----

  datatype Kind = Ack | Nack | Other

  // What the response decoder makes of a payload; None is an exception.
  function KindOf(payload: seq<Byte>): Option<Kind>
  {
    match Varint.Decode(payload, 0)
    case None => None
    case Some((tag, off)) =>
      if tag == 8 then Some(Ack)
      else if tag == 9 then Some(Nack)
      else if tag == 3 || tag == 5 then
        if Varint.Decode(payload, off).Some? then Some(Other) else None
      else if tag == 7 then
        if off + 4 <= |payload| then Some(Other) else None
      else if tag == 10 then
        if off + 2 <= |payload| && Varint.Decode(payload, off + 2).Some? then Some(Other) else None
      else if tag == 6 then
        match Varint.Decode(payload, off)
        case None => None
        case Some((len, off2)) => if off2 + len + 2 <= |payload| then Some(Other) else None
      else Some(Other)
  }

  // ---- events ----

  // Send: a payload for the queue (session 0 means the locked one). Reply: a payload sent without queueing.
  // Recv: a frame from the stream. Sweep: a socket timeout.
  datatype Event = Send(payload: seq<Byte>, session: nat, now: real) | Reply(reply: seq<Byte>)
                 | Recv(frame: seq<Byte>, at: real) | Sweep(time: real)

  // The packet made for a payload: the explicit session or the locked one, and the next number.
  function NextPacket(s: Session, payload: seq<Byte>, session: nat): Packet
  {
    Packet(if session != 0 then session else s.id, s.counter + 1, payload)
  }

  function Step(s: State, e: Event): State
  {
    match e
    case Send(payload, session, now) =>
      var p := NextPacket(s.session, payload, session);
      var session' := s.session.(counter := s.session.counter + 1);
      if !Packable(p) then s.(session := session')
      else State(session', Enqueue(s.queue, p.number, Wire(p), now), s.wire + [Sent(p.number, Wire(p))])
    case Reply(payload) =>
      var p := NextPacket(s.session, payload, 0);
      var session' := s.session.(counter := s.session.counter + 1);
      if !Packable(p) then s.(session := session')
      else s.(session := session', wire := s.wire + [Sent(p.number, Wire(p))])
    case Recv(frame, now) =>
      (match Parse(frame)
       case None => s
       case Some(p) =>
         match KindOf(p.payload)
         case None => s
         case Some(kind) =>
           if s.session.locked && p.session != s.session.id then s
           else Dispatch(s.(session := s.session.(id := p.session, locked := true)), kind, p.number, now))
    case Sweep(now) =>
      var (q, sent) := CheckTimeouts(s.queue, now);
      s.(queue := q, wire := s.wire + sent)
  }

  function Dispatch(s: State, kind: Kind, n: nat, now: real): State
  {
    match kind
    case Ack => s.(queue := OnAck(s.queue, n))
    case Nack => var (q, sent) := OnNack(s.queue, n, now); s.(queue := q, wire := s.wire + sent)
    case Other => s
  }

  function Steps(s: State, es: seq<Event>): State
    decreases |es|
  {
    if es == [] then s else Step(Steps(s, es[..|es| - 1]), es[|es| - 1])
  }

  // A fresh connection.
  const START: State := State(Session(0, 0, false), Queue(map[], []), [])

  // ---- the invariant ----

  function Count(wire: seq<Sent>, n: nat): nat
    decreases |wire|
  {
    if wire == [] then 0 else Count(wire[..|wire| - 1], n) + (if wire[|wire| - 1].number == n then 1 else 0)
  }

  // The bytes are a complete frame whose header carries number n.
  ghost predicate FrameOf(frame: seq<Byte>, n: nat)
  {
    exists p :: Packable(p) && p.number == n && frame == Wire(p)
  }

  // Frames on the wire have numbers up to the counter; all frames of one number are the same bytes.
  ghost predicate WireOk(wire: seq<Sent>, counter: nat)
  {
    && (forall i :: 0 <= i < |wire| ==> 1 <= wire[i].number <= counter && FrameOf(wire[i].frame, wire[i].number))
    && (forall i, j :: 0 <= i < j < |wire| && wire[i].number == wire[j].number ==> wire[i].frame == wire[j].frame)
  }

  // A pending frame is the one first sent under its number, and has gone out once and once per retry.
  ghost predicate EntryOk(wire: seq<Sent>, n: nat, e: Entry)
  {
    && e.retries <= MAX_RETRIES
    && Count(wire, n) == 1 + e.retries
    && (forall i :: 0 <= i < |wire| && wire[i].number == n ==> wire[i].frame == e.frame)
    && FrameOf(e.frame, n)
  }

  ghost predicate QueueOk(q: Queue)
  {
    && (forall n :: n in q.order <==> n in q.pending)
    && (forall i, j :: 0 <= i < j < |q.order| ==> q.order[i] != q.order[j])
  }

  ghost predicate Inv(s: State)
  {
    && QueueOk(s.queue) && WireOk(s.wire, s.session.counter)
    && (forall n :: n in s.queue.pending ==> 1 <= n <= s.session.counter && EntryOk(s.wire, n, s.queue.pending[n]))
    && (forall n :: Count(s.wire, n) <= 1 + MAX_RETRIES)
  }
}
