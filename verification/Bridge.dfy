/** The session and the retransmission queue as objects that are updated in place. */
module Bridge {
  import opened Bytes
  import opened Frame
  import T = Transport

  class McpSession {
    var sessionId: nat
    var seqCounter: nat
    var locked: bool

    function Value(): T.Session
      reads this
    {
      T.Session(sessionId, seqCounter, locked)
    }

    constructor ()
      ensures Value() == T.START.session
    {
      sessionId, seqCounter, locked := 0, 0, false;
    }

    method LockTo(sid: nat)
      modifies this
      ensures Value() == old(Value()).(id := sid, locked := true)
    {
      sessionId := sid;
      locked := true;
    }

    method NextSeq() returns (n: nat)
      modifies this
      ensures n == old(seqCounter) + 1 && Value() == old(Value()).(counter := n)
    {
      seqCounter := seqCounter + 1;
      n := seqCounter;
    }

    // Zero stands for "the session's own" in both arguments; only a zero number draws from the counter.
    method MakeFrame(payload: seq<Byte>, sid: nat, number: nat) returns (r: Option<seq<Byte>>, used: nat)
      modifies this
      ensures used == if number != 0 then number else old(seqCounter) + 1
      ensures Value() == old(Value()).(counter := if number != 0 then old(seqCounter) else used)
      ensures var p := Packet(if sid != 0 then sid else old(sessionId), used, payload);
        r == if Packable(p) then Some(Wire(p)) else None
    {
      var session := if sid != 0 then sid else sessionId;
      used := number;
      if used == 0 { used := NextSeq(); }
      var p := Packet(session, used, payload);
      r := if Packable(p) then Some(Wire(p)) else None;
    }
  }

  class RetransmissionQueue {
    var pending: map<nat, T.Entry>
    var order: seq<nat>

    function Value(): T.Queue
      reads this
    {
      T.Queue(pending, order)
    }

    constructor ()
      ensures Value() == T.START.queue
    {
      pending, order := map[], [];
    }

    method Enqueue(n: nat, frame: seq<Byte>, now: real)
      modifies this
      ensures Value() == T.Enqueue(old(Value()), n, frame, now)
    {
      if n !in pending { order := order + [n]; }
      pending := pending[n := T.Entry(frame, 0, now)];
    }

    method Drop(n: nat)
      modifies this
      ensures Value() == T.Remove(old(Value()), n)
    {
      pending := pending - {n};
      order := T.Without(order, n);
    }

    method OnAck(n: nat)
      modifies this
      ensures Value() == T.OnAck(old(Value()), n)
    {
      if n in pending { Drop(n); }
    }

    // Send again while retries remain, else give up.
    method OnNack(n: nat, now: real) returns (sent: seq<T.Sent>)
      modifies this
      ensures (Value(), sent) == T.OnNack(old(Value()), n, now)
    {
      sent := [];
      if n !in pending { return; }
      var e := pending[n];
      if e.retries + 1 > T.MAX_RETRIES {
        Drop(n);
        return;
      }
      sent := [T.Sent(n, e.frame)];
      pending := pending[n := T.Entry(e.frame, e.retries + 1, now)];
    }

    // Collect the expired numbers first, then reject them one by one.
    method CheckTimeouts(now: real) returns (sent: seq<T.Sent>)
      modifies this
      ensures (Value(), sent) == T.CheckTimeouts(old(Value()), now)
    {
      var expired := ExpiredNumbers(Value(), now);
      sent := Sweep(expired, now);
    }

    method Sweep(expired: seq<nat>, now: real) returns (sent: seq<T.Sent>)
      modifies this
      ensures (Value(), sent) == T.NackAll(old(Value()), expired, now)
    {
      sent := [];
      assert expired[0..] == expired && [] + T.NackAll(Value(), expired, now).1 == T.NackAll(Value(), expired, now).1;
      for i := 0 to |expired|
        invariant var (q, more) := T.NackAll(Value(), expired[i..], now);
          (q, sent + more) == T.NackAll(old(Value()), expired, now)
      {
        assert expired[i..][1..] == expired[i + 1..];
        ghost var before := Value();
        var again := OnNack(expired[i], now);
        ghost var more := T.NackAll(Value(), expired[i + 1..], now).1;
        assert sent + (again + more) == (sent + again) + more;
        sent := sent + again;
      }
      assert sent + [] == sent;
    }
  }

  method ExpiredNumbers(q: T.Queue, now: real) returns (expired: seq<nat>)
    ensures expired == T.Expired(q, q.order, now)
  {
    expired := [];
    for i := 0 to |q.order|
      invariant expired == T.Expired(q, q.order[..i], now)
    {
      var n := q.order[i];
      assert q.order[..i + 1][..i] == q.order[..i];
      if n in q.pending && now - q.pending[n].sentAt > T.ACK_TIMEOUT { expired := expired + [n]; }
    }
    assert q.order[..|q.order|] == q.order;
  }

  // send_reliable: number, frame, wire, queue. None is the exception for a header field that does not fit.
  method SendReliable(session: McpSession, queue: RetransmissionQueue, payload: seq<Byte>, sid: nat, now: real,
                      ghost wire: seq<T.Sent>)
    returns (r: Option<T.Sent>)
    modifies session, queue
    ensures T.State(session.Value(), queue.Value(), if r.Some? then wire + [r.value] else wire)
         == T.Step(old(T.State(session.Value(), queue.Value(), wire)), T.Send(payload, sid, now))
  {
    var n := session.NextSeq();
    var frame, used := session.MakeFrame(payload, sid, n);
    if frame.None? { return None; }
    queue.Enqueue(n, frame.value, now);
    r := Some(T.Sent(n, frame.value));
  }

  // handle_mcp_frame up to acknowledgements: parse, decode, lock or check the session, then act.
  method HandleFrame(session: McpSession, queue: RetransmissionQueue, frame: seq<Byte>, now: real,
                     ghost wire: seq<T.Sent>)
    returns (sent: seq<T.Sent>)
    modifies session, queue
    ensures T.State(session.Value(), queue.Value(), wire + sent)
         == T.Step(old(T.State(session.Value(), queue.Value(), wire)), T.Recv(frame, now))
  {
    sent := [];
    assert wire + sent == wire;
    var parsed := Parse(frame);
    if parsed.None? { return; }
    var p := parsed.value;
    var kind := T.KindOf(p.payload);
    if kind.None? { return; }
    if !session.locked {
      session.LockTo(p.session);
    } else if p.session != session.sessionId {
      return;
    }
    match kind.value
    case Ack => queue.OnAck(p.number);
    case Nack => sent := queue.OnNack(p.number, now);
    case Other =>
  }
}
