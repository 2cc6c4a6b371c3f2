/** What every run of the serial link keeps: frames, retry counts, settled numbers, the session lock. */
module TransportSafety {
  import opened Bytes
  import opened Frame
  import opened Transport
  import Varint

  // ---- counting ----

  lemma CountSnoc(wire: seq<Sent>, x: Sent, n: nat)
    ensures Count(wire + [x], n) == Count(wire, n) + (if x.number == n then 1 else 0)
  {
    assert (wire + [x])[..|wire|] == wire;
  }

  lemma {:induction false} CountFresh(wire: seq<Sent>, n: nat)
    requires forall i :: 0 <= i < |wire| ==> wire[i].number != n
    ensures Count(wire, n) == 0
    decreases |wire|
  {
    if wire != [] { CountFresh(wire[..|wire| - 1], n); }
  }

  lemma {:induction false} WithoutDistinct(order: seq<nat>, n: nat)
    requires forall i, j :: 0 <= i < j < |order| ==> order[i] != order[j]
    ensures forall i, j :: 0 <= i < j < |Without(order, n)| ==> Without(order, n)[i] != Without(order, n)[j]
  {
    if order != [] {
      WithoutDistinct(order[1..], n);
      assert order[0] !in order[1..];
    }
  }

  // ---- each kind of step keeps the invariant ----

  // A new frame under the next number goes on the wire.
  lemma FreshCounts(wire: seq<Sent>, counter: nat, x: Sent)
    requires WireOk(wire, counter) && x.number == counter + 1
    ensures Count(wire, x.number) == 0
    ensures forall n :: Count(wire + [x], n) == if n == x.number then 1 else Count(wire, n)
  {
    CountFresh(wire, x.number);
    forall n: nat ensures Count(wire + [x], n) == if n == x.number then 1 else Count(wire, n) { CountSnoc(wire, x, n); }
  }

  lemma FreshWireOk(wire: seq<Sent>, counter: nat, x: Sent)
    requires WireOk(wire, counter) && x.number == counter + 1 && FrameOf(x.frame, x.number)
    ensures WireOk(wire + [x], counter + 1)
  {
    var wire' := wire + [x];
    forall i | 0 <= i < |wire'|
      ensures 1 <= wire'[i].number <= counter + 1 && FrameOf(wire'[i].frame, wire'[i].number)
    {
      assert i < |wire| ==> wire'[i] == wire[i];
    }
  }

  lemma FreshOnWire(s: State, x: Sent)
    requires Inv(s) && x.number == s.session.counter + 1 && FrameOf(x.frame, x.number)
    ensures WireOk(s.wire + [x], s.session.counter + 1)
    ensures forall n :: Count(s.wire + [x], n) <= 1 + MAX_RETRIES
    ensures forall n :: n in s.queue.pending ==> EntryOk(s.wire + [x], n, s.queue.pending[n])
    ensures forall now :: EntryOk(s.wire + [x], x.number, Entry(x.frame, 0, now))
  {
    FreshCounts(s.wire, s.session.counter, x);
    FreshWireOk(s.wire, s.session.counter, x);
  }

  lemma SendKeeps(s: State, x: Sent, now: real)
    requires Inv(s) && x.number == s.session.counter + 1 && FrameOf(x.frame, x.number)
    ensures Inv(State(s.session.(counter := x.number), Enqueue(s.queue, x.number, x.frame, now), s.wire + [x]))
  {
    FreshOnWire(s, x);
    assert x.number !in s.queue.pending;
  }

  lemma ReplyKeeps(s: State, x: Sent)
    requires Inv(s) && x.number == s.session.counter + 1 && FrameOf(x.frame, x.number)
    ensures Inv(s.(session := s.session.(counter := x.number), wire := s.wire + [x]))
  {
    FreshOnWire(s, x);
  }

  lemma RemoveKeeps(s: State, n: nat)
    requires Inv(s)
    ensures Inv(s.(queue := Remove(s.queue, n)))
  {
    WithoutDistinct(s.queue.order, n);
  }

  // Sending a pending frame again.
  lemma ResendCounts(wire: seq<Sent>, x: Sent)
    ensures forall m :: Count(wire + [x], m) == Count(wire, m) + (if x.number == m then 1 else 0)
  {
    forall m: nat
      ensures Count(wire + [x], m) == Count(wire, m) + (if x.number == m then 1 else 0)
    {
      CountSnoc(wire, x, m);
    }
  }

  lemma ResendOther(wire: seq<Sent>, x: Sent, m: nat, e: Entry)
    requires EntryOk(wire, m, e) && m != x.number
    ensures EntryOk(wire + [x], m, e)
  {
    ResendCounts(wire, x);
  }

  lemma ResendSame(wire: seq<Sent>, n: nat, e: Entry, now: real)
    requires EntryOk(wire, n, e) && e.retries < MAX_RETRIES
    ensures EntryOk(wire + [Sent(n, e.frame)], n, Entry(e.frame, e.retries + 1, now))
  {
    ResendCounts(wire, Sent(n, e.frame));
  }

  lemma ResendWireOk(wire: seq<Sent>, counter: nat, n: nat, e: Entry)
    requires WireOk(wire, counter) && EntryOk(wire, n, e) && 1 <= n <= counter
    ensures WireOk(wire + [Sent(n, e.frame)], counter)
  {
    var wire' := wire + [Sent(n, e.frame)];
    forall i | 0 <= i < |wire'| ensures 1 <= wire'[i].number <= counter && FrameOf(wire'[i].frame, wire'[i].number) {
      assert i < |wire| ==> wire'[i] == wire[i];
    }
  }

  lemma ResendKeeps(s: State, n: nat, now: real)
    requires Inv(s) && n in s.queue.pending && s.queue.pending[n].retries < MAX_RETRIES
    ensures Inv(NackState(s, n, now))
  {
    var e := s.queue.pending[n];
    var x, s' := Sent(n, e.frame), NackState(s, n, now);
    ResendWireOk(s.wire, s.session.counter, n, e);
    ResendCounts(s.wire, x);
    forall m | m in s'.queue.pending ensures 1 <= m <= s.session.counter && EntryOk(s'.wire, m, s'.queue.pending[m]) {
      if m == n { ResendSame(s.wire, n, e, now); } else { ResendOther(s.wire, x, m, s.queue.pending[m]); }
    }
  }

  function NackState(s: State, n: nat, now: real): State
  {
    var (q, sent) := OnNack(s.queue, n, now);
    s.(queue := q, wire := s.wire + sent)
  }

  lemma NackKeeps(s: State, n: nat, now: real)
    requires Inv(s)
    ensures Inv(NackState(s, n, now))
  {
    if n !in s.queue.pending {
      assert s.wire + [] == s.wire;
    } else if s.queue.pending[n].retries + 1 > MAX_RETRIES {
      RemoveKeeps(s, n);
      assert s.wire + [] == s.wire;
    } else {
      ResendKeeps(s, n, now);
    }
  }

  function NackAllState(s: State, ns: seq<nat>, now: real): State
  {
    var (q, sent) := NackAll(s.queue, ns, now);
    s.(queue := q, wire := s.wire + sent)
  }

  // A sweep is its rejections one after the other.
  lemma NackAllStep(s: State, ns: seq<nat>, now: real)
    ensures ns == [] ==> NackAllState(s, ns, now) == s
    ensures ns != [] ==> NackAllState(s, ns, now) == NackAllState(NackState(s, ns[0], now), ns[1..], now)
  {
    if ns == [] {
      assert s.wire + [] == s.wire;
    } else {
      var (q1, sent1) := OnNack(s.queue, ns[0], now);
      var (q2, sent2) := NackAll(q1, ns[1..], now);
      assert s.wire + (sent1 + sent2) == (s.wire + sent1) + sent2;
    }
  }

  lemma {:induction false} NackAllKeeps(s: State, ns: seq<nat>, now: real)
    requires Inv(s)
    ensures Inv(NackAllState(s, ns, now))
    decreases |ns|
  {
    NackAllStep(s, ns, now);
    if ns != [] {
      NackKeeps(s, ns[0], now);
      NackAllKeeps(NackState(s, ns[0], now), ns[1..], now);
    }
  }

  lemma DispatchKeeps(s: State, kind: Kind, n: nat, now: real)
    requires Inv(s)
    ensures Inv(Dispatch(s, kind, n, now))
  {
    match kind
    case Ack => RemoveKeeps(s, n);
    case Nack => NackKeeps(s, n, now);
    case Other =>
  }

  lemma CountUp(s: State)
    requires Inv(s)
    ensures Inv(s.(session := s.session.(counter := s.session.counter + 1)))
  {
  }

  lemma WireIsFrame(p: Packet)
    requires Packable(p)
    ensures FrameOf(Wire(p), p.number)
  {
  }

  lemma StepKeeps(s: State, e: Event)
    requires Inv(s)
    ensures Inv(Step(s, e))
  {
    CountUp(s);
    match e
    case Send(payload, session, now) =>
      var p := NextPacket(s.session, payload, session);
      if Packable(p) {
        WireIsFrame(p);
        SendKeeps(s, Sent(p.number, Wire(p)), now);
      }
    case Reply(payload) =>
      var p := NextPacket(s.session, payload, 0);
      if Packable(p) {
        WireIsFrame(p);
        ReplyKeeps(s, Sent(p.number, Wire(p)));
      }
    case Recv(frame, now) => RecvKeeps(s, frame, now);
    case Sweep(now) => NackAllKeeps(s, Expired(s.queue, s.queue.order, now), now);
  }

  // A received frame is ignored or dispatched under the lock it sets or confirms.
  lemma RecvCases(s: State, frame: seq<Byte>, now: real) returns (p: Packet, kind: Kind, ignored: bool)
    ensures ignored ==> Step(s, Recv(frame, now)) == s
    ensures !ignored ==>
      Parse(frame) == Some(p) && KindOf(p.payload) == Some(kind) && (s.session.locked ==> p.session == s.session.id)
    ensures !ignored ==>
      Step(s, Recv(frame, now)) ==
        Dispatch(s.(session := s.session.(id := p.session, locked := true)), kind, p.number, now)
  {
    p, kind, ignored := Packet(0, 0, []), Other, true;
    if Parse(frame).Some? {
      p := Parse(frame).value;
      if KindOf(p.payload).Some? {
        kind := KindOf(p.payload).value;
        ignored := s.session.locked && p.session != s.session.id;
      }
    }
  }

  lemma RecvKeeps(s: State, frame: seq<Byte>, now: real)
    requires Inv(s)
    ensures Inv(Step(s, Recv(frame, now)))
  {
    var p, kind, ignored := RecvCases(s, frame, now);
    if !ignored { DispatchKeeps(s.(session := s.session.(id := p.session, locked := true)), kind, p.number, now); }
  }

  // ---- runs ----

  lemma {:induction false} RunKeepsInv(es: seq<Event>)
    ensures Inv(Steps(START, es))
    decreases |es|
  {
    if es != [] {
      RunKeepsInv(es[..|es| - 1]);
      StepKeeps(Steps(START, es[..|es| - 1]), es[|es| - 1]);
    }
  }

  // In every run no number goes on the wire more than once and three retries; every pending frame is byte for
  // byte the one first sent under its number, has been sent once and once per retry, and carries that number.
  lemma RunSafe(es: seq<Event>, n: nat)
    ensures var s := Steps(START, es);
      && Count(s.wire, n) <= 4
      && (n in s.queue.pending ==>
            && Count(s.wire, n) == 1 + s.queue.pending[n].retries
            && (forall i :: 0 <= i < |s.wire| && s.wire[i].number == n ==> s.wire[i].frame == s.queue.pending[n].frame)
            && FrameOf(s.queue.pending[n].frame, n))
  {
    RunKeepsInv(es);
    var s := Steps(START, es);
    assert n in s.queue.pending ==> EntryOk(s.wire, n, s.queue.pending[n]);
  }

  // A frame that carries number n parses back to a packet with that number, unless its payload is empty.
  lemma FrameParses(frame: seq<Byte>, n: nat) returns (p: Packet)
    requires FrameOf(frame, n)
    ensures |frame| > 0 && frame[|frame| - 1] == 0 && p.number == n && frame == Wire(p)
    ensures Parse(frame[..|frame| - 1]) == if p.payload == [] then None else Some(p)
  {
    p :| Packable(p) && p.number == n && frame == Wire(p);
    WireShape(p);
    ParseWire(p);
  }

  // Number n has been given out and is no longer pending: acknowledged, given up, or never queued.
  ghost predicate Settled(s: State, n: nat) { n <= s.session.counter && n !in s.queue.pending }

  lemma NackSettled(s: State, m: nat, now: real, n: nat)
    requires Settled(s, n)
    ensures Settled(NackState(s, m, now), n) && Count(NackState(s, m, now).wire, n) == Count(s.wire, n)
  {
    if m in s.queue.pending && s.queue.pending[m].retries + 1 <= MAX_RETRIES {
      CountSnoc(s.wire, Sent(m, s.queue.pending[m].frame), n);
    } else {
      assert s.wire + [] == s.wire;
    }
  }

  lemma {:induction false} NackAllSettled(s: State, ns: seq<nat>, now: real, n: nat)
    requires Settled(s, n)
    ensures Settled(NackAllState(s, ns, now), n) && Count(NackAllState(s, ns, now).wire, n) == Count(s.wire, n)
    decreases |ns|
  {
    NackAllStep(s, ns, now);
    if ns != [] {
      NackSettled(s, ns[0], now, n);
      NackAllSettled(NackState(s, ns[0], now), ns[1..], now, n);
    }
  }

  lemma StepSettled(s: State, e: Event, n: nat)
    requires Settled(s, n)
    ensures Settled(Step(s, e), n) && Count(Step(s, e).wire, n) == Count(s.wire, n)
  {
    match e
    case Send(payload, session, now) => SentSettled(s, NextPacket(s.session, payload, session), n);
    case Reply(payload) => SentSettled(s, NextPacket(s.session, payload, 0), n);
    case Recv(frame, now) =>
      var p, kind, ignored := RecvCases(s, frame, now);
      if !ignored && kind == Nack {
        NackSettled(s.(session := s.session.(id := p.session, locked := true)), p.number, now, n);
      }
    case Sweep(now) => NackAllSettled(s, Expired(s.queue, s.queue.order, now), now, n);
  }

  lemma SentSettled(s: State, p: Packet, n: nat)
    requires Settled(s, n) && p.number == s.session.counter + 1
    ensures Count(s.wire + [Sent(p.number, Wire(p))], n) == Count(s.wire, n)
  {
    CountSnoc(s.wire, Sent(p.number, Wire(p)), n);
  }

  // Once settled, a number never goes on the wire again, whatever happens.
  lemma {:induction false} RunSettled(s: State, es: seq<Event>, n: nat)
    requires Settled(s, n)
    ensures Settled(Steps(s, es), n) && Count(Steps(s, es).wire, n) == Count(s.wire, n)
    decreases |es|
  {
    if es != [] {
      RunSettled(s, es[..|es| - 1], n);
      StepSettled(Steps(s, es[..|es| - 1]), es[|es| - 1], n);
    }
  }

  // ---- progress ----

  function Budget(pending: map<nat, Entry>, order: seq<nat>): int
  {
    if order == [] then 0
    else (if order[0] in pending then MAX_RETRIES + 1 - pending[order[0]].retries else 0) + Budget(pending, order[1..])
  }

  lemma {:induction false} BudgetElsewhere(a: map<nat, Entry>, b: map<nat, Entry>, order: seq<nat>)
    requires forall n :: n in order ==> (n in a <==> n in b) && (n in a ==> a[n] == b[n])
    ensures Budget(a, order) == Budget(b, order)
  {
    if order != [] { BudgetElsewhere(a, b, order[1..]); }
  }

  lemma {:induction false} BudgetOf(pending: map<nat, Entry>, pending': map<nat, Entry>, order: seq<nat>, n: nat)
    requires n in order && n in pending && forall i, j :: 0 <= i < j < |order| ==> order[i] != order[j]
    requires forall m :: m in order && m != n ==>
      (m in pending <==> m in pending') && (m in pending ==> pending[m] == pending'[m])
    ensures Budget(pending', order) == Budget(pending, order) - (MAX_RETRIES + 1 - pending[n].retries)
      + (if n in pending' then MAX_RETRIES + 1 - pending'[n].retries else 0)
  {
    if order[0] == n {
      assert n !in order[1..];
      BudgetElsewhere(pending, pending', order[1..]);
    } else {
      BudgetOf(pending, pending', order[1..], n);
    }
  }

  lemma {:induction false} BudgetWithout(pending: map<nat, Entry>, order: seq<nat>, n: nat)
    requires n !in pending
    ensures Budget(pending, Without(order, n)) == Budget(pending, order)
  {
    if order != [] {
      BudgetWithout(pending, order[1..], n);
      var rest := Without(order[1..], n);
      assert Without(order, n) == if order[0] == n then rest else [order[0]] + rest by { assert [] + rest == rest; }
      assert order[0] != n ==> ([order[0]] + rest)[1..] == rest;
    }
  }

  // The retry budget left over all pending frames strictly falls with every acknowledgement or rejection of a
  // pending frame.
  lemma BudgetFalls(q: Queue, n: nat, now: real)
    requires QueueOk(q) && n in q.pending && q.pending[n].retries <= MAX_RETRIES
    ensures Budget(OnAck(q, n).pending, OnAck(q, n).order) < Budget(q.pending, q.order)
    ensures Budget(OnNack(q, n, now).0.pending, OnNack(q, n, now).0.order) < Budget(q.pending, q.order)
  {
    BudgetOf(q.pending, q.pending - {n}, q.order, n);
    BudgetWithout(q.pending - {n}, q.order, n);
    BudgetOf(q.pending, OnNack(q, n, now).0.pending, q.order, n);
  }

  // ---- the session lock ----

  lemma StepLocked(s: State, e: Event)
    requires s.session.locked
    ensures Step(s, e).session.locked && Step(s, e).session.id == s.session.id
  {
    if e.Recv? { var p, kind, ignored := RecvCases(s, e.frame, e.at); }
  }

  // Once locked, the session id stays, and a frame of another session changes nothing.
  lemma {:induction false} RunLocked(s: State, es: seq<Event>)
    requires s.session.locked
    ensures Steps(s, es).session.locked && Steps(s, es).session.id == s.session.id
    decreases |es|
  {
    if es != [] {
      RunLocked(s, es[..|es| - 1]);
      StepLocked(Steps(s, es[..|es| - 1]), es[|es| - 1]);
    }
  }

  lemma OtherSessionIgnored(s: State, es: seq<Event>, frame: seq<Byte>, now: real)
    requires s.session.locked && Parse(frame).Some? && Parse(frame).value.session != s.session.id
    ensures Step(Steps(s, es), Recv(frame, now)) == Steps(s, es)
  {
    RunLocked(s, es);
  }

  // ---- what rejections, timeouts and acknowledgements do ----

  function Least(a: nat, b: nat): nat { if a <= b then a else b }

  // Rejected k times, a pending frame goes out again exactly as often as it has retries left, and is given up when
  // they are used up.
  lemma {:induction false} RetriesExact(q: Queue, n: nat, k: nat, now: real)
    requires n in q.pending && q.pending[n].retries <= MAX_RETRIES
    ensures var (q', sent) := NackAll(q, seq(k, _ => n), now);
      var left := MAX_RETRIES - q.pending[n].retries;
      && |sent| == Least(k, left) && (forall i :: 0 <= i < |sent| ==> sent[i] == Sent(n, q.pending[n].frame))
      && (n in q'.pending <==> k <= left)
    decreases k
  {
    var ns := seq(k, _ => n);
    if k > 0 {
      assert ns[1..] == seq(k - 1, _ => n);
      if q.pending[n].retries < MAX_RETRIES {
        RetriesExact(OnNack(q, n, now).0, n, k - 1, now);
      } else {
        NacksOfNothing(Remove(q, n), ns[1..], now);
      }
    }
  }

  lemma {:induction false} NacksOfNothing(q: Queue, ns: seq<nat>, now: real)
    requires forall i :: 0 <= i < |ns| ==> ns[i] !in q.pending
    ensures NackAll(q, ns, now) == (q, [])
    decreases |ns|
  {
    if ns != [] {
      NacksOfNothing(q, ns[1..], now);
      var none: seq<Sent> := [];
      assert none + none == none;
    }
  }

  // The expired numbers are the pending ones that have waited longer than the timeout.
  lemma {:induction false} ExpiredIff(q: Queue, order: seq<nat>, now: real, n: nat)
    ensures n in Expired(q, order, now) <==>
      n in order && n in q.pending && now - q.pending[n].sentAt > ACK_TIMEOUT
    decreases |order|
  {
    if order != [] {
      var init, last := order[..|order| - 1], order[|order| - 1];
      ExpiredIff(q, init, now, n);
      assert order == init + [last];
    }
  }

  lemma {:induction false} ExpiredOnce(q: Queue, order: seq<nat>, now: real)
    requires forall i, j :: 0 <= i < j < |order| ==> order[i] != order[j]
    ensures var ns := Expired(q, order, now); forall i, j :: 0 <= i < j < |ns| ==> ns[i] != ns[j]
    decreases |order|
  {
    if order != [] {
      var init, last := order[..|order| - 1], order[|order| - 1];
      ExpiredOnce(q, init, now);
      ExpiredIff(q, init, now, last);
      assert last !in init;
    }
  }

  // A list of distinct numbers rejected: each goes out once if it is pending with retries left, and no other does.
  lemma {:induction false} NackAllSends(q: Queue, ns: seq<nat>, now: real, n: nat)
    requires forall i, j :: 0 <= i < j < |ns| ==> ns[i] != ns[j]
    ensures Count(NackAll(q, ns, now).1, n) ==
      if n in ns && n in q.pending && q.pending[n].retries < MAX_RETRIES then 1 else 0
    decreases |ns|
  {
    hide Without;
    if ns != [] {
      var (q1, sent1) := OnNack(q, ns[0], now);
      NackAllSends(q1, ns[1..], now, n);
      CountConcat(sent1, NackAll(q1, ns[1..], now).1, n);
      assert ns == [ns[0]] + ns[1..];
      CountOne(q, ns[0], now, n);
    }
  }

  lemma CountOne(q: Queue, m: nat, now: real, n: nat)
    ensures Count(OnNack(q, m, now).1, n) ==
      if n == m && n in q.pending && q.pending[n].retries < MAX_RETRIES then 1 else 0
  {
    if m in q.pending {
      var x := Sent(m, q.pending[m].frame);
      CountSnoc([], x, n);
      assert [] + [x] == [x];
    }
  }

  lemma {:induction false} CountConcat(a: seq<Sent>, b: seq<Sent>, n: nat)
    ensures Count(a + b, n) == Count(a, n) + Count(b, n)
    decreases |b|
  {
    if b == [] {
      assert a + b == a;
    } else {
      var init, x := b[..|b| - 1], b[|b| - 1];
      CountConcat(a, init, n);
      CountSnoc(a + init, x, n);
      assert a + b == a + init + [x];
    }
  }

  // A sweep sends again exactly the pending frames that have waited too long and have retries left, each once.
  lemma SweepSends(q: Queue, now: real, n: nat)
    requires QueueOk(q)
    ensures Count(CheckTimeouts(q, now).1, n) ==
      if n in q.pending && now - q.pending[n].sentAt > 2.0 && q.pending[n].retries < 3 then 1 else 0
  {
    hide Count, NackAll, Expired;
    ExpiredOnce(q, q.order, now);
    ExpiredIff(q, q.order, now, n);
    NackAllSends(q, Expired(q, q.order, now), now, n);
  }

  // An acknowledgement from the session settles its number: from then on it never goes out again.
  lemma AckSettles(s: State, frame: seq<Byte>, now: real, p: Packet, later: seq<Event>)
    requires Parse(frame) == Some(p) && Tagged(p.payload, 8) && p.number <= s.session.counter
    requires s.session.locked ==> p.session == s.session.id
    ensures var s' := Step(s, Recv(frame, now));
      Settled(s', p.number) && s'.wire == s.wire && Count(Steps(s', later).wire, p.number) == Count(s.wire, p.number)
  {
    hide Parse, Steps, Count;
    RunSettled(Step(s, Recv(frame, now)), later, p.number);
  }

  // ---- what the bytes of a frame do ----

  // A frame of the session, or of any session before one is locked.
  predicate Accepts(s: State, p: Packet) { s.session.locked ==> p.session == s.session.id }

  // The session after an accepted frame.
  function LockedTo(s: State, p: Packet): Session { Session(p.session, s.session.counter, true) }

  // The number in front of the payload, in whatever length it is written.
  ghost predicate Tagged(payload: seq<Byte>, tag: nat) { exists off :: Varint.Decode(payload, 0) == Some((tag, off)) }

  // It is the first byte if that is below 128; and every number that was written in front of a payload.
  lemma TaggedBy(payload: seq<Byte>, tag: nat)
    requires Varint.Encode(tag) <= payload || (payload != [] && payload[0] < 128 && payload[0] == tag)
    ensures Tagged(payload, tag)
  {
    if Varint.Encode(tag) <= payload {
      var post := payload[|Varint.Encode(tag)|..];
      Varint.RoundTrip([], tag, post);
      assert payload == [] + Varint.Encode(tag) + post;
    } else {
      assert Varint.Decode(payload, 0) == Some((tag, 1));
    }
  }

  // The tag 8 drops the pending frame of its number and settles it.
  lemma AckTag(s: State, frame: seq<Byte>, now: real, p: Packet)
    requires Parse(frame) == Some(p) && Accepts(s, p) && Tagged(p.payload, 8)
    ensures var s' := Step(s, Recv(frame, now));
      && s'.session == LockedTo(s, p) && s'.wire == s.wire && s'.queue.pending == s.queue.pending - {p.number}
      && (QueueOk(s.queue) ==> s'.queue.order == Without(s.queue.order, p.number))
      && (p.number <= s.session.counter ==> Settled(s', p.number))
  {
    hide Parse;
    if p.number !in s.queue.pending { assert s.queue.pending - {p.number} == s.queue.pending; }
  }

  // The tag 9 sends it again while it has been sent again fewer than three times, and gives it up after that.
  lemma NackTag(s: State, frame: seq<Byte>, now: real, p: Packet)
    requires Parse(frame) == Some(p) && Accepts(s, p) && Tagged(p.payload, 9)
    ensures var s', n := Step(s, Recv(frame, now)), p.number;
      && s'.session == LockedTo(s, p)
      && if n !in s.queue.pending then s'.queue == s.queue && s'.wire == s.wire
         else
           var e := s.queue.pending[n];
           if e.retries < 3 then
             && s'.wire == s.wire + [Sent(n, e.frame)] && s'.queue.order == s.queue.order
             && s'.queue.pending == s.queue.pending[n := Entry(e.frame, e.retries + 1, now)]
           else s'.wire == s.wire && s'.queue.pending == s.queue.pending - {n}
  {
    hide Parse, Without;
    assert s.wire + [] == s.wire;
  }

  // Any other payload, with another tag or none, leaves queue and wire alone.
  lemma OtherTag(s: State, frame: seq<Byte>, now: real, p: Packet)
    requires Parse(frame) == Some(p) && Accepts(s, p)
    requires !Tagged(p.payload, 8) && !Tagged(p.payload, 9)
    ensures var s' := Step(s, Recv(frame, now));
      && s'.queue == s.queue && s'.wire == s.wire
      && s'.session == if Malformed(p.payload) then s.session else LockedTo(s, p)
  {
    hide Parse;
    MalformedIff(p.payload);
  }

  // What stands behind the tag is cut short: a length or a number without end, or fixed fields that are missing.
  ghost predicate Malformed(payload: seq<Byte>)
  {
    match Varint.Decode(payload, 0)
    case None => true
    case Some((tag, off)) => ShortBody(tag, payload[off..])
  }

  predicate ShortBody(tag: nat, body: seq<Byte>)
  {
    match tag
    case 3 => Varint.Decode(body, 0) == None
    case 5 => Varint.Decode(body, 0) == None
    case 6 =>
      (match Varint.Decode(body, 0)
       case None => true
       case Some((len, end)) => |body| < end + len + 2)
    case 7 => |body| < 4
    case 10 => |body| < 2 || Varint.Decode(body, 2) == None
    case _ => false
  }

  // The payload raises in the decoder exactly then.
  lemma MalformedIff(payload: seq<Byte>)
    ensures KindOf(payload) == None <==> Malformed(payload)
  {
    hide Varint.Decode;
    var d := Varint.Decode(payload, 0);
    if d.Some? {
      var off := d.value.1;
      assert payload[..off] + payload[off..] == payload;
      Varint.DecodeBehind(payload[..off], payload[off..], 0);
      Varint.DecodeBehind(payload[..off], payload[off..], 2);
    }
  }

  // The frame parses to the packet, unless its payload is empty.
  ghost predicate Carries(frame: seq<Byte>, p: Packet)
  {
    |frame| > 0 && frame[|frame| - 1] == 0 && Parse(frame[..|frame| - 1]) == if p.payload == [] then None else Some(p)
  }

  lemma WireCarries(p: Packet)
    requires Packable(p)
    ensures Carries(Wire(p), p)
  {
    WireShape(p);
    ParseWire(p);
  }

  // A payload sent reliably goes out in one frame under the next number, for the session asked for or the locked one,
  // and waits with no retries; if session or number need more than 32 bits only the counter moves.
  lemma SendCarries(s: State, payload: seq<Byte>, session: nat, now: real)
    ensures var s', n := Step(s, Send(payload, session, now)), s.session.counter + 1;
      var sid := if session != 0 then session else s.session.id;
      && s'.session == s.session.(counter := n)
      && if sid < 0x1_0000_0000 && n < 0x1_0000_0000 then
           && |s'.wire| == |s.wire| + 1 && s'.wire[..|s.wire|] == s.wire && s'.wire[|s.wire|].number == n
           && Carries(s'.wire[|s.wire|].frame, Packet(sid, n, payload))
           && s'.queue.pending == s.queue.pending[n := Entry(s'.wire[|s.wire|].frame, 0, now)]
           && s'.queue.order == s.queue.order + (if n in s.queue.pending then [] else [n])
         else s'.wire == s.wire && s'.queue == s.queue
  {
    hide Wire, Parse;
    assert s.queue.order + [] == s.queue.order;
    var p := NextPacket(s.session, payload, session);
    if Packable(p) { WireCarries(p); }
  }

  // A reply goes out likewise, without waiting for an acknowledgement.
  lemma ReplyCarries(s: State, payload: seq<Byte>)
    ensures var s', n := Step(s, Reply(payload)), s.session.counter + 1;
      && s'.session == s.session.(counter := n) && s'.queue == s.queue
      && if s.session.id < 0x1_0000_0000 && n < 0x1_0000_0000 then
           && |s'.wire| == |s.wire| + 1 && s'.wire[..|s.wire|] == s.wire && s'.wire[|s.wire|].number == n
           && Carries(s'.wire[|s.wire|].frame, Packet(s.session.id, n, payload))
         else s'.wire == s.wire
  {
    hide Wire, Parse;
    var p := NextPacket(s.session, payload, 0);
    if Packable(p) { WireCarries(p); }
  }

  // ---- a sweep, frame by frame ----

  ghost predicate Distinct(ns: seq<nat>) { forall i, j :: 0 <= i < j < |ns| ==> ns[i] != ns[j] }

  // What rejecting each of the numbers once sends again.
  function Resends(q: Queue, ns: seq<nat>): seq<Sent>
  {
    if ns == [] then []
    else
      (if ns[0] in q.pending &&
        q.pending[ns[0]].retries < MAX_RETRIES then [Sent(ns[0], q.pending[ns[0]].frame)] else [])
      + Resends(q, ns[1..])
  }

  lemma {:induction false} ResendsElsewhere(q: Queue, q': Queue, ns: seq<nat>)
    requires forall n :: n in ns ==>
      (n in q.pending <==> n in q'.pending) && (n in q.pending ==> q.pending[n] == q'.pending[n])
    ensures Resends(q, ns) == Resends(q', ns)
  {
    if ns != [] {
      assert ns[0] in ns;
      ResendsElsewhere(q, q', ns[1..]);
    }
  }

  lemma {:induction false} NackAllResends(q: Queue, ns: seq<nat>, now: real)
    requires Distinct(ns)
    ensures NackAll(q, ns, now).1 == Resends(q, ns)
    decreases |ns|
  {
    hide Without;
    if ns != [] {
      var q1 := OnNack(q, ns[0], now).0;
      NackAllResends(q1, ns[1..], now);
      assert ns[0] !in ns[1..];
      ResendsElsewhere(q, q1, ns[1..]);
    }
  }

  lemma {:induction false} ResendsConcat(q: Queue, a: seq<nat>, b: seq<nat>)
    ensures Resends(q, a + b) == Resends(q, a) + Resends(q, b)
    decreases |a|
  {
    if a == [] {
      assert a + b == b;
    } else {
      ResendsConcat(q, a[1..], b);
      assert (a + b)[1..] == a[1..] + b;
    }
  }

  // Pending, sent more than two seconds ago and with retries left.
  predicate Due(q: Queue, now: real, n: nat)
  {
    n in q.pending && now - q.pending[n].sentAt > 2.0 && q.pending[n].retries < 3
  }

  // The frames sent are those of the due numbers at the places `at` of the order, one each.
  ghost predicate SentDue(q: Queue, order: seq<nat>, now: real, sent: seq<Sent>, at: seq<nat>)
  {
    && |at| == |sent| && (forall i :: 0 <= i < |at| ==> at[i] < |order|)
    && (forall i, j :: 0 <= i < j < |at| ==> at[i] < at[j])
    && (forall j :: 0 <= j < |order| ==> (j in at <==> Due(q, now, order[j])))
    && (forall i :: 0 <= i < |at| ==>
      order[at[i]] in q.pending && sent[i] == Sent(order[at[i]], q.pending[order[at[i]]].frame))
  }

  lemma {:induction false} DueSent(q: Queue, order: seq<nat>, now: real) returns (at: seq<nat>)
    ensures SentDue(q, order, now, Resends(q, Expired(q, order, now)), at)
    decreases |order|
  {
    hide SentDue, Resends;
    if order == [] {
      NothingDue(q, now);
      return [];
    }
    var init, n := order[..|order| - 1], order[|order| - 1];
    at := DueSent(q, init, now);
    assert init + [n] == order;
    var sent := Resends(q, Expired(q, init, now));
    if n in q.pending && now - q.pending[n].sentAt > ACK_TIMEOUT {
      ResendsConcat(q, Expired(q, init, now), [n]);
      ResendsOne(q, n);
    } else {
      assert Expired(q, order, now) == Expired(q, init, now);
    }
    if Due(q, now, n) {
      OneMoreDue(q, init, now, sent, at, n);
      at := at + [|init|];
    } else {
      NoMoreDue(q, init, now, sent, at, n);
      assert sent + [] == sent;
    }
  }

  lemma NothingDue(q: Queue, now: real)
    ensures SentDue(q, [], now, Resends(q, []), [])
  {
  }

  lemma ResendsOne(q: Queue, n: nat)
    requires n in q.pending
    ensures Resends(q, [n]) == if q.pending[n].retries < 3 then [Sent(n, q.pending[n].frame)] else []
  {
    assert [n][1..] == [];
  }

  lemma OneMoreDue(q: Queue, order: seq<nat>, now: real, sent: seq<Sent>, at: seq<nat>, n: nat)
    requires SentDue(q, order, now, sent, at) && Due(q, now, n)
    ensures SentDue(q, order + [n], now, sent + [Sent(n, q.pending[n].frame)], at + [|order|])
  {
    var order', at' := order + [n], at + [|order|];
    forall j | 0 <= j < |order'| ensures j in at' <==> Due(q, now, order'[j]) {
      assert j < |order| ==> order'[j] == order[j];
    }
    forall i | 0 <= i < |at| ensures order'[at'[i]] == order[at[i]] {}
  }

  lemma NoMoreDue(q: Queue, order: seq<nat>, now: real, sent: seq<Sent>, at: seq<nat>, n: nat)
    requires SentDue(q, order, now, sent, at) && !Due(q, now, n)
    ensures SentDue(q, order + [n], now, sent, at)
  {
    var order' := order + [n];
    forall j | 0 <= j < |order'| ensures j in at <==> Due(q, now, order'[j]) {
      assert j < |order| ==> order'[j] == order[j];
    }
    forall i | 0 <= i < |at| ensures order'[at[i]] == order[at[i]] {}
  }

  lemma ExpiredDistinct(q: Queue, now: real)
    requires QueueOk(q)
    ensures Distinct(Expired(q, q.order, now))
  {
    ExpiredOnce(q, q.order, now);
  }

  // A sweep sends the due frames again in the order in which they were queued.
  lemma SweepOrder(q: Queue, now: real) returns (at: seq<nat>)
    requires QueueOk(q)
    ensures SentDue(q, q.order, now, CheckTimeouts(q, now).1, at)
  {
    hide SentDue, Expired, NackAll, Resends;
    ExpiredDistinct(q, now);
    NackAllResends(q, Expired(q, q.order, now), now);
    at := DueSent(q, q.order, now);
  }

  // What rejecting each of the numbers once leaves of a pending frame.
  lemma {:induction false} NackAllLeaves(q: Queue, ns: seq<nat>, now: real, n: nat)
    requires Distinct(ns) && n in q.pending
    ensures var left := NackAll(q, ns, now).0.pending; var e := q.pending[n];
      if n !in ns then n in left && left[n] == e
      else if e.retries < 3 then n in left && left[n] == Entry(e.frame, e.retries + 1, now)
      else n !in left
    decreases |ns|
  {
    hide Without;
    if ns != [] {
      var q1 := OnNack(q, ns[0], now).0;
      assert ns == [ns[0]] + ns[1..];
      assert ns[0] !in ns[1..];
      if n in q1.pending { NackAllLeaves(q1, ns[1..], now, n); } else { NackAllAbsent(q1, ns[1..], now, n); }
    }
  }

  lemma {:induction false} NackAllAbsent(q: Queue, ns: seq<nat>, now: real, n: nat)
    requires n !in q.pending
    ensures n !in NackAll(q, ns, now).0.pending
    decreases |ns|
  {
    hide Without;
    if ns != [] { NackAllAbsent(OnNack(q, ns[0], now).0, ns[1..], now, n); }
  }

  // It counts up the retries of the due frames, gives up those that have used them up, and leaves the others alone.
  lemma SweepLeaves(q: Queue, now: real, n: nat)
    requires QueueOk(q)
    ensures var left := CheckTimeouts(q, now).0.pending;
      if n !in q.pending then n !in left
      else if now - q.pending[n].sentAt <= 2.0 then n in left && left[n] == q.pending[n]
      else if q.pending[n].retries < 3 then
        n in left && left[n] == Entry(q.pending[n].frame, q.pending[n].retries + 1, now)
      else n !in left
  {
    hide Expired, NackAll;
    ExpiredDistinct(q, now);
    ExpiredIff(q, q.order, now, n);
    var ns := Expired(q, q.order, now);
    if n in q.pending { NackAllLeaves(q, ns, now, n); } else { NackAllAbsent(q, ns, now, n); }
  }
}
