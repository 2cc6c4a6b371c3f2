/** What a new connection does to frames that are still pending: the session restarts, the queue does not. */
module Reconnecting {
  import opened Bytes
  import opened Frame
  import opened Transport
  import opened TransportSafety
  import Cobs

  // The session and its counter are reset, the queue is kept, and nothing has been sent on the new wire.
  function Reconnect(s: State): State { State(Session(0, 0, false), s.queue, []) }

  // It starts like the first connection, but for the queue: any session is accepted, and numbers begin at one again.
  lemma ReconnectStarts(s: State, p: Packet, payload: seq<Byte>, now: real)
    ensures Accepts(Reconnect(s), p) && Reconnect(s).queue == s.queue
    ensures var t := Step(Reconnect(s), Send(payload, 0, now));
      |t.wire| == 1 && t.wire[0].number == 1 && Carries(t.wire[0].frame, Packet(0, 1, payload))
  {
    hide Wire, Parse;
    SendCarries(Reconnect(s), payload, 0, now);
  }

  // The invariant of a run survives a reconnect exactly when no frame is pending.
  lemma ReconnectInvIff(s: State)
    requires Inv(s)
    ensures Inv(Reconnect(s)) <==> s.queue.pending == map[]
  {
    if s.queue.pending == map[] {
      forall n ensures Count([], n) == 0 {}
    } else {
      var n :| n in s.queue.pending;
      assert Reconnect(s).session.counter < n;
    }
  }

  // ---- frames that stay what they are ----

  // Number n is pending at every moment of the run: neither acknowledged nor given up.
  ghost predicate StaysPending(s: State, es: seq<Event>, n: nat)
  {
    && n in Steps(s, es).queue.pending
    && forall k :: 0 <= k < |es| ==> n in Steps(s, es[..k]).queue.pending
  }

  // Whatever happens, as long as number n stays pending its frame stays the same.
  ghost predicate Kept(s: State, n: nat)
    requires n in s.queue.pending
  {
    forall es :: StaysPending(s, es, n) ==> Steps(s, es).queue.pending[n].frame == s.queue.pending[n].frame
  }

  lemma {:induction false} NackAllFrames(q: Queue, ns: seq<nat>, now: real, n: nat)
    requires n in NackAll(q, ns, now).0.pending
    ensures n in q.pending && NackAll(q, ns, now).0.pending[n].frame == q.pending[n].frame
    decreases |ns|
  {
    hide Without;
    if ns != [] { NackAllFrames(OnNack(q, ns[0], now).0, ns[1..], now, n); }
  }

  lemma StepKeepsFrame(s: State, e: Event, n: nat)
    requires Inv(s) && n in s.queue.pending && n in Step(s, e).queue.pending
    ensures Step(s, e).queue.pending[n].frame == s.queue.pending[n].frame
  {
    hide Wire, Packable, Parse, KindOf, Without, Expired, NackAll;
    assert n <= s.session.counter;
    match e
    case Send(payload, session, now) =>
    case Reply(payload) =>
    case Recv(frame, now) => var p, kind, ignored := RecvCases(s, frame, now);
    case Sweep(now) => NackAllFrames(s.queue, Expired(s.queue, s.queue.order, now), now, n);
  }

  lemma {:induction false} StepsKeepInv(s: State, es: seq<Event>)
    requires Inv(s)
    ensures Inv(Steps(s, es))
    decreases |es|
  {
    hide Inv, Step;
    if es != [] {
      StepsKeepInv(s, es[..|es| - 1]);
      StepKeeps(Steps(s, es[..|es| - 1]), es[|es| - 1]);
    }
  }

  lemma {:induction false} RunKeepsFrame(s: State, es: seq<Event>, n: nat)
    requires Inv(s) && n in s.queue.pending && StaysPending(s, es, n)
    ensures Steps(s, es).queue.pending[n].frame == s.queue.pending[n].frame
    decreases |es|
  {
    hide Inv, Step;
    if es != [] {
      var init := es[..|es| - 1];
      assert n in Steps(s, init).queue.pending;
      forall k | 0 <= k < |init| ensures n in Steps(s, init[..k]).queue.pending { assert init[..k] == es[..k]; }
      RunKeepsFrame(s, init, n);
      StepsKeepInv(s, init);
      StepKeepsFrame(Steps(s, init), es[|es| - 1], n);
    }
  }

  // Without a reconnect every pending frame is kept until it is settled.
  lemma PendingKept(s: State, n: nat)
    requires Inv(s) && n in s.queue.pending
    ensures Kept(s, n)
  {
    hide Inv, Steps;
    forall es | StaysPending(s, es, n) ensures Steps(s, es).queue.pending[n].frame == s.queue.pending[n].frame {
      RunKeepsFrame(s, es, n);
    }
  }

  // ---- frames that are lost ----

  lemma WireInjective(p: Packet, q: Packet)
    requires Packable(p) && Packable(q) && Wire(p) == Wire(q)
    ensures p == q
  {
    hide Cobs.Encode, Raw, CrcField, Packable;
    var a, b := Sealed(Raw(p)), Sealed(Raw(q));
    assert Wire(p)[..|Wire(p)| - 1] == Cobs.Encode(a) && Wire(q)[..|Wire(q)| - 1] == Cobs.Encode(b);
    Cobs.RoundTrip(a);
    Cobs.RoundTrip(b);
    assert a[..|a| - 2] == Raw(p) && b[..|b| - 2] == Raw(q);
    HeaderReads(p);
    HeaderReads(q);
  }

  function Sends(k: nat, payload: seq<Byte>): (r: seq<Event>)
    ensures |r| == k
  {
    seq(k, _ => Send(payload, 1, 0.0))
  }

  // After k new frames: numbers above k are as they were, number k holds the newest frame.
  lemma {:induction false} AfterSends(s: State, k: nat, payload: seq<Byte>)
    requires k < 0x1_0000_0000
    ensures var t := Steps(Reconnect(s), Sends(k, payload));
      && t.session.counter == k && (forall n :: n in s.queue.pending ==> n in t.queue.pending)
      && (forall n :: n in s.queue.pending && n > k ==> t.queue.pending[n] == s.queue.pending[n])
      && (k >= 1 ==> k in t.queue.pending && t.queue.pending[k].frame == Wire(Packet(1, k, payload)))
    decreases k
  {
    hide Wire;
    if k > 0 {
      AfterSends(s, k - 1, payload);
      var es := Sends(k, payload);
      assert es[..|es| - 1] == Sends(k - 1, payload);
    }
  }

  lemma OtherPayload(p: Packet, n: nat)
    requires Packable(p) && n < 0x1_0000_0000
    ensures Wire(Packet(1, n, p.payload + [0])) != Wire(p)
  {
    hide Wire;
    var q := Packet(1, n, p.payload + [0]);
    assert |q.payload| != |p.payload|;
    if Wire(q) == Wire(p) { WireInjective(q, p); }
  }

  // After a reconnect no pending frame is safe: as many sends as its number put another frame in its place.
  lemma PendingLost(s: State, n: nat)
    requires Inv(s) && n in s.queue.pending
    ensures !Kept(Reconnect(s), n)
  {
    hide Wire, Steps;
    var p :| Packable(p) && p.number == n && s.queue.pending[n].frame == Wire(p);
    var payload := p.payload + [0];
    var es, r := Sends(n, payload), Reconnect(s);
    AfterSends(s, n, payload);
    forall k | 0 <= k < |es| ensures n in Steps(r, es[..k]).queue.pending {
      AfterSends(s, k, payload);
      assert es[..k] == Sends(k, payload);
    }
    assert StaysPending(r, es, n);
    OtherPayload(p, n);
  }

  // In every state a run can reach: the pending frames are kept across a reconnect, whatever follows, exactly when
  // there are none.
  lemma ReconnectKeepsIff(s: State)
    requires Inv(s)
    ensures (forall n :: n in s.queue.pending ==> Kept(Reconnect(s), n)) <==> s.queue.pending == map[]
  {
    hide Inv, Kept;
    if s.queue.pending != map[] {
      var n :| n in s.queue.pending;
      PendingLost(s, n);
    }
  }

  // For instance one frame sent, a reconnect, another frame sent: the first is gone without having been settled.
  lemma FrameOneLost()
    ensures var s := Steps(START, [Send([1], 7, 0.0)]);
      var t := Steps(Reconnect(s), [Send([2], 7, 1.0)]);
      && s.queue.pending == map[1 := Entry(Wire(Packet(7, 1, [1])), 0, 0.0)]
      && t.queue.pending == map[1 := Entry(Wire(Packet(7, 1, [2])), 0, 1.0)]
      && Wire(Packet(7, 1, [1])) != Wire(Packet(7, 1, [2]))
  {
    hide Wire;
    var first, second := Send([1], 7, 0.0), Send([2], 7, 1.0);
    assert [first][..0] == [] && [second][..0] == [];
    assert Steps(START, [first]) == Step(Steps(START, []), first);
    var r := Reconnect(Steps(START, [first]));
    assert Steps(r, [second]) == Step(Steps(r, []), second);
    if Wire(Packet(7, 1, [1])) == Wire(Packet(7, 1, [2])) { WireInjective(Packet(7, 1, [1]), Packet(7, 1, [2])); }
  }

  // ---- what is left of the guarantees ----

  lemma StepKeepsBelow(s: State, e: Event, n: nat)
    requires n in s.queue.pending && n in Step(s, e).queue.pending && Step(s, e).session.counter < n
    ensures s.session.counter < n && Step(s, e).queue.pending[n].frame == s.queue.pending[n].frame
  {
    hide Wire, Packable, Parse, KindOf, Without, Expired, NackAll;
    match e
    case Send(payload, session, now) =>
    case Reply(payload) =>
    case Recv(frame, now) => var p, kind, ignored := RecvCases(s, frame, now);
    case Sweep(now) => NackAllFrames(s.queue, Expired(s.queue, s.queue.order, now), now, n);
  }

  // From any state, and so from that after a reconnect: while the counter stays below n, a pending number n keeps its
  // frame.
  lemma {:induction false} KeptBelow(s: State, es: seq<Event>, n: nat)
    requires n in s.queue.pending && StaysPending(s, es, n) && Steps(s, es).session.counter < n
    ensures Steps(s, es).queue.pending[n].frame == s.queue.pending[n].frame
    decreases |es|
  {
    hide Step;
    if es != [] {
      var init := es[..|es| - 1];
      assert n in Steps(s, init).queue.pending;
      forall k | 0 <= k < |init| ensures n in Steps(s, init[..k]).queue.pending { assert init[..k] == es[..k]; }
      StepKeepsBelow(Steps(s, init), es[|es| - 1], n);
      KeptBelow(s, init, n);
    }
  }

  // How often a number may have gone out on the new wire: as often as its old frame was retried there, and once more
  // with all retries once the counter has reached it.
  ghost predicate Allowed(s: State, n: nat)
  {
    var again := if n <= s.session.counter then 1 + MAX_RETRIES else 0;
    if n in s.queue.pending
    then s.queue.pending[n].retries <= MAX_RETRIES && Count(s.wire, n) <= s.queue.pending[n].retries + again
    else Count(s.wire, n) <= MAX_RETRIES + again
  }

  lemma NackAllowed(s: State, m: nat, now: real, n: nat)
    requires Allowed(s, n)
    ensures Allowed(NackState(s, m, now), n)
  {
    hide Without, Count;
    if m in s.queue.pending && s.queue.pending[m].retries + 1 <= MAX_RETRIES {
      CountSnoc(s.wire, Sent(m, s.queue.pending[m].frame), n);
    } else {
      assert s.wire + [] == s.wire;
    }
  }

  lemma {:induction false} NackAllAllowed(s: State, ns: seq<nat>, now: real, n: nat)
    requires Allowed(s, n)
    ensures Allowed(NackAllState(s, ns, now), n)
    decreases |ns|
  {
    hide Allowed, NackState, NackAllState;
    NackAllStep(s, ns, now);
    if ns != [] {
      NackAllowed(s, ns[0], now, n);
      NackAllAllowed(NackState(s, ns[0], now), ns[1..], now, n);
    }
  }

  lemma StepAllowed(s: State, e: Event, n: nat)
    requires Allowed(s, n)
    ensures Allowed(Step(s, e), n)
  {
    hide Wire, Packable, Parse, KindOf, Without, Expired, NackAll, Count;
    match e
    case Send(payload, session, now) =>
      var p := NextPacket(s.session, payload, session);
      CountSnoc(s.wire, Sent(p.number, Wire(p)), n);
    case Reply(payload) =>
      var p := NextPacket(s.session, payload, 0);
      CountSnoc(s.wire, Sent(p.number, Wire(p)), n);
    case Recv(frame, now) =>
      var p, kind, ignored := RecvCases(s, frame, now);
      if !ignored && kind == Nack {
        NackAllowed(s.(session := s.session.(id := p.session, locked := true)), p.number, now, n);
      }
    case Sweep(now) => NackAllAllowed(s, Expired(s.queue, s.queue.order, now), now, n);
  }

  lemma {:induction false} StepsAllowed(s: State, es: seq<Event>, n: nat)
    requires Allowed(s, n)
    ensures Allowed(Steps(s, es), n)
    decreases |es|
  {
    hide Allowed, Step;
    if es != [] {
      StepsAllowed(s, es[..|es| - 1], n);
      StepAllowed(Steps(s, es[..|es| - 1]), es[|es| - 1], n);
    }
  }

  // After a reconnect a number goes on the wire at most seven times instead of four; as long as the counter has not
  // reached it, at most three times.
  lemma ReconnectBound(s: State, es: seq<Event>, n: nat)
    requires Inv(s)
    ensures var t := Steps(Reconnect(s), es);
      Count(t.wire, n) <= if n <= t.session.counter then 1 + 2 * MAX_RETRIES else MAX_RETRIES
  {
    hide Steps;
    var r := Reconnect(s);
    assert n in s.queue.pending ==> EntryOk(s.wire, n, s.queue.pending[n]);
    assert Count(r.wire, n) == 0;
    StepsAllowed(r, es, n);
  }

  lemma SweepOne(s: State, n: nat, e: Entry, now: real)
    requires s.queue == Queue(map[n := e], [n]) && now - e.sentAt > ACK_TIMEOUT && e.retries < MAX_RETRIES
    ensures Step(s, Sweep(now)) ==
      s.(queue := Queue(map[n := Entry(e.frame, e.retries + 1, now)], [n]), wire := s.wire + [Sent(n, e.frame)])
  {
    assert [n][..0] == [] && [n][1..] == [];
    assert Expired(s.queue, [], now) == [];
    assert Expired(s.queue, [n], now) == [n];
    assert NackAll(OnNack(s.queue, n, now).0, [], now).1 == [];
    assert NackAll(s.queue, [n], now).1 == [Sent(n, e.frame)];
  }

  // Three timeouts use up the retries of the only pending frame.
  lemma ThreeSweeps(s: State, n: nat, e: Entry, now: real) returns (es: seq<Event>)
    requires s.queue == Queue(map[n := e], [n]) && e.retries == 0 && now - e.sentAt > ACK_TIMEOUT
    ensures Steps(s, es).session == s.session && Steps(s, es).queue.order == [n] && n in Steps(s, es).queue.pending
    ensures Steps(s, es).queue.pending.Keys == {n} && Count(Steps(s, es).wire, n) == Count(s.wire, n) + MAX_RETRIES
  {
    hide Step, Count, Steps;
    var a := Step(s, Sweep(now));
    SweepOne(s, n, e, now);
    CountSnoc(s.wire, Sent(n, e.frame), n);
    var f := Entry(e.frame, 1, now);
    var b := Step(a, Sweep(now + 3.0));
    SweepOne(a, n, f, now + 3.0);
    CountSnoc(a.wire, Sent(n, e.frame), n);
    var g := Entry(e.frame, 2, now + 3.0);
    SweepOne(b, n, g, now + 6.0);
    CountSnoc(b.wire, Sent(n, e.frame), n);
    es := [Sweep(now), Sweep(now + 3.0), Sweep(now + 6.0)];
    StepsOfThree(s, es[0], es[1], es[2]);
  }

  lemma StepsOfThree(s: State, x: Event, y: Event, z: Event)
    ensures Steps(s, [x, y, z]) == Step(Step(Step(s, x), y), z)
  {
    hide Step;
    assert [x, y, z][..2] == [x, y] && [x, y][..1] == [x] && [x][..0] == [];
    assert Steps(s, [x]) == Step(s, x);
    assert Steps(s, [x, y]) == Step(Step(s, x), y);
  }

  lemma {:induction false} StepsConcat(s: State, a: seq<Event>, b: seq<Event>)
    ensures Steps(s, a + b) == Steps(Steps(s, a), b)
    decreases |b|
  {
    hide Step;
    if b == [] {
      assert a + b == a;
    } else {
      StepsConcat(s, a, b[..|b| - 1]);
      assert (a + b)[..|a + b| - 1] == a + b[..|b| - 1];
    }
  }

  // Seven times it can be: the frame of the old connection times out three times, then another takes its number.
  lemma SevenTimes(s: State, payload: seq<Byte>, e: Entry) returns (es: seq<Event>)
    requires s.queue == Queue(map[1 := e], [1]) && e.retries == 0 && Packable(Packet(1, 1, payload))
    ensures Count(Steps(Reconnect(s), es).wire, 1) == 1 + 2 * MAX_RETRIES
  {
    hide Steps, Wire, Count, Packable;
    var r := Reconnect(s);
    assert Count(r.wire, 1) == 0 by { CountFresh(r.wire, 1); }
    var first := ThreeSweeps(r, 1, e, e.sentAt + 3.0);
    var t := Steps(r, first);
    var send := Send(payload, 1, 0.0);
    var u := Step(t, send);
    assert u.queue.pending == map[1 := Entry(Wire(Packet(1, 1, payload)), 0, 0.0)];
    CountSnoc(t.wire, Sent(1, Wire(Packet(1, 1, payload))), 1);
    var second := ThreeSweeps(u, 1, Entry(Wire(Packet(1, 1, payload)), 0, 0.0), 3.0);
    es := first + [send] + second;
    StepsSnoc(r, first, send);
    StepsConcat(r, first + [send], second);
  }

  lemma StepsSnoc(s: State, a: seq<Event>, e: Event)
    ensures Steps(s, a + [e]) == Step(Steps(s, a), e)
  {
    assert (a + [e])[..|a|] == a;
  }
}
