/** Every step of the receive-queue protocol keeps its invariant, and what follows for whole runs. */
module VirtSafety {
  import Bits
  import opened VirtMemory
  import opened VirtProtocol

  // ---- counting and wrapping ----

  lemma {:induction false} IdsCount(cs: seq<Completion>)
    ensures |Ids(cs)| == |cs|
  {
    if cs != [] { IdsCount(cs[1..]); }
  }

  lemma {:induction false} IdsSnoc(cs: seq<Completion>, c: Completion)
    ensures Ids(cs + [c]) == Ids(cs) + multiset{c.id}
  {
    if cs == [] {
      assert cs + [c] == [c];
      assert [c][1..] == [];
    } else {
      IdsSnoc(cs[1..], c);
      assert (cs + [c])[1..] == cs[1..] + [c];
    }
  }

  // Eight buffers in all.
  lemma Census(s: State)
    requires Ownership(s)
    ensures |s.posted| + |s.held| + (|s.completed| - s.popped) + |DriverHand(s.driver)| + |DeviceHand(s.device)| ==
      BUFFERS
  {
    IdsCount(s.completed[s.popped..]);
    WholeIsEight(Bag(s));
  }

  lemma WholeIsEight(bag: multiset<nat>)
    requires Whole(bag)
    ensures |bag| == BUFFERS
  {
    assert bag == multiset{0, 1, 2, 3, 4, 5, 6, 7};
  }

  // A ring slot by wrapped index is the slot by counter.
  // The 16-bit indices name the same ring entries as the counters exactly when the ring size divides 2^16.
  lemma SlotsAgreeIff(size: nat)
    requires size > 0
    ensures (forall x: nat :: (x % WRAP) % size == x % size) <==> WRAP % size == 0
  {
    if WRAP % size == 0 {
      forall x: nat ensures (x % WRAP) % size == x % size { SlotAgrees(size, x); }
    } else {
      ZeroSlot(size);
      assert (WRAP % WRAP) % size != WRAP % size;
    }
  }

  lemma ZeroSlot(size: nat)
    requires size > 0
    ensures WRAP % WRAP == 0 && 0 % size == 0
  {
    Bits.ModUnique(0, size, 0, 0);
  }

  lemma SlotAgrees(size: nat, x: nat)
    requires size > 0 && WRAP % size == 0
    ensures (x % WRAP) % size == x % size
  {
    var k, q, y := WRAP / size, x / WRAP, x % WRAP;
    assert WRAP == size * k && x == WRAP * q + y && y == size * (y / size) + y % size;
    assert x == size * (k * q + y / size) + y % size by { Regrouped(size, k, q, y / size); }
    Bits.ModUnique(x, size, k * q + y / size, y % size);
  }

  lemma Regrouped(a: nat, b: nat, c: nat, d: nat)
    ensures a * (b * c + d) == (a * b) * c + a * d
  {
  }

  lemma WrapSlot(size: nat, x: nat)
    requires size == 8 || size == 16
    ensures (x % WRAP) % size == x % size
  {
    var q, y := x / WRAP, x % WRAP;
    if size == 8 {
      Bits.ModUnique(x, 8, 8192 * q + y / 8, y % 8);
    } else {
      Bits.ModUnique(x, 16, 4096 * q + y / 16, y % 16);
    }
  }

  lemma WrapInc(x: nat)
    ensures Inc(x % WRAP) == (x + 1) % WRAP
  {
  }

  // Counters less than a ring apart use different slots.
  lemma SlotsDiffer(size: nat, x: nat, y: nat)
    requires size > 0 && x < y < x + size
    ensures x % size != y % size
  {
    var d := y / size - x / size;
    assert y - x == size * d + (y % size - x % size);
    if d >= 1 { assert size * d >= size; } else { assert size * d <= 0; }
  }

  // Equal wrapped indices less than 2^16 apart are equal counters.
  lemma WrapEqual(x: nat, y: nat)
    requires x <= y < x + WRAP
    ensures x % WRAP == y % WRAP <==> x == y
  {
    if x < y { SlotsDiffer(WRAP, x, y); }
  }

  // ---- framing ----

  // No ring entry, used element or history changed.
  lemma RingsKept(size: nat, s: State, s': State)
    requires Sized(size, s) && Sized(size, s') && Rings(size, s)
    requires s'.posted == s.posted && s'.listed == s.listed && s'.popped == s.popped && s'.completed == s.completed
    requires s'.device == s.device && (s'.driver.Listed? ==> s'.driver == s.driver)
    requires forall h :: 8 * size + 2 <= h < 4096 && h != USED_IDX ==> s'.mem[h] == s.mem[h]
    ensures Rings(size, s')
  {
    AvailKept(size, s, s');
    UsedKept(size, s, s');
  }

  // No ring entry changed.
  lemma AvailKept(size: nat, s: State, s': State)
    requires Sized(size, s) && Sized(size, s') && Rings(size, s)
    requires s'.posted == s.posted && s'.listed == s.listed && (s'.driver.Listed? ==> s'.driver == s.driver)
    requires forall h :: 8 * size + 2 <= h < 2048 ==> s'.mem[h] == s.mem[h]
    ensures forall i :: 0 <= i < |s.posted| ==> AvailSlot(s'.mem, size, s.listed - |s.posted| + i, s.posted[i])
    ensures s'.driver.Listed? ==> AvailSlot(s'.mem, size, s.listed, s.driver.id)
  {
    forall i | 0 <= i < |s.posted| ensures AvailSlot(s'.mem, size, s.listed - |s.posted| + i, s.posted[i]) {
      SlotsInside(size, s.listed - |s.posted| + i);
      assert AvailSlot(s.mem, size, s.listed - |s.posted| + i, s.posted[i]);
    }
    SlotsInside(size, s.listed);
  }

  // No used element changed.
  lemma UsedKept(size: nat, s: State, s': State)
    requires Sized(size, s) && Sized(size, s') && Rings(size, s)
    requires s'.popped == s.popped && s'.completed == s.completed && s'.device == s.device
    requires forall h :: 2050 <= h < 4096 ==> s'.mem[h] == s.mem[h]
    ensures forall j :: s.popped <= j < |s.completed| ==> UsedSlot(s'.mem, size, j, s.completed[j])
    ensures s.device.Written? ==> UsedSlot(s'.mem, size, |s.completed|, s.device.done)
  {
    forall j | s.popped <= j < |s.completed| ensures UsedSlot(s'.mem, size, j, s.completed[j]) {
      SlotsInside(size, j);
      assert UsedSlot(s.mem, size, j, s.completed[j]);
    }
    SlotsInside(size, |s.completed|);
  }

  lemma DescriptorsKept(phys: nat, s: State, s': State)
    requires Descriptors(phys, s) && |s'.mem| == 4096 && forall h :: 0 <= h < 64 ==> s'.mem[h] == s.mem[h]
    ensures Descriptors(phys, s')
  {
    forall id | 0 <= id < BUFFERS ensures DescAt(s'.mem, id) == DescAt(s.mem, id) {}
  }

  // ---- driver steps ----

  lemma SeeKeeps(size: nat, phys: nat, s: State, s': State)
    requires Inv(size, phys, s) && See(s, s')
    ensures Inv(size, phys, s')
  {
    hide Indices, Rings, Ownership, Descriptors;
    UsedIndex(size, s);
    SeeIndices(size, s, s');
    SeeOwnership(s, s');
    assert Descriptors(phys, s') by { DescriptorsKept(phys, s, s'); }
    assert Rings(size, s') by { RingsKept(size, s, s'); }
  }

  // The used index tells whether completions are left to pop: never more than eight are.
  lemma UsedIndex(size: nat, s: State)
    requires Sized(size, s) && Ownership(s) && Indices(size, s)
    ensures s.popped <= |s.completed| && (s.mem[USED_IDX] == s.last <==> s.popped == |s.completed|)
  {
    Census(s);
    WrapEqual(s.popped, |s.completed|);
  }

  lemma SeeIndices(size: nat, s: State, s': State)
    requires Sized(size, s) && Indices(size, s) && See(s, s') && s.popped < |s.completed|
    ensures Sized(size, s') && Indices(size, s')
  {
  }

  lemma SeeOwnership(s: State, s': State)
    requires Ownership(s) && USED_IDX < |s.mem| && See(s, s')
    ensures Ownership(s')
  {
    assert Bag(s') == Bag(s);
  }

  // The element the driver reads is the oldest completion it has not popped.
  lemma PopReads(size: nat, s: State)
    requires Sized(size, s) && History(s) && Indices(size, s) && Rings(size, s) && s.driver.Seen?
    ensures UsedElem(s.last % size) + 3 < |s.mem| && s.popped < |s.completed|
    ensures s.mem[UsedElem(s.last % size)] == s.completed[s.popped].id
    ensures ReadWord(s.mem, UsedElem(s.last % size) + 2) == s.completed[s.popped].len
  {
    SlotsInside(size, s.last);
    WrapSlot(size, s.popped);
    assert UsedSlot(s.mem, size, s.popped, s.completed[s.popped]);
    SmallWord(s.mem, UsedElem(s.last % size));
  }

  lemma SmallWord(mem: Memory, h: nat)
    requires h + 1 < |mem| && ReadWord(mem, h) < BUFFERS
    ensures mem[h] == ReadWord(mem, h)
  {
  }

  lemma PopOwnership(s: State, s': State, c: Completion)
    requires Ownership(s) && s.popped < |s.completed| && c == s.completed[s.popped] && !InHand(s.driver)
    requires s' == s.(driver := Popped(c.id), last := s'.last, popped := s.popped + 1, delivered := s'.delivered)
    ensures Ownership(s')
  {
    var rest := s.completed[s.popped + 1..];
    assert s.completed[s.popped..] == [c] + rest;
    assert ([c] + rest)[1..] == rest;
    assert Ids(s.completed[s.popped..]) == multiset{c.id} + Ids(rest);
    assert Bag(s') == Bag(s);
  }

  lemma PopKeeps(size: nat, phys: nat, s: State, s': State)
    requires Inv(size, phys, s) && UsedElem(s.last % size) + 3 < |s.mem| && Pop(size, s, s')
    ensures Inv(size, phys, s')
  {
    PopReads(size, s);
    PopOwnership(s, s', s.completed[s.popped]);
    PopHistory(s, s', s.completed[s.popped]);
    PopIndices(size, s, s');
  }

  lemma PopHistory(s: State, s': State, c: Completion)
    requires History(s) && s.popped < |s.completed| && c == s.completed[s.popped] && !InHand(s.driver)
    requires s' == s.(driver := Popped(c.id), last := s'.last, popped := s.popped + 1,
      delivered := s.delivered + FramesOf(c))
    ensures History(s')
  {
    assert s.completed[..s.popped + 1][..s.popped] == s.completed[..s.popped];
  }

  lemma PopIndices(size: nat, s: State, s': State)
    requires Sized(size, s) && Indices(size, s) && Rings(size, s) && s.popped < |s.completed| && s.driver.Seen?
    requires s' == s.(driver := s'.driver, last := Inc(s.last), popped := s.popped + 1, delivered := s'.delivered) &&
      s'.driver.Popped?
    ensures Indices(size, s') && Rings(size, s')
  {
    WrapInc(s.popped);
  }

  lemma HandIsBuffer(s: State)
    requires Ownership(s) && InHand(s.driver)
    ensures s.driver.id < BUFFERS
  {
    assert Bag(s)[s.driver.id] > 0;
  }

  lemma DescribedAll(phys: nat, s: State, s': State)
    requires Descriptors(phys, s) && s.driver.Popped? && s.driver.id < BUFFERS
    requires phys + s.driver.id * BUF_SIZE < 0x1_0000_0000_0000_0000
    requires s'.mem == WriteDesc(s.mem, s.driver.id, phys + s.driver.id * BUF_SIZE, BUF_SIZE, DESC_F_WRITE, 0)
    ensures Descriptors(phys, s')
    ensures forall h :: 64 <= h < 4096 ==> s'.mem[h] == s.mem[h]
  {
    forall id | 0 <= id < BUFFERS ensures DescAt(s'.mem, id) == (phys + id * BUF_SIZE, BUF_SIZE, DESC_F_WRITE, 0) {
      if id != s.driver.id { OtherDesc(s.mem, s'.mem, id); }
    }
  }

  lemma OtherDesc(mem: Memory, mem': Memory, id: nat)
    requires 8 * id + 8 <= |mem| == |mem'| && forall h :: 8 * id <= h < 8 * id + 8 ==> mem'[h] == mem[h]
    ensures DescAt(mem', id) == DescAt(mem, id)
  {
  }

  lemma DescribeIndices(size: nat, s: State, s': State)
    requires Sized(size, s) && Indices(size, s) && s.driver.Popped?
    requires s' == s.(driver := Described(s.driver.id), mem := s'.mem)
    requires |s'.mem| == 4096 && forall h :: 64 <= h < 4096 ==> s'.mem[h] == s.mem[h]
    ensures Indices(size, s')
  {
  }

  lemma DescribeKeeps(size: nat, phys: nat, s: State, s': State)
    requires Inv(size, phys, s) && Describe(phys, s, s')
    ensures Inv(size, phys, s')
  {
    HandIsBuffer(s);
    assert Bag(s') == Bag(s);
    DescribedAll(phys, s, s');
    DescribeIndices(size, s, s');
    RingsKept(size, s, s');
  }

  // The entry being written is not one the device still has to read.
  lemma ListRings(size: nat, s: State, s': State)
    requires Sized(size, s) && Rings(size, s) && Indices(size, s) && |s.posted| < BUFFERS
    requires AvailEntry(size, s.next % size) < |s.mem| && List(size, s, s')
    ensures Rings(size, s')
  {
    WrapSlot(size, s.listed);
    SlotsInside(size, s.listed);
    forall i | 0 <= i < |s.posted| ensures AvailSlot(s'.mem, size, s.listed - |s.posted| + i, s.posted[i]) {
      SlotsInside(size, s.listed - |s.posted| + i);
      SlotsDiffer(size, s.listed - |s.posted| + i, s.listed);
      assert AvailSlot(s.mem, size, s.listed - |s.posted| + i, s.posted[i]);
    }
    UsedKept(size, s, s');
  }

  lemma ListKeeps(size: nat, phys: nat, s: State, s': State)
    requires Inv(size, phys, s) && AvailEntry(size, s.next % size) < |s.mem| && List(size, s, s')
    ensures Inv(size, phys, s')
  {
    Census(s);
    assert |DriverHand(s.driver)| == 1;
    assert Bag(s') == Bag(s);
    ListRings(size, s, s');
    DescriptorsKept(phys, s, s');
  }

  lemma PublishRings(size: nat, s: State, s': State)
    requires Sized(size, s) && Rings(size, s) && AvailIdx(size) < |s.mem| && Publish(size, s, s')
    ensures Rings(size, s')
  {
    assert s'.listed - |s'.posted| == s.listed - |s.posted|;
    forall i | 0 <= i < |s'.posted| ensures AvailSlot(s'.mem, size, s'.listed - |s'.posted| + i, s'.posted[i]) {
      SlotsInside(size, s'.listed - |s'.posted| + i);
      assert i < |s.posted| ==> AvailSlot(s.mem, size, s.listed - |s.posted| + i, s.posted[i]);
    }
    UsedKept(size, s, s');
  }

  lemma PublishIndices(size: nat, s: State, s': State)
    requires Sized(size, s) && Indices(size, s) && AvailIdx(size) < |s.mem| && Publish(size, s, s')
    ensures Indices(size, s')
  {
    WrapInc(s.listed);
  }

  lemma PublishKeeps(size: nat, phys: nat, s: State, s': State)
    requires Inv(size, phys, s) && AvailIdx(size) < |s.mem| && Publish(size, s, s')
    ensures Inv(size, phys, s')
  {
    PublishIndices(size, s, s');
    PublishRings(size, s, s');
    DescriptorsKept(phys, s, s');
    assert Bag(s') == Bag(s);
  }

  // ---- device steps ----

  lemma TakeReads(size: nat, s: State)
    requires Sized(size, s) && Indices(size, s) && Rings(size, s)
    requires AvailIdx(size) < |s.mem| && s.mem[AvailIdx(size)] != s.devAvail
    ensures AvailEntry(size, s.devAvail % size) < |s.mem| && s.posted != []
    ensures s.mem[AvailEntry(size, s.devAvail % size)] == s.posted[0]
  {
    SlotsInside(size, s.devAvail);
    WrapSlot(size, s.listed - |s.posted|);
    assert AvailSlot(s.mem, size, s.listed - |s.posted| + 0, s.posted[0]);
  }

  lemma TakeOwnership(s: State, id: nat)
    requires Ownership(s) && s.posted != [] && id == s.posted[0]
    ensures multiset(s.posted) == multiset{id} + multiset(s.posted[1..])
    ensures id !in s.held && multiset(s.held + {id}) == multiset(s.held) + multiset{id}
  {
    assert s.posted == [id] + s.posted[1..];
    assert Bag(s)[id] >= multiset(s.posted)[id] + multiset(s.held)[id];
  }

  lemma TakeRings(size: nat, s: State, s': State)
    requires Sized(size, s) && Rings(size, s) && s.posted != []
    requires s' == s.(devAvail := s'.devAvail, held := s'.held, posted := s.posted[1..])
    ensures Rings(size, s')
  {
    forall i | 0 <= i < |s'.posted| ensures AvailSlot(s'.mem, size, s'.listed - |s'.posted| + i, s'.posted[i]) {
      assert AvailSlot(s.mem, size, s.listed - |s.posted| + (i + 1), s.posted[i + 1]);
    }
  }

  lemma TakeIndices(size: nat, s: State, s': State)
    requires Sized(size, s) && Indices(size, s) && s.posted != []
    requires s' == s.(devAvail := Inc(s.devAvail), held := s'.held, posted := s.posted[1..])
    ensures Indices(size, s')
  {
    WrapInc(s.listed - |s.posted|);
  }

  lemma TakeKeeps(size: nat, phys: nat, s: State, s': State)
    requires Inv(size, phys, s) && AvailIdx(size) < |s.mem| && AvailEntry(size, s.devAvail % size) < |s.mem|
    requires Take(size, s, s')
    ensures Inv(size, phys, s')
  {
    TakeReads(size, s);
    TakeOwnership(s, s.posted[0]);
    TakeRings(size, s, s');
    TakeIndices(size, s, s');
    assert Bag(s') == Bag(s);
  }

  // The element being written is not one the driver still has to read.
  lemma FillRings(size: nat, s: State, s': State, c: Completion)
    requires Sized(size, s) && Rings(size, s) && Indices(size, s) && |s.completed| - s.popped < BUFFERS
    requires UsedElem(s.devUsed % size) + 3 < |s.mem| && Fill(size, s, s', c)
    ensures Rings(size, s')
  {
    WrapSlot(size, |s.completed|);
    SlotsInside(size, |s.completed|);
    WordRoundTrip(s.mem, UsedElem(|s.completed| % size), c.id);
    forall j | s.popped <= j < |s.completed| ensures UsedSlot(s'.mem, size, j, s.completed[j]) {
      SlotsInside(size, j);
      SlotsDiffer(size, j, |s.completed|);
      assert UsedSlot(s.mem, size, j, s.completed[j]);
    }
    AvailKept(size, s, s');
  }

  lemma FillOwnership(s: State, s': State, c: Completion)
    requires Ownership(s) && s.device.Ready? && c.id in s.held
    requires s' == s.(device := Written(c), held := s.held - {c.id}, mem := s'.mem)
    ensures Ownership(s') && c.id < BUFFERS
  {
    assert multiset(s.held) == multiset(s.held - {c.id}) + multiset{c.id};
    assert Bag(s)[c.id] > 0;
    assert Bag(s') == Bag(s);
  }

  lemma FillKeeps(size: nat, phys: nat, s: State, s': State, c: Completion)
    requires Inv(size, phys, s) && UsedElem(s.devUsed % size) + 3 < |s.mem| && Fill(size, s, s', c)
    ensures Inv(size, phys, s')
  {
    Census(s);
    assert |s.held| > 0 by { assert c.id in s.held; }
    FillRings(size, s, s', c);
    FillOwnership(s, s', c);
    DescriptorsKept(phys, s, s');
  }

  lemma PublishUsedOwnership(s: State, s': State)
    requires Ownership(s) && USED_IDX < |s.mem| && PublishUsed(s, s')
    ensures Ownership(s')
  {
    assert s'.completed[s.popped..] == s.completed[s.popped..] + [s.device.done];
    IdsSnoc(s.completed[s.popped..], s.device.done);
    assert Bag(s') == Bag(s);
  }

  lemma PublishUsedRings(size: nat, s: State, s': State)
    requires Sized(size, s) && Rings(size, s) && PublishUsed(s, s')
    ensures Rings(size, s')
  {
    forall j | s'.popped <= j < |s'.completed| ensures UsedSlot(s'.mem, size, j, s'.completed[j]) {
      SlotsInside(size, j);
      assert j < |s.completed| ==> UsedSlot(s.mem, size, j, s.completed[j]);
    }
    AvailKept(size, s, s');
  }

  lemma PublishUsedKeeps(size: nat, phys: nat, s: State, s': State)
    requires Inv(size, phys, s) && PublishUsed(s, s')
    ensures Inv(size, phys, s')
  {
    PublishUsedOwnership(s, s');
    PublishUsedRings(size, s, s');
    DescriptorsKept(phys, s, s');
    WrapInc(|s.completed|);
    assert s'.completed[..s.popped] == s.completed[..s.popped];
  }

  // ---- runs ----

  lemma StepKeeps(size: nat, phys: nat, s: State, s': State)
    requires Inv(size, phys, s) && Next(size, phys, s, s')
    ensures Inv(size, phys, s')
  {
    SlotsInside(size, s.next);
    SlotsInside(size, s.last);
    SlotsInside(size, s.devAvail);
    SlotsInside(size, s.devUsed);
    if See(s, s') {
      SeeKeeps(size, phys, s, s');
    } else if Pop(size, s, s') {
      PopKeeps(size, phys, s, s');
    } else if Describe(phys, s, s') {
      DescribeKeeps(size, phys, s, s');
    } else if List(size, s, s') {
      ListKeeps(size, phys, s, s');
    } else if Publish(size, s, s') {
      PublishKeeps(size, phys, s, s');
    } else if Take(size, s, s') {
      TakeKeeps(size, phys, s, s');
    } else if PublishUsed(s, s') {
      PublishUsedKeeps(size, phys, s, s');
    } else {
      var c :| Fill(size, s, s', c);
      FillKeeps(size, phys, s, s', c);
    }
  }

  function First(k: nat): (r: seq<nat>)
    ensures |r| == k && forall i :: 0 <= i < k ==> r[i] == i
  {
    if k == 0 then [] else First(k - 1) + [k - 1]
  }

  // The state in which the driver leaves its initialisation: all eight buffers posted, nothing used.
  ghost predicate Initial(size: nat, phys: nat, s: State)
  {
    && Sized(size, s) && phys + BUFFERS * BUF_SIZE < 0x1_0000_0000_0000_0000
    && s == State(s.mem, 8, 0, Idle, 0, 0, Ready, {}, First(BUFFERS), 8, 0, [], [])
    && Descriptors(phys, s)
    && s.mem[AvailIdx(size)] == 8 && s.mem[USED_IDX] == 0
    && forall i :: 0 <= i < BUFFERS ==> s.mem[AvailEntry(size, i)] == i
  }

  lemma InitialOwnership(s: State)
    requires s == State(s.mem, 8, 0, Idle, 0, 0, Ready, {}, First(BUFFERS), 8, 0, [], [])
    ensures Ownership(s)
  {
    FirstOnce(BUFFERS);
    assert s.completed[s.popped..] == [];
    assert Bag(s) == multiset(s.posted);
  }

  lemma {:induction false} FirstOnce(k: nat)
    ensures forall id: nat :: multiset(First(k))[id] == if id < k then 1 else 0
  {
    if k > 0 { FirstOnce(k - 1); }
  }

  lemma InitialRings(size: nat, s: State)
    requires Sized(size, s) && s.posted == First(BUFFERS) && s.listed == 8 && s.completed == [] && s.popped == 0
    requires s.driver.Idle? && s.device.Ready?
    requires forall i :: 0 <= i < BUFFERS ==> s.mem[AvailEntry(size, i)] == i
    ensures Rings(size, s)
  {
    forall i | 0 <= i < |s.posted| ensures AvailSlot(s.mem, size, s.listed - |s.posted| + i, s.posted[i]) {
      assert i % size == i;
      assert s.mem[AvailEntry(size, i)] == i;
    }
  }

  lemma InitialInv(size: nat, phys: nat, s: State)
    requires Initial(size, phys, s)
    ensures Inv(size, phys, s)
  {
    InitialOwnership(s);
    InitialRings(size, s);
  }

  ghost predicate IsRun(size: nat, phys: nat, run: seq<State>)
  {
    && |run| > 0 && Initial(size, phys, run[0])
    && forall k :: 0 <= k < |run| - 1 ==> Next(size, phys, run[k], run[k + 1])
  }

  lemma {:induction false} RunKeepsInv(size: nat, phys: nat, run: seq<State>, k: nat)
    requires IsRun(size, phys, run) && k < |run|
    ensures Inv(size, phys, run[k])
    decreases k
  {
    if k == 0 {
      InitialInv(size, phys, run[0]);
    } else {
      RunKeepsInv(size, phys, run, k - 1);
      assert Next(size, phys, run[k - 1], run[k - 1 + 1]);
      StepKeeps(size, phys, run[k - 1], run[k]);
    }
  }

  // The frame is a range of one 2048-byte buffer, behind its header.
  ghost predicate InOneBuffer(f: Frame)
  {
    exists id :: 0 <= id < BUFFERS && id * BUF_SIZE + NET_HDR_SIZE == f.offset && 0 < f.len &&
      f.offset + f.len <= (id + 1) * BUF_SIZE
  }

  lemma {:induction false} FramesInside(cs: seq<Completion>)
    requires forall j :: 0 <= j < |cs| ==> cs[j].len <= BUF_SIZE && cs[j].id < BUFFERS
    ensures forall i :: 0 <= i < |Frames(cs)| ==> InOneBuffer(Frames(cs)[i])
    decreases |cs|
  {
    if cs != [] {
      var c := cs[|cs| - 1];
      FramesInside(cs[..|cs| - 1]);
      assert c.len > NET_HDR_SIZE ==> InOneBuffer(FramesOf(c)[0]) by {
        assert c.id * BUF_SIZE + BUF_SIZE == (c.id + 1) * BUF_SIZE;
      }
    }
  }

  // The frames are those of the completions longer than the 10-byte header, one each and in order: that of completion
  // at[i] is the rest of its own 2048-byte buffer behind the header.
  ghost predicate Carried(cs: seq<Completion>, fs: seq<Frame>, at: seq<nat>)
  {
    && |at| == |fs| && (forall i :: 0 <= i < |at| ==> at[i] < |cs|)
    && (forall i, j :: 0 <= i < j < |at| ==> at[i] < at[j])
    && (forall j :: 0 <= j < |cs| ==> (j in at <==> cs[j].len > 10))
    && (forall i :: 0 <= i < |at| ==> fs[i] == Frame(2048 * cs[at[i]].id + 10, cs[at[i]].len - 10))
  }

  lemma {:induction false} FramesCarried(cs: seq<Completion>) returns (at: seq<nat>)
    ensures Carried(cs, Frames(cs), at)
    decreases |cs|
  {
    hide Carried;
    if cs == [] {
      NoneCarried();
      return [];
    }
    var init, c := cs[..|cs| - 1], cs[|cs| - 1];
    at := FramesCarried(init);
    assert init + [c] == cs;
    if c.len > 10 {
      OneMoreCarried(init, Frames(init), at, c);
      at := at + [|init|];
    } else {
      NoMoreCarried(init, Frames(init), at, c);
      assert Frames(init) + [] == Frames(init);
    }
  }

  lemma NoneCarried()
    ensures Carried([], [], [])
  {
  }

  lemma OneMoreCarried(cs: seq<Completion>, fs: seq<Frame>, at: seq<nat>, c: Completion)
    requires Carried(cs, fs, at) && c.len > 10
    ensures Carried(cs + [c], fs + [Frame(2048 * c.id + 10, c.len - 10)], at + [|cs|])
  {
    var cs', at' := cs + [c], at + [|cs|];
    forall j | 0 <= j < |cs'| ensures j in at' <==> cs'[j].len > 10 { assert j < |cs| ==> cs'[j] == cs[j]; }
    forall i | 0 <= i < |at| ensures cs'[at'[i]] == cs[at[i]] {}
  }

  lemma NoMoreCarried(cs: seq<Completion>, fs: seq<Frame>, at: seq<nat>, c: Completion)
    requires Carried(cs, fs, at) && c.len <= 10
    ensures Carried(cs + [c], fs, at)
  {
    var cs' := cs + [c];
    forall j | 0 <= j < |cs'| ensures j in at <==> cs'[j].len > 10 { assert j < |cs| ==> cs'[j] == cs[j]; }
    forall i | 0 <= i < |at| ensures cs'[at[i]] == cs[at[i]] {}
  }

  // In every state of every run: each buffer is in one place and its descriptor names it as writable; between loop
  // iterations the two driver indices are eight apart modulo 2^16; the frames delivered are those of the popped
  // completions, in order, each inside its own buffer; and the used index equals the driver's exactly when every
  // completion was popped, so that a driver which finds nothing to do has delivered every frame.
  lemma RunSafe(size: nat, phys: nat, run: seq<State>, k: nat)
    requires IsRun(size, phys, run) && k < |run|
    ensures var s := run[k];
      && s.popped <= |s.completed| && Whole(Bag(s))
      && (!InHand(s.driver) ==> (s.next + 0x1_0000 - s.last) % 0x1_0000 == 8)
      && s.delivered == Frames(s.completed[..s.popped])
      && (exists at :: Carried(s.completed[..s.popped], s.delivered, at))
      && (forall i :: 0 <= i < |s.delivered| ==> InOneBuffer(s.delivered[i]))
      && (forall id :: 0 <= id < 8 ==> |s.mem| == 4096 && DescAt(s.mem, id) == (phys + id * 2048, 2048, 2, 0))
      && |s.mem| == 4096 && (s.mem[USED_IDX] == s.last <==> s.popped == |s.completed|)
      && (s.mem[USED_IDX] == s.last ==> s.delivered == Frames(s.completed))
  {
    hide Frames, Rings, InOneBuffer, Carried, DescAt;
    RunKeepsInv(size, phys, run, k);
    var s := run[k];
    FramesInside(s.completed[..s.popped]);
    var at := FramesCarried(s.completed[..s.popped]);
    UsedIndex(size, s);
    assert s.completed[..|s.completed|] == s.completed;
    if !InHand(s.driver) { WrapApart(s.popped, BUFFERS); }
  }

  lemma WrapApart(x: nat, d: nat)
    requires d < WRAP
    ensures ((x + d) % WRAP + WRAP - x % WRAP) % WRAP == d
  {
  }

  // The ring entry that the driver is about to write is not one the device has yet to read.
  lemma RunNoOverwrite(size: nat, phys: nat, run: seq<State>, k: nat, i: nat)
    requires IsRun(size, phys, run) && k < |run| && run[k].driver.Described? && i < |run[k].posted|
    ensures var s := run[k];
      && size > 0 && AvailEntry(size, s.next % size) != AvailEntry(size, (s.devAvail + i) % WRAP % size)
  {
    hide Rings, Descriptors, Ownership, IsRun;
    RunKeepsInv(size, phys, run, k);
    var s := run[k];
    Census(s);
    assert |DriverHand(s.driver)| == 1;
    var x := s.listed - |s.posted|;
    WrapSlot(size, s.listed);
    WrapSlot(size, x + i);
    WrapAdd(x, i);
    SlotsDiffer(size, x + i, s.listed);
  }

  lemma WrapAdd(x: nat, i: nat)
    ensures (x % WRAP + i) % WRAP == (x + i) % WRAP
  {
  }

  // Completions and deliveries are only ever appended, so no frame is delivered twice or withdrawn.
  lemma {:induction false} RunAppends(size: nat, phys: nat, run: seq<State>, j: nat, k: nat)
    requires IsRun(size, phys, run) && j <= k < |run|
    ensures run[j].completed <= run[k].completed && run[j].delivered <= run[k].delivered &&
      run[j].popped <= run[k].popped
    decreases k - j
  {
    if j < k {
      hide Next, Initial;
      RunAppends(size, phys, run, j, k - 1);
      assert Next(size, phys, run[k - 1], run[k - 1 + 1]);
      StepAppends(size, phys, run[k - 1], run[k]);
    }
  }

  lemma StepAppends(size: nat, phys: nat, s: State, s': State)
    requires Next(size, phys, s, s')
    ensures s.completed <= s'.completed && s.delivered <= s'.delivered && s.popped <= s'.popped
  {
  }
}
