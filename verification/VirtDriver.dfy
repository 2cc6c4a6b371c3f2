/** The driver's side of the receive queue as it runs: static indices and DMA memory updated in place. */
module VirtDriver {
  import opened Bits
  import opened Bytes
  import opened VirtMemory
  import opened VirtProtocol
  import opened VirtSafety

  // Descriptors that fit the two pages of the queue.
  const DESCS: nat := 512

  // The physical addresses of the first buffers fit 64 bits.
  ghost predicate Mapped(phys: nat, buffers: nat) { phys + buffers * BUF_SIZE < 0x1_0000_0000_0000_0000 }

  // The memory after one buffer has been described, listed and published again.
  ghost function Recycled(size: nat, phys: nat, mem: Memory, next: Half, id: nat): (r: Memory)
    requires 1 <= size <= 16 && |mem| == 4096 && id < DESCS && Mapped(phys, id)
    ensures |r| == 4096
  {
    WriteDesc(mem, id, phys + id * BUF_SIZE, BUF_SIZE, DESC_F_WRITE, 0)
      [AvailEntry(size, next % size) := id][AvailIdx(size) := Inc(next)]
  }

  // The memory after the first k buffers have been posted, one after the other.
  ghost function PostAll(size: nat, phys: nat, mem: Memory, k: nat): (r: Memory)
    requires 1 <= size <= 16 && |mem| == 4096 && k <= BUFFERS && Mapped(phys, BUFFERS)
    ensures |r| == 4096
    decreases k
  {
    if k == 0 then mem else Recycled(size, phys, PostAll(size, phys, mem, k - 1), k - 1, k - 1)
  }

  class Queue {
    const size: nat
    const mem: array<Half>
    var next: Half
    var last: Half

    ghost predicate Valid() { 1 <= size <= 16 && mem.Length == 4096 }

    // setup_queue for a device whose queue has `deviceSize` entries: capped size, zeroed pages, free chain.
    constructor (deviceSize: Half)
      requires deviceSize > 0
      ensures Valid() && size == UsedSize(deviceSize) && fresh(mem) && next == 0 && last == 0
      ensures mem[AvailIdx(size)] == 0 && mem[USED_IDX] == 0
      ensures forall i :: 0 <= i < size ==> DescAt(mem[..], i) == (0, 0, 0, if i < size - 1 then i + 1 else 0xFFFF)
      ensures forall h :: 8 * size <= h < 4096 ==> mem[h] == 0
    {
      var n := UsedSize(deviceSize);
      var m := new Half[4096](_ => 0);
      size := n;
      mem := m;
      next := 0;
      last := 0;
      new;
      for i := 0 to n
        invariant next == 0 && last == 0
        invariant forall h :: 8 * i <= h < 4096 ==> mem[h] == 0
        invariant forall j :: 0 <= j < i ==> DescAt(mem[..], j) == (0, 0, 0, if j < n - 1 then j + 1 else 0xFFFF)
      {
        ghost var before := mem[..];
        Describe(i, 0, 0, 0, if i < n - 1 then i + 1 else 0xFFFF);
        forall j | 0 <= j < i ensures DescAt(mem[..], j) == DescAt(before, j) { OtherDesc(before, mem[..], j); }
      }
    }

    // One 16-bit field, through a read-modify-write of its 32-bit word.
    method WriteField(h: nat, v: Half)
      requires h < mem.Length && mem.Length % 2 == 0
      modifies mem
      ensures mem[..] == old(mem[..])[h := v]
    {
      var base := h - h % 2;
      var existing := (mem[base] as int) + 0x1_0000 * (mem[base + 1] as int);
      var shift := (h % 2) * 16;
      var word := Packed(existing, shift, v);
      PackedWriteIsUpdate(mem[..], h, v);
      mem[base], mem[base + 1] := word % 0x1_0000, word / 0x1_0000;
      assert mem[..] == WriteWord(old(mem[..]), base, word);
    }

    method Describe(idx: nat, addr: nat, len: Word, flags: Half, chainNext: Half)
      requires 8 * idx + 8 <= mem.Length && addr < 0x1_0000_0000_0000_0000
      modifies mem
      ensures mem[..] == WriteDesc(old(mem[..]), idx, addr, len, flags, chainNext)
    {
      var lo, hi := addr % 0x1_0000_0000, addr / 0x1_0000_0000;
      var at := 8 * idx;
      mem[at], mem[at + 1] := lo % 0x1_0000, lo / 0x1_0000;
      mem[at + 2], mem[at + 3] := hi % 0x1_0000, hi / 0x1_0000;
      mem[at + 4], mem[at + 5] := len % 0x1_0000, len / 0x1_0000;
      mem[at + 6], mem[at + 7] := flags, chainNext;
      assert mem[..] == WriteDesc(old(mem[..]), idx, addr, len, flags, chainNext);
    }

    method SubmitAvail(id: Half)
      requires Valid()
      modifies mem, this
      ensures next == Inc(old(next)) && last == old(last)
      ensures mem[..] == old(mem[..])[AvailEntry(size, old(next) % size) := id][AvailIdx(size) := next]
    {
      WriteField(AvailEntry(size, next % size), id);
      next := (next + 1) % 0x1_0000;
      WriteField(AvailIdx(size), next);
    }

    // The oldest completion not seen yet, if used.idx has moved past it.
    method PopUsed() returns (r: Option<Completion>)
      requires Valid()
      modifies this
      ensures next == old(next)
      ensures r.None? <==> mem[USED_IDX] == old(last)
      ensures r.None? ==> last == old(last)
      ensures r.Some? ==> last == Inc(old(last))
      ensures r.Some? ==>
        r.value == Completion(mem[UsedElem(old(last) % size)], ReadWord(mem[..], UsedElem(old(last) % size) + 2))
    {
      if mem[USED_IDX] == last { return None; }
      var at := UsedElem(last % size);
      var id := mem[at];
      var len := (mem[at + 2] as int) + 0x1_0000 * (mem[at + 3] as int);
      last := (last + 1) % 0x1_0000;
      r := Some(Completion(id, len));
    }

    // One turn of the receive loop: pop, hand over the frame, recycle the buffer. The descriptor that the completion
    // names must lie in the queue's memory.
    method ServeOne(phys: nat) returns (r: Option<Completion>, frames: seq<Frame>)
      requires Valid() && Mapped(phys, DESCS)
      requires mem[USED_IDX] != last ==> mem[UsedElem(last % size)] < DESCS
      modifies this, mem
      ensures r.None? <==> old(mem[USED_IDX]) == old(last)
      ensures r.None? ==> frames == [] && mem[..] == old(mem[..]) && next == old(next) && last == old(last)
      ensures r.Some? ==>
        r.value == Completion(old(mem[UsedElem(last % size)]), old(ReadWord(mem[..], UsedElem(last % size) + 2)))
      ensures r.Some? ==> r.value.id < DESCS
      ensures r.Some? ==>
        frames == if r.value.len > 10 then [Frame(2048 * r.value.id + 10, r.value.len - 10)] else []
      ensures r.Some? ==> mem[..] == Recycled(size, phys, old(mem[..]), old(next), r.value.id)
      ensures r.Some? ==> next == Inc(old(next)) && last == Inc(old(last))
    {
      r := PopUsed();
      if r.None? { return r, []; }
      var c := r.value;
      frames := [];
      if c.len > NET_HDR_SIZE {
        frames := [Frame(c.id * BUF_SIZE + NET_HDR_SIZE, c.len - NET_HDR_SIZE)];
      }
      Post(phys, c.id);
    }

    // Describe a buffer and make it available.
    method Post(phys: nat, id: Half)
      requires Valid() && id < DESCS && Mapped(phys, id)
      modifies this, mem
      ensures mem[..] == Recycled(size, phys, old(mem[..]), old(next), id)
      ensures next == Inc(old(next)) && last == old(last)
    {
      Describe(id, phys + id * BUF_SIZE, BUF_SIZE, DESC_F_WRITE, 0);
      SubmitAvail(id);
    }

    // Post all eight receive buffers, whether or not the ring has room for them.
    method Populate(phys: nat)
      requires Valid() && next == 0 && Mapped(phys, BUFFERS)
      modifies this, mem
      ensures next == BUFFERS && last == old(last)
      ensures mem[..] == PostAll(size, phys, old(mem[..]), BUFFERS)
    {
      hide Recycled;
      for i: int := 0 to BUFFERS
        invariant next == i && last == old(last)
        invariant mem[..] == PostAll(size, phys, old(mem[..]), i)
      {
        Post(phys, i);
      }
    }
  }

  // The first k buffers are listed in ring order, published and described.
  ghost predicate Posted(size: nat, phys: nat, mem: Memory, k: nat)
    requires 8 <= size <= 16 && |mem| == 4096
  {
    Entries(size, mem, k) && DescribedFirst(phys, mem, k) && mem[AvailIdx(size)] == k
  }

  ghost predicate Entries(size: nat, mem: Memory, k: nat)
    requires 8 <= size <= 16 && |mem| == 4096
  {
    k <= BUFFERS && forall i :: 0 <= i < k ==> mem[AvailEntry(size, i)] == i
  }

  ghost predicate DescribedFirst(phys: nat, mem: Memory, k: nat)
    requires |mem| == 4096
  {
    k <= BUFFERS && forall i :: 0 <= i < k ==> DescAt(mem, i) == (phys + i * BUF_SIZE, BUF_SIZE, DESC_F_WRITE, 0)
  }

  lemma PostOne(size: nat, phys: nat, mem: Memory, k: nat)
    requires 8 <= size <= 16 && |mem| == 4096 && k < BUFFERS && (k > 0 ==> Posted(size, phys, mem, k)) &&
      Mapped(phys, BUFFERS)
    ensures Posted(size, phys, Recycled(size, phys, mem, k, k), k + 1)
  {
    var described: Memory := WriteDesc(mem, k, phys + k * BUF_SIZE, BUF_SIZE, DESC_F_WRITE, 0);
    ModUnique(k, size, 0, k);
    DescribeOne(phys, mem, described, k);
    hide WriteDesc, DescAt, DescribedFirst;
    PostEntry(size, mem, described, k);
    KeepDescribed(phys, described, Recycled(size, phys, mem, k, k), k + 1);
  }

  // Only the descriptors, the entries and the index are written.
  lemma PostOneRest(size: nat, phys: nat, mem: Memory, k: nat, h: nat)
    requires 8 <= size <= 16 && |mem| == 4096 && k < BUFFERS && Mapped(phys, BUFFERS)
    requires 64 <= h < 4096 && h != AvailIdx(size) && h != AvailEntry(size, k)
    ensures Recycled(size, phys, mem, k, k)[h] == mem[h]
  {
    ModUnique(k, size, 0, k);
  }

  // On a ring with room all buffers are listed, published and described, and the rest of the memory is as before.
  lemma {:induction false} PostAllPosted(size: nat, phys: nat, mem: Memory, k: nat)
    requires 8 <= size <= 16 && |mem| == 4096 && 0 < k <= BUFFERS && Mapped(phys, BUFFERS)
    ensures Posted(size, phys, PostAll(size, phys, mem, k), k)
    decreases k
  {
    hide Recycled, Posted;
    if k > 1 { PostAllPosted(size, phys, mem, k - 1); }
    PostOne(size, phys, PostAll(size, phys, mem, k - 1), k - 1);
  }

  lemma {:induction false} PostAllRest(size: nat, phys: nat, mem: Memory, k: nat, h: nat)
    requires 8 <= size <= 16 && |mem| == 4096 && k <= BUFFERS && Mapped(phys, BUFFERS)
    requires 64 <= h < 4096 && h != AvailIdx(size) && !(AvailEntry(size, 0) <= h < AvailEntry(size, k))
    ensures PostAll(size, phys, mem, k)[h] == mem[h]
    decreases k
  {
    hide Recycled;
    if k > 0 {
      PostAllRest(size, phys, mem, k - 1, h);
      PostOneRest(size, phys, PostAll(size, phys, mem, k - 1), k - 1, h);
    }
  }

  lemma KeepDescribed(phys: nat, mem: Memory, mem': Memory, k: nat)
    requires |mem| == |mem'| == 4096 && DescribedFirst(phys, mem, k) && forall h :: 0 <= h < 64 ==> mem'[h] == mem[h]
    ensures DescribedFirst(phys, mem', k)
  {
    forall i | 0 <= i < k ensures DescAt(mem', i) == DescAt(mem, i) { OtherDesc(mem, mem', i); }
  }

  lemma PostEntry(size: nat, mem: Memory, described: Memory, k: nat)
    requires 8 <= size <= 16 && |mem| == |described| == 4096 && k < BUFFERS && Entries(size, mem, k)
    requires forall h :: 64 <= h < 4096 ==> described[h] == mem[h]
    ensures var r := described[AvailEntry(size, k) := k][AvailIdx(size) := k + 1];
      Entries(size, r, k + 1) && r[USED_IDX] == mem[USED_IDX] && r[AvailIdx(size)] == k + 1
  {
  }

  lemma DescribeOne(phys: nat, mem: Memory, described: Memory, k: nat)
    requires |mem| == |described| == 4096 && k < BUFFERS && DescribedFirst(phys, mem, k)
    requires DescAt(described, k) == (phys + k * BUF_SIZE, BUF_SIZE, DESC_F_WRITE, 0)
    requires forall h :: 0 <= h < 4096 && !(8 * k <= h < 8 * k + 8) ==> described[h] == mem[h]
    ensures DescribedFirst(phys, described, k + 1)
  {
    forall i | 0 <= i < k ensures DescAt(described, i) == DescAt(mem, i) { OtherDesc(mem, described, i); }
  }

  // With fewer ring slots than buffers no ring content can list all eight: some entry has been overwritten
  // before the device could read it.
  lemma SmallRingLosesBuffers(size: nat, mem: Memory)
    requires 1 <= size < BUFFERS && |mem| == 4096
    ensures exists i :: 0 <= i < BUFFERS && AvailEntry(size, i % size) < |mem| && mem[AvailEntry(size, i % size)] != i
  {
    var i := if mem[AvailEntry(size, 0)] == 0 then size else 0;
    assert i % size == 0;
    assert mem[AvailEntry(size, i % size)] != i;
  }

  // Set-up for a device whose queue has `deviceSize` entries; a device without the queue is refused.
  method SetupQueue(deviceSize: Half) returns (q: Queue?)
    ensures q == null <==> deviceSize == 0
    ensures q != null ==> q.Valid() && fresh(q) && fresh(q.mem) && q.size == UsedSize(deviceSize)
    ensures q != null ==> q.next == 0 && q.last == 0 && forall h :: 8 * q.size <= h < 4096 ==> q.mem[h] == 0
    ensures q != null ==> forall i :: 0 <= i < q.size ==>
      DescAt(q.mem[..], i) == (0, 0, 0, if i < q.size - 1 then i + 1 else 0xFFFF)
  {
    if deviceSize == 0 { return null; }
    q := new Queue(deviceSize);
  }

  // The state of the protocol in which set-up and population leave a queue.
  ghost function StartState(mem: Memory): State
  {
    State(mem, BUFFERS, 0, Idle, 0, 0, Ready, {}, First(BUFFERS), 8, 0, [], [])
  }

  // The available index as a device finds it that lays the queue out for its own size.
  ghost function SeenByDevice(mem: Memory, deviceSize: nat): nat
    requires |mem| == 4096 && deviceSize < DESCS - 1
  {
    mem[AvailIdx(deviceSize)]
  }

  // After set-up and population a queue of 8 or 16 entries is in an initial state of the protocol. A device finds the
  // eight buffers exactly when it has at most the 16 entries that the driver uses; from 18 entries on it finds none.
  method Start(deviceSize: Half, phys: nat) returns (q: Queue?)
    requires Mapped(phys, BUFFERS)
    ensures q == null <==> deviceSize == 0
    ensures q != null ==> q.Valid() && fresh(q) && fresh(q.mem) && q.next == BUFFERS && q.last == 0
    ensures deviceSize == 8 || deviceSize == 16 ==> Initial(q.size, phys, StartState(q.mem[..]))
    ensures 8 <= deviceSize < DESCS - 1 ==> (SeenByDevice(q.mem[..], deviceSize) == BUFFERS <==> deviceSize <= 16)
    ensures 18 <= deviceSize < DESCS - 1 ==> SeenByDevice(q.mem[..], deviceSize) == 0 && q.mem[USED_IDX] == q.last
  {
    hide PostAll, Initial;
    q := SetupQueue(deviceSize);
    if q == null { return; }
    ghost var zeroed := q.mem[..];
    q.Populate(phys);
    if deviceSize >= 8 { StartMemory(q.size, deviceSize, phys, zeroed); }
  }

  lemma StartMemory(size: nat, deviceSize: Half, phys: nat, zeroed: Memory)
    requires deviceSize >= 8 && size == UsedSize(deviceSize) && |zeroed| == 4096 && Mapped(phys, BUFFERS)
    requires forall h :: 8 * size <= h < 4096 ==> zeroed[h] == 0
    ensures var mem := PostAll(size, phys, zeroed, BUFFERS);
      && mem[USED_IDX] == 0 && (size == 8 || size == 16 ==> Initial(size, phys, StartState(mem)))
      && (deviceSize <= 16 ==> SeenByDevice(mem, deviceSize) == BUFFERS)
      && (deviceSize == 17 ==> SeenByDevice(mem, deviceSize) == 7)
      && (18 <= deviceSize < DESCS - 1 ==> SeenByDevice(mem, deviceSize) == 0)
  {
    hide PostAll;
    PostAllPosted(size, phys, zeroed, BUFFERS);
    PostAllRest(size, phys, zeroed, BUFFERS, USED_IDX);
    if deviceSize == 17 { assert AvailIdx(deviceSize) == AvailEntry(size, 7); }
    if 18 <= deviceSize < DESCS - 1 { PostAllRest(size, phys, zeroed, BUFFERS, AvailIdx(deviceSize)); }
  }

  // A step of the driver.
  ghost predicate Own(size: nat, phys: nat, s: State, s': State) { Sized(size, s) && DriverStep(size, phys, s, s') }

  // A turn of the receive loop, when the device is silent, is five steps of the driver.
  lemma ServeIsFiveSteps(size: nat, phys: nat, s: State) returns (s1: State, s2: State, s3: State, s4: State, s5: State)
    requires Inv(size, phys, s) && s.driver.Idle? && s.mem[USED_IDX] != s.last
    ensures Own(size, phys, s, s1) && Own(size, phys, s1, s2) && Own(size, phys, s2, s3)
    ensures Own(size, phys, s3, s4) && Own(size, phys, s4, s5)
    ensures s.popped < |s.completed| && s.completed[s.popped].id < BUFFERS && s.next < WRAP
    ensures s5.mem == Recycled(size, phys, s.mem, s.next, s.completed[s.popped].id)
    ensures s5.next == Inc(s.next) && s5.last == Inc(s.last) && s5.driver.Idle?
    ensures s5.delivered == s.delivered + FramesOf(s.completed[s.popped])
    ensures s5.completed == s.completed && s5.popped == s.popped + 1
  {
    SeeKeeps(size, phys, s, s.(driver := Seen));
    PopReads(size, s.(driver := Seen));
    s1, s2 := PopSteps(size, phys, s, s.completed[s.popped]);
    s3, s4, s5 := RecycleSteps(size, phys, s2, s.completed[s.popped].id);
  }

  lemma PopSteps(size: nat, phys: nat, s: State, c: Completion) returns (s1: State, s2: State)
    requires Sized(size, s) && s.driver.Idle? && s.mem[USED_IDX] != s.last && UsedElem(s.last % size) + 3 < |s.mem|
    requires s.mem[UsedElem(s.last % size)] == c.id && ReadWord(s.mem, UsedElem(s.last % size) + 2) == c.len
    ensures Own(size, phys, s, s1) && Own(size, phys, s1, s2)
    ensures s2 ==
      s.(driver := Popped(c.id), last := Inc(s.last), popped := s.popped + 1, delivered := s.delivered + FramesOf(c))
  {
    s1 := s.(driver := Seen);
    s2 := s1.(driver := Popped(c.id), last := Inc(s.last), popped := s.popped + 1,
      delivered := s.delivered + FramesOf(c));
    assert See(s, s1);
    assert Pop(size, s1, s2);
  }

  lemma RecycleSteps(size: nat, phys: nat, s: State, id: nat) returns (s3: State, s4: State, s5: State)
    requires Sized(size, s) && s.driver == Popped(id) && id < BUFFERS && s.next < WRAP && Mapped(phys, BUFFERS)
    ensures Own(size, phys, s, s3) && Own(size, phys, s3, s4) && Own(size, phys, s4, s5)
    ensures s5 == s.(driver := Idle, next := Inc(s.next), mem := Recycled(size, phys, s.mem, s.next, id),
                     listed := s.listed + 1, posted := s.posted + [id])
  {
    SlotsInside(size, s.next);
    s3 := s.(driver := Described(id), mem := WriteDesc(s.mem, id, phys + id * BUF_SIZE, BUF_SIZE, DESC_F_WRITE, 0));
    assert Describe(phys, s, s3);
    s4 := s3.(driver := Listed(id), mem := s3.mem[AvailEntry(size, s.next % size) := id]);
    assert List(size, s3, s4);
    s5 := s4.(driver := Idle, next := Inc(s.next), mem := s4.mem[AvailIdx(size) := Inc(s.next)],
              listed := s.listed + 1, posted := s.posted + [id]);
    assert Publish(size, s4, s5);
  }

  // Steps of the driver from one state to another.
  ghost predicate Leads(size: nat, phys: nat, s: State, steps: seq<State>, t: State)
    decreases |steps|
  {
    if steps == [] then s == t
    else Own(size, phys, s, steps[0]) && Leads(size, phys, steps[0], steps[1..], t)
  }

  lemma FiveLead(size: nat, phys: nat, s: State, a: State, b: State, c: State, d: State, e: State, more: seq<State>,
                 t: State)
    requires Own(size, phys, s, a) && Own(size, phys, a, b) && Own(size, phys, b, c) && Own(size, phys, c, d)
    requires Own(size, phys, d, e) && Leads(size, phys, e, more, t)
    ensures Leads(size, phys, s, [a, b, c, d, e] + more, t)
  {
    hide Own, Leads;
    OneLeads(size, phys, d, e, more, t);
    OneLeads(size, phys, c, d, [e] + more, t);
    OneLeads(size, phys, b, c, [d] + ([e] + more), t);
    OneLeads(size, phys, a, b, [c] + ([d] + ([e] + more)), t);
    OneLeads(size, phys, s, a, [b] + ([c] + ([d] + ([e] + more))), t);
    assert [a] + ([b] + ([c] + ([d] + ([e] + more)))) == [a, b, c, d, e] + more;
  }

  lemma OneLeads(size: nat, phys: nat, s: State, a: State, more: seq<State>, t: State)
    requires Own(size, phys, s, a) && Leads(size, phys, a, more, t)
    ensures Leads(size, phys, s, [a] + more, t)
  {
    hide Own;
    assert ([a] + more)[1..] == more;
  }

  lemma FiveKeep(size: nat, phys: nat, s: State, a: State, b: State, c: State, d: State, e: State)
    requires Inv(size, phys, s)
    requires Own(size, phys, s, a) && Own(size, phys, a, b) && Own(size, phys, b, c) && Own(size, phys, c, d)
    requires Own(size, phys, d, e)
    ensures Inv(size, phys, e)
  {
    hide Inv;
    StepKeeps(size, phys, s, a);
    StepKeeps(size, phys, a, b);
    StepKeeps(size, phys, b, c);
    StepKeeps(size, phys, c, d);
    StepKeeps(size, phys, d, e);
  }

  // Nothing gets stuck: from every state between two turns the driver's own steps, five per completion, lead to one
  // in which every frame completed so far has been delivered.
  lemma {:induction false} Drains(size: nat, phys: nat, s: State) returns (steps: seq<State>, t: State)
    requires Inv(size, phys, s) && s.driver.Idle?
    ensures s.popped <= |s.completed| && |steps| == 5 * (|s.completed| - s.popped)
    ensures Leads(size, phys, s, steps, t) && Inv(size, phys, t) && t.driver.Idle?
    ensures t.completed == s.completed && t.delivered == Frames(s.completed)
    ensures exists at :: Carried(s.completed, t.delivered, at)
    decreases |s.completed| - s.popped
  {
    hide Own, Rings, Descriptors, Ownership, Indices, Frames, Recycled, Carried;
    UsedIndex(size, s);
    if s.popped == |s.completed| {
      assert s.completed[..s.popped] == s.completed;
      var at := FramesCarried(s.completed);
      return [], s;
    }
    var a, b, c, d, e := ServeIsFiveSteps(size, phys, s);
    FiveKeep(size, phys, s, a, b, c, d, e);
    var more;
    more, t := Drains(size, phys, e);
    FiveLead(size, phys, s, a, b, c, d, e, more, t);
    steps := [a, b, c, d, e] + more;
  }
}
