/**
 The receive queue as a protocol: every interleaving of the driver's reads and writes with those of
 a well-behaved device. Indices are 16-bit and wrap; the counters `listed`, `taken`, `popped` and the
 completion history only record what happened.
 */
module VirtProtocol {
  import opened VirtMemory

  const BUFFERS: nat := 8
  const BUF_SIZE: nat := 2048
  const NET_HDR_SIZE: nat := 10
  const DESC_F_WRITE: Half := 2
  const WRAP: nat := 0x1_0000

  datatype Completion = Completion(id: nat, len: nat)

  // What the network stack is handed: a byte range of the buffer area.
  datatype Frame = Frame(offset: nat, len: nat)

  // Where the driver is in its receive loop.
  datatype DriverPhase = Idle | Seen | Popped(id: nat) | Described(id: nat) | Listed(id: nat)

  // The device between writing a used element and publishing it.
  datatype DevicePhase = Ready | Written(done: Completion)

  datatype State = State(
    mem: Memory,
    next: nat, last: nat, driver: DriverPhase,           // NEXT_AVAIL, LAST_USED
    devAvail: nat, devUsed: nat, device: DevicePhase,    // the device's own two indices
    held: set<nat>,                                      // buffers the device has taken
    posted: seq<nat>,                                    // published and not yet taken, oldest first
    listed: nat, popped: nat, completed: seq<Completion>, delivered: seq<Frame>)

  function Inc(x: nat): nat { (x + 1) % WRAP }

  // A completion longer than the header carries a frame.
  function FramesOf(c: Completion): seq<Frame>
  {
    if c.len > NET_HDR_SIZE then [Frame(c.id * BUF_SIZE + NET_HDR_SIZE, c.len - NET_HDR_SIZE)] else []
  }

  function Frames(cs: seq<Completion>): seq<Frame>
    decreases |cs|
  {
    if cs == [] then [] else Frames(cs[..|cs| - 1]) + FramesOf(cs[|cs| - 1])
  }

  // ---- driver steps ----

  // Read used.idx and find something new.
  ghost predicate See(s: State, s': State)
    requires USED_IDX < |s.mem|
  {
    s.driver.Idle? && s.mem[USED_IDX] != s.last && s' == s.(driver := Seen)
  }

  // Read the used element, hand a frame to the network stack.
  ghost predicate Pop(size: nat, s: State, s': State)
    requires size > 0 && UsedElem(s.last % size) + 3 < |s.mem|
  {
    var at := UsedElem(s.last % size);
    var c := Completion(s.mem[at], ReadWord(s.mem, at + 2));
    && s.driver.Seen?
    && s' == s.(driver := Popped(c.id), last := Inc(s.last), popped := s.popped + 1,
                delivered := s.delivered + FramesOf(c))
  }

  // Rewrite the descriptor of the popped buffer.
  ghost predicate Describe(phys: nat, s: State, s': State)
  {
    && s.driver.Popped?
    && 8 * s.driver.id + 8 <= |s.mem| && phys + s.driver.id * BUF_SIZE < 0x1_0000_0000_0000_0000
    && s' == s.(driver := Described(s.driver.id),
                mem := WriteDesc(s.mem, s.driver.id, phys + s.driver.id * BUF_SIZE, BUF_SIZE, DESC_F_WRITE, 0))
  }

  // Write the ring entry.
  ghost predicate List(size: nat, s: State, s': State)
    requires size > 0 && AvailEntry(size, s.next % size) < |s.mem|
  {
    && s.driver.Described? && s.driver.id < WRAP
    && s' == s.(driver := Listed(s.driver.id), mem := s.mem[AvailEntry(size, s.next % size) := s.driver.id])
  }

  // Publish it by advancing avail.idx.
  ghost predicate Publish(size: nat, s: State, s': State)
    requires AvailIdx(size) < |s.mem|
  {
    && s.driver.Listed?
    && s' == s.(driver := Idle, next := Inc(s.next), mem := s.mem[AvailIdx(size) := Inc(s.next)],
                listed := s.listed + 1, posted := s.posted + [s.driver.id])
  }

  // ---- device steps ----

  // Take the next available buffer. Which one it is is what the ring says.
  ghost predicate Take(size: nat, s: State, s': State)
    requires size > 0 && AvailIdx(size) < |s.mem| && AvailEntry(size, s.devAvail % size) < |s.mem|
  {
    && s.mem[AvailIdx(size)] != s.devAvail
    && s' == s.(devAvail := Inc(s.devAvail), held := s.held + {s.mem[AvailEntry(size, s.devAvail % size)]},
                posted := if s.posted == [] then [] else s.posted[1..])
  }

  // Write the used element of a held buffer, filled with at most the buffer's size.
  ghost predicate Fill(size: nat, s: State, s': State, c: Completion)
    requires size > 0 && UsedElem(s.devUsed % size) + 3 < |s.mem|
  {
    var at := UsedElem(s.devUsed % size);
    && s.device.Ready? && c.id in s.held && c.id < WRAP && c.len <= BUF_SIZE
    && s' == s.(device := Written(c), held := s.held - {c.id},
                mem := WriteWord(WriteWord(s.mem, at, c.id), at + 2, c.len))
  }

  ghost predicate PublishUsed(s: State, s': State)
    requires USED_IDX < |s.mem|
  {
    && s.device.Written?
    && s' == s.(device := Ready, devUsed := Inc(s.devUsed), mem := s.mem[USED_IDX := Inc(s.devUsed)],
                completed := s.completed + [s.device.done])
  }

  // ---- the machine ----

  ghost predicate Sized(size: nat, s: State) { (size == 8 || size == 16) && |s.mem| == 4096 }

  lemma SlotsInside(size: nat, i: nat)
    requires size == 8 || size == 16
    ensures AvailEntry(size, i % size) < 2048 && AvailIdx(size) < 2048 && UsedElem(i % size) + 3 < 4096
  {
  }

  ghost predicate DriverStep(size: nat, phys: nat, s: State, s': State)
    requires Sized(size, s)
  {
    SlotsInside(size, s.next); SlotsInside(size, s.last);
    See(s, s') || Pop(size, s, s') || Describe(phys, s, s') || List(size, s, s') || Publish(size, s, s')
  }

  ghost predicate DeviceStep(size: nat, s: State, s': State)
    requires Sized(size, s)
  {
    SlotsInside(size, s.devAvail); SlotsInside(size, s.devUsed);
    Take(size, s, s') || PublishUsed(s, s') || exists c :: Fill(size, s, s', c)
  }

  ghost predicate Next(size: nat, phys: nat, s: State, s': State)
  {
    Sized(size, s) && (DriverStep(size, phys, s, s') || DeviceStep(size, s, s'))
  }

  // ---- the invariant ----

  function Ids(cs: seq<Completion>): multiset<nat>
  {
    if cs == [] then multiset{} else multiset{cs[0].id} + Ids(cs[1..])
  }

  predicate InHand(p: DriverPhase) { p.Popped? || p.Described? || p.Listed? }

  function DriverHand(p: DriverPhase): multiset<nat> { if InHand(p) then multiset{p.id} else multiset{} }

  function DeviceHand(p: DevicePhase): multiset<nat> { if p.Written? then multiset{p.done.id} else multiset{} }

  // All places a buffer can be in: posted, held by the device, completed, or in a hand.
  function Bag(s: State): multiset<nat>
    requires s.popped <= |s.completed|
  {
    multiset(s.posted) + multiset(s.held) + Ids(s.completed[s.popped..]) + DriverHand(s.driver) + DeviceHand(s.device)
  }

  // Every buffer is in exactly one place.
  ghost predicate Whole(bag: multiset<nat>) { forall id: nat :: bag[id] == if id < BUFFERS then 1 else 0 }

  ghost predicate Ownership(s: State) { s.popped <= |s.completed| && Whole(Bag(s)) }

  // The 16-bit indices are the counters modulo 2^16, in the private copies and in memory.
  ghost predicate Indices(size: nat, s: State)
    requires Sized(size, s)
  {
    && |s.posted| <= s.listed && s.popped <= |s.completed|
    && s.next == s.listed % WRAP && s.last == s.popped % WRAP
    && s.devAvail == (s.listed - |s.posted|) % WRAP && s.devUsed == |s.completed| % WRAP
    && s.mem[AvailIdx(size)] == s.next && s.mem[USED_IDX] == s.devUsed
    && (s.driver.Seen? ==> s.popped < |s.completed|)
  }

  ghost predicate UsedSlot(mem: Memory, size: nat, j: nat, c: Completion)
    requires (size == 8 || size == 16) && |mem| == 4096
  {
    SlotsInside(size, j);
    ReadWord(mem, UsedElem(j % size)) == c.id && ReadWord(mem, UsedElem(j % size) + 2) == c.len
  }

  ghost predicate AvailSlot(mem: Memory, size: nat, i: nat, id: nat)
    requires (size == 8 || size == 16) && |mem| == 4096
  {
    SlotsInside(size, i);
    mem[AvailEntry(size, i % size)] == id
  }

  // The rings hold what the histories say.
  ghost predicate Rings(size: nat, s: State)
    requires Sized(size, s)
  {
    && |s.posted| <= s.listed && s.popped <= |s.completed|
    && (forall i :: 0 <= i < |s.posted| ==> AvailSlot(s.mem, size, s.listed - |s.posted| + i, s.posted[i]))
    && (forall j :: s.popped <= j < |s.completed| ==> UsedSlot(s.mem, size, j, s.completed[j]))
    && (s.driver.Listed? ==> AvailSlot(s.mem, size, s.listed, s.driver.id))
    && (s.device.Written? ==> UsedSlot(s.mem, size, |s.completed|, s.device.done))
  }

  // Every descriptor always names its own buffer, write-only for the device.
  ghost predicate Descriptors(phys: nat, s: State)
  {
    |s.mem| == 4096 && forall id :: 0 <= id < BUFFERS ==>
      DescAt(s.mem, id) == (phys + id * BUF_SIZE, BUF_SIZE, DESC_F_WRITE, 0)
  }

  // Completions name buffers and stay inside them; what was delivered is what was popped; eight buffers circulate.
  ghost predicate History(s: State)
  {
    && (forall j :: 0 <= j < |s.completed| ==> s.completed[j].len <= BUF_SIZE && s.completed[j].id < BUFFERS)
    && (s.device.Written? ==> s.device.done.len <= BUF_SIZE && s.device.done.id < BUFFERS)
    && s.popped <= |s.completed| && s.delivered == Frames(s.completed[..s.popped])
    && s.listed == s.popped + (if InHand(s.driver) then BUFFERS - 1 else BUFFERS)
  }

  ghost predicate Inv(size: nat, phys: nat, s: State)
  {
    && Sized(size, s) && phys + BUFFERS * BUF_SIZE < 0x1_0000_0000_0000_0000
    && Ownership(s) && History(s) && Indices(size, s) && Rings(size, s) && Descriptors(phys, s)
  }
}
