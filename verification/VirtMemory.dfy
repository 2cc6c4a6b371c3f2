/**
 The split virtqueue in DMA memory: legacy layout, 16-bit fields packed into 32-bit words by
 read-modify-write, and the view of the rings that driver and device share.
 */
module VirtMemory {
  import opened Bits

  type Word = w: int | 0 <= w < 0x1_0000_0000
  type Half = h: int | 0 <= h < 0x1_0000

  // ---- layout ----

  function DescOffset(idx: nat): nat { idx * 16 }

  function AvailOffset(size: nat): nat { size * 16 }

  function AvailEnd(size: nat): nat { AvailOffset(size) + 6 + 2 * size }

  function UsedOffset(size: nat): nat { And(AvailEnd(size) + 4095, 0xFFFF_F000) }

  function TotalSize(size: nat): nat { UsedOffset(size) + 6 + 8 * size }

  lemma UsedOffsetIsRoundUp(size: Half)
    ensures UsedOffset(size) == 18 * size + 6 + 4095 - (18 * size + 6 + 4095) % 4096
  {
    hide And, Shl;
    PageMask(18 * size + 6 + 4095);
  }

  lemma PageMask(x: Word)
    ensures And(x, 0xFFFF_F000) == x - x % 4096
  {
    hide And;
    Pow2Values();
    TwentyOnes();
    AndHigh(x, 20, 12);
  }

  lemma TwentyOnes()
    ensures Pow2(20) == 0x10_0000 && Shl(0xF_FFFF, 12) == 0xFFFF_F000
  {
    ShlIsProduct(0xF_FFFF, 12);
    Pow2Values();
  }

  // For every queue size: descriptors, available ring and used ring follow each other without overlap, and the
  // used ring starts on the first page boundary after the available ring.
  lemma LayoutSound(size: Half)
    ensures forall i :: 0 <= i < size ==> DescOffset(i) + 16 <= AvailOffset(size)
    ensures AvailEnd(size) <= UsedOffset(size) < AvailEnd(size) + 4096
    ensures UsedOffset(size) % 4096 == 0
    ensures UsedOffset(size) + 6 + 8 * size == TotalSize(size)
  {
    hide UsedOffset;
    UsedOffsetIsRoundUp(size);
  }

  // A legacy device lays the queue out for its own size; the driver caps the size it uses at 16. They agree on
  // where the available ring is exactly when the cap did not apply, and on where the used ring is up to 227 entries;
  // from then on it lies behind the memory that the driver allocates.
  function UsedSize(size: nat): nat { if size > 16 then 16 else size }

  lemma LayoutAgrees(size: Half)
    ensures AvailOffset(UsedSize(size)) == AvailOffset(size) <==> size <= 16
    ensures size > 0 ==> (UsedOffset(UsedSize(size)) == UsedOffset(size) <==> size <= 227)
    ensures size > 227 ==> UsedOffset(size) >= TotalSize(UsedSize(size))
  {
    hide UsedOffset;
    if size > 0 {
      UsedOffsetSmall(UsedSize(size));
      if size <= 227 { SecondPageUpTo227(size); } else { LaterPages(size); }
    }
  }

  lemma SecondPageUpTo227(size: Half)
    requires 1 <= size <= 227
    ensures UsedOffset(size) == 4096
  {
    UsedOffsetIsRoundUp(size);
    SecondPage(AvailEnd(size));
  }

  lemma LaterPages(size: Half)
    requires size > 227
    ensures UsedOffset(size) >= 8192
  {
    UsedOffsetIsRoundUp(size);
    var x := AvailEnd(size) + 4095;
    assert x >= 8192;
  }

  // Every queue size up to the driver's cap puts the used ring on the second page.
  lemma UsedOffsetSmall(size: Half)
    requires 1 <= size <= 16
    ensures UsedOffset(size) == 4096
  {
    UsedOffsetIsRoundUp(size);
    SecondPage(AvailEnd(size));
  }

  lemma SecondPage(x: nat)
    requires 1 <= x <= 4096
    ensures x + 4095 - (x + 4095) % 4096 == 4096
  {
  }

  // ---- memory as little-endian 16-bit halves: half h is at byte offset 2 * h ----

  type Memory = seq<Half>

  function ReadWord(mem: Memory, h: nat): Word
    requires h + 1 < |mem|
  {
    (mem[h] as int) + 0x1_0000 * (mem[h + 1] as int)
  }

  function WriteWord(mem: Memory, h: nat, w: Word): (r: Memory)
    requires h + 1 < |mem|
    ensures |r| == |mem|
  {
    mem[h := w % 0x1_0000][h + 1 := w / 0x1_0000]
  }

  lemma WordRoundTrip(mem: Memory, h: nat, w: Word)
    requires h + 1 < |mem|
    ensures ReadWord(WriteWord(mem, h, w), h) == w
  {
  }

  // The word the driver computes to replace one 16-bit field: mask out that half, or in the new value.
  function Packed(existing: Word, shift: nat, v: Half): nat
    requires shift == 0 || shift == 16
  {
    var mask := 0xFFFF_FFFF - (if shift == 0 then 0xFFFF else 0xFFFF_0000);
    Or(And(existing, mask), Shl(v, shift))
  }

  lemma PackedLow(w: Word, v: Half)
    ensures Packed(w, 0, v) == w - w % 0x1_0000 + v
  {
    Pow2Values();
    ShlIsProduct(0xFFFF, 16);
    ReplaceLow(w, v, 16, 16);
  }

  lemma PackedHigh(w: Word, v: Half)
    ensures Packed(w, 16, v) == w % 0x1_0000 + v * 0x1_0000
  {
    Pow2Values();
    ShlIsProduct(v, 16);
    ReplaceHigh(w, v, 16);
  }

  // The read-modify-write of one 16-bit field through its 32-bit word.
  function PackedWrite(mem: Memory, h: nat, v: Half): nat
    requires h - h % 2 + 1 < |mem|
  {
    Packed(ReadWord(mem, h - h % 2), (h % 2) * 16, v)
  }

  // It changes its own 16-bit lane and nothing else.
  lemma PackedWriteIsUpdate(mem: Memory, h: nat, v: Half)
    requires h - h % 2 + 1 < |mem|
    ensures 0 <= PackedWrite(mem, h, v) < 0x1_0000_0000
    ensures WriteWord(mem, h - h % 2, PackedWrite(mem, h, v)) == mem[h := v]
  {
    var base := h - h % 2;
    var w := ReadWord(mem, base);
    if h % 2 == 0 {
      PackedLow(w, v);
      LowLane(mem, base, w - w % 0x1_0000 + v, v);
    } else {
      PackedHigh(w, v);
      HighLane(mem, base, w % 0x1_0000 + v * 0x1_0000, v);
    }
  }

  lemma LowLane(mem: Memory, base: nat, packed: int, v: Half)
    requires base + 1 < |mem| && packed == ReadWord(mem, base) - ReadWord(mem, base) % 0x1_0000 + v
    ensures 0 <= packed < 0x1_0000_0000 && WriteWord(mem, base, packed) == mem[base := v]
  {
    assert packed == v + 0x1_0000 * (mem[base + 1] as int);
  }

  lemma HighLane(mem: Memory, base: nat, packed: int, v: Half)
    requires base + 1 < |mem| && packed == ReadWord(mem, base) % 0x1_0000 + v * 0x1_0000
    ensures 0 <= packed < 0x1_0000_0000 && WriteWord(mem, base, packed) == mem[base + 1 := v]
  {
    assert packed == mem[base] + 0x1_0000 * (v as int);
  }

  // ---- the rings ----

  // Where the fields are, in halves, for a queue of at most 16 entries.
  function AvailIdx(size: nat): nat { 8 * size + 1 }

  function AvailEntry(size: nat, slot: nat): nat { 8 * size + 2 + slot }

  const USED_IDX: nat := 2049

  function UsedElem(slot: nat): nat { 2050 + 4 * slot }

  lemma FieldOffsets(size: nat, slot: nat)
    requires 1 <= size <= 16 && slot < size
    ensures 2 * AvailIdx(size) == AvailOffset(size) + 2
    ensures 2 * AvailEntry(size, slot) == AvailOffset(size) + 4 + slot * 2
    ensures 2 * USED_IDX == UsedOffset(size) + 2
    ensures 2 * UsedElem(slot) == UsedOffset(size) + 4 + slot * 8
    ensures AvailEntry(size, slot) < 2048 && 2 * UsedElem(slot) + 8 <= TotalSize(size) - 2
  {
    UsedOffsetSmall(size);
  }

  // A descriptor: 64-bit address, 32-bit length, flags and next.
  function DescHalves(addr: nat, len: Word, flags: Half, next: Half): (r: seq<Half>)
    requires addr < 0x1_0000_0000_0000_0000
    ensures |r| == 8
  {
    var lo, hi := addr % 0x1_0000_0000, addr / 0x1_0000_0000;
    [lo % 0x1_0000, lo / 0x1_0000, hi % 0x1_0000, hi / 0x1_0000, len % 0x1_0000, len / 0x1_0000, flags, next]
  }

  function WriteDesc(mem: Memory, idx: nat, addr: nat, len: Word, flags: Half, next: Half): (r: Memory)
    requires 8 * idx + 8 <= |mem| && addr < 0x1_0000_0000_0000_0000
    ensures |r| == |mem|
    ensures forall h :: 0 <= h < |mem| && !(8 * idx <= h < 8 * idx + 8) ==> r[h] == mem[h]
    ensures DescAt(r, idx) == (addr, len, flags, next)
  {
    var r := mem[..8 * idx] + DescHalves(addr, len, flags, next) + mem[8 * idx + 8..];
    DescReads(r, idx, addr, len, flags, next);
    r
  }

  lemma DescReads(mem: Memory, idx: nat, addr: nat, len: Word, flags: Half, next: Half)
    requires 8 * idx + 8 <= |mem| && addr < 0x1_0000_0000_0000_0000
    requires mem[8 * idx..8 * idx + 8] == DescHalves(addr, len, flags, next)
    ensures DescAt(mem, idx) == (addr, len, flags, next)
  {
    var d := mem[8 * idx..8 * idx + 8];
    assert d[0] == mem[8 * idx] && d[1] == mem[8 * idx + 1] && d[2] == mem[8 * idx + 2] && d[3] == mem[8 * idx + 3];
    assert d[4] == mem[8 * idx + 4] && d[5] == mem[8 * idx + 5] && d[6] == mem[8 * idx + 6] && d[7] == mem[8 * idx + 7];
  }

  function DescAt(mem: Memory, idx: nat): (nat, Word, Half, Half)
    requires 8 * idx + 8 <= |mem|
  {
    (ReadWord(mem, 8 * idx) + 0x1_0000_0000 * ReadWord(mem, 8 * idx + 2), ReadWord(mem, 8 * idx + 4),
     mem[8 * idx + 6], mem[8 * idx + 7])
  }
}
