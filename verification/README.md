# Folkering OS: models and proofs

Dafny models of six parts of Folkering OS and of its host tools, with proofs of what each of them promises:

- the FAT32 injector that overwrites a file in a disk image in place (`Fat*.dfy`),
- the receive side of the VirtIO network driver, as driver and device steps over shared memory (`Virt*.dfy`),
- the MCP serial transport: CRC-16, COBS, varints, frames, the receive loop, the retransmission queue and chunked
  binaries (`Crc*`, `Cobs`, `Varint`, `Frame`, `Stream`, `Transport*`, `Reconnecting`, `Bridge`, `Chunks`),
- the model files: the `.fbin` writers, their reader and the block quantizer (`Patching`, `Fbin*`, `Quantizer`), and
  the `.tokb` tokenizer from the converter's input to the runtime's encoder (`TokVocab`, `Utf8`, `TokFile`,
  `Bpe`, `MergeIndex`, `ByteChars`, `TokEncode`, `TokCorrect`, `TokTokens`),
- damage-rectangle coalescing (`Damage`),
- greedy word wrap and the versioned app cache (`WordWrap`, `Cache`).

`Bits` and `Bytes` hold the arithmetic of bit fields and little-endian byte strings that the others share.

## How the models are built

Code that works in place is a class or a method with the source's loops. Each such method is proved equal to a
function of its inputs or of the old state, and the promises are lemmas about those functions. Disk images, DMA memory
and the cache directory are fields that the methods change. Raised exceptions and error returns are values (`None`,
`Raised`, `Err`), not preconditions. Clocks, the file system, sockets, SHA-256 and rounding to single and half
precision are parameters. Python integers are unbounded; fixed-width fields, 16-bit index wrap-around and 28-bit FAT
masks are written out.

The largest results:

- `FatCorrect`, `FatRuns`: after an injection the file's chain, walked again from its unchanged start cluster in the
  bytes of the image, holds the new data and zeros; every other chain keeps its links and contents; chains stay free of
  cycles and cross-links. Over any sequence of injections every file holds the data last injected into it, and the
  number of clusters in files and free is conserved; whether all of them have room can be told from the first image.
- `VirtSafety`: in every interleaving of driver and device, across wrap-around of the 16-bit indices, every buffer is
  in exactly one place, no ring entry is overwritten before it is read, and the frames delivered are the completions,
  in order, each inside its own buffer. A driver that finds nothing to do has delivered all of them, and from every
  state between two turns its own steps lead there (`VirtDriver.Drains`).
- `Stream`, `TransportSafety`, `Reconnecting`, `Chunks`: a binary cut into chunks, framed, sent and received in any
  chunking arrives unchanged; in every run a frame goes out at most four times, is never altered while it is pending,
  and never goes out after it is settled; and what a reconnect does to that.
- `Crc`, `CrcOrder`: every burst of at most 16 bits, at any alignment and message length, and every odd number of wrong
  bits is detected, and which bursts of 17 bits are not. Two wrong bits are missed exactly when their distance is a
  multiple of 32767, the order of the generator polynomial; so in up to 4095 bytes no three wrong bits go unnoticed.
- `FbinReader`, `TokCorrect`: write, parse and use recover what was written, byte for byte; encoding a text with a
  converted tokenizer and decoding it gives the text back, and exactly which texts.
- `TokTokens`: the tokens of a text, told without the encoder's loops: its cut into special tokens and chunks, and in
  each chunk the merges in the order of the list until none fits.
- `Cache`: after any run of stores and rollbacks, which binary and source a key gives, and the ancestry its metadata
  tells.

## Where the code does less than it promises

Each of these has a lemma with the exact condition and one that shows the failing side on a concrete case, or on a
whole family of them.

- The search for free clusters does not know where the table ends. It stays inside exactly when the table has enough
  free clusters (`FatWalk.SearchStaysInside`, `FatWalk.FullTableRunsPast`). On a full volume the injector then reports
  success with a cluster behind the end of the image and leaves FAT copies that differ
  (`FatExample.FullVolumeOverwritten`).
- The cluster walk stops after 100001 clusters. A longer chain loses its tail, and only then is the free count off
  (`FatCorrect.InjectConserves`, `FatExample.LongChainLeaks`). If it is to become exactly that long, the tail stays in
  the file, and only then does the file not end with its data (`FatCorrect.InjectReadsBack`,
  `FatExample.LongChainStays`).
- The driver caps a queue at 16 entries while a legacy device lays it out for its own size. A device of 8 to
  510 entries finds the posted buffers exactly when it has at most 16; with 18 or more it finds none
  (`VirtDriver.Start`, `VirtMemory.LayoutAgrees`). A ring of fewer than 8 entries cannot list all eight buffers, one of
  8 or more does (`VirtDriver.SmallRingLosesBuffers`, `VirtDriver.PostAllPosted`).
- A frame with an empty payload is sent but never accepted; every other frame is (`Frame.ParseWire`).
- The receive loop shares its buffer with the text protocol. Chunk boundaries are irrelevant exactly when no frame
  holds both of that protocol's markers (`Stream.ChunkingIrrelevant`, `Stream.MarkersShow`, `Stream.MarkersLost`).
- Reconnecting resets the sequence counter but not the retransmission queue. Pending frames survive exactly when there
  are none (`Reconnecting.ReconnectKeepsIff`, `Reconnecting.FrameOneLost`). A number keeps its frame while the counter
  is below it, and can go out seven times instead of four (`Reconnecting.KeptBelow`, `Reconnecting.ReconnectBound`,
  `Reconnecting.SevenTimes`).
- The encoder looks pairs up by a binary search, which leaves open the one it finds of several merges of a pair. It
  applies the merges in their order, whatever is found, exactly when no pair has two merges, that is, when no two
  entries of the converter's list that survive have the same sides (`Bpe.OrderKeptIff`, `TokCorrect.ConvertedOrder`).
  Otherwise it can give other tokens (`MergeIndex.RepeatedPair`).
- A text survives encoding and decoding exactly when the bytes between its special tokens have tokens and those special
  tokens are plain; every other text comes back shorter (`TokCorrect.EncodeDecodes`, `TokCorrect.ChunkDecodes`). For
  instance a special token of one accented letter does not (`TokCorrect.SpecialComesBackIff`,
  `TokCorrect.AccentLost`).
- The reader of `.fbin` files keys tensors by name. All are found exactly when those of one name are the same
  (`FbinTable.FoundByNameIff`). It expects quantized blocks of 34 bytes while the quantizer writes 36, so that it
  refuses every quantized tensor but an empty one (`FbinTable.OwnBlocksRefused`).
- Word wrap does not consider a space directly behind the window, although its comment promises the longest prefix
  that fits (`WordWrap.WidestBreak`, `WordWrap.ExactFitIsSplit`).
- Rolling back to a version with an empty source keeps the newer source (`Cache.RollbackRestores`,
  `Cache.EmptySourceStays`).
- Storing under a parent that was never stored breaks the lineage of its descendants (`Cache.RunLinealIff`,
  `Cache.OrphanGrandchild`).

The comment above the quantizer still describes blocks of 34 bytes with one scale; the model follows the code, which
writes 36 bytes with two.

## Model

| member | source | states |
|---|---|---|
| FatChain.ChainUnique | tools/fat_inject.py:37-45 | a start cluster has at most one chain |
| FatChain.ChainAcyclic | tools/fat_inject.py:37-45 | a chain that ends visits no cluster twice |
| FatChain.GrownIsChain | tools/fat_inject.py:129-137 | linking free clusters behind a chain gives one longer chain from the same start |
| FatChain.GrownFreeCount | tools/fat_inject.py:129-137 | growing takes exactly the linked clusters out of the free set |
| FatChain.ShrunkIsChain | tools/fat_inject.py:140-146 | truncating leaves the prefix as a complete chain |
| FatChain.ShrunkFreeCount | tools/fat_inject.py:140-146 | truncating frees exactly the cut tail |
| FatWalk.ClusterChain | tools/fat_inject.py:37-45 | the walk loop computes the bounded walk, including a read past the image |
| FatWalk.WalkIsChain | tools/fat_inject.py:37-45 | the walk returns the file's chain, cut off after 100001 clusters |
| FatWalk.FreeClusters | tools/fat_inject.py:117-127 | the search loop computes the bounded search, with its two ways to fail |
| FatWalk.SearchStaysInside | tools/fat_inject.py:117-127 | the search stays inside the table iff it has enough free clusters, and then returns distinct free ones |
| FatWalk.SearchFails | tools/fat_inject.py:117-127 | the search raises iff it reaches a cluster it cannot read before it has enough, and reports no free clusters iff it can read them all up to its bound and has too few |
| FatWalk.FullTableRunsPast | tools/fat_inject.py:117-127 | on any full table followed by a zero word the search returns the cluster behind the table |
| FatVolume.EntriesApart | tools/fat_inject.py:31-35 | FAT entries of different clusters or copies never overlap in the image |
| FatVolume.WriteFatEffect | tools/fat_inject.py:27-35 | a FAT write is one table update, keeps the copies in agreement and touches nothing outside the FAT area |
| FatInject.ResizeEffect | tools/fat_inject.py:115-146 | with enough free clusters the resize succeeds and its image holds the resized table, nothing else changed |
| FatInject.WriteClustersContents | tools/fat_inject.py:149-155 | clusters of a chain read back as the data followed by zeros |
| FatInject.WriteClustersOutside | tools/fat_inject.py:149-155 | writing file data changes only the file's clusters |
| FatCorrect.InjectReadsBack | tools/fat_inject.py:107-161 | every injection with room writes the data and zeros into the clusters it needs and changes the size field of the entry alone; they are the whole chain of the entry's own start cluster unless a chain beyond the walk limit is to become exactly that long |
| FatCorrect.InjectWalks | tools/fat_inject.py:37-45 | walking again from the start cluster gives the clusters written, cut off at the walk limit |
| FatCorrect.InjectWalksWhole | tools/fat_inject.py:37-45 | that is exactly the new chain iff the data needs no more clusters than the limit |
| FatCorrect.InjectKeepsCluster | tools/fat_inject.py:107-161 | a cluster in use outside the file keeps its link and its bytes, but for the four size bytes of the patched entry |
| FatCorrect.InjectKeepsFile | tools/fat_inject.py:107-161 | every chain disjoint from the file's keeps its links and contents |
| FatCorrect.InjectKeepsSeparate | tools/fat_inject.py:115-146 | all chains of the volume stay acyclic and pairwise disjoint |
| FatCorrect.InjectConserves | tools/fat_inject.py:107-146 | FAT copies still agree, and the free count changes by old minus new length iff the old chain is within the walk limit |
| FatCorrect.InjectKeepsGeometry | tools/fat_inject.py:11-22 | the boot sector reads the same afterwards |
| FatFormat.GeometryMeans | tools/fat_inject.py:10-22 | the fields of the boot sector, as bytes from the start of the partition, give the places of FAT and data and the cluster size |
| FatFormat.TableMeans | tools/fat_inject.py:27-29 | entry c is the low 28 bits of the little-endian word at four times c behind the start of the FAT |
| FatFormat.WalkGoesOn | tools/fat_inject.py:37-45 | the walk goes on exactly from 2 up to 0x0FFFFFF7 |
| FatFormat.SearchLimit | tools/fat_inject.py:119-127 | a free cluster is handed out iff it lies below 0x0FFFFFF0 |
| FatFormat.StartClusterMeans | tools/fat_inject.py:77-78 | the start cluster is the half at 26 and 65536 times the half at 20 |
| FatFormat.StartClusterOf | tools/fat_inject.py:77-78 | every number of up to 32 bits written into the two halves is read back |
| FatFormat.LocatedStart | tools/fat_inject.py:77-108 | the chain injected into starts at the cluster that the entry's bytes in the image name |
| FatFormat.InjectedByte | tools/fat_inject.py:148-155 | byte i of the data stands in cluster i / size of the new chain, at its place in the image, with zeros behind the data |
| FatFormat.InjectFails | tools/fat_inject.py:110-155 | which of the two failures an injection ends in, iff which condition on image and data; a failed search leaves the image unchanged |
| Bytes.GapIsZero | tools/fat_inject.py:31-35 | a write behind the end of the image leaves zeros in between |
| FatRuns.StepKeepsVolume | tools/fat_inject.py:107-161 | after an injection every file is found again, apart from the others, so the next one can follow |
| FatRuns.RunHolds | tools/fat_inject.py:171-173 | over any sequence of injections with room every file holds the data last injected into it, or what it held |
| FatRuns.RunConserves | tools/fat_inject.py:171-173 | over such a sequence clusters in files and free clusters stay the same number |
| FatRuns.AllRoomIff | tools/fat_inject.py:113-137 | every injection of a sequence has room when its turn comes iff the free clusters and chain lengths of the first image and the sizes of the data say so |
| FatExample.SmallLocated | tools/fat_inject.py:11-45 | a small concrete volume meets what the injection theorems assume, for any data of up to five clusters |
| FatExample.SmallVolume | tools/fat_inject.py:11-45 | it is a volume for the theorems about sequences of injections |
| FatExample.HighLocated | tools/fat_inject.py:77-78 | a concrete file whose start cluster, 70000, needs both halves |
| FatExample.FullSearch | tools/fat_inject.py:117-127 | on every full volume of this form the word behind the first FAT is entry 0 of the second, and the search returns a cluster that does not exist |
| FatExample.FullVolumeOverwritten | tools/fat_inject.py:113-161 | on a full volume an injection that needs a second cluster reports success, grows the image, overwrites entry 0 of the second copy, so that the copies differ, and meanwhile the directory |
| FatExample.LongChainLeaks | tools/fat_inject.py:43-44 | on a concrete volume with a chain of 100005 clusters an injection loses four of them |
| FatExample.LongChainStays | tools/fat_inject.py:43-44 | on the same volume data of exactly 100001 clusters does not end the file |
| FatDisk.Disk.WriteFat | tools/fat_inject.py:31-35 | every FAT copy gets the entry |
| FatDisk.Disk.Extend | tools/fat_inject.py:129-137 | the loop that links the new clusters |
| FatDisk.Disk.FreeTail | tools/fat_inject.py:140-146 | the loop that ends the chain and frees its tail |
| FatDisk.Disk.WriteData | tools/fat_inject.py:149-155 | the loop that writes the data cluster by cluster |
| FatDisk.Disk.ResizeChain | tools/fat_inject.py:114-146 | grow, shrink or leave; a failed search changes nothing |
| FatDisk.Disk.Overwrite | tools/fat_inject.py:110-161 | resize, data and directory entry, in that order |
| FatDisk.Disk.Inject | tools/fat_inject.py:9-164 | the whole injection from the located entry on, with its result and final image |
| VirtMemory.UsedOffsetIsRoundUp | drivers/virtio_net_v1.rs:145-149 | the masked sum is the next page boundary, for every 16-bit size |
| VirtMemory.LayoutSound | drivers/virtio_net_v1.rs:137-153 | descriptors, available ring and used ring do not overlap and the used ring is page aligned, for every size |
| VirtMemory.LayoutAgrees | drivers/virtio_net_v1.rs:225-228 | available rings agree iff the device has at most 16 entries, used rings iff at most 227; beyond that the device's lies behind the allocation |
| VirtMemory.PackedWriteIsUpdate | drivers/virtio_net_v1.rs:171-186 | a read-modify-write of a packed word changes its own 16-bit lane and nothing else |
| VirtMemory.FieldOffsets | drivers/virtio_net_v1.rs:167-204 | where the ring fields of a queue lie, inside its allocation |
| VirtMemory.WriteDesc | drivers/virtio_net_v1.rs:156-163 | a descriptor reads back as written and no other memory changes |
| VirtSafety.InitialInv | drivers/virtio_net_v1.rs:428-433 | the populated queue satisfies the protocol invariant |
| VirtSafety.StepKeeps | drivers/virtio_net_v1.rs:166-211 | every driver step and every step of a well-behaved device keeps the invariant |
| VirtSafety.RunKeepsInv | drivers/virtio_net_v1.rs:274-291 | the invariant holds in every state of every run |
| VirtSafety.RunSafe | drivers/virtio_net_v1.rs:274-291 | each buffer is in exactly one place and named by its descriptor, the indices are 8 apart modulo 2^16 between iterations, and the frames delivered are, one each and in order, those of the popped completions longer than 10: offset 2048 times the id and 10, length 10 less; the used index equals the driver's iff every completion was popped, and then every frame has been delivered |
| VirtSafety.SlotsAgreeIff | drivers/virtio_net_v1.rs:166-211 | 16-bit indices name the same ring entries as unbounded counters iff the ring size divides 2^16 |
| VirtSafety.RunNoOverwrite | drivers/virtio_net_v1.rs:166-188 | the ring entry about to be written is none the device has yet to read |
| VirtSafety.RunAppends | drivers/virtio_net_v1.rs:191-211 | completions and deliveries are only appended |
| VirtSafety.FramesCarried | drivers/virtio_net_v1.rs:275-278 | the frames of completions are one for each longer than 10, in order, each the rest of the completion's own buffer |
| VirtSafety.FramesInside | drivers/virtio_net_v1.rs:275-278 | a frame handed over lies in one 2048-byte buffer, behind its header |
| VirtDriver.SetupQueue | drivers/virtio_net_v1.rs:215-258 | refused for size 0; else capped size, zeroed memory and the descriptor free chain |
| VirtDriver.Queue.WriteField | drivers/virtio_net_v1.rs:171-177 | the packed write on the array is an update of one 16-bit field |
| VirtDriver.Queue.Describe | drivers/virtio_net_v1.rs:156-163 | the descriptor write on the array |
| VirtDriver.Queue.SubmitAvail | drivers/virtio_net_v1.rs:166-188 | one ring entry and the index change, the index wraps |
| VirtDriver.Queue.PopUsed | drivers/virtio_net_v1.rs:191-211 | nothing new iff the device's index equals the driver's; else the element at the driver's index |
| VirtDriver.Queue.ServeOne | drivers/virtio_net_v1.rs:274-291 | one turn of the receive loop: memory, indices and frame |
| VirtDriver.Queue.Populate | drivers/virtio_net_v1.rs:428-433 | the memory after the eight buffers are posted in turn, for every ring size |
| VirtDriver.PostAllPosted | drivers/virtio_net_v1.rs:428-433 | on a ring of 8 or more entries all eight buffers are described, listed in order and published |
| VirtDriver.SmallRingLosesBuffers | drivers/virtio_net_v1.rs:428-433 | with fewer than 8 slots no ring content lists all eight buffers |
| VirtDriver.Start | drivers/virtio_net_v1.rs:215-258 | for sizes 8 and 16 set-up and population reach an initial state of the protocol; a device of 8 to 510 entries finds the eight buffers iff it has at most 16, and none from 18 on |
| VirtDriver.ServeIsFiveSteps | drivers/virtio_net_v1.rs:274-291 | a turn of the loop is five driver steps of the protocol and leaves the memory that the method leaves |
| VirtDriver.Drains | drivers/virtio_net_v1.rs:274-291 | from every state between two turns five driver steps per completion left deliver every frame completed |
| Crc.ShiftWordIsShift | tools/mcp_bridge.py:21-21 | the masked shift of the source is the register shift |
| Crc.ComputeCrc16 | tools/mcp_bridge.py:16-22 | the byte loop computes the CRC |
| Crc.CrcIsBits | tools/mcp_bridge.py:16-22 | the byte-wise CRC is the bit-serial one |
| Crc.BurstDetected | tools/mcp_bridge.py:16-22 | messages that differ only inside 16 bits, at any alignment, have different CRCs |
| Crc.TwoBytesDetected | tools/mcp_bridge.py:16-22 | so do messages that differ only in two adjacent bytes |
| Crc.SeventeenMissedIff | tools/mcp_bridge.py:16-22 | messages that differ only inside 17 bits have the same CRC iff they differ by the generator polynomial |
| Crc.OddFlipsDetected | tools/mcp_bridge.py:16-22 | messages that differ in an odd number of bits have different CRCs |
| CrcOrder.KnownValues | tools/mcp_bridge.py:385-387 | "Hello" has the CRC 0xDADA, the empty message 0xFFFF |
| CrcOrder.ReturnsIff | tools/mcp_bridge.py:16-22 | a register with only the top bit set returns after d shifts iff d is a multiple of 32767 |
| CrcOrder.TwoFlipsMissedIff | tools/mcp_bridge.py:16-22 | messages that differ in two bits have the same CRC iff the bits are a multiple of 32767 positions apart |
| CrcOrder.ThreeFlipsDetected | tools/mcp_bridge.py:16-22 | messages of up to 4095 bytes that differ in one to three bits have different CRCs |
| Cobs.CobsEncode | tools/mcp_bridge.py:26-46 | the encoder loop with its back-filled code byte |
| Cobs.CobsDecode | tools/mcp_bridge.py:48-61 | the decoder loops, with both errors |
| Cobs.RoundTrip | tools/mcp_bridge.py:26-61 | decoding undoes encoding for every byte string |
| Cobs.EncodeNoZero | tools/mcp_bridge.py:26-46 | the encoding holds no zero byte |
| Cobs.EncodeLength | tools/mcp_bridge.py:26-46 | one byte more than the data, plus one per full 254-byte group |
| Varint.EncodeVarint | tools/mcp_bridge.py:65-71 | the loop with its masks and shifts writes seven bits a byte |
| Varint.DecodeVarint | tools/mcp_bridge.py:73-83 | the loop with its ors and shifts, and the truncation error |
| Cobs.DecodeGroups | tools/mcp_bridge.py:48-61 | groups behind their length bytes decode to the groups with zeros between, none behind a group of 254 |
| Cobs.GroupsOf | tools/mcp_bridge.py:48-61 | and nothing else is accepted |
| Varint.EncodeMeans | tools/mcp_bridge.py:65-71 | the bytes mean the value, seven bits each and low bits first, in as few bytes as can be |
| Varint.DecodeMeans | tools/mcp_bridge.py:73-83 | decoding any bytes gives what those up to the first without the top bit mean, and raises iff there is none |
| Varint.RoundTrip | tools/mcp_bridge.py:65-83 | an encoded value is found at any offset, whatever follows |
| Frame.OpenOf | tools/mcp_bridge.py:261-273 | rejected are exactly short messages and CRC mismatches |
| Frame.ParseWire | tools/mcp_bridge.py:252-273 | a frame parses back to its session, number and payload iff the payload is not empty |
| Frame.WireMeans | tools/mcp_bridge.py:252-258 | what a frame unstuffs to: session, number, payload and CRC, each at its place, low bytes first |
| Frame.WireShape | tools/mcp_bridge.py:252-258 | the end mark is the only zero byte and no frame is too short for the receiver |
| Frame.BurstRejected | tools/mcp_bridge.py:261-270 | a frame with a burst of at most 16 wrong bits and the CRC field intact is rejected |
| Frame.TwoBytesRejected | tools/mcp_bridge.py:261-270 | so is one with any change inside two adjacent bytes |
| Frame.OddFlipsRejected | tools/mcp_bridge.py:261-270 | so is one with an odd number of wrong bits |
| Frame.WrongFieldRejected | tools/mcp_bridge.py:261-270 | so is one with a wrong CRC field |
| Stream.CutFrames | tools/serial-gemini-proxy.py:2055-2072 | the loop cuts out the frames between zero bytes and keeps the rest |
| Stream.DropRequests | tools/serial-gemini-proxy.py:2075-2085 | what the text-protocol loop leaves of the buffer |
| Stream.StretchCut | tools/serial-gemini-proxy.py:2055-2073 | a stretch up to a zero byte is handed on iff it has at least three bytes |
| Stream.MarkerTexts | tools/serial-gemini-proxy.py:113-114 | the markers of the text protocol |
| Stream.StripDrops | tools/serial-gemini-proxy.py:2074-2085 | the text protocol drops up to the first end marker, as often as both markers are in what is left, and no further |
| Stream.Receiver.OnData | tools/serial-gemini-proxy.py:2055-2085 | one receive: frames out, buffer kept |
| Stream.ReceivedIsFrames | tools/serial-gemini-proxy.py:2055-2085 | without both markers in one piece, what is received depends on the bytes alone |
| Stream.ChunkingIrrelevant | tools/serial-gemini-proxy.py:2055-2085 | every chunking delivers exactly the frames iff no frame holds both markers |
| Stream.FindIsFirst | tools/serial-gemini-proxy.py:2075-2077 | the search gives the first occurrence of a marker, and none only when there is none |
| Stream.PacketsDelivered | tools/serial-gemini-proxy.py:2055-2072 | packets framed and received in any chunking come out the same, in order |
| Stream.MarkersShow | tools/serial-gemini-proxy.py:2075-2085 | a payload of up to 253 non-zero bytes with both markers makes a frame with both |
| Stream.MarkersLost | tools/serial-gemini-proxy.py:2055-2085 | a concrete packet with both markers, received in two chunks, does not arrive |
| TransportSafety.StepKeeps | tools/mcp_bridge.py:276-352 | every send, reply, received frame and sweep keeps the queue invariant |
| TransportSafety.RunKeepsInv | tools/mcp_bridge.py:276-352 | it holds after every run from an empty queue |
| TransportSafety.RunSafe | tools/mcp_bridge.py:309-336 | a number goes on the wire at most 1 + MAX_RETRIES times; a pending frame is the one first sent, once per retry |
| TransportSafety.FrameParses | tools/mcp_bridge.py:345-352 | a queued frame parses back to its own key as number |
| TransportSafety.RunSettled | tools/mcp_bridge.py:304-324 | after its acknowledgement or give-up a number never goes out again |
| TransportSafety.BudgetFalls | tools/mcp_bridge.py:304-324 | the retries left over all pending frames fall with every ack or nack of a pending one |
| TransportSafety.RetriesExact | tools/mcp_bridge.py:309-324 | rejected k times, a frame goes out again exactly as often as it has retries left, then is given up |
| TransportSafety.SweepSends | tools/mcp_bridge.py:326-336 | a sweep sends again exactly the frames that have waited over two seconds with retries left, each once |
| TransportSafety.AckSettles | tools/serial-gemini-proxy.py:2013-2015 | the number of an accepted packet with the tag 8 never goes on the wire again, whatever follows |
| TransportSafety.TaggedBy | tools/mcp_bridge.py:191-210 | a payload has the tag whose varint it starts with, and a first byte below 128 is the tag |
| TransportSafety.AckTag | tools/mcp_bridge.py:201-227 | a payload with the tag 8 drops the frame of its number from the queue, sends nothing and locks the session |
| TransportSafety.NackTag | tools/mcp_bridge.py:202-231 | one with the tag 9 sends a pending frame again while it has fewer than three retries, and drops it after that |
| TransportSafety.OtherTag | tools/mcp_bridge.py:206-247 | any other payload leaves queue and wire alone, and locks the session iff it is not cut short |
| TransportSafety.SweepOrder | tools/mcp_bridge.py:326-336 | a sweep sends the frames that have waited more than two seconds and have fewer than three retries, once each, in the order of the queue |
| TransportSafety.SweepLeaves | tools/mcp_bridge.py:309-336 | it counts their retries up, gives up those that have used them up, and leaves the others alone |
| TransportSafety.MalformedIff | tools/mcp_bridge.py:206-247 | which payloads raise in the decoder |
| TransportSafety.SendCarries | tools/mcp_bridge.py:345-352 | a payload goes out in one frame that parses to it, under the next number, for the session asked for or the locked one, and waits; or raises iff session or number need more than 32 bits |
| TransportSafety.ReplyCarries | tools/mcp_bridge.py:252-258 | a reply goes out likewise without waiting |
| TransportSafety.RunLocked | tools/serial-gemini-proxy.py:1874-1880 | once locked the session stays the same |
| TransportSafety.OtherSessionIgnored | tools/serial-gemini-proxy.py:1874-1880 | a frame of another session changes nothing |
| Reconnecting.PendingKept | tools/mcp_bridge.py:295-324 | without a reconnect a pending frame stays byte for byte the same until it is acknowledged or given up, whatever happens |
| Reconnecting.ReconnectStarts | tools/serial-gemini-proxy.py:2041-2045 | after a reconnect any session is accepted and numbers begin at one, with the old queue |
| Reconnecting.ReconnectInvIff | tools/serial-gemini-proxy.py:2041-2045 | the queue invariant survives a reconnect iff nothing is pending |
| Reconnecting.PendingLost | tools/serial-gemini-proxy.py:2041-2045 | after a reconnect every pending frame can be replaced without having been settled |
| Reconnecting.ReconnectKeepsIff | tools/serial-gemini-proxy.py:2041-2045 | the pending frames are kept across a reconnect, for all later events, iff there are none |
| Reconnecting.FrameOneLost | tools/serial-gemini-proxy.py:2041-2045 | send, reconnect, send: the first frame is gone |
| Reconnecting.KeptBelow | tools/serial-gemini-proxy.py:2041-2045 | a pending number keeps its frame while the counter stays below it |
| Reconnecting.ReconnectBound | tools/mcp_bridge.py:295-324 | after a reconnect a number goes out at most seven times, at most three before the counter reaches it |
| Reconnecting.SevenTimes | tools/mcp_bridge.py:295-324 | events after which it has gone out seven times |
| Bridge.McpSession.LockTo | tools/mcp_bridge.py:101-104 | locks to the given session |
| Bridge.McpSession.NextSeq | tools/mcp_bridge.py:106-108 | numbers count up from one |
| Bridge.McpSession.MakeFrame | tools/mcp_bridge.py:252-258 | zero arguments stand for the session's own; only a zero number draws from the counter |
| Bridge.RetransmissionQueue.Enqueue | tools/mcp_bridge.py:295-302 | the frame is stored with no retries, in insertion order |
| Bridge.RetransmissionQueue.OnAck | tools/mcp_bridge.py:304-307 | an acknowledged number leaves the queue |
| Bridge.RetransmissionQueue.OnNack | tools/mcp_bridge.py:309-324 | send again while retries remain, else drop |
| Bridge.RetransmissionQueue.CheckTimeouts | tools/mcp_bridge.py:326-336 | the expired numbers are collected first and then rejected in order |
| Bridge.ExpiredNumbers | tools/mcp_bridge.py:330-333 | the collecting loop |
| Bridge.SendReliable | tools/mcp_bridge.py:345-352 | one send step of the protocol |
| Bridge.HandleFrame | tools/serial-gemini-proxy.py:1861-1882 | parse, decode, lock or check the session, then acknowledge or reject: one receive step |
| Chunks.PayloadReads | tools/mcp_bridge.py:172-178 | tag, total, index and data of a chunk read back |
| Chunks.PayloadFields | tools/mcp_bridge.py:172-178 | tag 5, number of chunks, index and length as varints in this order, then the data |
| Chunks.SplitChunks | tools/mcp_bridge.py:364-372 | the sender's loop |
| Chunks.PiecesCover | tools/mcp_bridge.py:364-370 | the pieces in order are the binary, as many as announced |
| Chunks.ChunksCover | tools/mcp_bridge.py:364-372 | chunks number themselves from zero and their data in order is the binary |
| Chunks.BinaryDelivered | tools/mcp_bridge.py:355-372 | a binary survives chunking, framing, any receive chunking and parsing |
| Patching.PatchTail | tools/fbin-gen/fbin.py:132-135 | overwriting a placeholder changes that record's tail and nothing else |
| Fbin.DataStartAligned | tools/fbin-gen/fbin.py:131-131 | the data section starts on the first page boundary behind the metadata |
| Fbin.PackHead | tools/fbin-gen/fbin.py:119-124 | a tensor's metadata up to its offset, or an exception iff one of its fields does not fit |
| Fbin.LayOut | tools/fbin-gen/fbin.py:117-128 | the first pass: metadata with blank offsets, the place of each and its length, or an exception iff some tensor does not fit |
| Fbin.BackPatch | tools/fbin-gen/fbin.py:132-135 | the second pass fills in every offset, or raises iff one needs more than 64 bits |
| Fbin.BuildMeta | tools/fbin-gen/fbin.py:112-135 | back-patched metadata is metadata written with the offsets known |
| Fbin.BuildFront | tools/fbin-gen/fbin.py:111-147 | header, metadata and padding, byte by byte |
| Fbin.WriteFbin | tools/fbin-gen/fbin.py:105-151 | the in-memory writer produces the file layout; some field packed on the way raises iff a value does not fit |
| Fbin.Spill | tools/fbin-gen/fbin.py:52-59 | the first pass of the streaming writer |
| Fbin.StreamLayOut | tools/fbin-gen/fbin.py:62-73 | its own first pass over the recorded metadata gives the same layout |
| Fbin.StreamPatch | tools/fbin-gen/fbin.py:75-79 | its own second pass, over the placeholders alone, fills in the same offsets |
| Fbin.StreamFront | tools/fbin-gen/fbin.py:81-91 | header field by field and the padding in one write give the same front |
| Fbin.CopyChunks | tools/fbin-gen/fbin.py:92-97 | the chunked copy appends the spill file, for every positive chunk size |
| Fbin.WriteStreaming | tools/fbin-gen/fbin.py:26-97 | the streaming writer produces byte for byte what the in-memory writer produces |
| FbinReader.ParseLoop | tools/fbin-gen/forward_ref.py:65-86 | the cursor loop of the reader, with names decoded as UTF-8 |
| FbinReader.FrontDemanded | tools/fbin-gen/forward_ref.py:65-70 | only files of at least 16 bytes that start with FBN1 and version 1 are read |
| FbinReader.ParseWritten | tools/fbin-gen/forward_ref.py:65-86 | parsing a written file recovers names, dtypes, shapes, offsets and lengths |
| FbinReader.SliceWritten | tools/fbin-gen/forward_ref.py:90-92 | slicing at a recorded extent gives exactly the tensor's bytes |
| FbinReader.ExtentsTile | tools/fbin-gen/fbin.py:130-149 | extents are contiguous from a page boundary to the end of the file |
| FbinReader.RoundTrip | tools/fbin-gen/fbin.py:105-151 | write, parse and slice recover every tensor, in order |
| FbinReader.FrontReads | tools/fbin-gen/fbin.py:130-147 | magic, version, number of tensors and length of the metadata stand in the header, and zeros fill the gap up to the first page |
| FbinTable.LoadAll | tools/fbin-gen/forward_ref.py:88-100 | the loop builds the dictionary by name, or raises at the first tensor it cannot decode |
| FbinTable.TableIff | tools/fbin-gen/forward_ref.py:90-100 | it raises iff some tensor has another dtype or the wrong number of bytes for its shape |
| FbinTable.DecodableIff | tools/fbin-gen/forward_ref.py:40-99 | numbers of four bytes are accepted iff they are as many as the shape has elements, blocks of 34 bytes iff they hold 32 each, other dtypes never |
| FbinTable.ElementsOfTwo | tools/fbin-gen/forward_ref.py:91-91 | the number of elements is the product of the dimensions |
| FbinTable.OneDimension | tools/fbin-gen/forward_ref.py:91-91 | one dimension has as many as it says, none has one |
| FbinTable.TableNames | tools/fbin-gen/forward_ref.py:88-100 | the dictionary holds the names of the records and no others |
| FbinTable.TableLast | tools/fbin-gen/forward_ref.py:100-100 | each name stands for its last record |
| FbinTable.TableWritten | tools/fbin-gen/forward_ref.py:60-100 | a written file loads iff every tensor can be decoded, and a name no later tensor has gives that tensor |
| FbinTable.FoundByNameIff | tools/fbin-gen/forward_ref.py:88-100 | every tensor is found under its name iff tensors of one name are the same |
| FbinTable.OwnBlocksRefused | tools/fbin-gen/forward_ref.py:40-50 | the blocks that the quantizer writes are refused unless there are none |
| Quantizer.RoundIsNearest | tools/fbin-gen/fbin.py:229-229 | rounding is to nearest, ties to even |
| Quantizer.QuantIsRounded | tools/fbin-gen/fbin.py:228-234 | without rounding to single precision the clamp never applies to an element of its half block |
| Quantizer.QuotientError | tools/fbin-gen/fbin.py:229-234 | what rounding, a wrong quotient and the clamp cost together, for any scale |
| Quantizer.ErrorBound | tools/fbin-gen/fbin.py:223-235 | however scale and quotient are rounded, a quant times the stored scale is off by at most half a step, the errors of quotient and scale, and 127 times the error of the stored scale |
| Quantizer.ExactSlack | tools/fbin-gen/fbin.py:223-234 | without rounding to single precision only half a step remains |
| Quantizer.QuantizeHalf | tools/fbin-gen/fbin.py:221-236 | scale and quants of a half block |
| Quantizer.Q8Bytes | tools/fbin-gen/fbin.py:190-239 | the block loop, refusing lengths that are no multiple of 32 |
| Quantizer.SignedMeans | tools/fbin-gen/fbin.py:234-236 | the byte of a quant is the quant modulo 256 |
| Quantizer.ElementAt | tools/fbin-gen/fbin.py:177-239 | element i's quant and scale stand at bytes 36(i/32)+4+i%32 and 36(i/32)+2((i%32)/16) |
| Quantizer.ReadBack | tools/fbin-gen/fbin.py:190-239 | every element read back from the bytes is within that bound, unless its scale vanished in rounding |
| Quantizer.ExactReadBack | tools/fbin-gen/fbin.py:190-239 | over the reals: within half a step plus 127 times the rounding of the scale to half precision |
| TokVocab.BuildVocabTable | tools/fbin-gen/tok_to_tokb.py:100-127 | each id holds the last token assigned to it, gaps hold placeholders, and the table ends at the largest id |
| TokVocab.AddedWins | tools/fbin-gen/tok_to_tokb.py:113-119 | an added token takes its id from the vocabulary, and a later one from an earlier one |
| TokVocab.SidesMean | tools/fbin-gen/tok_to_tokb.py:145-155 | an entry in one string splits at its first space, one with two parts is its parts, any other is skipped |
| TokVocab.BuildIndex | tools/fbin-gen/tok_to_tokb.py:201-206 | every non-empty token is indexed by the last id it stands at |
| TokVocab.ResolveMerges | tools/fbin-gen/tok_to_tokb.py:130-170 | the triples are the resolvable merges, in order, none left out, the others counted as skipped |
| TokVocab.SurvivorsJoin | tools/fbin-gen/tok_to_tokb.py:156-163 | every triple's result token is its left token followed by its right token |
| TokVocab.OnePerPairIff | tools/fbin-gen/tok_to_tokb.py:145-163 | no pair has two triples iff no two merges that survive have the same sides |
| TokVocab.SurvivesIff | tools/fbin-gen/tok_to_tokb.py:145-163 | a merge survives iff both sides and their concatenation are non-empty tokens |
| Utf8.DecodeOfEncode | userspace/inference/src/tokenizer.rs:163-166 | UTF-8 read back is the string |
| Utf8.EncodeOfDecode | userspace/inference/src/tokenizer.rs:163-166 | nothing but the encoding of a string is accepted |
| TokFile.WriteTokb | tools/fbin-gen/tok_to_tokb.py:60-97 | the writer produces the file layout; some number packed on the way raises iff one needs more than 32 bits |
| TokFile.ParseTokb | userspace/inference/src/tokenizer.rs:104-226 | the parser's loops, both versions and every error |
| TokFile.SpecialsPicked | userspace/inference/src/tokenizer.rs:213-221 | the special ids in range that name a non-empty token, in order, each with its token |
| TokFile.CutRefused | userspace/inference/src/tokenizer.rs:104-212 | every written file that is cut short is refused as too short, with the size it has and a larger one it needs; one without tokens as empty |
| TokFile.TokensAreText | userspace/inference/src/tokenizer.rs:153-173 | tokens that lie in the file are read iff each is UTF-8, and else refused as such |
| TokFile.HeadRefused | userspace/inference/src/tokenizer.rs:108-131 | other magic bytes and other versions are refused as such |
| TokFile.VersionOne | userspace/inference/src/tokenizer.rs:110-125 | with a 16-byte header of version 1 the same body gives the same tokens and merges, without special tokens |
| TokFile.RoundTrip | tools/fbin-gen/tok_to_tokb.py:60-97 | parsing a written file recovers tokens, merges and special tokens; a file without tokens is refused |
| Bpe.FindBest | userspace/inference/src/tokenizer.rs:355-368 | the scan finds the leftmost pair of lowest priority index |
| Bpe.RunMerges | userspace/inference/src/tokenizer.rs:354-377 | the merge loop ends with no mergeable pair |
| Bpe.MergesPreserveText | tools/fbin-gen/tok_to_tokb.py:156-163 | any sequence of merges on any id list keeps its text and shortens it by one id each |
| Bpe.GreedyPreservesText | userspace/inference/src/tokenizer.rs:350-377 | so does the greedy run |
| Bpe.GreedyIsLowest | userspace/inference/src/tokenizer.rs:350-368 | each step applies the first merge of the list that fits anywhere, at its leftmost place, iff the lookup gives the first of several merges of a pair |
| Bpe.OrderKeptIff | userspace/inference/src/tokenizer.rs:194-200 | whatever a search for a pair finds, the order is kept iff no pair has two merges |
| Bpe.GreedyRuns | userspace/inference/src/tokenizer.rs:350-380 | the run applies merges until none fits, and if no pair has two merges always the first of the list that fits, at its leftmost place |
| Bpe.OrderedUnique | userspace/inference/src/tokenizer.rs:350-380 | such a run has one result only |
| MergeIndex.SortedInOrder | userspace/inference/src/tokenizer.rs:194-200 | the merge table is sorted by pair |
| MergeIndex.LookFinds | userspace/inference/src/tokenizer.rs:360-362 | bisection finds a merge of a pair iff the list has one |
| MergeIndex.RepeatedPair | userspace/inference/src/tokenizer.rs:354-377 | with a pair listed twice bisection finds the later merge and the run gives [1, 5] where the list's order gives [3, 4] |
| ByteChars.BuildTable | userspace/inference/src/tokenizer.rs:425-452 | the byte alphabet, filled in two passes |
| ByteChars.ByteOfInverts | userspace/inference/src/tokenizer.rs:232-236 | the reverse table inverts it on exactly its characters |
| ByteChars.CodesInOrder | userspace/inference/src/tokenizer.rs:425-452 | printable bytes stand for themselves, the others have the characters from 256 on in order |
| ByteChars.EmitBytes | userspace/inference/src/tokenizer.rs:402-412 | the decoder's loop over characters |
| ByteChars.PlainIff | userspace/inference/src/tokenizer.rs:399-412 | a string decodes to its own UTF-8 iff each character is ASCII or stands for no byte |
| TokEncode.SortedLongestFirst | userspace/inference/src/tokenizer.rs:222-225 | special tokens are ordered by falling length |
| TokEncode.ChunkTokens | userspace/inference/src/tokenizer.rs:322-380 | base tokens of a chunk, then merging |
| TokEncode.SortedOf | userspace/inference/src/tokenizer.rs:222-225 | sorting keeps every special token, and those of one text in their order |
| TokEncode.DecodeEach | userspace/inference/src/tokenizer.rs:392-412 | decoding emits the bytes of each token in turn, and nothing for an id without one |
| TokTokens.ChunkTokenizes | userspace/inference/src/tokenizer.rs:322-382 | the ids of a chunk are the last ids of its bytes' characters, merged until no merge fits, in the order of the list if no pair has two merges |
| TokTokens.TokenizesUnique | userspace/inference/src/tokenizer.rs:322-382 | in that case this determines the ids |
| TokTokens.EncodeGives | userspace/inference/src/tokenizer.rs:268-318 | the ids of a text are those of its special tokens and of the chunks between them, in order |
| TokTokens.CutUnique | userspace/inference/src/tokenizer.rs:286-318 | a text is cut in one way only: the longest special token where one starts, else all of the text up to the next |
| TokEncode.FindMatch | userspace/inference/src/tokenizer.rs:293-301 | the first special token that the text starts with |
| TokEncode.FindNextSpecial | userspace/inference/src/tokenizer.rs:307-318 | the distance to the next special token |
| TokEncode.EncodeText | userspace/inference/src/tokenizer.rs:268-287 | the encoder's loop over special tokens and chunks |
| TokCorrect.ChunkDecodes | userspace/inference/src/tokenizer.rs:322-420 | a chunk decodes to its bytes that have tokens, so to itself iff all have |
| TokCorrect.EncodeDecodes | userspace/inference/src/tokenizer.rs:268-412 | decoding to bytes undoes encoding iff the special tokens met are plain and the bytes between them have tokens; else it gives fewer bytes |
| TokCorrect.CoveredRecovers | userspace/inference/src/tokenizer.rs:268-301 | so it is for every text whose bytes have tokens, when all special tokens are plain |
| TokCorrect.TextComesBack | userspace/inference/src/tokenizer.rs:392-420 | exactly those strings come back as they were without the lossy conversion |
| TokCorrect.SpecialComesBackIff | userspace/inference/src/tokenizer.rs:268-301 | a special token's own text comes back iff the token is plain |
| TokCorrect.AccentLost | userspace/inference/src/tokenizer.rs:399-412 | a runtime with a special token of one accented letter does not give its text back |
| TokCorrect.ConvertedOrder | tools/fbin-gen/tok_to_tokb.py:145-163 | converted merges apply in their order, whatever a search finds, iff no two that survive have the same sides |
| TokCorrect.EndToEnd | tools/fbin-gen/tok_to_tokb.py:198-233 | converted, written, parsed and used, a tokenizer gives a text back iff it can be recovered, and every covered text when the special tokens are plain |
| Damage.IntersectsMeansSharedPixel | kernel/src/benchmark.rs:44-47 | non-empty rectangles intersect iff they share a pixel |
| Damage.UnionIsLeast | kernel/src/benchmark.rs:48-54 | the union is the least rectangle containing both |
| Damage.Merge | kernel/src/benchmark.rs:70-79 | the restarting loop ends; its regions are apart, contain the earlier ones and the new rectangle, and are the finest such family |
| Damage.BoundsIsLeast | kernel/src/benchmark.rs:82-83 | the bounding box is the least box around the regions |
| Damage.Collapse | kernel/src/benchmark.rs:82-83 | the collapsing loop computes it |
| Damage.Tracker.Add | kernel/src/benchmark.rs:63-87 | after every insertion the inputs are covered, the regions are apart, at most 10 and inside the bounding box of the inputs; they are the finest family apart around the earlier regions and the new rectangle, or its bounding box when that has more than 10 members; empty rectangles are skipped |
| Damage.FinestUnique | kernel/src/benchmark.rs:70-79 | there is only one finest family apart |
| Damage.OrderIrrelevant | kernel/src/benchmark.rs:63-87 | until a collapse the regions do not depend on the order of the rectangles or on repetitions |
| Damage.PixelCovered | kernel/src/benchmark.rs:70-86 | every pixel of every rectangle so far is covered by exactly one region |
| WordWrap.FindEnd | apps/folk_browser/src/lib.rs:430-444 | the line ends at the end of the text, at the last space of the window, or after a full window without any |
| WordWrap.Wrap | apps/folk_browser/src/lib.rs:416-468 | the lines tile the text: 1 to width characters, starting with a non-space, only spaces between them |
| WordWrap.WrapLossless | apps/folk_browser/src/lib.rs:405-469 | the lines hold exactly the non-space characters of the text, in order |
| WordWrap.WidestBreak | apps/folk_browser/src/lib.rs:427-444 | a line could have ended at a later space iff one stands directly behind the window and another inside it |
| WordWrap.ExactFitIsSplit | apps/folk_browser/src/lib.rs:427-444 | two words that fill the width exactly are split when a third follows |
| Cache.Directory.Store | tools/proxy/cache_manager.py:64-127 | files, metadata and snapshot after a store |
| Cache.Directory.SaveVersion | tools/proxy/cache_manager.py:133-145 | a snapshot under the current version, or version 1 without metadata |
| Cache.Directory.Rollback | tools/proxy/cache_manager.py:148-169 | the snapshot becomes current, or an unknown version is refused |
| Cache.Directory.Check | tools/proxy/cache_manager.py:47-61 | the current binary and source |
| Cache.CurrentBinary | tools/proxy/cache_manager.py:47-169 | after any run the current binary is that of the last store, or of the store last rolled back to, whichever came later |
| Cache.CurrentSource | tools/proxy/cache_manager.py:47-169 | so is the current source, but for rollbacks to an empty one |
| Cache.MissIff | tools/proxy/cache_manager.py:47-61 | a key misses iff it was never stored |
| Cache.SavedFound | tools/proxy/cache_manager.py:133-145 | a snapshot saved on its own is found by a rollback to the current version, or to version 1 without metadata, and changes nothing else |
| Cache.MetaTold | tools/proxy/cache_manager.py:72-98 | after any run id, lineage, root, parent and branch tell the ancestry of the last store, as the operations give it |
| Cache.SnapshotsAreStores | tools/proxy/cache_manager.py:64-169 | over any run, snapshot k of a key is its k-th store, for exactly the versions stored |
| Cache.SnapshotsStay | tools/proxy/cache_manager.py:133-145 | no snapshot is ever overwritten |
| Cache.RollbackRestores | tools/proxy/cache_manager.py:148-169 | rolling back to k makes the k-th binary current, and its source iff that is not empty or the current one is |
| Cache.EmptySourceStays | tools/proxy/cache_manager.py:165-167 | an old binary paired with a newer source |
| Cache.StoreLinealIff | tools/proxy/cache_manager.py:86-98 | a store keeps the lineage in order iff its parent, if given, exists |
| Cache.RunLinealIff | tools/proxy/cache_manager.py:86-98 | over any run every lineage recorded is in order iff every parent was stored before its child |
| Cache.OrphanGrandchild | tools/proxy/cache_manager.py:86-98 | the grandchild of a missing app has a lineage that does not start at its root |

## Left out

- FAT directory search and long file names (`find_entry`): the located entry is an input. Files whose entry has start
  cluster 0, for which the code allocates clusters without ever naming them.
- FatCorrect.InjectReadsBack: assumes a proper volume, an allocated chain, enough free clusters and a directory outside
  the file, as the injector does.
- VirtIO transmit path, device registers, port I/O and DMA synchronisation; DMA memory is an array.
- VirtDriver.Queue.ServeOne: a completion must name one of the 512 descriptors that lie in the queue's memory; beyond
  that the write goes to memory that is not modelled.
- VirtDriver.Start: only sizes 8 and 16 reach the protocol's runs; on a ring whose size does not divide 2^16 the wrapped
  indices name other entries than the counters (`VirtSafety.SlotsAgreeIff`), and such rings are not run.
- VirtSafety.RunSafe: the device is well behaved: it returns only buffers it took, with at most 2048 bytes.
- The `e1000` drivers.
- What the text protocol and the other MCP messages do; the text protocol is modelled by what it removes from the
  receive buffer.
- Chunks.BinaryDelivered: the receiving end is the host's own receive loop and a reader of the chunk format; the
  receiver inside the OS, to which these chunks go, is not modelled.
- UTF-8 of prompts and the details of MCP responses other than acknowledgements.
- Quantizer.QuotientError: single-precision results are arbitrary reals; NaN, infinities and which reals are
  representable are not modelled.
- Sorting and printing of special ids in the converter, negative ids, and lone surrogates in tokens.
- TokFile.ParseTokb: leaves out the check for missing byte characters, which cannot fail: every character of the byte
  alphabet is below 324 (`ByteChars.CodeOf`).
- TokCorrect.EndToEnd: the library's sort and binary search are a stable insertion and a bisection here; the
  pre-tokenizer is left out.
- FbinTable.LoadAll: an entry keeps the tensor's bytes in place of the numbers decoded from them; numbers of elements
  are unbounded.
- TokCorrect.TextComesBack: the lossy conversion is an arbitrary function, so nothing is said about its results.
- Display-list output of word wrap: off-screen lines are not emitted and run lengths are cut to 16 bits.
- Damage.Tracker.Add: any rectangles whose far edges fit 32 bits, in place of the benchmark's 500.
- Cache.Directory.Store: description, intent, dream history and timestamps are not part of the metadata.
- Cache keys (`cache_key`), the app listing and the dream budget; the second copy of the cache in
  `tools/serial-gemini-proxy.py`, which also rolls back version numbers.
- Language-model calls, sockets, compilation, signing, kernel boot, and the apps: effects outside these models.
