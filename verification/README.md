# Verified models of xpr

xpr is a C runtime of small self-contained components. This project models the ones that carry state or transform
data, and proves what they promise: the timer queue over its linked lists, the MPEG program stream packetiser with its
H.264 start code scanner, the tree of parameters ("UPS"), the open-addressing hash table, the SHA-1 and MD5 contexts,
the demultiplexer of interleaved RTSP data, the flexible queue over ring buffers, the bit vector, and the PackBits,
UTF-8, Base64 and CRC coders.

Code that changes state is a class or an array with methods that loop as the source does; each method is proved to
compute a function of its old state, and the results below are proved about those functions, for every input, every run
and every clock. `dafny verify dfyconfig.toml` checks all of it.

- `StableSort`, `LinkedList`: the singly linked list at the level of `next` pointers. A sorted insertion puts a node
  behind its equals, the sort is the stable sort in either direction, and what a `tail` that a sort left stale does to
  each later call is stated; without a sort, a `tail` in the chain is the last node.
- `TimerModel`, `TimerTheorems`, `TimerRuns`, `TimerOps`, `TimerQueue`: every locked operation of the queue is one step
  of a state machine, proved over the two lists; what each does is stated entry by entry. A pass is "a due scan that
  ends after m turns"; nothing is assumed of the clock, the callbacks or the intervals. When a scan ends is a result of
  its own: it ends under every clock that moves forward and for all answers if and only if at most one active timer can
  be re-armed.
- `ProgramStream`, `PesFormat`, `H264`, `PesWriter`: a reader written after ISO/IEC 13818-1 gets back exactly what was
  packetised, and finds the frame's time stamp announced in its first packet and in no other.
- `UpsTree`, `UpsPath`, `Ups`: the parent, prev, next and childs links always spell a tree; a path printed for an entry
  finds it. The stack of 32 entries, the segment buffer of 256 characters and the print buffers are arrays of those
  sizes, and the methods ask for exactly the trees and keys that fit them.
- `HashTable`: linear probing refines a map that is keyed by hash triples, over runs with erases; a hole left by
  erasing is harmless exactly when no other item's probe path crosses it.
- `BlockHash`, `Sha1`, `Md5`: buffering, counting and padding. However a message is cut, the digest is that of the
  whole; MD5's 32-bit loop index ends exactly for the lengths stated.
- `RtspIdd`, `Fifo`, `FlexQueue`: reassembly over any cutting, and conservation of pooled entries.
- `Bits`, `BitVector`, `PackBits`, `Utf8`, `Base64`, `Crc`, `CrcTables`: round trips, agreement with the standards, and
  table-driven CRC as bit-serial division.

Where the code does something other than it seems to promise, the exact condition is proved: `AllScansEndExactly`,
`FlagsExact`, `MapLengthExact`, `EraseExact`, `LoopEndsExactly` (MD5 and UTF-8), `CutsExact`, `EnableReactivates`,
`AppendPlain`, `WriteH264Frame` (a frame with two start codes side by side does not read), `UnpacksExactly`, and
`StartCodeFound` with `ScanNALU`: the scanner finds a start code exactly when the run of zeros in front of its 0x01 has
length 3 modulo 4, where Annex B of ITU-T H.264 accepts any run of two or more. Two ways lead the UTF-16 conversion out
of the buffer it allocates: `BufferHoldsExactly` is exact for all inputs that do not take the second, for which
`RoomNeeded` gives a bound and `StaleUnitsOverrun` a family of inputs.

## Model

| member | source | states |
|---|---|---|
| StableSort.SortIsStable | src/xpr_list.c:131-145 | inserting in turn is a sort: ascending, a permutation, and no class of equals changes its order, for every total preorder |
| StableSort.StableSortUnique | src/xpr_list.c:131-145 | sortedness and unchanged classes pin the result down: there is one stable sort |
| LinkedList.List.SortedInsert | src/xpr_list.c:108-129 | over the links: the node lands behind all that come before it or equal it under the comparison, or the comparison turned round, and in front of the first that does not; the chain stays acyclic with the same other nodes |
| LinkedList.List.InsertionSort | src/xpr_list.c:131-145 | the links end up spelling the stable sort of the old chain; no payload moves |
| LinkedList.List.SortNl | src/xpr_list.c:543-600 | sorting and reversing: which error, else the payloads are ascending, or descending when reversed, by the comparison given or the list's own; they are a permutation, and equals keep their order in both directions |
| StableSort.SortMeans | src/xpr_list.c:113-145 | what the sort means for a comparison, in both directions |
| LinkedList.List.AppendSorted | src/xpr_list.c:163-181 | over any list, also one whose `tail` a sort left stale: keeps the order, and leaves `tail` at the true last node |
| LinkedList.List.AppendPlain | src/xpr_list.c:163-181 | extends the chain if and only if `tail` is the true last node; behind a stale `tail` inside the chain the nodes that stood there are lost, behind one outside the chain the new node is |
| LinkedList.List.TakeNl | src/xpr_list.c:147-161 | over any list, sorted before or not: unlinks exactly the node, or reports that it is not there; `tail` and `length` stay |
| LinkedList.List.RemoveNl | src/xpr_list.c:77-95 | the same, and counts it; `tail` is the true last node afterwards when the node had a predecessor |
| LinkedList.List.NextNl | src/xpr_list.c:430-447 | the successor in the chain, which needs only that a `tail` in the chain is last |
| TimerQueue.Queue.Add | src/xpr_timer_unix.c:305-321 | the step of the state machine: the timer expires one interval after the reading, on the list its flag says |
| TimerOps.AddMeans | src/xpr_timer_unix.c:305-321 | what adding does to every entry of both lists: one more timer, one interval from now, and no other touched |
| TimerOps.AddedIsVisited | src/xpr_timer_unix.c:219-239 | a scan under a clock held still visits an added timer if and only if its interval has passed |
| TimerQueue.Queue.Remove | src/xpr_timer_unix.c:355-368 | the timer leaves the list that has it and is freed; an error if neither has it |
| TimerOps.RemoveMeans | src/xpr_timer_unix.c:355-368 | the same, entry by entry |
| TimerQueue.Queue.Suspend | src/xpr_timer_unix.c:419-433 | moves an active timer, clears its flag; an error for any other |
| TimerOps.SuspendMeans | src/xpr_timer_unix.c:130-139 | suspending, and disabling, clears the flag and keeps the expiry, entry by entry |
| TimerQueue.Queue.Resume | src/xpr_timer_unix.c:378-392 | moves a suspended timer back with the expiry it had |
| TimerOps.ResumeMeans | src/xpr_timer_unix.c:121-129 | resuming sets the flag and keeps the expiry, entry by entry; enabling does the same if the flag was clear, and nothing if not |
| TimerOps.SuspendThenEnable | src/xpr_timer_unix.c:121-139 | a timer suspended from outside and enabled again is as it was |
| TimerOps.SetMeans | src/xpr_timer_unix.c:162-172 | the interval and the termination mark change in place, and nothing else |
| TimerQueue.Queue.SingleShot | src/xpr_timer_unix.c:402-417 | adds a fresh single-shot timer |
| TimerQueue.Queue.Exec | src/xpr_timer_unix.c:174-186 | whether the callback is made, how the timer is re-armed, and where it goes |
| TimerOps.TurnMeans | src/xpr_timer_unix.c:174-237 | one turn of a scan under any clock, entry by entry: who is called, freed, suspended as it was, or due again one interval after the reading behind its callback |
| TimerQueue.Queue.DueScan | src/xpr_timer_unix.c:219-239 | the loop over the two linked lists computes the abstract scan, for every clock and all answers with which it ends |
| TimerTheorems.StillScan | src/xpr_timer_unix.c:219-239 | under a still clock, and positive intervals of the timers that can be re-armed, a scan visits exactly the due timers, each once, in order of expiry, calls those not terminated, and ends |
| TimerTheorems.NoDueTimerMissed | src/xpr_timer_unix.c:219-239 | when any scan ends, each active timer it did not re-arm expires after its last clock reading, although the next timer is fetched before the current one moves |
| TimerTheorems.AllScansEndExactly | src/xpr_timer_unix.c:219-239 | every scan ends, under every clock that moves forward and for all answers, if and only if at most one active timer can be re-armed |
| TimerModel.BoundedScanEnds | src/xpr_timer_unix.c:219-239 | positive intervals of the timers that can be re-armed and a clock below some bound let every scan end |
| TimerRuns.ScanCanStarve | src/xpr_timer_unix.c:219-239 | two timers of interval 1 and a clock that gains 10 with each callback: the scan never ends |
| TimerRuns.ZeroIntervalsStarve | src/xpr_timer_unix.c:219-239 | two timers of interval 0: the scan never ends, even under a still clock |
| TimerRuns.RunKeeps | src/xpr_timer_unix.c:174-433 | over every run: both lists sorted and disjoint, each timer ever added in exactly one of active, suspended and freed, every active timer enabled |
| TimerRuns.TerminatedNeverCalled | src/xpr_timer_unix.c:174-186 | after it is marked or freed a timer is never called again, over every run |
| TimerRuns.SingleShotCalledOnce | src/xpr_timer_unix.c:174-186 | a single-shot timer is called at most once over every run |
| TimerRuns.EnableReactivates | src/xpr_timer_unix.c:121-139 | resuming always activates a suspended timer; enabling does if and only if its flag is clear |
| TimerRuns.SelfSuspendedKeepsFlag | src/xpr_timer_unix.c:228-233 | a timer whose callback suspends it keeps its flag, so enabling and disabling it change nothing |
| PesFormat.CutFits | src/xpr_pes.c:663-681 | every cut takes at least one byte, at most what is left, and the packet fits 5120 bytes |
| PesFormat.CutGreedy | src/xpr_pes.c:663-681 | a packet that takes all there is is padded to a multiple of 4; any other is at most 7 bytes short of 5120 |
| PesFormat.FlagsExact | src/xpr_pes.c:670-681 | in every block each packet's last-packet flag is right, set exactly on the last packet, except where one of three sizes is left; the flag is sticky over the block |
| PesFormat.PacketsMarked | src/xpr_pes.c:612-741 | every packet of a block has the header fields of section 2.4.3.6, announces the time stamp only where it should, and is marked with that flag |
| PesFormat.BlockMarks | src/xpr_pes.c:600-731 | the marker bytes of a block by its unit type and by where its packets stand |
| PesFormat.PtsRoundTrip | src/xpr_pes.c:263-271 | the five PTS bytes have their fixed and marker bits and read as pts * 90 / 1000, cut toward zero, mod 2^33 |
| PesFormat.ScrRoundTrip | src/xpr_pes.c:541-589 | the pack header is well formed with its marker bits, its clock base reads as the same 33-bit count, and its last bytes spell the packet counter |
| PesFormat.MapLengthExact | src/xpr_pes.c:425-539 | the constant in the map's length field is right exactly for the video codecs |
| ProgramStream.FramesRead | src/xpr_pes.c:876-904 | any number of streams that each read to their end read together as all their contents, in order |
| PesFormat.PacketReads | src/xpr_pes.c:616-743 | length field, flags, header length, stuffing and payload of a packet agree with section 2.4.3.6 of ISO/IEC 13818-1; the PTS is announced exactly when it is there |
| PesFormat.PacketsRead | src/xpr_pes.c:591-746 | a reader of the packets of any block gets the block back: no gap, repeat or reorder |
| PesFormat.BareSplits | src/xpr_pes.c:725-741 | a packet that gets its start code from the call holds it and the bytes, but its length field counts four too few |
| PesFormat.EmptyBlockBreaks | src/xpr_pes.c:599-741 | a block that is a start code alone, in front of another, gives a packet behind which no reader gets to the end |
| PesWriter.Pes.WritePESPacket | src/xpr_pes.c:591-746 | for every block, with a start code in front or without: the buffer loop posts exactly its packets, the first behind what the buffer held |
| PesWriter.Pes.WritePSM | src/xpr_pes.c:425-539 | the map goes behind the pack header, and its length field counts it exactly for video |
| PesWriter.Pes.WriteH264Frame | src/xpr_pes.c:748-785 | succeeds exactly with a parameter set; what is posted carries the time stamp, and reads as all units but the delimiters, in order, if no start code stands right behind another, and does not read to its end otherwise |
| PesWriter.FrameRoundTrip | src/xpr_pes.c:748-785 | up to 16 non-empty units behind start codes that are found: the frame can be written if and only if one is of type 7, and reads back as all units but those of type 9 |
| PesWriter.EmptyUnitBreaks | src/xpr_pes.c:748-785 | a parameter set, an empty unit and a slice: the frame is written, and does not read to its end |
| PesWriter.Pes.WriteFrame | src/xpr_pes.c:876-904 | which frames succeed; what a frame posts reads as its content, and so does all that was posted before with the frame behind it; its first packet announces the frame's PTS, no other packet announces one, the pack header has the same clock, and a failing call posts nothing |
| H264.ScanNALU | src/xpr_h264.c:311-337 | the array loop reports the hits of the first 1024 bytes, in order up to the room, with their lengths: a unit starts behind a 0x01 if and only if that stands behind a run of zeros of length 3 modulo 4 |
| H264.StartCodesMissed | src/xpr_h264.c:311-337 | every start code found is one of Annex B of ITU-T H.264, but one behind four zeros and one of three bytes are not found |
| H264.StartCodeFound | src/xpr_h264.c:311-337 | a four-byte start code behind any data is found if and only if that data ends in a run of zeros of length 0 modulo 4 |
| H264.ScanReadsBack | src/xpr_h264.c:311-337 | units without start codes inside, written behind four-byte start codes, are scanned back one by one |
| H264.UnitsTile | src/xpr_h264.c:311-337 | the units with their start codes tile the buffer from the first one found to its end |
| H264.KeptTile | src/xpr_pes.c:774-782 | with no delimiter among them, what is written is that whole tail of the buffer |
| H264.ProbeFrameInfo | src/xpr_h264.c:52-73 | the probe succeeds exactly when some unit is a parameter set |
| UpsTree.PrunedIs | src/xpr_ups.c:274-332 | pruning takes out exactly the entries below one, and changes one list of children |
| UpsPath.PathRoundTrip | src/xpr_ups.c:113-139 | looking up the path printed for any entry, with '/' or '.', finds that entry |
| UpsPath.PathsDiffer | src/xpr_ups.c:113-139 | two entries never have the same path |
| UpsPath.ChainLevels | src/xpr_ups.c:113-139 | the stack of 32 holds the chain exactly of the entries less than 32 levels down; a path can be printed if and only if it has less than 256 characters too |
| UpsPath.LookupTopInKey | src/xpr_ups.c:389-399 | a key shorter than the segment buffer fits it |
| UpsPath.LookupChild | src/xpr_ups.c:380-420 | a plain name finds the child of that name, and fits the buffer exactly when shorter than it |
| UpsPath.LeadingDotFindsNothing | src/xpr_ups.c:380-420 | a key with a dot in front finds nothing |
| UpsPath.TrailingSeparator | src/xpr_ups.c:380-420 | with a separator behind it a path finds its entry if that is a directory, and nothing otherwise |
| UpsPath.LeadingSlash | src/xpr_ups.c:380-420 | a slash in front changes nothing, but that "//" finds nothing |
| UpsPath.LookupExactly | src/xpr_ups.c:380-420 | a path of names finds nothing if and only if it is no entry's full name |
| Ups.Ups.FindEntry | src/xpr_ups.c:380-420 | the character loop over the links is the lookup, for the keys whose segments fit the buffer |
| Ups.Ups.Descend | src/xpr_ups.c:389-418 | the same for a buffer of any size, with the last index it writes: the key fits if and only if that index does |
| Ups.Ups.PrintName | src/xpr_ups.c:113-139 | stack and loop print the full name and a zero, for the chains that fit the stack and the names that fit the buffer |
| Ups.Ups.PrintThenFind | src/xpr_ups.c:113-139 | what is printed into a buffer of at most 256 characters finds the entry again |
| Ups.Ups.Unregister | src/xpr_ups.c:274-316 | the recursion over the links takes out exactly the entry and all below it, and clears them |
| Ups.Ups.UnregisterSiblings | src/xpr_ups.c:319-332 | the same for all children of an entry, last to first |
| Ups.Ups.UnregisterAll | src/xpr_ups.c:902-912 | only the root is left |
| Ups.Ups.Register | src/xpr_ups.c:162-224 | which error, and else the tree with the entry as last child; one of its name fails the call or is pruned when overridden |
| Ups.RegisterLands | src/xpr_ups.c:162-208 | an entry lands behind the children of the parent given, of the entry whose path is its root path, or of the root, under the path that says so; one of its name fails the call or goes; no other path changes |
| Ups.RegisterNowhere | src/xpr_ups.c:167-192 | a root path that is no entry's full name is the case of not being ready |
| Ups.PathsAfterRun | src/xpr_ups.c:162-332 | after every run of registering, overriding and unregistering, sibling names differ and every printed path finds its entry |
| HashTable.HashTable.Index | src/xpr_hashtable.c:159-187 | the probing loop, over an invariant that also a table with holes keeps |
| HashTable.HashTable.Set | src/xpr_hashtable.c:362-377 | the map update; it fails exactly for a bad key, or a new one when the table is full |
| HashTable.SetMeans | src/xpr_hashtable.c:189-377 | which slot changes: the value of the item with these hashes, whose key stays, or the first free slot from the one the first hash names |
| HashTable.HashTable.Get | src/xpr_hashtable.c:303-316 | the map lookup |
| HashTable.HashTable.Erase | src/xpr_hashtable.c:288-301 | the contents lose exactly the key; the table stays valid if and only if no other path crossed the slot |
| HashTable.ApplyRefines | src/xpr_hashtable.c:144-377 | every operation, an erase that no path crosses included, is the one on the map, and keeps the invariant |
| HashTable.RunRefines | src/xpr_hashtable.c:144-377 | over every run of sets, clears and erases that no other path crosses, the table refines a map of bounded size, in contents, count and every lookup |
| HashTable.EraseExact | src/xpr_hashtable.c:144-157 | after erasing, the invariant holds, and lookups agree with the map, if and only if no other item's path crossed the slot |
| HashTable.EraseSafe | src/xpr_hashtable.c:144-157 | a free next slot is enough for that |
| HashTable.EraseLoses | src/xpr_hashtable.c:144-157 | two keys of one home slot: erasing the first loses the second |
| HashTable.VisitsAll | src/xpr_hashtable.c:318-346 | an iteration visits every item, each once, in ascending order of slots |
| BlockHash.CutsAgree | src/xpr_sha1.c:188-212 | any two ways of cutting a message into updates lead to the same state and the same buffered bytes |
| BlockHash.BytesSayWord | src/xpr_md5.c:101-119 | the four bytes of a word spell it, in either order |
| Sha1.Context.Update | src/xpr_sha1.c:188-212 | the context stands for the message with the data behind it; the 64-bit counter carries |
| Sha1.Context.PadZeros | src/xpr_sha1.c:240-246 | the padding loop ends after the zeros of section 5.1.1 of FIPS 180-4 |
| Sha1.Context.Final | src/xpr_sha1.c:214-258 | the digest is the fold over the padded message, and the context is wiped |
| Sha1.DigestMeans | src/xpr_sha1.c:175-258 | the digest word by word: from the standard's first state, block by block over the message padded with its number of bits, high byte first |
| Md5.Context.Update | src/xpr_md5.c:249-294 | the context stands for the message with the data behind it, for exactly the lengths at which the call ends |
| Md5.LoopEndsExactly | src/xpr_md5.c:252-277 | the 32-bit loop index stops if and only if the data does not fill the buffer or its last whole block starts at 2^32 - 64 or before |
| Md5.FourGigabytesNeverEnd | src/xpr_md5.c:252-277 | four gigabytes in one call: the loop does not end |
| Md5.Context.Count | src/xpr_md5.c:257-262 | the counter after a length cut to 32 bits, and the exact condition under which that is right |
| Md5.Context.Final | src/xpr_md5.c:296-320 | the digest of sections 3.1 to 3.5 of RFC 1321, and the context is wiped |
| Md5.DigestMeans | src/xpr_md5.c:101-320 | the digest word by word, as for SHA-1, low byte first |
| RtspIdd.Demux.PushData | src/xpr_rtsp_idd.c:71-223 | one push delivers exactly the frames that become whole, and keeps the rest, for any cutting |
| RtspIdd.CutsExact | src/xpr_rtsp_idd.c:121-183 | for a stream of whole frames and any pushes: no push gets text to parse, and exactly the packets of the stream are delivered, if and only if no cut falls into a frame header |
| RtspIdd.PacketsDelivered | src/xpr_rtsp_idd.c:121-183 | packets of at most 8196 bytes, on the wire and in any pushes: exactly these are delivered, in order, if and only if no push ends inside a frame header |
| RtspIdd.CutDrops | src/xpr_rtsp_idd.c:84-164 | a push that ends k bytes into a header makes the next 4 - k bytes be dropped |
| RtspIdd.RunBound | src/xpr_rtsp_idd.c:121-183 | a run never delivers more bytes than came in |
| Fifo.Fifo.Put | src/xpr_fifo.c:94-114 | appends as many as fit, in order, or reports a full ring |
| Fifo.Fifo.Get | src/xpr_fifo.c:72-92 | takes from the front, in order, or reports an empty ring |
| Fifo.Fifo.Peek | src/xpr_fifo.c:116-135 | copies from an offset and changes nothing |
| FlexQueue.FlexQueue.constructor | src/xpr_fq.c:36-53 | all entries of the pool are free |
| FlexQueue.FlexQueue.PushBack | src/xpr_fq.c:102-123 | the pool stays divided up, no put inside fails, and the payload is queued unless there is no entry or no memory |
| FlexQueue.FlexQueue.PopFront | src/xpr_fq.c:80-87 | payloads come out in the order they went in, each once |
| FlexQueue.FlexQueue.ReleaseEntry | src/xpr_fq.c:89-100 | a popped entry goes back to the free ring |
| BitVector.ShiftBits | src/xpr_bitvector.c:22-57 | copies exactly the bits asked for and changes no other, also within one buffer when the source lies behind the target |
| BitVector.BitVector.PutBits | src/xpr_bitvector.c:98-119 | the leading bits of the low n of the word, as many as there is room for; all other bits stay |
| BitVector.BitVector.GetBits | src/xpr_bitvector.c:138-163 | the number the next bits spell, filled up with zeros at the end |
| BitVector.BitVector.Get1Bit | src/xpr_bitvector.c:165-175 | the next bit, but zero for the very last one |
| BitVector.PutRollbackGet | src/xpr_bitvector.c:98-196 | put n, roll back n, get n gives the low n bits back |
| BitVector.AlignedBytes | src/xpr_bitvector.c:22-57 | bits are counted from the high end: whole bytes at a byte's border read as numbers, the first highest |
| BitVector.GolombInverts | src/xpr_bitvector.c:177-186 | the decoder's arithmetic inverts the ue(v) code of section 9.1 of ITU-T H.264, for every v |
| BitVector.UeTable | src/xpr_bitvector.c:177-186 | the first codes of table 9-2 of ITU-T H.264 |
| BitVector.GetUe | src/xpr_bitvector.c:177-186 | where the code of v below 2^32 - 1 stands, v comes out and the cursor moves by the length of the code |
| PackBits.Pack | src/xpr_utils.c:484-530 | the output unpacks to the data, wastes nothing and is at most one byte in 128 longer |
| PackBits.PacketMeans | src/xpr_utils.c:545-597 | what each flag says, in front of any packed data |
| PackBits.PacketExample | src/xpr_utils.c:545-597 | the worked example of Apple's Technical Note TN1023 |
| PackBits.Unpack | src/xpr_utils.c:538-604 | what comes out for any data, packed well or not; nothing is written behind the size |
| PackBits.UnpacksExactly | src/xpr_utils.c:538-604 | packed data comes out whole if and only if there is room for all of it |
| PackBits.PackThenUnpack | src/xpr_utils.c:484-604 | packing and unpacking gives the data and its length back |
| Utf8.TextConverts | src/xpr_utils.c:1120-1193 | for every text: the UTF-16 units and the UTF-32 units are its standard forms, and are no more than its bytes |
| Utf8.FormsAre | src/xpr_utils.c:773-812 | what the bytes of a UTF-8 form and the units of a UTF-16 form say, by RFC 3629 and RFC 2781 |
| Utf8.LongForms | src/xpr_utils.c:809-850 | the number that a sequence of five or six bytes spells |
| Utf8.ToUtf16 | src/xpr_utils.c:1120-1193 | the loop writes the units of all sequences and a zero; a byte 0xFE or 0xFF repeats the step before and leaves its places as they were |
| Utf8.ToUtf32 | src/xpr_utils.c:1274-1345 | the same for 32-bit units |
| Utf8.GetChars | src/xpr_utils.c:1426-1449 | the number of bytes that continue no character, up to the end or a zero |
| Utf8.CharsOfText | src/xpr_utils.c:1426-1449 | which is the number of characters, for every text |
| Utf8.LoopEndsExactly | src/xpr_utils.c:1146-1184 | the loop ends if and only if the input does not start with 0xFE or 0xFF |
| Utf8.BufferHoldsExactly | src/xpr_utils.c:1133-1136 | unless a turn repeats two units over one byte, the buffer the call allocates is large enough if and only if the length does not cut off all but one byte of a long sequence behind single bytes alone |
| Utf8.RoomNeeded | src/xpr_utils.c:1133-1184 | for all inputs: at most twice as many 16-bit units as bytes, and one more than bytes at most unless such a turn is taken |
| Utf8.WideRoomNeeded | src/xpr_utils.c:1287-1336 | for all inputs: no more 32-bit units than bytes |
| Utf8.StaleUnitsOverrun | src/xpr_utils.c:1146-1186 | a sequence of four bytes, a lone continuation byte and k times 0xFF put out 2k + 2 units: from k = 4 on more than the buffer holds |
| Base64.Encode | src/xpr_base64.c:102-150 | the text of section 4 of RFC 4648, and a zero |
| Base64.EncodedAt | src/xpr_base64.c:102-150 | every character of the text: which six bits of the bytes it stands for in table 1 of RFC 4648, or that it is padding |
| Base64.ValueIs | src/xpr_base64.c:28-97 | a character of the alphabet counts as its place in it, any other as zero |
| Base64.Decode | src/xpr_base64.c:47-97 | what the whole groups of the text say, with the padding's zeros trimmed if asked |
| Base64.RoundTrip | src/xpr_base64.c:47-150 | every byte string comes back, also one that ends in zeros; untrimmed it is filled up to whole groups |
| Base64.EncodeThenDecode | src/xpr_base64.c:47-150 | the same, through the two methods |
| Crc.Crc32 | src/xpr_crc.c:153-164 | the table-driven loop is the reflected bit-serial register, inverted before and after |
| Crc.Crc16 | src/xpr_crc.c:42-64 | the same for the 16-bit register |
| Crc.ByteStep | src/xpr_crc.c:153-164 | for any register with linear steps: one byte through the table is as many bit steps |
| Crc.TableEntry32 | src/xpr_crc.c:108-151 | every entry of the table is eight bit steps of its index |
| Crc.Crc32Concat | src/xpr_crc.c:153-164 | the CRC of a fed into that of b is the CRC of both, also for the 16-bit one |
| Crc.CheckValue32 | src/xpr_crc.c:153-164 | the CRC-32 of "123456789" is 0xCBF43926 |
| Crc.CheckValue16 | src/xpr_crc.c:42-64 | its CRC-16 is 0xBB3D |

## Left out

- PesWriter.Pes.WritePESPacket: asks that the bytes the call copies lie in the memory around the block; in the branch that adds a start code (src/xpr_pes.c:725-732) the source reads in front of or behind the block.
- PesWriter.Pes.WriteH264Frame: does not model a start code at the very end of the buffer, behind which the source reads a unit type outside it.
- PesWriter.Pes.WritePSM: takes the bytes behind the length field as a parameter, because dates and picture size come from outside; only their number is fixed.
- PesWriter.Pes.WriteFrame: the partial form (src/xpr_pes.c:906-936) is not modelled.
- LinkedList.List.SortedInsert: the source links a further node when an inserted one has no successor (src/xpr_list.c:122-124); that cannot happen, and is proved so.
- LinkedList.List.InsertionSort: the sort leaves `tail` stale, as the source does, so what it keeps is the chain and not the invariant on `tail`; reversing calls the same loop.
- LinkedList.List.TakeNl: the length of a list is not tied to its chain, because the source does not count a take.
- TimerQueue.Queue.Add: a timer queued already is not added again; the source would link it a second time.
- TimerQueue.Queue.DueScan: callbacks do not touch the queue, and clock readings and answers are parameters; the wait for the next expiry, the lock and the thread are not modelled.
- TimerTheorems.AllScansEndExactly: speaks of all clocks and all answers; for one given clock `BoundedScanEnds` is sufficient and not necessary.
- Ups.Ups.Register: an entry registered already may be registered again only in its place, since elsewhere the source overwrites links that are still in use; initialisers and finalisers, stored values and defaults are not modelled, nor the value store's own stack of 32 (src/xpr_ups.c:432), nor an entry left linked when its initialiser fails.
- Ups.Ups.PrintName: text that does not fit is not modelled, because the source then writes behind the buffer; a name is a string without zero characters.
- HashTable.RunRefines: an erase that another path crosses ends the run; `EraseExact` says what it does. Keys with one hash triple are one key, as in the code.
- H264.ProbeFrameInfo: the parse of the parameter set, with the reader in the stack array that it frees (src/xpr_h264.c:215-222, 307; src/xpr_bitvector.c:81-85), is not modelled, and is taken to succeed.
- H264.ScanReadsBack: all start codes stand in the 1024 bytes the scanner looks at.
- Sha1.Context.Update: the rounds of the transform are a parameter.
- Md5.Context.Update: the rounds of the transform are a parameter.
- RtspIdd.Demux.PushData: text headers between frames, frames longer than the buffer of 8196 bytes, and the part of a frame header that a push splits, which the source never completes, are not modelled; a run with text is outside `Binary`.
- Fifo.Fifo.Put: the ring's counters are natural numbers; that they do not wrap is assumed. Draining with a negative size is not modelled.
- BitVector.BitVector.GetBits: asking for 32 bits or more at the very end shifts a word by its width, which C leaves undefined; `GetExpGolomb` excludes the zeros that lead there.
- PackBits.Unpack: for a literal packet that would overflow the buffer, the source may also read behind the packed data; the bytes it writes there are written over by the next packet, and left open at the end.
- Utf8.ToUtf16: an input that starts with 0xFE or 0xFF never ends, as `LoopEndsExactly` says, and is not converted; the bytes of a sequence that the length cuts off must be there; the big-endian variants, which swap the bytes of each unit, and null arguments are not modelled.
- Base64.Decode: the size is below 2^31, and a null input to either direction is not modelled.
- Memory allocation succeeds except where a parameter says otherwise; logging, locks and threads are left out everywhere.
- Regular expressions, URLs, templates, JSON, XML, plugins, sockets, files, serial ports and devices are not part of this model.
