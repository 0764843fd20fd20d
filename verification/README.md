# Helens: a verified model of its cores

Helens is a C++ coroutine server framework. This project models its hardest parts in Dafny and proves
what they promise, for all inputs, all sizes and all interleavings.

**Run-length compressed bitmap** (`Bits`, `BitmapCodec`, `BitmapCompress`, `BitmapCanonical`, `BitmapWords`,
`BitmapPositions`, `BitmapCount`, `BitmapObject`, `BitmapIterator`, `BitmapLaws`). The object is a class over an array of
16-bit words, 14 payload bits and 2 tag bits each, as built with the default `BITMAP_TYPE`. The meaning of
the compressed form is a separate decoder on word sequences, `BitmapCodec.Decode`. Every in-place loop
(compressor, decoder, set operations against plain and against compressed operands, walks, iterators,
counts) is proved against it. Main results:

- `compress` keeps the words exactly when no word has a tag bit set, and keeps all positions exactly when no word that
  is neither empty nor full has its first tag bit set. It never writes past its buffer and never emits two adjacent runs
  of one value; then `uncompress` gives the words back.
- What `compress` writes is the one canonical form of the words: two compressed bitmaps are equal word by word (`==`)
  exactly if they stand for the same positions.
- `&=`, `|=` and `cross` give the same with a compressed operand as with the plain one, and the
  64-bit passes are the per-bit operations.
- `foreach`, `listPosAsc`, both iterators, `rforeach` and `getCount` agree. `rforeach` also reports the bit
  just past the end: it is the exact reverse iff the size fills its last word or that bit is clear.
- `getCount` of a plain bitmap never counts too few, and counts right iff the words it takes four at a time have no tag
  bits and no bits past the end. Of a compressed bitmap it never counts too many, and counts right iff no stretch of full words in the
  original is longer than 1170, so that one digit holds it.
- `~` on the plain form flips every index but sets tag bits in every word, so compressing the result keeps the positions
  only if every word was empty or full.

**Chunked byte buffer and its codecs** (`Arith`, `Chunks`, `ByteBuffer`, `Varint`, `Endian`, `ByteCodec`,
`Protocol`). `ByteArray` is a class with a real linked list of nodes and a cached cursor; ghost fields hold the
flat bytes. All operations keep "list and cursor = flat bytes and position". On top: LEB128 integers
(section 7.6 of DWARF Version 4), zigzag, fixed-width integers, strings, messages, all with
round trips at every node size. Exceptions are `Result` values. Findings with their exact conditions: the
positional `read` starts at the asked position iff it lies in the cursor's node; fixed-length strings come
back iff the length fits the field; an empty result string cannot be parsed exactly when the message ends at
the end of the capacity.

**Coroutine runtime**, as state machines over lock sections and context switches.

- `Scheduler`, `SchedulerSafety`, `SchedulerConservation`, `SchedulerHistory`, `SchedulerFailures`: fibers, the run loop,
  stopping, what a run's steps say about the state it ends in, and what goes wrong without the discipline below.
- `EventTable`, `EventLog`, `EventSafety`, `IoManager`: the event table as values, with contexts known by address and a
  vector to look them up in, a log of registrations, the invariant of every critical section, and the object whose
  methods refine the values.
- `DoIo`, `DoIoTimeouts`, `DoIoFailures`: any number of hooked I/O calls on top of the event table, when their timeouts
  work, and runs in which they do not. A timer callback takes four steps: look at the flag, raise it, look the context
  up, cancel.
- `TimerSet`, `Timer`, `TimerManagerObject`, `TimerRuns`, `TimerHistory`: the ordered set, the operations, the object,
  whole runs against a clock, and what the calls of a run decide about what fires.
- `Semaphore`, `WorkerGroup`: permits, and the group that bounds callbacks in flight.

Findings.

- The scheduler is safe for runs that keep a discipline: a fiber is scheduled, or yields to READY, only without an
  entry outstanding; nobody schedules the fiber a worker keeps as its spare; a fiber that runs a callback does not end
  with an entry of its own queued; and nothing is scheduled after all workers have left. For every clause there is a run
  from the initial state that breaks only it and fails an assertion, or strands an entry. One entry per fiber is not
  enough.
- Growing the event table can race with itself and shrink it. No registration is lost by that: the kernel keeps the
  context, a report still fires it, and the pending count stays right. What is lost is the lookup: `delEvent`,
  `cancelEvent` and `cancelAll` find a registration iff the descriptor is still looked up to its context, and otherwise
  `addEvent` for the descriptor is refused. Dispatch aborts exactly when a report names an armed and an unarmed event of
  one context.
- A parked `do_io` call with a timeout can time out iff its shared flag is clear and its context is still looked up, or
  a callback of its own is under way to that context. So the timeout is lost when the callback is through before the
  event is registered, when `epoll_ctl` fails in it, and when a resize takes the lookup away; but a callback that has only
  raised the flag when the call parks still ends the wait. A callback that raises the flag after a report but before the
  fiber runs turns the data into a timeout.
- As long as no other call goes to wait on the same descriptor and event, a wait is ended by no timer but its own iff no
  other callback for them is outstanding that has found, or can still find, the context of the wait. Such a callback may
  belong to an earlier attempt, or to another call, even one that has returned; the wait is then over, but a call whose
  own flag is clear tries again and does not report a timeout.
- `waitAll` with a batch size of 0 returns past a blocked caller.

**LRU cache** (`Lru`, `LruCacheObject`, `HashLru`): the list and the map agree, and the list is always a prefix of
the recency list of an unbounded cache; each shard of the hashed cache is such a cache for its own operations, so a key
is lost only to keys whose hash leaves the same remainder.

**Percent encoding** (`Url`): the scanning loops with their lazy copy equal the per-byte map, and the round trip
holds iff the flags allow it.

Conventions. Machine words are naturals with explicit limits; `&`, `|`, shifts and popcount are defined bit by bit in
`Bits`. Clock readings, addresses, `epoll_ctl` results, reports, hash functions and host byte order are
parameters. A name in the first column is `Module.Member` or `Module.Class.Member`.

## Model

| member | source | states |
|---|---|---|
| Bits.BitAnd | Helens/ds/bitmap.cc:101-150 | A bit of the conjunction is set iff it is set in both words. |
| Bits.BitOr | Helens/ds/bitmap.cc:180-229 | A bit of the disjunction is set iff it is set in one of the words. |
| Bits.BitFlip | Helens/ds/bitmap.cc:152-178 | All-ones minus a word is the word with every bit flipped. |
| Bits.MaskTest | Helens/ds/bitmap.cc:302-306 | Masking with a power of two tests exactly that bit. |
| Bits.PopCountExtremes | Helens/ds/bitmap.cc:318-327 | The bit count is 0 only for zero and full only for all ones. |
| BitmapCodec.TagMask | Helens/ds/bitmap.h:136-142 | The compress mask tests the tag of a word. |
| BitmapCodec.ValueMask | Helens/ds/bitmap.h:136-142 | The value mask tests the value bit of a run. |
| BitmapCodec.CountMask | Helens/ds/bitmap.h:136-142 | The count mask extracts the 14 payload bits. |
| BitmapCodec.Digits | Helens/ds/bitmap.cc:353-364 | The base-2^14 digits of a count: every one is tagged with the value, and together they have that value. |
| BitmapCodec.RunLengthUnique | Helens/ds/bitmap.cc:396-427 | The extent of a run is determined: the longest stretch of tagged words of one value. |
| BitmapCodec.DecodeIsPlain | Helens/ds/bitmap.cc:396-427 | Decoding any word sequence yields words without tag bits. |
| BitmapCodec.DecodeAppend | Helens/ds/bitmap.cc:396-427 | Decoding and well-formedness split at every place where no run continues. |
| BitmapCodec.DecodeRun | Helens/ds/bitmap.cc:396-427 | The digits of a count decode to that many full words. |
| BitmapCodec.DigitCount | Helens/ds/bitmap.cc:353-364 | A run never takes more words than the words it stands for. |
| BitmapCodec.DigitCount32 | Helens/ds/bitmap.cc:353-364 | A 32-bit count takes at most three digits. |
| BitmapCodec.ShiftOr | Helens/ds/bitmap.cc:396-427 | Shifting a digit into place and or-ing it onto lower digits adds it, within 32 bits. |
| BitmapCodec.DigitValueSnoc | Helens/ds/bitmap.cc:396-427 | A further digit counts with its power of 2^14. |
| BitmapCodec.DecodeFlip | Helens/ds/bitmap.cc:152-178 | Complementing the compressed words decodes to the complement and keeps well-formedness. |
| BitmapCodec.DecodedLiterals | Helens/ds/bitmap.cc:396-427 | Decoding any words yields as many mixed words as they have mixed literals. |
| BitmapCodec.LiteralsExact | Helens/ds/bitmap.cc:366-372 | Cutting tag bits off makes no new literals iff no mixed word has its first tag bit set. |
| BitmapCompress.FlushedMeans | Helens/ds/bitmap.cc:353-364 | A flushed run is well formed, decodes to the pending words, and is not longer than they are. |
| BitmapCompress.FlushPending | Helens/ds/bitmap.cc:353-384 | Flushing leaves output that decodes to all words read, is no longer, can be followed by the other value only, and carries into a second digit iff some stretch of full words is longer than 1170. |
| BitmapCompress.TakeSame | Helens/ds/bitmap.cc:340-351 | A word that continues the pending run keeps the compressor in step with its input. |
| BitmapCompress.TakeOther | Helens/ds/bitmap.cc:353-372 | A word that ends the pending run, as an untagged literal or as the start of the other run, keeps it in step. |
| BitmapCompress.ShortStretch | Helens/ds/bitmap.cc:341-351 | A stretch of full words behind a word that is not full is too long exactly when it has more than 1170 words. |
| BitmapCompress.DigitsCarry | Helens/ds/bitmap.cc:356-359 | The digits of a set run carry iff the count needs more than one digit. |
| BitmapCompress.Verdict | Helens/ds/bitmap.cc:329-394 | What the compressed words are worth, decided by the tag bits of the words read. |
| BitmapObject.Bitmap.constructor | Helens/ds/bitmap.cc:31-40 | A new bitmap has just enough words, each the fill byte twice. |
| BitmapObject.Bitmap.Copy | Helens/ds/bitmap.cc:49-55 | A copy has the same form, size and words, in its own memory. |
| BitmapObject.Bitmap.Get | Helens/ds/bitmap.cc:302-306 | Reads the bit at an index: digit idx % 14 of word idx / 14. |
| BitmapObject.Bitmap.Equals | Helens/ds/bitmap.cc:231-250 | True iff form, size and words are the same; between uncompressed bitmaps, or compressed ones in canonical form, iff they stand for the same words. |
| BitmapObject.Bitmap.Set | Helens/ds/bitmap.cc:308-316 | Changes that one bit and no other, and sets no tag bit. |
| BitmapObject.Bitmap.SetRange | Helens/ds/bitmap.cc:812-827 | Fills exactly the words of the range. |
| BitmapObject.Bitmap.GetRange | Helens/ds/bitmap.cc:829-853 | True iff some word of the range carries the value looked for. |
| BitmapObject.Bitmap.Compress | Helens/ds/bitmap.cc:329-394 | The result means the same words iff no word has tag bits, and the same payloads iff no word that is neither empty nor full has its first tag bit set; it is fit for further work iff such words have no tag bit; it is never longer than the input; and a run of ones needs a second digit iff some stretch of full words is longer than 1170. Where it is fit for further work it is the canonical form of its words. |
| BitmapCanonical.CanonicalUnique | Helens/ds/bitmap.cc:329-394 | Two sequences in the form the compressor writes (stretches whole, single words as literals, shortest digits) are equal iff they decode to the same words. |
| BitmapCanonical.FlushedCanonical | Helens/ds/bitmap.cc:353-364 | What is written for a pending stretch is canonical and of one value only. |
| BitmapCanonical.CanonicalAppend | Helens/ds/bitmap.cc:338-373 | Canonical pieces that do not share a value at the seam join to a canonical whole. |
| BitmapLaws.EqualsCompressed | Helens/ds/bitmap.cc:231-394 | The compressed forms of two bitmaps are equal iff size and payloads are. |
| BitmapObject.Bitmap.CompressWord | Helens/ds/bitmap.cc:338-373 | One round of the loop keeps output, pending run and input in step and stays inside the buffer. |
| BitmapObject.Bitmap.WriteDigits | Helens/ds/bitmap.cc:353-364 | Appends exactly the digits of the count. |
| BitmapObject.Bitmap.ReadRun | Helens/ds/bitmap.cc:404-415 | The merging loop reads exactly one maximal run and its count. |
| BitmapObject.Bitmap.Uncompress | Helens/ds/bitmap.cc:396-427 | The result is plain and has the words the compressed form means. |
| BitmapObject.Bitmap.DecodeInto | Helens/ds/bitmap.cc:400-425 | Fills the target with the decoded words, in bounds. |
| BitmapObject.Bitmap.AndWith | Helens/ds/bitmap.cc:101-150 | Fails on different sizes or a compressed target; otherwise an index is set after iff it was set in both, whatever tag bits the target has, and without tag bits the words are the wordwise conjunction. |
| BitmapObject.Bitmap.AndPlain | Helens/ds/bitmap.cc:106-114 | The 64-bit pass and its rest equal the wordwise conjunction. |
| BitmapObject.Bitmap.AndCompressed | Helens/ds/bitmap.cc:115-145 | Walking the runs of the operand cuts the payload of every word to what the operand means there. |
| BitmapObject.Bitmap.OrWith | Helens/ds/bitmap.cc:180-229 | As for the conjunction, with the disjunction. |
| BitmapObject.Bitmap.OrPlain | Helens/ds/bitmap.cc:185-193 | The 64-bit pass and its rest equal the wordwise disjunction. |
| BitmapObject.Bitmap.OrCompressed | Helens/ds/bitmap.cc:194-224 | Walking the runs of the operand adds to the payload of every word what the operand means there. |
| BitmapObject.Bitmap.Complement | Helens/ds/bitmap.cc:152-178 | The compressed form comes to mean the complement; the plain form has all 16 bits flipped. |
| BitmapObject.Bitmap.Cross | Helens/ds/bitmap.cc:649-658 | For a plain bitmap: true iff some word has a bit in common with what the operand means, also for different sizes. |
| BitmapObject.Bitmap.CrossPlain | Helens/ds/bitmap.cc:695-710 | The 64-bit pass finds a common bit iff there is one. |
| BitmapObject.Bitmap.CrossCompressed | Helens/ds/bitmap.cc:660-693 | Walking the runs finds a common bit iff there is one. |
| BitmapObject.Bitmap.ForEach | Helens/ds/bitmap.cc:487-523 | Visits the set positions below the size in ascending order, up to the first refusal. |
| BitmapObject.Bitmap.ListPosAsc | Helens/ds/bitmap.cc:616-647 | Appends exactly the set positions below the size in ascending order. |
| BitmapObject.Bitmap.RForEach | Helens/ds/bitmap.cc:525-614 | Visits a set bit just past the end if there is one in the last word, then the set positions downwards, up to the first refusal. |
| BitmapObject.Bitmap.GetCount | Helens/ds/bitmap.cc:871-908 | Plain: never fewer than the set positions, and equal iff the words counted four at a time have no tag bits and no bits past the end. Compressed: never more than the set bits, and equal iff no run of ones carries into a second digit; with a clear tail the set bits are the set positions. |
| BitmapWords.SetBitMeans | Helens/ds/bitmap.cc:308-316 | Or-ing or masking one bit changes that bit only and sets no tag bit. |
| BitmapWords.ClassifyWord | Helens/ds/bitmap.cc:340-351 | The bit count recognises the words that are all zeros and all ones. |
| BitmapWords.TestAnd | Helens/ds/bitmap.cc:101-150 | An index is set in the wordwise conjunction iff in both. |
| BitmapWords.TestOr | Helens/ds/bitmap.cc:180-229 | An index is set in the wordwise disjunction iff in one. |
| BitmapWords.TestAnds | Helens/ds/bitmap.cc:115-145 | Cutting payloads is the per-index conjunction, tag bits or not. |
| BitmapWords.TestOrs | Helens/ds/bitmap.cc:194-224 | Adding to payloads is the per-index disjunction, tag bits or not. |
| BitmapWords.TestNot | Helens/ds/bitmap.cc:152-178 | An index is set in the complement iff it was not. |
| BitmapWords.NotTwice | Helens/ds/bitmap.cc:152-178 | Complementing twice gives the words back. |
| BitmapWords.CrossesMeans | Helens/ds/bitmap.cc:649-710 | If one side has no tag bits, two word sequences of any lengths cross iff some index is set in both. |
| BitmapWords.LaneJoin | Helens/ds/bitmap.cc:106-114 | The four 16-bit lanes of a 64-bit load are the four words. |
| BitmapWords.AndJoin | Helens/ds/bitmap.cc:106-114 | 64-bit conjunction works lane by lane. |
| BitmapWords.OrJoin | Helens/ds/bitmap.cc:185-193 | 64-bit disjunction works lane by lane. |
| BitmapWords.NotJoin | Helens/ds/bitmap.cc:153-162 | 64-bit complement works lane by lane. |
| BitmapWords.PopCountJoin | Helens/ds/bitmap.cc:871-893 | The 64-bit popcount is the sum over the four words. |
| BitmapPositions.AscExact | Helens/ds/bitmap.cc:487-523 | The reference list holds a position iff it is in range and set. |
| BitmapPositions.AscAscending | Helens/ds/bitmap.cc:487-523 | The reference list is strictly ascending. |
| BitmapPositions.DescIsReverse | Helens/ds/bitmap.cc:525-614 | The descending reference list is the reverse of the ascending one. |
| BitmapPositions.WalkUnique | Helens/ds/bitmap.cc:487-523 | What a callback that may stop the walk sees is determined. |
| BitmapPositions.CountWord | Helens/ds/bitmap.cc:871-893 | The bit count of a word is the number of its set positions and of its tag bits. |
| BitmapPositions.BackwardIsReverse | Helens/ds/bitmap.cc:525-614 | The backward walk is the exact reverse iff the size fills its last word or the bit at the size is clear. |
| BitmapCount.SetBitsIsCount | Helens/ds/bitmap.cc:871-893 | Summing bit counts over clean words counts the set positions. |
| BitmapCount.WideCountExact | Helens/ds/bitmap.cc:872-893 | The plain count is never too small, and right iff the words counted four at a time are clean and clear past the end. |
| BitmapCount.RunCountExact | Helens/ds/bitmap.cc:894-908 | For one run the raw sum is exact iff it is a run of zeros or only its lowest digit is not zero. |
| BitmapCount.CompressedCountExact | Helens/ds/bitmap.cc:894-908 | The raw sum never exceeds the number of set bits, and equals it iff no run of ones has a higher digit that is not zero. |
| BitmapCount.CountIsPositions | Helens/ds/bitmap.cc:871-893 | With nothing set past the end, the set bits of what compressed words mean are its set positions. |
| BitmapIterator.Forward.Next | Helens/ds/bitmap.cc:741-767 | Moves to the next set position, or past the end when there is none. |
| BitmapIterator.Backward.Next | Helens/ds/bitmap.cc:779-810 | Moves to the previous set position, or before the start when there is none. |
| BitmapIterator.IterateForward | Helens/ds/bitmap.cc:731-767 | Driving the iterator yields exactly the set positions in order. |
| BitmapIterator.IterateBackward | Helens/ds/bitmap.cc:769-810 | Driving the reverse iterator yields their exact reverse. |
| BitmapLaws.RoundTrip | Helens/ds/bitmap.cc:329-427 | Compressing and uncompressing a clean bitmap gives its size and words back. |
| BitmapLaws.PositionsSurvive | Helens/ds/bitmap.cc:329-394 | Every position keeps its value under compression iff no mixed word has its first tag bit set. |
| BitmapLaws.FilledSurvives | Helens/ds/bitmap.cc:329-427 | A bitmap filled with 0xff has tag bits, and all its positions survive compressing and uncompressing. |
| BitmapLaws.AndAgrees | Helens/ds/bitmap.cc:101-150 | The conjunction with a compressed operand equals that with the plain one, and is the per-index conjunction. |
| BitmapLaws.OrAgrees | Helens/ds/bitmap.cc:180-229 | The same for the disjunction. |
| BitmapLaws.CrossAgrees | Helens/ds/bitmap.cc:649-710 | Crossing with a compressed operand answers as with the plain one: is there a common index. |
| BitmapLaws.ComplementFlips | Helens/ds/bitmap.cc:152-178 | Complementing a compressed bitmap flips every index below the size, and doing it twice restores the words. |
| BitmapLaws.PlainComplementFlips | Helens/ds/bitmap.cc:152-178 | Complementing a clean plain bitmap flips every index, leaves it clean iff it has no words, and leaves its positions fit for compressing iff every word was empty or full. |
| BitmapLaws.ComplementedWordIsNoRun | Helens/ds/bitmap.cc:152-178 | A concrete word left by the plain complement that reads as an ill-formed run. |
| BitmapLaws.WalksAgree | Helens/ds/bitmap.cc:487-647 | On a clean bitmap the forward walk, the list, the backward walk and the count agree. |
| BitmapLaws.CountsAgree | Helens/ds/bitmap.cc:871-908 | The count of the compressed form never exceeds that of the plain one, and equals it iff no stretch of full words is longer than 1170. |
| BitmapLaws.LongRunMiscounted | Helens/ds/bitmap.cc:894-908 | 1171 full words: the compressed form counts fewer. |
| BitmapLaws.TagBitsCounted | Helens/ds/bitmap.cc:871-893 | Fifty-six bits filled with 0xff: the plain count says sixty-four. |
| BitmapLaws.WalkPastEnd | Helens/ds/bitmap.cc:525-614 | Thirteen bits complemented in place: the backward walk starts with position 13. |
| Chunks.SpliceOwnChunk | Helens/bytearray.cc:344-377 | Writing inside one node changes that node's chunk of the flat bytes accordingly. |
| Chunks.SpliceOtherChunk | Helens/bytearray.cc:344-377 | And leaves the chunks of all other nodes alone. |
| Chunks.CursorStep | Helens/bytearray.cc:344-377 | Which node the position lies in after a step inside one node. |
| Chunks.CeilCovers | Helens/bytearray.cc:498-527 | Rounding up to whole nodes covers the need with less than one node to spare. |
| Chunks.WroteTwice | Helens/bytearray.cc:344-377 | Two adjacent writes are one write of the concatenation. |
| ByteBuffer.ByteArray.constructor | Helens/bytearray.cc:32-40 | A new buffer is valid, empty, one node large and big-endian. |
| ByteBuffer.ByteArray.AddCapacity | Helens/bytearray.cc:498-527 | Makes room in whole nodes, no more than needed, and keeps all bytes and the position. |
| ByteBuffer.ByteArray.Grow | Helens/bytearray.cc:507-526 | Appends nodes; a cursor at the end moves to the first of them. |
| ByteBuffer.ByteArray.AppendNode | Helens/bytearray.cc:514-522 | Links one node behind the last and keeps the flat bytes before it. |
| ByteBuffer.ByteArray.Write | Helens/bytearray.cc:344-377 | Writes exactly its range of the flat bytes and nothing else, moves the position, grows the size if needed. |
| ByteBuffer.ByteArray.WriteAll | Helens/bytearray.cc:350-371 | The copying loop over nodes is one splice of the flat bytes and leaves the cursor right. |
| ByteBuffer.ByteArray.Read | Helens/bytearray.cc:379-406 | Throws iff too few bytes are left; otherwise returns the flat bytes at the position and moves it. |
| ByteBuffer.ByteArray.SetPosition | Helens/bytearray.cc:438-454 | Throws iff past the capacity, with nothing changed; otherwise position and cursor move and the size never shrinks. |
| ByteBuffer.ByteArray.Clear | Helens/bytearray.cc:331-342 | Keeps the first node only, with its bytes, and starts over. |
| ByteBuffer.ByteArray.PeekExact | Helens/bytearray.cc:408-436 | The positional read starts where asked iff that place lies in the cursor's node. |
| ByteBuffer.ByteArray.ReadAt | Helens/bytearray.cc:408-436 | Throws iff the bytes asked for end past the size, or, from a position past the size, past 2^64 plus the size; otherwise returns the flat bytes from where it really starts. |
| ByteBuffer.ByteArray.ToString | Helens/bytearray.cc:529-537 | The flat bytes between position and size, with nothing moved. |
| ByteBuffer.ByteArray.GetReadBuffers | Helens/bytearray.cc:555-584 | Returns the regions of the next bytes, as many as asked for or left. |
| ByteBuffer.ByteArray.GetReadBuffersAt | Helens/bytearray.cc:586-621 | The same from an explicit position. |
| ByteBuffer.ByteArray.GetWriteBuffers | Helens/bytearray.cc:623-651 | Makes room and returns the regions of the next writable bytes; contents and position stay. |
| ByteBuffer.ByteArray.WriteThroughBuffers | Helens/bytearray.cc:623-651 | Filling the regions and setting the position equals a write. |
| ByteBuffer.RegionsApart | Helens/bytearray.cc:555-651 | No two regions share memory and each lies inside its node. |
| ByteBuffer.RegionsGather | Helens/bytearray.cc:555-621 | The regions are disjoint and concatenate to exactly the flat bytes asked for. |
| ByteBuffer.PositionalReadMisses | Helens/bytearray.cc:408-436 | A buffer in which the positional read at 2 returns the byte at 0. |
| Varint.EncodeLength | Helens/bytearray.cc:137-165 | A value below 2^(7k) takes at most k bytes. |
| Varint.EncodedByte | Helens/bytearray.cc:137-165 | Byte i holds bits 7i to 7i+6, its top bit says whether more follow, and no shorter encoding would do. |
| Varint.ParseMeans | Helens/bytearray.cc:247-283 | A reader stops at the first byte without the top bit or after its most bytes, and fails iff the bytes end before. |
| Varint.ParsedDigit | Helens/bytearray.cc:247-283 | The base-128 digits of the value read are the lower seven bits of the bytes. |
| Varint.RoundTrip | Helens/bytearray.cc:137-165 | Parsing an encoding followed by anything gives the value and consumes exactly the encoding. |
| Varint.OrShifted | Helens/bytearray.cc:253-283 | Or-ing a shifted 7-bit group in a fixed width adds it modulo that width. |
| Varint.ZigZagMeans | Helens/bytearray.cc:112-126 | The wrapping computation maps v to 2v, and negative v to -2v-1. |
| Varint.UnZigZagMeans | Helens/bytearray.cc:128-134 | The shift and exclusive-or computation inverts that arithmetic, in range. |
| Varint.ZigZagRoundTrip | Helens/bytearray.cc:112-134 | Decoding the zigzag code of any signed value gives it back. |
| Varint.ZigZagOnto | Helens/bytearray.cc:112-134 | Every unsigned value is the code of one signed value. |
| Endian.HostIndependent | Helens/endian.h:23-90 | The bytes written depend on the buffer's order only, not on the host's. |
| Endian.HostIndependentRead | Helens/endian.h:23-90 | The value read depends on the buffer's order only. |
| Endian.StoreLoad | Helens/bytearray.cc:70-110 | Loading a stored integer gives it back, in either order. |
| Endian.StoredDigit | Helens/bytearray.cc:70-110 | Byte i of a stored integer is its base-256 digit i, or counted from the other end in big-endian order. |
| Endian.LoadedDigit | Helens/bytearray.cc:203-245 | The same of an integer that was loaded. |
| Endian.SwapTwice | Helens/endian.h:23-45 | Swapping bytes twice changes nothing. |
| ByteCodec.WriteFixed | Helens/bytearray.cc:63-110 | The bytes written are the integer's base-256 digits, lowest first in a little-endian buffer and highest first otherwise, whatever the host. |
| ByteCodec.ReadFixed | Helens/bytearray.cc:203-245 | Throws iff too few bytes are left, else returns the number with those base-256 digits, in the order the flag says. |
| ByteCodec.FitsMaxBytes | Helens/bytearray.cc:141-165 | A 32-bit value fits 5 bytes and a 64-bit value 10. |
| ByteCodec.EncodeInto | Helens/bytearray.cc:141-165 | The loop fills the temporary array with exactly the encoding. |
| ByteCodec.WriteUint | Helens/bytearray.cc:141-165 | Writes exactly the encoding at the position. |
| ByteCodec.ReadUint | Helens/bytearray.cc:253-283 | The shift-and-or loop returns the parsed value modulo the width and consumes the parsed bytes, or throws when the bytes run out. |
| ByteCodec.WriteInt | Helens/bytearray.cc:137-154 | Writes the encoding of the zigzag code. |
| ByteCodec.ReadInt | Helens/bytearray.cc:249-269 | Reads a code and returns its signed value. |
| ByteCodec.WriteStringFixed | Helens/bytearray.cc:179-192 | Writes the digits of the length cut to the field, then all the bytes. |
| ByteCodec.WriteStringVint | Helens/bytearray.cc:194-197 | Writes the encoded length, then the bytes. |
| ByteCodec.ReadStringVint | Helens/bytearray.cc:323-329 | Reads a length and as many bytes, or throws. |
| ByteCodec.ReadStringFixed | Helens/bytearray.cc:299-321 | The same with a fixed-width length, whose digits are the first bytes. |
| ByteCodec.UintRoundTrip | Helens/bytearray.cc:137-283 | Write, rewind and read returns any unsigned value and consumes exactly the bytes written, at most 5 or 10. |
| ByteCodec.IntRoundTrip | Helens/bytearray.cc:112-283 | The same for any signed value through zigzag. |
| ByteCodec.FixedStringExact | Helens/bytearray.cc:179-192 | A fixed-length string is read back cut to the stored length, and whole iff its length fits the field. |
| ByteCodec.FixedStringRoundTrip | Helens/bytearray.cc:179-321 | Write, rewind and read: the string comes back cut to the stored length, whole iff its length fits the field; an empty one whose field ends at the capacity finds the cursor null. |
| Protocol.FieldsRoundTrip | Helens/protocol.cc:19-69 | Any list of 32-bit fields is read back whole, whatever follows. |
| Protocol.ImagesAre | Helens/protocol.cc:19-64 | The three formats byte by byte: type 1, 2 or 3, then the fields in order as varints, and for a response the length and bytes of the string. |
| Protocol.SerializeRequest | Helens/protocol.cc:19-24 | Writes exactly the request's image. |
| Protocol.SerializeResponse | Helens/protocol.cc:39-46 | Writes exactly the response's image. |
| Protocol.SerializeNotify | Helens/protocol.cc:60-64 | Writes exactly the notification's image. |
| Protocol.ParseRequest | Helens/protocol.cc:26-30 | Reads two fields from whatever bytes are ahead, or throws. |
| Protocol.ParseResponse | Helens/protocol.cc:48-54 | Reads three fields and a string, or throws. |
| Protocol.ParseNotify | Helens/protocol.cc:66-69 | Reads one field, or throws. |
| Protocol.RequestRoundTrip | Helens/protocol.cc:19-30 | Serialize, rewind, read the type, parse: the same request, consuming exactly its bytes, at every node size. |
| Protocol.NotifyRoundTrip | Helens/protocol.cc:60-69 | The same for notifications. |
| Protocol.ResponseRoundTrip | Helens/protocol.cc:39-54 | The same for responses; exactly when the result string is empty and the message ends at the capacity, the cursor is null where the string would be read. |
| Scheduler.Scan | Helens/scheduler.cc:153-175 | Finds the first entry the worker may take, and tells others iff an entry for another thread was passed or entries remain. |
| SchedulerSafety.AssertsHold | Helens/fiber.cc:100-141 | In a state of the invariant no assertion of `reset` or `swapIn` can fail. |
| SchedulerSafety.KeepSchedule | Helens/scheduler.h:74-151 | Scheduling a fiber without an outstanding entry keeps the invariant. |
| SchedulerSafety.KeepDequeue | Helens/scheduler.cc:153-175 | Taking an entry keeps it. |
| SchedulerSafety.KeepStartFiber | Helens/scheduler.cc:181-183 | Swapping a fiber in, or dropping an ended one, keeps it. |
| SchedulerSafety.KeepStartCb | Helens/scheduler.cc:193-200 | Running a callback on the spare or a new fiber keeps it. |
| SchedulerSafety.KeepLeave | Helens/fiber.cc:168-214 | Yielding and finishing keep it, also when the fiber has been queued while it still runs. |
| SchedulerSafety.KeepSettle | Helens/scheduler.cc:184-212 | What the loop does with a fiber that came back keeps it. |
| SchedulerSafety.StepKeeps | Helens/scheduler.cc:136-231 | Every disciplined step keeps the invariant. |
| SchedulerSafety.RunKeeps | Helens/scheduler.cc:136-231 | So does every run, and no assertion fails on the way. |
| SchedulerSafety.RunIsSafe | Helens/scheduler.cc:136-231 | For every number of workers and every run that keeps all clauses of the discipline: no assertion fails, no fiber is on two workers, and a spare callback fiber at the loop head is in its initial state. |
| SchedulerConservation.StepConserves | Helens/scheduler.cc:136-231 | Every step keeps each entry ever made in exactly one place: queued, with a worker, finished or discarded. |
| SchedulerConservation.StepCounts | Helens/scheduler.cc:168-216 | Every step keeps the active count equal to the workers between taking an entry and the decrement. |
| SchedulerConservation.LastScan | Helens/scheduler.cc:212-241 | The scan after which the last worker leaves finds no entry that any worker could take. |
| SchedulerConservation.StepExits | Helens/scheduler.cc:212-248 | Every step keeps: when all workers have left, only entries pinned to a thread remain. SchedulerHistory.LeavesExactly says when a worker leaves. |
| SchedulerConservation.EveryRunConserves | Helens/scheduler.cc:136-241 | After every run the three hold, and when all workers have left no entry is held. |
| SchedulerConservation.EveryPlayConserves | Helens/scheduler.cc:136-231 | After every run of enabled steps, disciplined or not: each entry is in exactly one place and the active count is exact. |
| SchedulerConservation.QueueStays | Helens/scheduler.cc:136-231 | When all workers have left, what is queued stays queued. |
| SchedulerHistory.LeavesExactly | Helens/scheduler.cc:212-248 | After every run of enabled steps: an idle check marks a worker for leaving iff a stop was asked for before, nothing is queued and no worker is between taking an entry and having run it; a marked worker leaves at the scan that finds nothing; nothing else changes either mark. |
| SchedulerHistory.EveryPlay | Helens/scheduler.cc:136-248 | After every run of enabled steps: without a stop request nobody has left or is marked; pinned entries are only with their thread; the queue is in the order of arrival; a fiber that yielded to READY is on a worker, queued or just taken. |
| SchedulerHistory.EveryRun | Helens/scheduler.cc:136-248 | The same for every disciplined run. |
| SchedulerHistory.QueueStep | Helens/scheduler.h:74-151 | Each call of schedule and each fiber that came back READY puts exactly one entry at the end of the queue, with its task and thread; only taking removes one. |
| SchedulerHistory.FateStep | Helens/scheduler.cc:180-216 | An entry is discarded exactly when its fiber had ended before it was run, and finished exactly when its worker is through with it. |
| SchedulerHistory.FiberStep | Helens/scheduler.cc:180-212 | What each step makes of each fiber: EXEC when swapped in, READY, TERM or EXCEPT as it leaves, HOLD if it did not change its state, INIT for a callback fiber that ended. |
| SchedulerHistory.NewFibers | Helens/scheduler.cc:193-200 | A callback makes a new fiber exactly when its worker keeps none. |
| SchedulerFailures.SecondEntryFails | Helens/fiber.cc:134-141 | From the initial state: a fiber scheduled again while it is queued leads to a failed assertion in `swapIn`; all other steps keep the discipline. |
| SchedulerFailures.ReadyTwiceFails | Helens/scheduler.cc:184-192 | The same for a fiber that yields to READY while it is queued. |
| SchedulerFailures.OwnEntryFails | Helens/scheduler.cc:193-212 | A callback's fiber that ends with its own single entry queued leads to a failed assertion in `reset`. |
| SchedulerFailures.SpareEntryFails | Helens/fiber.cc:100-116 | Scheduling a worker's spare fiber leads to a failed assertion in `reset`. |
| SchedulerFailures.TwoEntriesFail | Helens/fiber.cc:134-141 | From any state with two entries of one fiber in front and two workers at the loop head, four steps lead to the failed assertion. |
| SchedulerFailures.LateEntryStays | Helens/scheduler.h:74-151 | From the initial state: both workers leave, something is scheduled, and it stays queued in every continuation. |
| EventLog.ArmedUnique | Helens/iomanager.cc:147-198 | Registrations are numbered apart. |
| EventLog.ConsumptionSource | Helens/iomanager.cc:80-97 | Whatever is consumed was armed before, in the same slot, for the same scheduler and waiter, with nothing on that slot between. |
| EventLog.ConsumedOnce | Helens/iomanager.cc:80-303 | No registration is consumed twice. |
| EventLog.ConsumedBeforeRearm | Helens/iomanager.cc:147-198 | Between two registrations of one slot the first is consumed. |
| EventSafety.FreshInv | Helens/iomanager.cc:99-121 | The initial table satisfies the invariant. |
| EventSafety.ResizeKeeps | Helens/iomanager.cc:136-145 | Whatever size the vector gets, every registration, the kernel's side and the count stay; a context is still looked up iff it was and its descriptor is below the new size. |
| EventSafety.LookupDecides | Helens/iomanager.cc:147-303 | A registration is found by delEvent, cancelEvent and cancelAll of its descriptor iff that is looked up to its context; otherwise they change nothing and addEvent is refused; a report fires it in every case. |
| EventSafety.NotBoth | Helens/iomanager.cc:168-181 | Of the contexts of one descriptor at most one is armed. |
| EventSafety.AddAtKeeps | Helens/iomanager.cc:160-197 | On a context: keeps the invariant; aborts iff the event is armed there, succeeds iff it is not, `epoll_ctl` succeeds and the kernel does not watch the descriptor for another context; then the slot holds the scheduler and waiter given. |
| EventSafety.DelAtKeeps | Helens/iomanager.cc:208-231 | On a context: keeps the invariant; drops the registration without waking iff armed and accepted. |
| EventSafety.CancelAtKeeps | Helens/iomanager.cc:242-263 | On a context: keeps the invariant; fires exactly that registration iff armed and accepted. |
| EventSafety.CancelAllAtKeeps | Helens/iomanager.cc:274-302 | On a context: keeps the invariant; fires exactly the registrations armed there iff there are some and `epoll_ctl` succeeds. |
| EventSafety.AddEventKeeps | Helens/iomanager.cc:147-198 | By descriptor, growing the vector to fd + fd/2 slots if it is out of range: keeps the invariant; aborts iff the event is armed in the context found, succeeds as on the context. |
| EventSafety.DelEventKeeps | Helens/iomanager.cc:200-232 | By descriptor: keeps the invariant; succeeds iff the descriptor is looked up to a context where the event is armed, and `epoll_ctl` succeeds; otherwise changes nothing. |
| EventSafety.TriggerKeeps | Helens/iomanager.cc:80-97 | Fires the armed event with the scheduler and waiter it was registered for, and disarms it alone; aborts iff it is not armed. |
| EventSafety.TriggerBothKeeps | Helens/iomanager.cc:292-299 | Fires exactly the wanted events, READ first, each with the registration its slot holds; aborts iff one of them is not armed. |
| EventSafety.CancelEventKeeps | Helens/iomanager.cc:234-264 | By descriptor: the same, and fires exactly that registration. |
| EventSafety.CancelAllKeeps | Helens/iomanager.cc:266-303 | By descriptor: the same, and fires exactly the registrations armed in the context found. |
| EventSafety.DispatchKeeps | Helens/iomanager.cc:374-421 | By the context in the report, looked up or not. Skipped iff epoll_ctl fails, nothing is armed, or without error or hang-up no armed event is named; otherwise aborts iff an unarmed event is named; otherwise each armed event named, or on an error or hang-up each armed event, fires once with its own registration, nothing else does, and the rest stays armed. |
| EventSafety.OpAccepted | Helens/iomanager.cc:168-190 | The kernel accepts every operation chosen for a context but one: adding a descriptor it watches for another context. |
| IoManager.IOManager.AddEvent | Helens/iomanager.cc:147-198 | Keeps the invariant, does what the table function says, aborts iff the event is armed in the context found, and grows the vector to fd + fd/2 slots iff the descriptor is out of range. |
| IoManager.IOManager.DelEvent | Helens/iomanager.cc:200-232 | Keeps the invariant, does what the table function says; true iff armed in the context found and accepted. |
| IoManager.IOManager.TriggerEvent | Helens/iomanager.cc:80-97 | Keeps the table's invariant; succeeds iff the event is armed, and then exactly its registration has fired and only its slot has changed. |
| IoManager.IOManager.CancelEvent | Helens/iomanager.cc:234-264 | Keeps the invariant, does what the table function says; true iff armed in the context found and accepted. |
| IoManager.IOManager.CancelAll | Helens/iomanager.cc:266-303 | Keeps the invariant, does what the table function says; true iff something is armed in the context found and it is accepted. |
| IoManager.IOManager.Dispatch | Helens/iomanager.cc:374-421 | The same for the object, with the same three cases; the pending count falls by the number of waiters fired. |
| IoManager.IOManager.ContextResize | Helens/iomanager.cc:136-145 | The loop gives the vector its size, with new contexts for new places, and leaves dropped ones in memory. |
| IoManager.IOManager.DispatchAll | Helens/iomanager.cc:374-421 | Dispatches every report, in order, up to the first that aborts; keeps the invariant and the pending count. |
| IoManager.DoKeeps | Helens/iomanager.cc:147-421 | An operation fails an assertion iff it is not well used, and otherwise keeps the invariant. |
| IoManager.EveryRun | Helens/iomanager.cc:147-421 | After every run of critical sections, with resizes to any size at any moment: the pending count is the number of armed events, the kernel watches exactly those with the contexts that hold them, a slot holds what its last addEvent asked for, nothing was consumed twice, everything consumed was registered for that scheduler and waiter, and a slot is armed again only after its consumption. |
| IoManager.ResizeRace | Helens/iomanager.cc:147-158 | Size 32 read for descriptor 40, descriptor 100 armed in between: after the resize, lookups miss the registration and a new one is refused, while a report fires it and the count is right. |
| IoManager.StaleReportAborts | Helens/iomanager.cc:374-421 | Both events armed, READ cancelled, then an older report of both: the dispatch aborts. |
| DoIo.StillLive | Helens/hook.cc:106-145 | A registration that nothing consumes stays live. |
| DoIo.OwnFiring | Helens/iomanager.cc:80-97 | A firing that schedules the fiber of a parked call is the firing of that call's own registration. |
| DoIo.WokenExactly | Helens/hook.cc:127-136 | A parked call is woken by a table step iff its own registration fires in it. |
| DoIo.TableStep | Helens/iomanager.cc:80-97 | A table step that only fires registrations keeps the invariant, when calls go on because their fiber was scheduled. |
| DoIo.KeepRegister | Helens/hook.cc:127-136 | Registering one wait keeps the invariant and the other calls' waits. |
| DoIo.KeepLook | Helens/hook.cc:117-121 | A callback looking at the flag keeps the invariant. |
| DoIo.KeepRaise | Helens/hook.cc:122 | A callback raising the flag keeps the invariant, whatever has happened since it looked. |
| DoIo.KeepFind | Helens/iomanager.cc:234-240 | A callback looking the context up keeps the invariant. |
| DoIo.KeepCancel | Helens/iomanager.cc:242-263 | A callback cancelling in the context it found keeps the invariant, whatever has happened since. |
| DoIo.KeepSetSize | Helens/iomanager.cc:136-158 | A resize of the table keeps the invariant. |
| DoIo.KeepResume | Helens/hook.cc:136-145 | Resuming after a wake keeps the invariant: a timeout is reported only by a call whose flag is set. |
| DoIo.RunKeeps | Helens/hook.cc:82-149 | Every interleaving of any number of calls, reports, resizes and callback steps keeps the invariant. |
| DoIoTimeouts.TimeoutOrReadiness | Helens/hook.cc:82-149 | In every run: no wait is ended twice; the fiber scheduled is the one that registered; a timeout is reported only by a call that has one and whose own callback raised the flag; a parked call with a timeout can time out iff its flag is clear and its context looked up, or an own callback is under way to it; and while the flag is clear the timer of the attempt has not passed it. |
| DoIoTimeouts.CancelExactly | Helens/hook.cc:123 | The last step of a callback ends exactly the wait parked in the context it found, for its event, whoever's it is, iff `epoll_ctl` succeeds. |
| DoIoTimeouts.EndsExactly | Helens/hook.cc:116-125 | Left to itself a callback ends its call's wait iff it has found the right context, or can still find it and raise the flag. |
| DoIoTimeouts.TimeoutExactly | Helens/hook.cc:116-145 | A parked call with a timeout has a callback that would end its wait iff the flag is clear and its context is looked up, or a callback of its own is under way to that context. |
| DoIoTimeouts.TimeoutWakes | Helens/hook.cc:116-145 | Whichever own callback ends the wait, the call then reports the timeout. |
| DoIoTimeouts.SpentForGood | Helens/hook.cc:116-125 | With the flag raised and no own callback under way, no timer of the call can end a wait again, in every continuation. |
| DoIoTimeouts.OwnTimerExactly | Helens/hook.cc:116-139 | While no other call goes to wait on the slot, a wait is in every continuation ended by its own timer only iff no other callback for that descriptor and event has found its context or can still find it. |
| DoIoTimeouts.ForeignWakeRetries | Helens/hook.cc:136-144 | A call whose wait another call's timer ended tries again if its own flag is clear; it reports a timeout only if that is raised. |
| DoIoTimeouts.NeatThreats | Helens/hook.cc:131-139 | If no callback is left over, only the timers of calls in an attempt on the same slot threaten a wait. |
| DoIoTimeouts.RunNeat | Helens/hook.cc:131-139 | If after every wait the timer is cancelled before its callback begins, or that is through, no callback is ever left over. |
| DoIoFailures.FailedCancelParks | Helens/hook.cc:116-125 | `epoll_ctl` fails in the callback: the call stays parked and cannot time out. |
| DoIoFailures.LateCallbackHidesData | Helens/hook.cc:136-143 | A report ends the wait, the callback raises the flag before the fiber runs: the call reports a timeout. |
| DoIoFailures.FirstCall | Helens/hook.cc:103-107 | A first call is in a state from which these failures start. |
| DoIoTimeouts.ReadyWakes | Helens/iomanager.cc:374-421 | A report of just the event a call is parked for wakes that call and frees its slot, whether its context is looked up or not. |
| DoIoTimeouts.HandleExactly | Helens/iomanager.cc:374-421 | A report wakes exactly the calls parked in the context it names: on an error or hang-up all of them, otherwise those whose event it names, and none if epoll_ctl fails. |
| DoIoTimeouts.DescriptorExactly | Helens/iomanager.cc:266-304 | cancelAll on a context wakes exactly the calls parked in it, if epoll_ctl succeeds. |
| DoIoTimeouts.EndingExactly | Helens/hook.cc:98-146 | A call ends with the result of its system call iff that does not have to wait, with failure iff its event cannot be registered, with a timeout iff it resumes with its flag raised; it tries again iff it resumes with the flag clear; it takes away its own timer only. |
| DoIoTimeouts.EveryEnding | Helens/hook.cc:98-146 | After every run the calls that returned the result of their system call are exactly those whose system call did not have to wait. |
| DoIoFailures.CallbackLeftOver | Helens/hook.cc:106-145 | A report ends the wait while the callback has been handed out: it is left over for the next attempt. |
| DoIoFailures.LeftoverTimerEndsNextWait | Helens/hook.cc:103-145 | A callback left over from an earlier attempt ends the next wait, which reports a timeout. |
| DoIoFailures.EarlyTimerIsLost | Helens/hook.cc:116-136 | If the callback is through before the event is registered, the call parks and cannot time out. |
| DoIoFailures.FlagThenPark | Helens/hook.cc:116-143 | If the callback raises the flag, the call parks and the callback then goes on, it ends the wait and the call reports the timeout. |
| DoIoFailures.ShrinkLosesTimeout | Helens/iomanager.cc:153-158 | A resize below the descriptor of a parked call takes its timeout away, while a report still wakes it. |
| DoIoFailures.ForeignTimerEndsWait | Helens/hook.cc:116-144 | A callback of a call that has returned ends the wait of another call on the same slot, which tries again. |
| DoIoFailures.TwoCalls | Helens/hook.cc:103-107 | Two first calls for one descriptor and event are in a state from which that starts. |
| TimerSet.LowerBound | Helens/timer.cc:6-24 | Everything before the bound is less than the key, the element at it is not. |
| TimerSet.InsertSorted | Helens/timer.cc:6-24 | Inserting keeps the order and adds exactly one element. |
| TimerSet.FindExact | Helens/timer.cc:40-90 | In an ordered set, find finds a timer iff it is there. |
| TimerSet.EraseSorted | Helens/timer.cc:40-64 | Erasing keeps the order and removes exactly one element. |
| TimerSet.DuePrefix | Helens/timer.cc:154-159 | The prefix found is exactly the timers due, wherever the search key is allocated. |
| Timer.AddTimerKeeps | Helens/timer.cc:99-105 | The new timer has the period, flag and callback asked for and is due a period after the reading, modulo 2^64; the others are unchanged; the invariant holds; announced iff it is the new front and no announcement is out. |
| TimerSet.SortedMeans | Helens/timer.cc:6-24 | The set is ordered by deadline, and between equal deadlines by address. |
| Timer.RolloverExactly | Helens/timer.cc:187-195 | A reading counts as a clock set back iff it is more than 3600000 ms before the last one, or the last one is within the first hour and the reading is earlier. |
| Timer.CancelKeeps | Helens/timer.cc:40-49 | Keeps the invariant; succeeds iff the timer is in the set, and takes out that one, so the erase always has an entry. |
| Timer.RefreshKeeps | Helens/timer.cc:51-64 | Keeps the invariant; succeeds iff in the set, and only moves its deadline. |
| Timer.ResetKeeps | Helens/timer.cc:66-90 | Keeps the invariant; changes period and deadline iff in the set and something is to change, and announces a new front. |
| Timer.ExpireKeeps | Helens/timer.cc:163-171 | The loop renews the recurring, retires the others, collects each callback once in order, and keeps the set ordered. |
| Timer.ListExpiredKeeps | Helens/timer.cc:136-172 | Without a rollover exactly the due timers are taken, with one all; each callback is returned once; the invariant holds. |
| TimerManagerObject.TimerManager.AddTimer | Helens/timer.cc:99-105 | The object does what the function says: the new timer is as asked for, due a period after the reading, and the others are unchanged. |
| TimerManagerObject.TimerManager.InsertTimer | Helens/timer.cc:174-185 | Keeps the set ordered, adds exactly the timer, and announces iff it comes before all others and no announcement is out. |
| TimerManagerObject.TimerManager.Cancel | Helens/timer.cc:40-49 | The timer is out of the set; true iff it was in it. |
| TimerManagerObject.TimerManager.Refresh | Helens/timer.cc:51-64 | The object does what the function says; true iff the timer was in the set. |
| TimerManagerObject.TimerManager.Reset | Helens/timer.cc:66-90 | The object does what the function says and is valid after. |
| TimerManagerObject.TimerManager.GetNextTimer | Helens/timer.cc:120-134 | No stored timer is due before the delay returned is over, some timer is due then, and all ones means there is none. |
| TimerManagerObject.TimerManager.ListExpiredCb | Helens/timer.cc:136-172 | The object with its two loops does what the function says. |
| TimerManagerObject.TimerManager.DetectClockRollover | Helens/timer.cc:187-195 | True iff the reading is more than an hour before the last one, or the last one is within the first hour and the reading is earlier; the reading is remembered. |
| TimerManagerObject.TimerManager.Retire | Helens/timer.cc:159-171 | The loop over the expired prefix computes the expiry function. |
| TimerRuns.KeepAdd | Helens/timer.cc:99-105 | Adding a timer loses no wake-up. |
| TimerRuns.KeepRefresh | Helens/timer.cc:51-64 | Refreshing without an announcement loses none: the deadline only moves later. |
| TimerRuns.KeepReset | Helens/timer.cc:66-90 | Resetting to an earlier deadline loses none. |
| TimerRuns.KeepList | Helens/timer.cc:136-172 | Re-inserting recurring timers loses none, and nothing fires early. |
| TimerRuns.ListClears | Helens/timer.cc:163-171 | After a call no stored timer with a positive period is still due. |
| TimerRuns.EveryRun | Helens/timer.cc:40-195 | In every run: while m_tickled is false nothing is due before the deadline last seen, while it is true an announcement has been made since; nothing fires early; a one-shot fires at most once. |
| TimerRuns.RetiredForGood | Helens/timer.cc:40-49 | A timer without callback stays so and never fires again, whatever follows. |
| TimerRuns.CancelIsFinal | Helens/timer.cc:40-49 | After a cancel at any moment of any run, no firing of that timer follows. |
| TimerHistory.EveryFiring | Helens/timer.cc:40-195 | In every run, by its calls: what a timer hands out is the callback its addTimer was given; unless reset or refreshed, not before the reading plus the period of that call; and if that call asked for one shot, at most once. |
| TimerHistory.FiresWhenAsked | Helens/timer.cc:99-172 | A timer that was not moved, cancelled or fired is handed out by a listExpiredCb exactly if that reads the clock at the time asked for or later. |
| TimerHistory.StillThere | Helens/timer.cc:40-172 | A timer stays in the set until it is cancelled or, as a one-shot, handed out. |
| Lru.RecencyValues | Helens/ds/lru_cache.h:44-96 | The reference list holds a key with a value iff that is the value last stored and not dropped since. |
| Lru.RecencyOrder | Helens/ds/lru_cache.h:44-84 | The reference list is in order of last use. |
| Lru.SetKeeps | Helens/ds/lru_cache.h:44-56 | Setting keeps the cache a bounded prefix of the reference list. |
| Lru.SetPresent | Helens/ds/lru_cache.h:44-56 | Storing under a key that is there replaces its value, brings it to the front and keeps all other items, in order. |
| Lru.GetKeeps | Helens/ds/lru_cache.h:58-84 | So does getting. |
| Lru.DelKeeps | Helens/ds/lru_cache.h:86-96 | So does deleting. |
| Lru.InsertBound | Helens/ds/lru_cache.h:157-173 | An insertion evicts from the end iff both limits are reached, then down to exactly the maximum, and the size is at most maxSize + max(elasticity, 1) - 1. |
| Lru.RunKeeps | Helens/ds/lru_cache.h:44-118 | Every run keeps the prefix and the bound, and without deletions nothing recent is missing. |
| Lru.EveryRun | Helens/ds/lru_cache.h:44-173 | After every run: the size is bounded, a found value is the last one stored, and what is cached was used after all that is remembered but not cached. |
| Lru.NothingForgotten | Helens/ds/lru_cache.h:157-173 | Without single deletions a key among the maxSize most recent is always found; with no maximum every key is. |
| Lru.EvictionLeavesRecent | Helens/ds/lru_cache.h:157-173 | In every run, with deletions too: an eviction leaves exactly the maxSize keys used last of all that are remembered, with their last values. |
| LruCacheObject.SameSize | Helens/ds/lru_cache.h:157-163 | List and map have the same size. |
| LruCacheObject.Located | Helens/ds/lru_cache.h:44-96 | The map finds the node a search of the list would find. |
| LruCacheObject.LruCache.Set | Helens/ds/lru_cache.h:44-56 | The object does what the list function says, and the callback gets the evicted items, oldest first. |
| LruCacheObject.LruCache.Get | Helens/ds/lru_cache.h:58-84 | The object does what the list function says, value or miss. |
| LruCacheObject.LruCache.Del | Helens/ds/lru_cache.h:86-96 | The key is gone from both containers; true iff it was there. |
| LruCacheObject.LruCache.Prune | Helens/ds/lru_cache.h:157-173 | The loop evicts from the back down to the maximum, oldest first. |
| LruCacheObject.LruCache.Clear | Helens/ds/lru_cache.h:113-118 | Both containers are empty. |
| LruCacheObject.LruCache.Size | Helens/ds/lru_cache.h:103-106 | The map's size is the number of items in the list. |
| HashLru.PerShardRounds | Helens/ds/lru_cache.h:191-198 | The rounded-up total is at least what was asked for and less than one per bucket more; it is zero only for zero. |
| HashLru.PlaceExactly | Helens/ds/lru_cache.h:212-230 | The shard of a key is the remainder of its hash by the number of buckets; two keys share a shard iff their hashes differ by a multiple of it. |
| HashLru.ShardsAreCaches | Helens/ds/lru_cache.h:212-230 | Each shard is, after any run, what a cache of its own makes of the operations on its keys. |
| HashLru.LogProjects | Helens/ds/lru_cache.h:212-230 | A shard's history is its part of the history of the whole cache. |
| HashLru.NothingForgottenSharded | Helens/ds/lru_cache.h:212-222 | Without single deletions a key is lost only to keys whose hash leaves the same remainder: if fewer than a shard's maximum of them were used after it, it is found. |
| HashLru.EveryShardedRun | Helens/ds/lru_cache.h:191-253 | After any run the total size is bounded by the shards' bounds, a found value is the last one stored in the whole run, and within a shard what is found was used after all that is remembered but not found. |
| HashLru.HashLruCache.constructor | Helens/ds/lru_cache.h:191-204 | All shards are distinct and empty, and each limit times the buckets is at least what was asked for and less than one per bucket more. |
| HashLru.HashLruCache.Set | Helens/ds/lru_cache.h:212-214 | Changes only the shard at the remainder of the hash, as a set of that cache. |
| HashLru.HashLruCache.Get | Helens/ds/lru_cache.h:216-222 | Changes only the shard at the remainder of the hash, as a get of that cache, and returns its answer. |
| HashLru.HashLruCache.Del | Helens/ds/lru_cache.h:224-226 | Removes the key from the shard at the remainder of the hash, and tells whether it was there. |
| HashLru.HashLruCache.Size | Helens/ds/lru_cache.h:232-238 | The sum of the shards' sizes. |
| HashLru.HashLruCache.Clear | Helens/ds/lru_cache.h:249-253 | Every shard is empty. |
| Semaphore.FiberSemaphore.TryWait | Helens/mutex.cc:37-47 | Succeeds iff a permit is left and then takes one; keeps fibers queued only without permits. |
| Semaphore.FiberSemaphore.Wait | Helens/mutex.cc:49-60 | Succeeds iff a permit is left and then takes one; otherwise queues the fiber last. |
| Semaphore.FiberSemaphore.Notify | Helens/mutex.cc:62-71 | Hands the permit to the first fiber queued, or keeps it. |
| Semaphore.DoKeeps | Helens/mutex.cc:37-71 | Every operation conserves permits and order. |
| Semaphore.EveryRun | Helens/mutex.cc:37-71 | After every run: initial permits plus notifies are grants plus permits left, fibers queue only without permits, and permits were granted in the order asked for. |
| Semaphore.AskExactly | Helens/mutex.cc:37-60 | After every run a tryWait or wait gets a permit at once iff fewer were granted than there were and were given back; a refused tryWait leaves no trace. |
| WorkerGroup.KeepSchedule | Helens/worker.cc:21-25 | A schedule call keeps permits and queue in order. |
| WorkerGroup.KeepGiveBack | Helens/worker.cc:27-30 | Giving a permit back keeps them, whoever gets it. |
| WorkerGroup.KeepCollect | Helens/worker.cc:32-39 | A round of waitAll's loop keeps them. |
| WorkerGroup.EveryRun | Helens/worker.cc:10-39 | In every run at most batch_size callbacks are in flight; when waitAll is through, all callbacks are done iff there are permits or there were no callbacks. |
| WorkerGroup.NoPermits | Helens/worker.cc:21-39 | With batch size 0 waitAll returns past a blocked caller. |
| WorkerGroup.NoDeadlock | Helens/worker.cc:27-39 | Until a started waitAll is through, some step is possible. |
| WorkerGroup.WaitAllReturns | Helens/worker.cc:27-39 | Every continuation of a started waitAll is of bounded length, and where nothing more can happen it is through. |
| Url.HexRoundTrip | Helens/util.cc:406-424 | The two hexadecimal digits of a byte have its value. |
| Url.UnreservedExactly | Helens/util.cc:383-404 | The bytes left alone are - . = _ ~, the digits and the letters, one by one. |
| Url.EncodedAs | Helens/util.cc:429-458 | What each byte becomes, in characters: itself, a plus sign, or a percent sign and its two digits from 0123456789ABCDEF. |
| Url.DecodedEscape | Helens/util.cc:460-489 | A percent sign and two digits of either case become the byte they spell. |
| Url.DecodedOther | Helens/util.cc:460-489 | Every other byte stays, except a plus sign that is read as a space. |
| Url.UrlEncode | Helens/util.cc:429-458 | The loop with its lazy copy equals the per-byte encoding. |
| Url.UrlDecode | Helens/util.cc:460-489 | The loop with its lazy copy equals the decoding by escapes, incomplete escapes left as they are. |
| Url.RoundTripBytes | Helens/util.cc:429-489 | What comes back for each byte, for every pair of flags. |
| Url.RoundTripExact | Helens/util.cc:429-489 | Decoding the encoding gives the string back iff spaces were escaped, or plus is read as space, or there are no spaces. |
| Url.EncodeOneToOne | Helens/util.cc:429-458 | Different strings have different encodings. |
| Url.EncodeEscapes | Helens/util.cc:383-458 | The output consists of unreserved bytes, complete escapes with capital digits, and plus signs where they were asked for. |

## Left out

- Other word widths of the bitmap than the default 16 bits, `resize`, `any`, `toString`, `writeTo` and `readFrom`.
- BitmapObject.Bitmap.Cross: the operand must have the words that are looked at, where the source would read past the end of an array.
- The `operator*` of the bitmap iterators and compressed bitmaps given to the walks, which they do not support.
- ByteBuffer.ByteArray.Read: not for zero bytes at the end of the capacity, where the source follows a null cursor.
- ByteBuffer.ByteArray.ReadAt: only where the bytes it really reads lie inside the capacity and the cursor is not null, because the source would follow a null node.
- ByteBuffer.ByteArray.GetReadBuffersAt: only where the bytes lie inside the capacity; the source takes the length from the cursor's position, not from the explicit one.
- Floating-point values, file transfer and hexadecimal dumps of the byte buffer; 64-bit overflow of its sizes.
- ByteCodec.WriteStringVint: for strings shorter than 2^64 bytes, the range of `size_t`.
- The run loop of the scheduler is a state machine over its steps, not one method: threads interleave inside it. The root thread of `use_caller`, `call` and `back`, and `switchTo` are not modelled.
- SchedulerSafety.RunIsSafe: for runs that keep the discipline, clause by clause: no second entry for a fiber by scheduling it or by its yield to READY, no entry for a worker's spare fiber, no end of a callback's fiber with its own entry queued, nothing scheduled after all workers left. SchedulerFailures has a run against each; that a run which breaks a clause must fail is not claimed, since it depends on the workers.
- `IOManager::stopping` as one atomic check, the tickle pipe and the waiting inside `epoll_wait`.
- IoManager.EveryRun: for runs in which an event is not added while armed and reports name armed events only, the two cases in which the source aborts.
- A descriptor that is closed without its events being cancelled, which the kernel then forgets by itself.
- DoIo.RunKeeps: the calls are the only users of the event table, except for reports, resizes and cancelAll; a registration made or deleted by others for the same contexts is not modelled. A cancelAll may act on any context that was made.
- BitmapLaws.PositionsSurvive: speaks of all positions the words have, those past the size included.
- `connect` with timeout, sleeps and the other hooked calls.
- Condition timers and the double-checked emptiness test of `listExpiredCb`.
- TimerRuns.EveryRun: for a clock that does not go back, readings not ahead of it and deadlines below 2^64; ListExpiredKeeps covers the rollover.
- The wait for a permit and waitAll are state-machine steps, since a method cannot block; a second `waitAll`, which returns at once, and `schedule` after `waitAll` are not modelled, nor is `reset` of the semaphore.
- The counters of the cache status, `foreach` and changing the limits during a run of the cache; InsertBound holds for a cache of any size.
- HashLru.PerShardRounds: rounds exactly, where the source divides doubles.
- HashLru.HashLruCache.constructor: needs at least one bucket, since the source divides by their number.
- Url.UrlDecode: bytes above 127 are no hexadecimal digits; the source passes them to `isxdigit` as negative numbers.
- Memory ordering, context-switch internals, allocation failure, logging, configuration, sockets, databases, the URI parser.
