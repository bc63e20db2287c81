# PaxosLease I/O buffer engine and frame codec, in Dafny

This project models the zero-copy byte-buffer engine of PaxosLease (`io_buffer.cpp`,
`io_buffer.h`) and the frame header logic of its message codec (`codec.h`), and proves
what those files promise.

- **Extent** (`IOBufferData`, module `Extents`). A value: a shared storage block
  (`array<uint8>`) plus the three cursors `consumer <= producer <= end`. Copies of an
  extent share the block, as the C++ copies share it through a `shared_ptr`. Cursor-only
  operations (Fill, Consume, Trim, Write) are functions that return the moved extent
  together with the count they return. Operations that write bytes into the block
  (ZeroFill, CopyIn, Copy, Read, CopyOut) are methods with `modifies`. The slicing
  constructor is `View`: a new window onto the same block.
- **Segment list** (module `Segments`). `Length` is the sum of the extents'
  `BytesConsumable`, which `byte_count_` must equal. `Flatten` is the stream's bytes: each
  extent's `block[consumer..producer)`, in list order.
- **List loops** (module `BufList`). Each loop the `IOBuffer` methods run over
  `buf_list_` is a method on list values. Each is proved against `Flatten`/`Length` of the
  list it was given.
- **Stream** (`IOBuffer`, module `Streams`). A class with fields `segs` (`buf_list_`) and
  `count` (`byte_count_`). `Valid()` says every extent is well formed and
  `count == Length(segs)`; `Contents()` is `Flatten(segs)`. Each method states its new
  contents in terms of the old ones.
- **Descriptors** (module `Syscalls`). A descriptor being read is
  `Ready(pending bytes) | Broken`. A descriptor being written accepts `room` more bytes
  before it would block. `errno` is a parameter.
- **Codec** (module `Codec`). Encode lays out the big-endian head length, the big-endian
  type-name length, the name with its NUL, then the payload. `BufToInt32` reads a
  network-order int32. `Decode` is proved up to the hand-off to the protobuf parser.
  The type name and payload are plain bytes, and the type registry is a set of names.

Where the documented behaviour and the code disagree, the model follows the code:

- `IOBufferData::Read`/`Write` return -1, not 0, when there is nothing to do
  (io_buffer.cpp:198-199, 213-214).
- `IOBufferData::Copy` copies bytes, where the header comment says it shares the block.
- `IOBuffer::CopyIn` always returns `n`.
- `IOBuffer::CopyOut` writes a 0 into `buf[0]` before copying.

Where the code is evidently wrong, the model keeps the code as written in a separate
member, and the rest of the model uses the intended behaviour (see "## Findings").

## Model

| member | source | states |
|---|---|---|
| `Extents.IOBufferData.MaxAvailable` | io_buffer.cpp:53-56 | the count is in [0, SpaceAvailable] and is the request (clipped at 0) or all the space |
| `Extents.IOBufferData.MaxConsumable` | io_buffer.cpp:58-61 | the count is in [0, BytesConsumable] and is the request (clipped at 0) or all the bytes |
| `Extents.IOBufferData.Fill` | io_buffer.cpp:155-161 | producer advances by exactly MaxAvailable(n), which is returned; cursors stay ordered; a request of at least the free space leaves the extent full |
| `Extents.IOBufferData.Consume` | io_buffer.cpp:172-179 | consumer advances by exactly MaxConsumable(n), which is returned; cursors stay ordered; a request of at least the bytes leaves it empty |
| `Extents.IOBufferData.Trim` | io_buffer.cpp:181-186 | producer becomes consumer + MaxConsumable(n), and that count is returned |
| `Extents.TrimWindow` | io_buffer.cpp:181-186 | the trimmed window is the prefix of the old window of the returned length |
| `Extents.ConsumeWindow` | io_buffer.cpp:172-179 | the consumed window is the old window without its first returned-count bytes |
| `Extents.IOBufferData.ZeroFill` | io_buffer.cpp:163-170 | advances like Fill; the window gains exactly that many zero bytes; only the new region of the block is written |
| `Extents.IOBufferData.CopyIn` | io_buffer.cpp:217-223 | advances like Fill; the window gains the first min(n, SpaceAvailable) bytes of the source; only the new region is written |
| `Extents.IOBufferData.Copy` | io_buffer.cpp:225-231 | copies min(MaxAvailable(n), other's bytes) of other's window to the end of this window (clip corrected, see Findings) |
| `Extents.IOBufferData.CopyLengthAsWrittenOverreads` | io_buffer.cpp:225-231 | when this extent has more room than other has bytes, the memmove as written reads [other.consumer, other.consumer + ncopy), past other's producer, while the corrected count ends exactly at the producer |
| `Extents.IOBufferData.CopyOut` | io_buffer.cpp:233-238 | copies MaxConsumable(n) bytes of the window into buf, moves no cursor, writes only buf[at, at+k) |
| `Extents.IOBufferData.Read` | io_buffer.cpp:188-201 | no room for the request: -1 and nothing changes; otherwise producer advances by the bytes read(2) delivers, the window gains exactly them, and the return is that count, -errno or read's own value |
| `Extents.IOBufferData.Write` | io_buffer.cpp:203-215 | nothing to write: -1; otherwise consumer advances by the bytes write(2) took, min(room, bytes); a failure returns -errno (or -1) and moves nothing |
| `Extents.ViewPrefix` | io_buffer.cpp:139-149 | a view over the first k readable bytes holds exactly those k bytes |
| `Extents.View` | io_buffer.cpp:139-149 | the view shares the block, has window [s, p) and end e, keeps the cursors ordered within other's end; an omitted p makes it full |
| `Extents.NewDefault` | io_buffer.cpp:95-106 | a fresh empty extent over a fresh block of the 4 KiB default size |
| `Extents.NewSized` | io_buffer.cpp:108-115 | a fresh empty extent of capacity max(0, buf_size) |
| `Extents.FromBuffer` | io_buffer.cpp:128-137 | wraps buf (or a fresh block), then the cursors are those of Fill(offset + size) followed by Consume(offset) |
| `Syscalls.ReadCall` | io_buffer.cpp:193 | read(2) delivers at most n bytes and at most what is pending; short only when the descriptor has no more; -1 on a broken descriptor |
| `Syscalls.WriteCall` | io_buffer.cpp:207 | write(2) takes at most n bytes and at most room; -1 exactly when there is no room |
| `Syscalls.ErrorReturn` | io_buffer.cpp:624-627 | the error return is negative: -EAGAIN when errno is 0, otherwise -errno |
| `Syscalls.ReceivedMore` | io_buffer.cpp:585-593 | bytes delivered by successive reads concatenate to the bytes one read of their sum delivers |
| `Segments.DropEmptyTailKeeps` | io_buffer.cpp:356-358 | popping empty extents off the back keeps the stream's bytes and count |
| `Segments.NonEmptyKeeps` | io_buffer.cpp:285-293 | dropping the empty extents keeps the stream's bytes and count |
| `Segments.TailGrown` | io_buffer.h:38-43 | growing the isolated last extent into its own free space appends exactly the new bytes to the stream and keeps the others |
| `BufList.Splice` | io_buffer.cpp:283-298 | the result is this list plus the non-empty extents of other; its bytes are the two streams' bytes in order, and the count returned is other's count |
| `BufList.Move` | io_buffer.cpp:324-344 | for 0 <= n < count: the taken extents hold exactly the first n bytes, the rest the remaining bytes, with no empty extent at its front |
| `BufList.MoveBytes` | io_buffer.cpp:325-341 | the splice-and-split loop takes exactly the first n bytes, sharing blocks only |
| `BufList.PopEmpty` | io_buffer.cpp:342-344 | popping the empty front extents keeps the bytes and leaves a non-empty front |
| `BufList.MoveOnto` | io_buffer.cpp:313-352 | the receiving list holds its bytes then the first n of other's; other holds the rest |
| `BufList.Consume` | io_buffer.cpp:461-476 | removes exactly the first max(n, 0) bytes; for n > 0 the result is a front cut of the list: the extents before some j are erased, extent j survives with only its consumer advanced, and the extents after it are unchanged; for n <= 0 the list is unchanged; no new block |
| `BufList.CutNext` | io_buffer.cpp:464-469 | erasing the front extent of a front cut leaves the empty list or the front cut at the next index |
| `BufList.Trim` | io_buffer.cpp:497-519 | for 0 < n < count: keeps exactly the first n bytes |
| `BufList.Clone` | io_buffer.cpp:256-263 | the views hold the same bytes and count, share the same blocks, and each is full and non-empty |
| `BufList.Copy` | io_buffer.cpp:406-427 | the views hold exactly the first min(n, count) bytes of other, which is the count returned (corrected loop, see Findings) |
| `BufList.CopyViewsAsWritten` | io_buffer.cpp:411-421 | the views the source's loop appends: one per non-empty extent, each of up to n bytes |
| `BufList.CopyAsWrittenAppendsAll` | io_buffer.cpp:411-421 | the as-written loop appends at least min(n, count) bytes, as many as the corrected loop or more |
| `BufList.CopyAsWrittenReturnsZero` | io_buffer.cpp:411-425 | for n > 0 and other holding bytes, Copy as written returns num_bytes - nbytes == 0, which is also what it adds to byte_count_, yet the views it appends hold more bytes than that |
| `BufList.SelfCopyStep` | io_buffer.cpp:413-421 | one round of Copy(this, n) as written pushes its view onto the list the iterator walks: the list only grows and the iterator advances by one |
| `BufList.SelfCopyStaysLive` | io_buffer.cpp:413-421 | with n > 0, a round keeps an extent holding bytes at or after the iterator |
| `BufList.SelfCopyAfter` | io_buffer.cpp:413-421 | after any k rounds of Copy(this, n) as written the iterator is k and still short of the list's end |
| `BufList.SelfCopyAsWrittenNeverEnds` | io_buffer.cpp:413-421 | Copy(this, n) as written, n > 0, on a stream holding bytes: the loop's condition holds after every round, so the loop never ends |
| `BufList.CopyAsWrittenMiscounts` | io_buffer.cpp:411-425 | with two non-empty extents, Copy(other, 1) as written appends two bytes |
| `BufList.CopyOut` | io_buffer.cpp:435-448 | needs room in buf for min(n, count) bytes only; copies that many bytes, the front of the stream, into buf, writing nothing else |
| `BufList.ZeroFill` | io_buffer.cpp:354-368 | writes only into the block of the last non-empty extent; the count grows by max(n, 0), and the stream gains exactly that many zero bytes when that extent is isolated |
| `BufList.ZeroAppend` | io_buffer.cpp:360-368 | after the empty tail is popped: zero-fill the last extent, then push zero-filled default extents; max(n, 0) zero bytes are appended |
| `BufList.PopEmptyTail` | io_buffer.cpp:356-358 | the result is the list without its trailing empty extents |
| `BufList.ZeroBack` | io_buffer.cpp:360-364 | the last extent gains MaxAvailable(n) zero bytes when n > 0 |
| `BufList.PushZeros` | io_buffer.cpp:365-368 | new default extents on fresh blocks add exactly max(n, 0) zero bytes |
| `BufList.NewZeros` | io_buffer.cpp:366-367 | a fresh default extent holding min(n, 4096) zero bytes |
| `BufList.CopyIn` | io_buffer.cpp:381-396 | writes only into the last extent's block (or new blocks); the count grows by n; when appending is safe the stream gains exactly the first n source bytes; the intended check holds after every copy |
| `BufList.CopyInCheckAsWrittenFails` | io_buffer.cpp:395 | a copy that fits with room to spare violates the assertion as written, while the intended check holds |
| `BufList.Gather` | io_buffer.cpp:650-663 | the batch is the first nvec extents, all non-empty, holding toWrite bytes; empty extents met are erased; the bytes are kept; it stops only on the 32-vector or 64 KiB cap |
| `BufList.GatherAsWritten` | io_buffer.cpp:650-663 | the batch the as-written loop takes, guarded by the total written so far |
| `BufList.GatherAsWrittenTakesNothing` | io_buffer.cpp:650-669 | once 64 KiB have been written, the as-written loop batches nothing, whatever remains |
| `BufList.DropFront` | io_buffer.cpp:675-684 | after a writev of toErase bytes, exactly the first max(toErase, 0) bytes are gone |
| `BufList.PopCovered` | io_buffer.cpp:677-680 | pops whole front extents while the count covers them, stopping at the end of the list |
| `BufList.PopsPastEndWhenAllWritten` | io_buffer.cpp:677-680 | dropping every byte sends the as-written pop loop to front() of an empty list |
| `BufList.WriteDrop` | io_buffer.cpp:672-685 | a write of the whole batch at the end of the list clears it; otherwise the front nw bytes are dropped |
| `BufList.Write` | io_buffer.cpp:646-696 | empty stream: 0; first writev fails: the error return and nothing dropped; otherwise exactly min(room, count) bytes are written and dropped from the front |
| `BufList.WriteRound` | io_buffer.cpp:647-695 | one batch-writev-drop round keeps the write invariant, and stops with the final result on a short write |
| `BufList.ReadBudget` | io_buffer.cpp:553-554 | the budget is the read-ahead bound, or INT_MAX when it is negative |
| `BufList.ReadResult` | io_buffer.cpp:556-634 | the general path returns every pending byte up to the budget, and a negative error only for a broken descriptor with a positive budget |
| `BufList.AheadReturn` | io_buffer.cpp:537-541 | the fast path returns read(2)'s count, or a non-positive value only when read(2) delivered nothing |
| `BufList.ReadAheadAgrees` | io_buffer.cpp:532-634 | the fast and general paths agree, except at end of file with errno set and on a failure with errno 0 |
| `BufList.Read` | io_buffer.cpp:523-635 | writes only into the last extent's block (or new blocks); returns ReadReturn; the count grows by the bytes read, and when appending is safe the stream gains exactly the bytes the descriptor delivered |
| `BufList.ReadAhead` | io_buffer.cpp:532-543 | the fast path: one read(2) into the last extent (a new one on an empty list) |
| `BufList.PushIfEmpty` | io_buffer.cpp:533-535 | an empty list gets one fresh default extent; otherwise nothing changes |
| `BufList.ReadBack` | io_buffer.cpp:536-541 | one read(2) into the last extent appends exactly the bytes read |
| `BufList.ReadV` | io_buffer.cpp:550-634 | readv rounds until the budget is spent or a read is short; total and bytes appended as ReadResult says |
| `BufList.ReadRound` | io_buffer.cpp:556-628 | one readv round strictly decreases the budget left and keeps the read invariant |
| `BufList.ReadvCall` | io_buffer.cpp:559-591 | one readv of the sized request strictly decreases the budget left, counts every byte read in the total, and ends the loop with the general path's result on a short read |
| `BufList.ReadAppend` | io_buffer.cpp:593-620 | the bytes one readv delivered go into the tail's free space and then new default extents, in order |
| `BufList.ReadvLength` | io_buffer.cpp:559-583 | one readv asks for min(budget, tail space plus 4 KiB per remaining vector) bytes, at least 1 |
| `BufList.ReadvSpan` | io_buffer.cpp:572-582 | the vector loop covers 4 KiB per vector up to 17 vectors, and the bytes it covers are the sum of the blocks VectorBlocks allocates |
| `BufList.VectorBlocksCover` | io_buffer.cpp:572-582 | the blocks the vector loop allocates sum to the request, less what is left beyond 4 KiB for each remaining vector |
| `BufList.VectorBlocks` | io_buffer.cpp:572-582 | the loop allocates at most the vectors left, each block between 1 byte and 4 KiB |
| `BufList.ReadWrapAsWrittenOverruns` | io_buffer.cpp:572-610 | a request under 4 KiB gets one short block, and the extent the source wraps around it claims free space past the block's end |
| `BufList.ReadIndexAsWrittenMissesVectors` | io_buffer.cpp:602-603 | as written no round wraps a vector readv filled, and with all 17 vectors used it reads read_iov[17], past the array; as intended each filled vector is wrapped once, in order |
| `Streams.IOBuffer.constructor` | io_buffer.cpp:240-244 | a new stream is valid and empty |
| `Streams.IOBuffer.BytesConsumable` | io_buffer.h:158 | byte_count_ is the length of the stream's bytes |
| `Streams.IOBuffer.IsEmpty` | io_buffer.h:160 | empty exactly when the stream holds no bytes |
| `Streams.IOBuffer.Clear` | io_buffer.h:166-169 | no extents, count 0, no bytes |
| `Streams.IOBuffer.Append` | io_buffer.cpp:269-275 | the extent goes at the back; the stream gains its window; the count stays the sum |
| `Streams.IOBuffer.AppendBuffer` | io_buffer.cpp:277-301 | null: -1, nothing changes; otherwise it returns other's old count, this stream gains other's bytes (its non-empty extents), and other ends with no extents and count 0 |
| `Streams.IOBuffer.MoveAll` | io_buffer.cpp:303-311 | all of other's extents are spliced on; this stream gains other's bytes; other ends empty with count 0 |
| `Streams.IOBuffer.Move` | io_buffer.cpp:313-352 | null or n < 0: -1, and neither stream changes; other is this stream: the bytes rotate by n; otherwise moved = min(n, other's count), this gains other's first moved bytes, other keeps the rest with no empty front extent |
| `Streams.IOBuffer.MoveWithin` | io_buffer.cpp:323-351 | Move(this, n) for n below the count returns n and rotates the stream: its bytes from n on, then its first n |
| `Streams.IOBuffer.MovePart` | io_buffer.cpp:324-351 | for 0 <= n < other's count: exactly n bytes move across, counts updated |
| `Streams.IOBuffer.Consume` | io_buffer.cpp:452-477 | returns max(0, min(n, count)) and the stream loses exactly its first that many bytes; no new block; n at least the count clears the list, n <= 0 below the count leaves it as it was, otherwise the list is a front cut of the old one |
| `Streams.IOBuffer.Trim` | io_buffer.cpp:485-521 | returns and sets the count to max(0, min(n, count)); the stream keeps exactly its first that many bytes; n at least the count leaves the list as it was, n <= 0 below the count clears it |
| `Streams.IOBuffer.Clone` | io_buffer.cpp:250-267 | a fresh stream with the same bytes and count, whose extents share this stream's blocks; the original is unchanged |
| `Streams.IOBuffer.Copy` | io_buffer.cpp:406-427 | null or n < 0: -1; otherwise this gains the first min(n, other's count) bytes of other as they were, by shared views, and returns that count; other, when it is another stream, is unchanged; other may be this stream for n up to its count |
| `Streams.IOBuffer.CopyIn` | io_buffer.cpp:375-403 | writes only into the last extent's block (or new blocks); null or n < 0: -1; otherwise returns n, the count grows by n, and the stream gains the n bytes when appending is safe |
| `Streams.IOBuffer.CopyOut` | io_buffer.cpp:429-450 | needs room in buf for buf[0] and min(n, count) bytes only; null or n < 0: -1; otherwise returns min(n, count); when buf is not one of the stream's blocks it holds the stream's first bytes; buf[0] is 0 when n > 0 and nothing is copied; nothing else in buf is written |
| `Streams.IOBuffer.Peek` | io_buffer.cpp:429-450 | CopyOut of every byte into a new buffer yields exactly the stream's bytes |
| `Streams.IOBuffer.ZeroFill` | io_buffer.cpp:354-373 | writes only into the block of the last non-empty extent (or new blocks); the count grows by max(n, 0), and the stream gains that many zero bytes when the tail is isolated |
| `Streams.IOBuffer.Read` | io_buffer.cpp:523-635 | writes only into the last extent's block (or new blocks); returns ReadReturn; the count grows by the bytes read; the stream gains exactly the bytes delivered when appending is safe |
| `Streams.IOBuffer.Write` | io_buffer.cpp:637-705 | empty: 0 and no extents; first writev fails: the error return and nothing dropped; otherwise min(room, count) bytes are written and removed from the front |
| `Streams.CopyInThenOut` | io_buffer.cpp:375-450 | CopyIn of all of data into a new stream, then CopyOut, gives back data |
| `Streams.ReadThenOut` | io_buffer.cpp:523-635 | an unbounded Read into a new stream, then CopyOut, gives back the descriptor's bytes up to INT_MAX |
| `Streams.MoveThenOut` | io_buffer.cpp:313-352 | after Move(a, k) into a new stream, it reads the first k bytes and a the rest |
| `Streams.TrimThenOut` | io_buffer.cpp:485-521 | after Trim(n), the stream reads exactly the first max(0, min(n, len)) bytes |
| `Streams.ZeroFillThenOut` | io_buffer.cpp:354-373 | ZeroFill(n) of a new stream reads back as n zero bytes |
| `Streams.MoveGuardHolds` | io_buffer.cpp:305 | Move(other) on any two valid streams passes the intended guard (MoveAll relies on it) |
| `Streams.MoveGuardAsWrittenRejectsEmpty` | io_buffer.cpp:305 | Move(other) into a valid stream with no bytes, as every new stream is, fails the guard as written and passes the intended one |
| `Codec.BufToInt32` | codec.h:54-59 | the result is an int32, negative exactly when the first byte's top bit is set |
| `Codec.Word32OfBE32` | codec.h:36-37 | the four bytes htonl leaves read back as the value modulo 2^32 |
| `Codec.BufToInt32OfBE32` | codec.h:54-59 | BufToInt32 inverts the htonl packing of every int32 |
| `Codec.BE32OfBufToInt32` | codec.h:54-59 | packing what BufToInt32 reads from four bytes gives those bytes back |
| `Codec.Framed` | codec.h:28-46 | a frame is 8 + name + 1 + payload bytes long |
| `Codec.Encode` | codec.h:28-52 | a failed serialization gives the empty string; otherwise the frame of the name and payload |
| `Codec.FramedHeader` | codec.h:32-44 | bytes 0-3 read back as the frame size minus 4, bytes 4-7 as the name length plus 1, and the name, a NUL and the payload follow |
| `Codec.Decode` | codec.h:79-107 | a frame exactly when both lengths and a non-negative type-name length fit; the name is bytes [8, 8 + tnl), the payload is the next head_length - 4 - tnl bytes |
| `Codec.DecodeEncoded` | codec.h:28-107 | decoding an encoded message recovers its NUL-terminated type name and exactly its payload |
| `Codec.NameGuardAsWrittenAdmitsNegative` | codec.h:88-92 | a type-name length with its top bit set passes the check as written and makes the name slice run backwards; the intended check rejects it |
| `Codec.Int32Wrap` | codec.h:90 | an int32 sum as the machine leaves it: an int32 congruent to the sum modulo 2^32, the sum itself when it fits |
| `Codec.NameGuardAsWrittenOverflows` | codec.h:90-92 | a type-name length within 8 of INT_MAX wraps tnl + 8 negative, so any buffer of 8 bytes or more passes the check as written with the name range ending past the buffer; the intended check rejects it |
| `Codec.NameGuardOverflowReachable` | codec.h:88 | bytes 4-7 of 7F FF FF FF read as the type-name length INT_MAX |
| `Codec.PayloadLengthFits` | codec.h:96 | under Decode's demands and the intended type-name check, head_length - 4 - tnl is an int32 in [0, INT_MAX] |
| `Codec.PayloadLengthUnchecked` | codec.h:83-96 | head bytes 80 00 00 00 with a type-name length of 0 pass the type-name check, and head_length - 4 - tnl falls below INT_MIN |

## Left out

- The global allocator is not modelled: `SetIOBufferAllocator`, `Init(char*, IOBufferAllocator&)`, the allocator constructor of `IOBufferData`, `AllocaBuffer`, and the deallocator functors. It is process-wide configuration; every block has the fixed default size of 4 KiB (io_buffer.cpp:12).
- `shared_ptr` reference counting, `IsShared` and block release are not modelled. They are lifetime management; shared `array` references capture the aliasing.
- read(2), readv(2), write(2), writev(2) and `errno` are not performed. A read descriptor is `Ready(pending) | Broken`; a write descriptor accepts `room` bytes, then fails with -1. A descriptor that delivers some bytes and then fails, or accepts more after a short write within one call, is not expressible.
- Allocation failure (the `abort()` at io_buffer.cpp:88 and 577, and Clone's NULL return) is not modelled: allocation always succeeds.
- The general path of `IOBuffer::Read` runs as intended: `BufList.ReadAppend` distributes the bytes read into the tail's free space and then into default-size extents. The two defects of its distribution step as written are recorded under "## Findings"; ReadV does not run them. The vector and byte caps (17 vectors, 64 KiB per readv) are kept.
- Integer widths: byte counts are unbounded integers, so overflow of `byte_count_` or of `ssize_t` totals is not modelled. In the codec, the int32 sum of Decode's type-name check is wrapped (`Codec.Int32Wrap`, see "## Findings"); nothing in the source keeps `head_length - 4 - tnl` (codec.h:96) in range: head bytes 80 00 00 00 make it fall below INT_MIN (`Codec.PayloadLengthUnchecked`). It stays within range only under the precondition `DecodeDemands`, which puts the payload inside the buffer (`Codec.PayloadLengthFits`). IOV_MAX is taken as Linux's 1024, above both vector caps.
- Extents.View: the source only asserts its bounds (io_buffer.cpp:145-148), so here they are a precondition, with offsets relative to the block's start.
- Streams.IOBuffer.CopyIn: the bytes already in the stream are promised unchanged only when the tail's free space is no other extent's window, or the tail is full (`AppendSafe`). The source writes in place into a possibly shared block.
- Streams.IOBuffer.ZeroFill: the contents are promised only when the last non-empty extent is isolated (`TailIsolated`), for the same reason.
- Streams.IOBuffer.Read: the contents are promised only under `AppendSafe`, for the same reason.
- Streams.IOBuffer.CopyIn, Streams.IOBuffer.ZeroFill, Streams.IOBuffer.Read: the `modifies` frame names the tail extent's block, not the region [producer, end) of it that is written; that the bytes before the old producer keep their values is stated only through the contents promise above.
- Streams.IOBuffer.CopyOut: the copied bytes are promised only when `buf` is not one of the stream's own blocks (the copy is a memmove). Otherwise only the count is promised.
- BufList.ReadAppend: it models the intended distribution, not the indexing and block sizes as written (see "## Findings").
- Streams.IOBuffer.AppendBuffer, Streams.IOBuffer.MoveAll, Streams.IOBuffer.Move, Streams.IOBuffer.Copy: a stream given itself as `other` is excluded where the source is undefined or never ends. `Append(this)` splices each extent of the list it walks to that list's back and reaches them again, and `Move(this)` (also `Move(this, n)` with n at least the count) splices a whole list into itself, which std::list does not allow. `Move(this, n)` below the count is modelled as the rotation it performs (MoveWithin). `Copy(this, n)` is modelled for n up to the count; as written it never ends (see "## Findings"), and with the intended loop an n above the count would go on copying from the views it had just appended, which is not modelled.
- Codec.Decode: two demands that the source does not check are a precondition (`DecodeDemands`). The type name must be registered, because the looked-up message is used without a null check (codec.h:93-96). The head length must put the payload inside the buffer, because it is never checked against the buffer's size (codec.h:96). The buffer's size must fit an int32 (codec.h:83).
- The protobuf side of the codec is abstract: `GetTypeName`, `AppendToString`, `ParseFromArray`, and `Name2ProtobufMessage`'s descriptor-pool lookup. A name is bytes, a serialization is an `Option` of bytes, and the registry is a set of names. A parse failure is not modelled. The name Decode looks up keeps the NUL that Encode appended. Whether the descriptor pool finds a name given with its NUL is outside the model; the registry holds names as Decode passes them.
- dispatcher.h, udpsocket.cpp, udpsocket.h, net_manager.h and node_server.cpp are not part of this model. They are runtime-type dispatch, socket plumbing, an event-loop sketch that does not compile, and a demo `main`.

## Findings

| source | as written | input that shows it | evidently intended | confidence | as-written member | corrected member |
|---|---|---|---|---|---|---|
| io_buffer.cpp:413-425 | `IOBuffer::Copy` never decreases `nbytes` in its loop, so it appends a view of up to n bytes from every non-empty extent, then adds `num_bytes - nbytes == 0` to `byte_count_` | `other` with two non-empty extents, `Copy(other, 1)`: two bytes appended, count unchanged, returns 0 | decrease `nbytes` by each view's length; append and count min(n, other's count) bytes | high, not executed | `BufList.CopyAsWrittenMiscounts` | `BufList.Copy` |
| io_buffer.cpp:225-231 | `IOBufferData::Copy` clips only to this extent's free space | this extent with 10 bytes free, `other` holding 2 bytes, n = 5: 5 bytes are read, 3 of them past `other`'s producer | also clip to `other`'s readable bytes | medium, not executed | `Extents.IOBufferData.CopyLengthAsWrittenOverreads` | `Extents.IOBufferData.Copy` |
| io_buffer.cpp:395 | `assert(nb == 0 \|\| buf_list_.back().IsFull())` after each copy | `CopyIn` of 3 bytes into an empty stream: nb = 3, the new 4 KiB extent is not full, the assertion fails | `nbytes == 0 \|\| IsFull()` | high, not executed | `BufList.CopyInCheckAsWrittenFails` | `BufList.CopyIn` |
| io_buffer.cpp:305 | `byte_count_ >> 0` is `byte_count_`, so `Move(other)` asserts a non-empty destination | `Move(other)`, or `Move(other, n)` with n at least other's count, into an empty stream | `byte_count_ >= 0` | high, not executed | `Streams.MoveGuardAsWrittenRejectsEmpty` | `Streams.MoveGuardHolds` |
| io_buffer.cpp:651 | Write's batching loop is guarded by `total_write < kPreferredWriteSize` | 33 full 4 KiB extents and a descriptor that takes everything: the first batch writes 32 extents (128 KiB); the second batches nothing, so the last extent is cleared unwritten and `byte_count_` stays at 4 KiB over an empty list | guard on this batch's `to_write` | high, not executed | `BufList.GatherAsWrittenTakesNothing` | `BufList.Gather` |
| io_buffer.cpp:677-680 | the pop loop after writev does not stop at the end of the list | 32 one-byte extents then one empty extent: the batch stops at 32 vectors, writev takes all 32 bytes, the loop pops all 33 extents, then calls `front()` on an empty list | stop when the list is empty | medium, not executed | `BufList.PopsPastEndWhenAllWritten` | `BufList.DropFront` |
| io_buffer.cpp:413-421 | `IOBuffer::Copy` walks `other->buf_list_` while it pushes views onto `buf_list_`, and never decreases `nbytes` | `x.Copy(&x, 1)` on a stream holding one byte: each round pushes a one-byte view behind the iterator, so the iterator never reaches the end and the loop never ends | decrease `nbytes`, which stops the walk after the first n bytes for n up to the count | high, not executed | `BufList.SelfCopyAsWrittenNeverEnds` | `Streams.IOBuffer.Copy` |
| io_buffer.cpp:603 | the distribution loop wraps `read_iov[nvec]` in every round instead of `read_iov[i]` | a Read with budget 8192 on a stream whose last extent is full: two vectors are filled, and both rounds wrap `read_iov[2]`, which this call never set; with all 17 vectors filled, `read_iov[17]` is past the array | wrap `read_iov[i]` | high, not executed | `BufList.ReadIndexAsWrittenMissesVectors` | `BufList.ReadAppend` |
| io_buffer.cpp:610 | each new block is wrapped as an extent of `buf_size` bytes, though it was allocated with `nb` bytes (io_buffer.cpp:575) | a Read with budget 100 on a stream whose last extent is full: a 100-byte block becomes a 4 KiB extent with 3996 bytes of free space past the block's end, which a later CopyIn writes into | wrap the block with its own size `nb` | high, not executed | `BufList.ReadWrapAsWrittenOverruns` | `BufList.ReadAppend` |
| codec.h:90 | `type_name_length + kHeadLengthSpace + kTypeNameLengthSpace` is an int32 sum that overflows | a frame of 8 bytes or more whose bytes 4-7 are 7F FF FF FF: tnl + 8 wraps to a negative int32 and the check passes; the name range [8, 8 + INT_MAX) runs 2 GiB past the buffer | compare in a wider type, or check tnl against length - 8 | medium, not executed | `Codec.NameGuardAsWrittenOverflows` | `Codec.Decode` |
| codec.h:90-92 | the type-name length is checked against the buffer from above only | a frame whose bytes 4-7 are FF FF FF FF: the length reads as -1, passes the check, and the name range [8, 7) runs backwards | reject a negative type-name length | medium, not executed | `Codec.NameGuardAsWrittenAdmitsNegative` | `Codec.Decode` |
