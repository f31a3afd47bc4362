# BadgerDB buffer manager in Dafny

This project models the buffer manager of BadgerDB (`BufMgr`, in `BufMgr/src/buffer.cpp`).
The buffer manager is a fixed pool of `numBufs` frames. Each frame has a descriptor
(`BufDesc`): owner file, page number, pin count, dirty bit, valid bit and reference bit.
Around the pool sit a hash index from (file, page number) to frame and a clock hand.
Pages come in through `readPage` and `allocPage`. They are released with `unPinPage`,
written back and dropped with `flushFile`, and deleted with `disposePage`. When a frame
is needed, `allocBuf` picks one with the clock (second-chance) algorithm.

The model is a pure state machine:

- `BufTypes` (types.dfy): identifiers, `BufDesc`, `BufDesc::Clear` and `BufDesc::Set`
  (`Cleared`, `Loaded`), the four failures, and the calls made to a File (`IoEvent`).
- `Clock` (clock.dfy): `advanceClock` and the sweep of `allocBuf`. The sweep exists as a
  recursive reference function (`ClockSweep`) and as the source's while loop (`SweepClock`).
  Three lemmas characterise the sweep completely.
- `BufMgr` (bufmgr.dfy): the state (`BufState`: descriptor table, page slots, index map,
  hand, and the log of calls issued to files), its shape (`WellFormed`), its invariant
  (`Consistent`), and the operations. Each operation returns a `Step`: the next state and a
  `Result`.
- `BufProps` (properties.dfy): every operation keeps `Consistent`. `allocBuf` fails exactly
  when nothing past the hand is evictable, and a pinned page is never evicted.
- `Scenarios` (scenarios.dfy): round trips and concrete runs.
- `AsWritten` (as_written.dfy): the code as written where it departs from its own doc
  comments, each with a concrete run exhibiting the departure (see Findings).

Where the code departs from its doc comments, the model follows the documented intent.
`AsWritten` keeps the code's own behaviour:

- `allocBuf` never writes back or unindexes its victim (buffer.cpp:53-56 says it must).
- `bufDescTable->Set` at buffer.cpp:120 and :192 sets up frame 0, not the chosen frame.
- `allocPage` inserts `pageNo` into the index (buffer.cpp:191) before assigning it
  (buffer.cpp:194).
- A `readPage` hit reads the page from the file again (buffer.cpp:131).
- A `readPage` miss never copies the page it reads into the pool.
- `flushFile` has an empty body. It is modelled from its doc comment (buffer.cpp:165-171),
  scanning frames in index order.
- buffer.cpp:82 tests `initial`, but the variable is declared `intial` (buffer.cpp:60).
  The model reads both as the one start position.

Behaviours kept as the code has them:

- The sweep starts one past the hand. The frame under the hand at entry is not examined
  in that call (buffer.cpp:60-62). With a single frame, `allocBuf` therefore always fails.
- The sweep makes at most one revolution. A frame whose reference bit it clears is not
  revisited, so `allocBuf` can fail with BufferExceeded while unpinned frames exist. The
  doc comment at buffer.cpp:54 documents BufferExceeded for the case where all frames are
  pinned.
  `Scenarios.ReferencedFramesExceeded` and `Scenarios.TwoFrameRun` show the case.
- A failed `allocBuf` keeps its side effects: reference bits it cleared stay cleared, as
  the C++ exception does not roll them back.
- `allocPage` calls `file->allocatePage()` before looking for a frame. A failed `allocPage`
  has therefore already allocated the page on disk.
- `disposePage` clears a resident page's frame whatever its pin count. It does not write
  a dirty page back.

File contents and results come in as parameters: `disk` is what `file->readPage` returns
and `newPage` is what `file->allocatePage` returns. Every call the buffer manager makes to
a File is appended to the state's `log`.

## Model

| member | source | states |
|---|---|---|
| `BufMgr.Init` | BufMgr/src/buffer.cpp:21-38 | After construction every frame is invalid and numbered by its position, the index is empty, and the hand is on frame numBufs-1. The state is consistent. |
| `Clock.AdvanceClock` | BufMgr/src/buffer.cpp:46-50 | The hand moves to the next frame and wraps to 0 after the last, so it stays in [0, numBufs). The uint32 increment never wraps. |
| `Clock.ClockSweep` | BufMgr/src/buffer.cpp:60-84 | A sweep keeps the table size and leaves the hand on a frame. A chosen frame is where the hand stops, and it is never the frame under the hand at entry. With no frame chosen, the hand is back at its start. |
| `Clock.SweepFirstFit` | BufMgr/src/buffer.cpp:62-79 | The chosen frame was evictable (invalid, or unpinned with the reference bit clear). Every frame the hand passed before it was not evictable. |
| `Clock.SweepExhaustedIff` | BufMgr/src/buffer.cpp:60-84 | The sweep fails exactly when no frame in one revolution past the start is evictable. |
| `Clock.SweepTable` | BufMgr/src/buffer.cpp:67-75 | Second chance: every frame passed over loses its reference bit. No other frame changes, including the chosen one. |
| `Clock.SweepOutcome` | BufMgr/src/buffer.cpp:60-84 | Frame by frame: a chosen frame is evictable, is not under the hand at entry and is left as found. With none chosen the hand is back at its start. Every frame is unchanged or is a valid frame that lost its reference bit. |
| `Clock.SweepClock` | BufMgr/src/buffer.cpp:58-85 | The while loop of allocBuf computes exactly the sweep ClockSweep defines. |
| `BufMgr.AllocBuf` | BufMgr/src/buffer.cpp:52-85 | On success the hand rests on the chosen frame. That frame was evictable and is now empty. Its page is unindexed and written back exactly once if dirty. On BufferExceeded the hand, index and log are unchanged. No other frame changes its pin count, dirty bit, valid bit or owner. |
| `BufMgr.ReadPage` | BufMgr/src/buffer.cpp:87-133 | A hit returns the indexed frame, sets its reference bit and adds exactly one pin, with no file call. A miss loads the file's page into an evictable frame, pinned once, indexed, with exactly one read. Otherwise a miss changes the state as allocBuf does: the hand moves to the frame, a dirty victim is written back before the read, the victim's entry leaves the index, and other frames lose at most their reference bit. A failed miss reports BufferExceeded and issues no read. It leaves the hand, index and pool as they were, and frames lose at most their reference bit. |
| `BufMgr.UnPinPage` | BufMgr/src/buffer.cpp:135-163 | A non-resident page is a no-op. A resident page with no pins gives PageNotPinned and no change. Otherwise the pin count drops by one and the dirty bit becomes old-dirty or the argument. Nothing else changes. |
| `BufMgr.AllocPage` | BufMgr/src/buffer.cpp:178-196 | The allocation is issued to the file first. On success the new page is in an evictable frame, pinned once, indexed under its own number, and that number is returned. The log is the allocation followed by the victim's write-back if it was dirty. The hand rests on the frame, and other frames lose at most their reference bit. On failure the log holds only the allocation, and the hand, index and pool are unchanged. |
| `BufMgr.DisposePage` | BufMgr/src/buffer.cpp:198-224 | Exactly one delete of the page is issued. A resident page loses its index entry and its frame is cleared, whatever its pin count. No other entry or frame changes. |
| `BufMgr.FlushFrom` | BufMgr/src/buffer.cpp:165-171 | The scan from frame i changes only frames of the file at or after i. The index only loses entries, and entries of other files remain. |
| `BufMgr.FlushFromOutcome` | BufMgr/src/buffer.cpp:165-171 | The scan from frame i succeeds exactly when no frame of the file from i on is invalid or pinned. |
| `BufMgr.FlushFromClears` | BufMgr/src/buffer.cpp:169-170 | A successful scan from frame i leaves no frame from i on owned by the file. |
| `BufMgr.FlushFromFailure` | BufMgr/src/buffer.cpp:170-171 | A failed scan reports only BadBuffer or PagePinned. BadBuffer implies an invalid frame of the file from i on, and PagePinned a pinned one. |
| `BufMgr.FlushFromLog` | BufMgr/src/buffer.cpp:165-171 | A successful scan issues exactly the write-backs of the file's dirty frames, in frame order. |
| `BufMgr.FlushFile` | BufMgr/src/buffer.cpp:165-176 | flushFile succeeds exactly when no frame of the file is invalid or pinned. Success leaves no frame of the file and writes back exactly its dirty pages. |
| `BufProps.AllocBufConsistent` | BufMgr/src/buffer.cpp:52-85 | allocBuf keeps the index and the descriptors in agreement. The frame it returns is cleared, and no index entry points to it. |
| `BufProps.AllocBufExhaustion` | BufMgr/src/buffer.cpp:52-85 | allocBuf fails with BufferExceeded exactly when every frame other than the one under the hand is resident and pinned or referenced. |
| `BufProps.AllPinnedExceeded` | BufMgr/src/buffer.cpp:52-54 | When every frame holds a pinned page, allocBuf fails with BufferExceeded. |
| `BufProps.PinnedPageSurvives` | BufMgr/src/buffer.cpp:72-75 | A pinned page stays indexed in the same frame after allocBuf, with the same pin count and dirty bit. |
| `BufProps.ReadPageConsistent` | BufMgr/src/buffer.cpp:98-133 | readPage keeps the index and the descriptors in agreement. |
| `BufProps.UnPinPageConsistent` | BufMgr/src/buffer.cpp:143-163 | unPinPage keeps the index and the descriptors in agreement. |
| `BufProps.AllocPageConsistent` | BufMgr/src/buffer.cpp:185-196 | allocPage keeps the index and the descriptors in agreement when the file hands out a page that is not resident. |
| `BufProps.DisposePageConsistent` | BufMgr/src/buffer.cpp:205-224 | disposePage keeps the index and the descriptors in agreement, even when it discards a pinned page. |
| `BufProps.FlushFromConsistent` | BufMgr/src/buffer.cpp:165-171 | The flush scan keeps the state consistent, whether it succeeds or fails. On success no index entry of the file remains. |
| `BufProps.FlushFileConsistent` | BufMgr/src/buffer.cpp:165-171 | flushFile keeps the state consistent. On success no page of the file is indexed. |
| `Scenarios.FetchTwice` | BufMgr/src/buffer.cpp:87-133 | Fetching a page twice without a release gives the same frame, pin count 2, and a single read from the file. |
| `Scenarios.PinUnpinRoundTrip` | BufMgr/src/buffer.cpp:125-163 | A clean unPinPage undoes a readPage hit. The state is restored except for the reference bit, which stays set. |
| `Scenarios.CreateReleaseFetch` | BufMgr/src/buffer.cpp:178-196 | After allocPage and a clean release, readPage finds the new page in the same frame with the contents allocPage placed there, without a read. |
| `Scenarios.FlushAbsentFile` | BufMgr/src/buffer.cpp:165-171 | flushFile on a file with no resident page succeeds and changes nothing. |
| `Scenarios.SingleFrameExceeded` | BufMgr/src/buffer.cpp:58-85 | With numBufs == 1 the sweep examines no frame, so allocBuf always fails. |
| `Scenarios.ReferencedFramesExceeded` | BufMgr/src/buffer.cpp:60-84 | If every frame past the hand is resident and referenced, allocBuf fails even when none is pinned. |
| `Scenarios.TwoFrameRun` | BufMgr/src/buffer.cpp:58-163 | Two frames: pages 1 and 2 go to frames 0 and 1, then page 1 is released dirty. Fetching page 3 fails once because frame 0 was referenced. The retry evicts frame 0 and writes page 1 back first. |
| `AsWritten.AllocBufAsWritten` | BufMgr/src/buffer.cpp:58-85 | As written, allocBuf chooses the same frame and moves the hand as the documented allocBuf does. It leaves the index, log and pool untouched and the chosen frame as it was: no write-back, no unindexing, no clearing. |
| `AsWritten.ReadPageAsWritten` | BufMgr/src/buffer.cpp:98-133 | As written, a hit is the documented hit plus one more read of the page from the file. A miss picks the documented frame but never puts the page into the pool. It indexes the page to the chosen frame and sets up frame 0. A chosen frame other than 0 is left as it was. |
| `AsWritten.AllocPageAsWritten` | BufMgr/src/buffer.cpp:185-196 | As written, allocPage indexes the caller's page number and sets up frame 0 under that number. The new page goes into the chosen frame's slot, and the log holds only the allocation. The new page's own number is indexed only if it already was. |
| `AsWritten.FlushFileAsWritten` | BufMgr/src/buffer.cpp:173-176 | As written, flushFile reports success and changes nothing. |
| `AsWritten.FlushAsWrittenKeepsPages` | BufMgr/src/buffer.cpp:165-176 | Wherever the documented flushFile succeeds, the flush as written succeeds too. It leaves every frame of the file as it was, while the documented flush leaves the file no frame. |
| `AsWritten.StaleIndexEntry` | BufMgr/src/buffer.cpp:58-85 | As written, reusing frame 0 loses dirty page 1 without a write-back and leaves it indexed to a frame now holding page 3. |
| `AsWritten.EvictionWritesBack` | BufMgr/src/buffer.cpp:52-56 | As documented, the same fetch writes page 1 back and drops its index entry, and the state stays consistent. |
| `AsWritten.SetTouchesFrameZero` | BufMgr/src/buffer.cpp:115-123 | As written, the second fetch into an empty pool gets frame 1 but sets up frame 0. The index then points at an invalid frame, and the page never reaches the pool. |
| `AsWritten.HitRereadsFile` | BufMgr/src/buffer.cpp:125-133 | As written, a fetch hit reads the page from the file again. |
| `AsWritten.AllocPageIndexesCallerNumber` | BufMgr/src/buffer.cpp:185-196 | As written, allocPage indexes the new page under the caller's incoming page number, not its own. With the hand on frame 0 the sweep chooses frame 1, which stays invalid, while frame 0 is set up. |
| `AsWritten.FlushLeavesDirtyPage` | BufMgr/src/buffer.cpp:173-176 | As written, flushFile leaves a dirty unpinned page of the file resident and unwritten. |
| `AsWritten.FlushWritesBack` | BufMgr/src/buffer.cpp:165-171 | As documented, flushing the same file writes the dirty page back and drops it. |

## Left out

- `printSelf` and the `Print()` calls (buffer.cpp:226-242): console diagnostics only.
- The destructor and the `new`/`delete` of the tables (buffer.cpp:24, 32, 41-43): memory management, not behaviour.
- Hash table sizing (buffer.cpp:34): floating point. `BufHashTbl` is a Dafny map; its bucket code is not part of this model.
- A second insert of the same key (BadgerDB's hash table throws then) is not modelled: the map overwrites. `BufProps.AllocPageConsistent` therefore requires that the file hands out a page that is not resident.
- The `Page*` results pointing at stack-local copies (buffer.cpp:122, 131-132, 189): a fetch returns the frame number instead.
- Page bytes and File I/O: file results are parameters, and the calls are recorded in the log.
- Exceptions: failures are `Result` values. `readPage` swallowing BufferExceeded (buffer.cpp:112-113) is reported as an error instead.
- `numBufs == 0`: the model requires at least one frame, because `advanceClock` would divide by zero.
- The `BufDesc` default constructor lives in buffer.h, which is not part of this model. Descriptors start out cleared.
- Concurrent access: the code is single-threaded.
- BufDesc.pinCnt is unbounded. The C++ counter incremented at buffer.cpp:129 is a fixed-width integer declared in buffer.h, and its overflow is not modelled.
- BufMgr.FlushFromFailure: names a frame that explains the error. It does not state that this frame is the first such frame, nor which earlier frames were already flushed; those stay flushed.

## Findings

| source | as written | input that shows it | evidently intended | confidence | as-written member | corrected member |
|---|---|---|---|---|---|---|
| BufMgr/src/buffer.cpp:58-85 | allocBuf returns a resident victim without writing it back, unindexing it or clearing it | page 1 dirty and unpinned in frame 0, page 2 pinned in frame 1, hand on 1; fetch page 3 | write back a dirty victim, remove its index entry, clear the frame (buffer.cpp:52-56) | not executed | `AsWritten.StaleIndexEntry` | `BufMgr.AllocBuf` |
| BufMgr/src/buffer.cpp:116-122 | a miss calls `Set` on frame 0 whatever frame was chosen, and never copies the page read into the pool | two-frame pool; fetch page 1, then page 2 | set up the chosen frame and place the page in it | not executed | `AsWritten.SetTouchesFrameZero` | `BufMgr.ReadPage` |
| BufMgr/src/buffer.cpp:125-133 | a hit reads the page from the file again | two-frame pool; fetch page 1 twice | no file call on a hit; return the frame (buffer.cpp:95-96) | not executed | `AsWritten.HitRereadsFile` | `BufMgr.ReadPage` |
| BufMgr/src/buffer.cpp:185-196 | the index entry and descriptor use `pageNo` before it receives the new page's number | caller passes 7; the file allocates page 3 | index the new page under its own number | not executed | `AsWritten.AllocPageIndexesCallerNumber` | `BufMgr.AllocPage` |
| BufMgr/src/buffer.cpp:173-176 | flushFile has an empty body | a dirty unpinned page of the file in frame 0 | write back dirty pages, unindex and clear them (buffer.cpp:165-171) | not executed | `AsWritten.FlushLeavesDirtyPage` | `BufMgr.FlushFile` |
