/**
  BufMgr: the buffer pool of BadgerDB as a state machine. The state holds the frame
  descriptor table, the page slots, the (file, page) -> frame index, the clock hand and
  the log of calls issued to files; every operation maps a state to a Step, the next
  state together with the operation's result.
*/
module BufMgr {
  import opened BufTypes
  import Clock

  type Key = (FileId, PageId)

  datatype BufState = BufState(
    numBufs: nat,
    descs: seq<BufDesc>,
    pool: seq<Page>,
    index: map<Key, FrameId>,
    clockHand: FrameId,
    log: seq<IoEvent>)

  datatype Step<T> = Step(state: BufState, out: Result<T>)

  /** Shape of every state: numBufs frames (a uint32 count, at least one), the hand on a
      frame, descriptors numbered by position, the index pointing into the table and
      every valid frame owned by some file. */
  predicate WellFormed(s: BufState) {
    && 0 < s.numBufs < Word
    && |s.descs| == s.numBufs
    && |s.pool| == s.numBufs
    && s.clockHand < s.numBufs
    && (forall i :: 0 <= i < |s.descs| ==> s.descs[i].frameNo == i)
    && (forall i :: 0 <= i < |s.descs| && s.descs[i].valid ==> s.descs[i].file.Some?)
    && (forall key :: key in s.index ==> s.index[key] < s.numBufs)
  }

  /** The index entry a valid descriptor stands for. */
  function KeyOf(d: BufDesc): (k: Key)
    requires d.file.Some?
  {
    (d.file.value, d.pageNo)
  }

  /** The invariant the buffer manager keeps: an invalid frame is fully cleared, and the
      index and the valid descriptors agree in both directions. */
  predicate Consistent(s: BufState) {
    && WellFormed(s)
    && (forall i :: 0 <= i < |s.descs| && !s.descs[i].valid ==> s.descs[i] == Cleared(i))
    && (forall i :: 0 <= i < |s.descs| && s.descs[i].valid ==>
          KeyOf(s.descs[i]) in s.index && s.index[KeyOf(s.descs[i])] == i)
    && (forall key :: key in s.index ==>
          s.descs[s.index[key]].valid && KeyOf(s.descs[s.index[key]]) == key)
  }

  /** The BufMgr constructor: numBufs cleared frames numbered 0 .. numBufs-1, an empty
      index and the hand on the last frame, so the first sweep starts at frame 0. */
  function Init(numBufs: nat): (s: BufState)
    requires 0 < numBufs < Word
    ensures Consistent(s) && s.numBufs == numBufs && |s.descs| == numBufs
    ensures forall i :: 0 <= i < numBufs ==> !s.descs[i].valid && s.descs[i].frameNo == i
    ensures s.clockHand == numBufs - 1 && s.index == map[] && s.log == []
  {
    BufState(numBufs, seq(numBufs, i requires 0 <= i => Cleared(i)), seq(numBufs, i => EmptyPage), map[], numBufs - 1, [])
  }

  /** What allocBuf does with the frame it chose, as its doc comment (buffer.cpp:52-56)
      asks: a resident page is written back if dirty, dropped from the index and its
      descriptor cleared. The code as written omits all of this (see AsWritten). */
  function Evict(s: BufState, f: FrameId): (s': BufState)
    requires WellFormed(s) && f < s.numBufs
  {
    var d := s.descs[f];
    if !d.valid then s
    else
      var log := if d.dirty then s.log + [WriteEvent(d.file.value, d.pageNo, s.pool[f])] else s.log;
      s.(index := s.index - {KeyOf(d)}, descs := s.descs[f := Cleared(f)], log := log)
  }

  /** allocBuf: one clock sweep from one past the hand. On success the hand rests on the
      chosen frame, which was evictable and is now empty; a dirty resident victim is
      written back exactly once. On failure (BufferExceeded) the index and the log are
      untouched and the hand is back where it was. Either way every other frame keeps its
      pin count, dirty and valid bits and owner, and can only lose its reference bit. */
  function AllocBuf(s: BufState): (r: Step<FrameId>)
    requires WellFormed(s)
    ensures WellFormed(r.state) && r.state.numBufs == s.numBufs && r.state.pool == s.pool
    ensures r.out.Err? ==>
      && r.out.error == BufferExceeded
      && r.state.clockHand == s.clockHand && r.state.index == s.index && r.state.log == s.log
    ensures r.out.Ok? ==>
      var f := r.out.value;
      && f < s.numBufs && f != s.clockHand && r.state.clockHand == f
      && Evictable(s.descs[f])
      && r.state.descs[f] == (if s.descs[f].valid then Cleared(f) else s.descs[f])
      && r.state.index == (if s.descs[f].valid then s.index - {KeyOf(s.descs[f])} else s.index)
      && r.state.log == s.log +
           (if s.descs[f].valid && s.descs[f].dirty
            then [WriteEvent(s.descs[f].file.value, s.descs[f].pageNo, s.pool[f])] else [])
    ensures forall i :: 0 <= i < s.numBufs && (r.out.Err? || i != r.out.value) ==>
      r.state.descs[i] == s.descs[i] || (s.descs[i].valid && r.state.descs[i] == s.descs[i].(refbit := false))
  {
    var sw := Clock.ClockSweep(s.descs, s.clockHand, 1);
    Clock.SweepOutcome(s.descs, s.clockHand);
    var s1 := s.(descs := sw.table, clockHand := sw.hand);
    assert WellFormed(s1) by {
      forall i | 0 <= i < |s.descs| ensures s1.descs[i].frameNo == i && (s1.descs[i].valid ==> s1.descs[i].file.Some?) {
      }
    }
    match sw.victim
    case None => Step(s1, Err(BufferExceeded))
    case Some(f) =>
      assert s1.descs[f] == s.descs[f];
      Step(Evict(s1, f), Ok(f))
  }

  /** Set up frame f for page pageNo of `file`, as BufDesc::Set does, with `page` in the
      frame's slot and the page registered in the index. */
  function Install(t: BufState, f: FrameId, file: FileId, pageNo: PageId, page: Page): (t': BufState)
    requires WellFormed(t) && f < t.numBufs
    ensures WellFormed(t') && t'.numBufs == t.numBufs && t'.log == t.log && t'.clockHand == t.clockHand
    ensures t'.pool == t.pool[f := page] && t'.index == t.index[(file, pageNo) := f]
    ensures t'.descs[f] == Loaded(f, file, pageNo)
    ensures forall i :: 0 <= i < t.numBufs && i != f ==> t'.descs[i] == t.descs[i]
  {
    var t' := t.(
      pool := t.pool[f := page],
      index := t.index[(file, pageNo) := f],
      descs := t.descs[f := Loaded(f, file, pageNo)]);
    assert WellFormed(t') by {
      forall i | 0 <= i < |t'.descs| ensures t'.descs[i].frameNo == i { }
    }
    t'
  }

  /** readPage: a resident page (hit) gets its reference bit set and one more pin, with no
      call to the file; a missing page (miss) gets a frame from allocBuf, is read from the
      file exactly once into that frame, registered in the index and left pinned once;
      apart from that, a miss does what allocBuf does (the victim written back if dirty and
      unindexed, the hand on the frame, other frames losing at most their reference bit).
      `disk` is what file->readPage returns. When allocBuf fails the error is reported
      (the code swallows it, buffer.cpp:112-113) and no read is issued. On a hit the code
      reads the page from the file again (buffer.cpp:131) to hand back a pointer to a
      local copy; the model follows the doc comment (buffer.cpp:95-96) and returns the frame. */
  function ReadPage(s: BufState, file: FileId, pageNo: PageId, disk: Page): (r: Step<FrameId>)
    requires WellFormed(s)
    ensures WellFormed(r.state) && r.state.numBufs == s.numBufs
    ensures (file, pageNo) in s.index ==>
      var f := s.index[(file, pageNo)];
      && r.out == Ok(f)
      && r.state.descs[f].pinCnt == s.descs[f].pinCnt + 1 && r.state.descs[f].refbit
      && r.state.descs[f] == s.descs[f].(pinCnt := r.state.descs[f].pinCnt, refbit := true)
      && (forall i :: 0 <= i < s.numBufs && i != f ==> r.state.descs[i] == s.descs[i])
      && r.state.index == s.index && r.state.pool == s.pool && r.state.log == s.log
      && r.state.clockHand == s.clockHand
    ensures (file, pageNo) !in s.index && r.out.Err? ==>
      && r.out.error == BufferExceeded
      && r.state.index == s.index && r.state.log == s.log && r.state.pool == s.pool
      && r.state.clockHand == s.clockHand
      && forall i :: 0 <= i < s.numBufs ==>
           r.state.descs[i] == s.descs[i] || (s.descs[i].valid && r.state.descs[i] == s.descs[i].(refbit := false))
    ensures (file, pageNo) !in s.index && r.out.Ok? ==>
      var f := r.out.value;
      && f < s.numBufs && f != s.clockHand && r.state.clockHand == f && Evictable(s.descs[f])
      && r.state.descs[f] == Loaded(f, file, pageNo)
      && r.state.pool == s.pool[f := disk]
      && r.state.index == (if s.descs[f].valid then s.index - {KeyOf(s.descs[f])} else s.index)[(file, pageNo) := f]
      && r.state.log == s.log +
           (if s.descs[f].valid && s.descs[f].dirty
            then [WriteEvent(s.descs[f].file.value, s.descs[f].pageNo, s.pool[f])] else [])
           + [ReadEvent(file, pageNo)]
      && forall i :: 0 <= i < s.numBufs && i != f ==>
           r.state.descs[i] == s.descs[i] || (s.descs[i].valid && r.state.descs[i] == s.descs[i].(refbit := false))
  {
    if (file, pageNo) in s.index then
      var f := s.index[(file, pageNo)];
      var d := s.descs[f];
      Step(s.(descs := s.descs[f := d.(refbit := true, pinCnt := d.pinCnt + 1)]), Ok(f))
    else
      var a := AllocBuf(s);
      match a.out
      case Err(e) => Step(a.state, Err(e))
      case Ok(f) =>
        var t := a.state;
        Step(Install(t.(log := t.log + [ReadEvent(file, pageNo)]), f, file, pageNo, disk), Ok(f))
  }

  /** unPinPage: releasing a page that is not resident does nothing; releasing a resident
      page with no pins fails with PageNotPinned and changes nothing; otherwise the pin
      count drops by one and the page becomes dirty when `dirty` is set (a clean release
      never clears an earlier dirty mark). */
  function UnPinPage(s: BufState, file: FileId, pageNo: PageId, dirty: bool): (r: Step<()>)
    requires WellFormed(s)
    ensures WellFormed(r.state) && r.state.numBufs == s.numBufs
    ensures (file, pageNo) !in s.index ==> r == Step(s, Ok(()))
    ensures (file, pageNo) in s.index && s.descs[s.index[(file, pageNo)]].pinCnt == 0 ==>
      r == Step(s, Err(PageNotPinned))
    ensures (file, pageNo) in s.index && s.descs[s.index[(file, pageNo)]].pinCnt > 0 ==>
      var f := s.index[(file, pageNo)];
      && r.out == Ok(())
      && r.state.descs[f].pinCnt + 1 == s.descs[f].pinCnt
      && r.state.descs[f].dirty == (s.descs[f].dirty || dirty)
      && r.state.descs[f] == s.descs[f].(pinCnt := r.state.descs[f].pinCnt, dirty := r.state.descs[f].dirty)
      && r.state == s.(descs := r.state.descs)
      && (forall i :: 0 <= i < s.numBufs && i != f ==> r.state.descs[i] == s.descs[i])
  {
    if (file, pageNo) !in s.index then Step(s, Ok(()))
    else
      var f := s.index[(file, pageNo)];
      var d := s.descs[f];
      if d.pinCnt == 0 then Step(s, Err(PageNotPinned))
      else
        var d' := d.(pinCnt := d.pinCnt - 1);
        var d'' := if dirty then d'.(dirty := true) else d';
        Step(s.(descs := s.descs[f := d'']), Ok(()))
  }

  /** allocPage: the file allocates a fresh page (`newPage`, what file->allocatePage
      returns) before a frame is sought, so the allocation is issued even when allocBuf then
      fails with BufferExceeded. On success the new page sits in the chosen frame, pinned
      once, indexed under its own page number, and that number is returned with the frame;
      the log holds the allocation followed by allocBuf's write-back, if any, and the rest
      of the state changes as allocBuf changes it.
      The code inserts the index entry before it has read the new page number
      (buffer.cpp:191 and 194) and sets up frame 0 rather than the chosen frame
      (buffer.cpp:192); the model follows the documented intent (see AsWritten). */
  function AllocPage(s: BufState, file: FileId, newPage: Page): (r: Step<(PageId, FrameId)>)
    requires WellFormed(s)
    ensures WellFormed(r.state) && r.state.numBufs == s.numBufs
    ensures r.out.Err? ==>
      && r.out.error == BufferExceeded && r.state.index == s.index && r.state.pool == s.pool
      && r.state.log == s.log + [AllocateEvent(file, newPage.number)]
      && r.state.clockHand == s.clockHand
      && forall i :: 0 <= i < s.numBufs ==>
           r.state.descs[i] == s.descs[i] || (s.descs[i].valid && r.state.descs[i] == s.descs[i].(refbit := false))
    ensures r.out.Ok? ==>
      var (p, f) := r.out.value;
      && p == newPage.number && f < s.numBufs && Evictable(s.descs[f])
      && f != s.clockHand && r.state.clockHand == f
      && r.state.descs[f] == Loaded(f, file, p)
      && r.state.pool == s.pool[f := newPage]
      && r.state.index == (if s.descs[f].valid then s.index - {KeyOf(s.descs[f])} else s.index)[(file, p) := f]
      && r.state.log == s.log + [AllocateEvent(file, p)] +
           (if s.descs[f].valid && s.descs[f].dirty
            then [WriteEvent(s.descs[f].file.value, s.descs[f].pageNo, s.pool[f])] else [])
      && forall i :: 0 <= i < s.numBufs && i != f ==>
           r.state.descs[i] == s.descs[i] || (s.descs[i].valid && r.state.descs[i] == s.descs[i].(refbit := false))
  {
    var s0 := s.(log := s.log + [AllocateEvent(file, newPage.number)]);
    var a := AllocBuf(s0);
    match a.out
    case Err(e) => Step(a.state, Err(e))
    case Ok(f) =>
      var p := newPage.number;
      Step(Install(a.state, f, file, p, newPage), Ok((p, f)))
  }

  /** disposePage: a resident page loses its index entry and its frame is cleared,
      whatever its pin count; resident or not, the file is asked to delete the page
      exactly once. A dirty resident page is not written back. */
  function DisposePage(s: BufState, file: FileId, pageNo: PageId): (s': BufState)
    requires WellFormed(s)
    ensures WellFormed(s') && s'.numBufs == s.numBufs && s'.pool == s.pool && s'.clockHand == s.clockHand
    ensures s'.log == s.log + [DeleteEvent(file, pageNo)]
    ensures (file, pageNo) !in s'.index
    ensures forall key :: key != (file, pageNo) ==> (key in s'.index <==> key in s.index)
    ensures forall key :: key in s'.index ==> s'.index[key] == s.index[key]
    ensures (file, pageNo) !in s.index ==> s'.descs == s.descs
    ensures (file, pageNo) in s.index ==>
      var f := s.index[(file, pageNo)];
      && s'.descs[f] == Cleared(f)
      && (forall i :: 0 <= i < s.numBufs && i != f ==> s'.descs[i] == s.descs[i])
  {
    var log := s.log + [DeleteEvent(file, pageNo)];
    if (file, pageNo) !in s.index then s.(log := log)
    else
      var f := s.index[(file, pageNo)];
      var s' := s.(index := s.index - {(file, pageNo)}, descs := s.descs[f := Cleared(f)], log := log);
      assert WellFormed(s') by {
        forall i | 0 <= i < |s'.descs| ensures s'.descs[i].frameNo == i { }
      }
      s'
  }

  /** The write-backs flushing `file` issues over the frames t, in frame order: one per
      dirty frame the file owns. */
  function WriteBacks(t: seq<BufDesc>, pool: seq<Page>, file: FileId): (w: seq<IoEvent>)
    requires |pool| == |t|
  {
    if |t| == 0 then []
    else
      (if t[0].file == Some(file) && t[0].dirty then [WriteEvent(file, t[0].pageNo, pool[0])] else [])
      + WriteBacks(t[1..], pool[1..], file)
  }

  /** A frame flushFile must refuse: owned by the file but invalid (BadBuffer) or pinned
      (PagePinned). */
  predicate Blocks(d: BufDesc, file: FileId) {
    d.file == Some(file) && (!d.valid || d.pinCnt > 0)
  }

  /** flushFile over frames i .. numBufs-1, in frame order (the body of flushFile in
      buffer.cpp is empty; this follows its doc comment). Each frame of the file is
      written back if dirty, dropped from the index and cleared; the first frame of the
      file that is invalid or pinned stops the scan with BadBuffer or PagePinned, and the
      frames flushed before it stay flushed. */
  function FlushFrom(s: BufState, file: FileId, i: nat): (r: Step<()>)
    requires WellFormed(s) && i <= s.numBufs
    decreases s.numBufs - i
    ensures WellFormed(r.state) && r.state.numBufs == s.numBufs
    ensures r.state.pool == s.pool && r.state.clockHand == s.clockHand
    ensures forall j :: 0 <= j < i ==> r.state.descs[j] == s.descs[j]
    ensures forall j :: 0 <= j < s.numBufs && s.descs[j].file != Some(file) ==> r.state.descs[j] == s.descs[j]
    ensures forall key :: key in r.state.index ==> key in s.index && r.state.index[key] == s.index[key]
    ensures forall key :: key in s.index && key.0 != file ==> key in r.state.index
  {
    if i == s.numBufs then Step(s, Ok(()))
    else
      var d := s.descs[i];
      if d.file != Some(file) then
        FlushFrom(s, file, i + 1)
      else if !d.valid then Step(s, Err(BadBuffer))
      else if d.pinCnt > 0 then Step(s, Err(PagePinned))
      else FlushFrom(FlushFrame(s, i), file, i + 1)
  }

  /** Flushing one unpinned resident frame: write it back if dirty, drop its index entry
      and clear its descriptor. */
  function FlushFrame(s: BufState, i: nat): (s': BufState)
    requires WellFormed(s) && i < s.numBufs && s.descs[i].valid
    ensures WellFormed(s') && s'.numBufs == s.numBufs && s'.pool == s.pool && s'.clockHand == s.clockHand
    ensures s'.descs == s.descs[i := Cleared(i)]
  {
    var d := s.descs[i];
    var log := if d.dirty then s.log + [WriteEvent(d.file.value, d.pageNo, s.pool[i])] else s.log;
    var s' := s.(index := s.index - {KeyOf(d)}, descs := s.descs[i := Cleared(i)], log := log);
    assert WellFormed(s') by {
      forall j | 0 <= j < |s'.descs| ensures s'.descs[j].frameNo == j { }
    }
    s'
  }

  /** The outcome of FlushFrom: success exactly when no frame of the file from i on is
      invalid or pinned. */
  lemma {:induction false} FlushFromOutcome(s: BufState, file: FileId, i: nat)
    requires WellFormed(s) && i <= s.numBufs
    decreases s.numBufs - i
    ensures FlushFrom(s, file, i).out.Ok? <==> forall j :: i <= j < s.numBufs ==> !Blocks(s.descs[j], file)
  {
    if i < s.numBufs && !Blocks(s.descs[i], file) {
      var next := FlushNext(s, file, i);
      FlushFromOutcome(next, file, i + 1);
      FlushFromStep(s, file, i);
      forall j | i < j < s.numBufs ensures next.descs[j] == s.descs[j] { }
    }
  }


  /** A successful FlushFrom leaves no frame from i on belonging to the file. */
  lemma {:induction false} FlushFromClears(s: BufState, file: FileId, i: nat)
    requires WellFormed(s) && i <= s.numBufs
    decreases s.numBufs - i
    ensures var r := FlushFrom(s, file, i);
      r.out.Ok? ==> forall j :: i <= j < s.numBufs ==> r.state.descs[j].file != Some(file)
  {
    if i < s.numBufs && !Blocks(s.descs[i], file) {
      var next := FlushNext(s, file, i);
      FlushFromClears(next, file, i + 1);
      FlushFromStep(s, file, i);
    }
  }


  /** A failed FlushFrom names a frame of the file from i on that caused it: BadBuffer
      an invalid one, PagePinned a pinned one. */
  lemma {:induction false} FlushFromFailure(s: BufState, file: FileId, i: nat)
    requires WellFormed(s) && i <= s.numBufs
    decreases s.numBufs - i
    ensures var r := FlushFrom(s, file, i);
      && (r.out.Err? ==> r.out.error == BadBuffer || r.out.error == PagePinned)
      && (r.out == Err(BadBuffer) ==>
            exists j :: i <= j < s.numBufs && s.descs[j].file == Some(file) && !s.descs[j].valid)
      && (r.out == Err(PagePinned) ==>
            exists j :: i <= j < s.numBufs && s.descs[j].file == Some(file) && s.descs[j].valid && s.descs[j].pinCnt > 0)
  {
    if i < s.numBufs && !Blocks(s.descs[i], file) {
      var next := FlushNext(s, file, i);
      FlushFromFailure(next, file, i + 1);
      FlushFromStep(s, file, i);
      forall j | i < j < s.numBufs ensures next.descs[j] == s.descs[j] { }
    }
  }


  /** A successful FlushFrom issues exactly the write-backs of the dirty frames of the
      file from i on, in frame order, and nothing else. */
  lemma {:induction false} FlushFromLog(s: BufState, file: FileId, i: nat)
    requires WellFormed(s) && i <= s.numBufs
    decreases s.numBufs - i
    ensures var r := FlushFrom(s, file, i);
      r.out.Ok? ==> r.state.log == s.log + WriteBacks(s.descs[i..], s.pool[i..], file)
  {
    if i == s.numBufs {
      assert s.descs[i..] == [] && s.pool[i..] == [];
    } else if s.descs[i].file != Some(file) {
      FlushFromLog(s, file, i + 1);
      SkipFrameLog(s.descs, s.pool, file, i);
      FlushFromStep(s, file, i);
    } else if !Blocks(s.descs[i], file) {
      FlushFromLog(FlushFrame(s, i), file, i + 1);
      FlushFrameLog(s, file, i);
      FlushFromStep(s, file, i);
    }
  }

  /** A frame of another file adds no write-back. */
  lemma SkipFrameLog(t: seq<BufDesc>, pool: seq<Page>, file: FileId, i: nat)
    requires |pool| == |t| && i < |t| && t[i].file != Some(file)
    ensures WriteBacks(t[i..], pool[i..], file) == WriteBacks(t[i + 1..], pool[i + 1..], file)
  {
    WriteBacksStep(t, pool, file, i);
    assert [] + WriteBacks(t[i + 1..], pool[i + 1..], file) == WriteBacks(t[i + 1..], pool[i + 1..], file);
  }

  /** The state the flush scan moves on with past a frame that does not stop it: the
      same state for a frame of another file, the frame flushed for one of the file. */
  function FlushNext(s: BufState, file: FileId, i: nat): (s': BufState)
    requires WellFormed(s) && i < s.numBufs && !Blocks(s.descs[i], file)
    ensures WellFormed(s') && s'.numBufs == s.numBufs
  {
    if s.descs[i].file == Some(file) then FlushFrame(s, i) else s
  }

  /** One step of the flush scan: past a frame that does not stop it, the scan goes on
      from the next frame with that frame flushed if it is the file's. */
  lemma FlushFromStep(s: BufState, file: FileId, i: nat)
    requires WellFormed(s) && i < s.numBufs && !Blocks(s.descs[i], file)
    ensures FlushFrom(s, file, i) == FlushFrom(FlushNext(s, file, i), file, i + 1)
  {
  }

  /** The write-back of frame i followed by those of the frames after it are the
      write-backs of frames i on. */
  lemma FlushFrameLog(s: BufState, file: FileId, i: nat)
    requires WellFormed(s) && i < s.numBufs && s.descs[i].file == Some(file) && s.descs[i].valid
    ensures var s' := FlushFrame(s, i);
      s'.log + WriteBacks(s'.descs[i + 1..], s'.pool[i + 1..], file)
        == s.log + WriteBacks(s.descs[i..], s.pool[i..], file)
  {
    var s' := FlushFrame(s, i);
    var d := s.descs[i];
    WriteBacksStep(s.descs, s.pool, file, i);
    assert s'.descs[i + 1..] == s.descs[i + 1..];
    var head := if d.dirty then [WriteEvent(file, d.pageNo, s.pool[i])] else [];
    assert s'.log == s.log + head;
    assert s.log + head + WriteBacks(s.descs[i + 1..], s.pool[i + 1..], file)
        == s.log + (head + WriteBacks(s.descs[i + 1..], s.pool[i + 1..], file));
  }

  /** WriteBacks over a suffix unrolls by one frame. */
  lemma WriteBacksStep(t: seq<BufDesc>, pool: seq<Page>, file: FileId, i: nat)
    requires |pool| == |t| && i < |t|
    ensures WriteBacks(t[i..], pool[i..], file) ==
      (if t[i].file == Some(file) && t[i].dirty then [WriteEvent(file, t[i].pageNo, pool[i])] else [])
      + WriteBacks(t[i + 1..], pool[i + 1..], file)
  {
    assert t[i..][1..] == t[i + 1..] && pool[i..][1..] == pool[i + 1..];
  }

  /** flushFile: flush every frame of `file`. */
  function FlushFile(s: BufState, file: FileId): (r: Step<()>)
    requires WellFormed(s)
    ensures WellFormed(r.state) && r.state.numBufs == s.numBufs
    ensures r.out.Ok? <==> forall j :: 0 <= j < s.numBufs ==> !Blocks(s.descs[j], file)
    ensures r.out.Ok? ==> forall j :: 0 <= j < s.numBufs ==> r.state.descs[j].file != Some(file)
    ensures r.out.Ok? ==> r.state.log == s.log + WriteBacks(s.descs, s.pool, file)
  {
    assert s.descs[0..] == s.descs && s.pool[0..] == s.pool;
    FlushFromOutcome(s, file, 0);
    FlushFromClears(s, file, 0);
    FlushFromLog(s, file, 0);
    FlushFrom(s, file, 0)
  }
}
