/**
  The operations of buffer.cpp as the code is written, where it departs from its own
  doc comments, each with a concrete run that exhibits the departure. The rest of the
  model (module BufMgr) follows the documented intent.
*/
module AsWritten {
  import opened BufTypes
  import opened BufMgr
  import Clock
  import BufProps
  import opened Scenarios

  /** allocBuf as written (buffer.cpp:58-85): the same sweep as the documented allocBuf,
      so the same frame is chosen and the hand stops in the same place, but nothing is
      done to the chosen frame: no write-back, no removal of its index entry, no Clear. */
  function AllocBufAsWritten(s: BufState): (r: Step<FrameId>)
    requires WellFormed(s)
    ensures WellFormed(r.state) && r.state.numBufs == s.numBufs
    ensures r.out == AllocBuf(s).out && r.state.clockHand == AllocBuf(s).state.clockHand
    ensures r.state.index == s.index && r.state.log == s.log && r.state.pool == s.pool
    ensures r.out.Ok? ==> r.out.value < s.numBufs && r.state.descs[r.out.value] == s.descs[r.out.value]
    ensures forall i :: 0 <= i < s.numBufs ==>
      r.state.descs[i] == s.descs[i] || (s.descs[i].valid && r.state.descs[i] == s.descs[i].(refbit := false))
  {
    var sw := Clock.ClockSweep(s.descs, s.clockHand, 1);
    Clock.SweepOutcome(s.descs, s.clockHand);
    var s1 := s.(descs := sw.table, clockHand := sw.hand);
    assert WellFormed(s1) by {
      forall i | 0 <= i < |s.descs| ensures s1.descs[i].frameNo == i && (s1.descs[i].valid ==> s1.descs[i].file.Some?) {
      }
    }
    match sw.victim
    case None => Step(s1, Err(BufferExceeded))
    case Some(f) => Step(s1, Ok(f))
  }

  /** readPage as written (buffer.cpp:98-133). A hit does what the documented readPage
      does and also reads the page from the file again (buffer.cpp:131). A miss chooses
      the frame the documented readPage chooses, but reads the page into a local that
      never reaches the pool (buffer.cpp:116, 122) and sets up frame 0, whatever frame
      allocBuf chose (buffer.cpp:120); the chosen frame, if another, is left as it was. */
  function ReadPageAsWritten(s: BufState, file: FileId, pageNo: PageId, disk: Page): (r: Step<FrameId>)
    requires WellFormed(s)
    ensures |r.state.descs| == |s.descs|
    ensures (file, pageNo) in s.index ==>
      && r.out == ReadPage(s, file, pageNo, disk).out
      && r.state == ReadPage(s, file, pageNo, disk).state.(log := s.log + [ReadEvent(file, pageNo)])
    ensures (file, pageNo) !in s.index ==>
      && r.out == ReadPage(s, file, pageNo, disk).out
      && r.state.pool == s.pool
      && (r.out.Err? ==> r.state.index == s.index && r.state.log == s.log)
      && (r.out.Ok? ==>
            var f := r.out.value;
            && r.state.index == s.index[(file, pageNo) := f]
            && r.state.descs[0] == Loaded(0, file, pageNo)
            && (f != 0 ==> r.state.descs[f] == s.descs[f])
            && r.state.log == s.log + [ReadEvent(file, pageNo)])
  {
    if (file, pageNo) in s.index then
      var f := s.index[(file, pageNo)];
      var d := s.descs[f];
      Step(s.(descs := s.descs[f := d.(refbit := true, pinCnt := d.pinCnt + 1)],
              log := s.log + [ReadEvent(file, pageNo)]), Ok(f))
    else
      var a := AllocBufAsWritten(s);
      match a.out
      case Err(e) => Step(a.state, Err(e))
      case Ok(f) =>
        var t := a.state;
        Step(t.(log := t.log + [ReadEvent(file, pageNo)],
                index := t.index[(file, pageNo) := f],
                descs := t.descs[0 := Loaded(0, file, pageNo)]), Ok(f))
  }

  /** allocPage as written (buffer.cpp:185-196): the index entry and frame 0's descriptor
      are set up with the page number the caller passed in (`callerPageNo`), before it is
      overwritten with the new page's number. Unless the two numbers agree, the new page
      is not found in the index afterwards. */
  function AllocPageAsWritten(s: BufState, file: FileId, callerPageNo: PageId, newPage: Page): (r: Step<(PageId, FrameId)>)
    requires WellFormed(s)
    ensures |r.state.descs| == |s.descs|
    ensures r.out.Err? ==>
      && r.out.error == BufferExceeded
      && r.state.index == s.index && r.state.pool == s.pool
      && r.state.log == s.log + [AllocateEvent(file, newPage.number)]
    ensures r.out.Ok? ==>
      var (p, f) := r.out.value;
      && p == newPage.number && f < s.numBufs
      && r.state.index == s.index[(file, callerPageNo) := f]
      && r.state.descs[0] == Loaded(0, file, callerPageNo)
      && r.state.pool == s.pool[f := newPage]
      && r.state.log == s.log + [AllocateEvent(file, p)]
      && (callerPageNo != p ==> ((file, p) in r.state.index <==> (file, p) in s.index))
  {
    var s0 := s.(log := s.log + [AllocateEvent(file, newPage.number)]);
    var a := AllocBufAsWritten(s0);
    match a.out
    case Err(e) => Step(a.state, Err(e))
    case Ok(f) =>
      var t := a.state;
      Step(t.(index := t.index[(file, callerPageNo) := f],
              descs := t.descs[0 := Loaded(0, file, callerPageNo)],
              pool := t.pool[f := newPage]), Ok((newPage.number, f)))
  }

  /** flushFile as written (buffer.cpp:173-176): an empty body, so it reports success and
      leaves every frame, index entry and the log as they were. */
  function FlushFileAsWritten(s: BufState, file: FileId): (r: Step<()>)
    ensures r.out.Ok? && r.state == s
  {
    Step(s, Ok(()))
  }

  /** Wherever the documented flushFile succeeds, the flush as written succeeds too, but
      every frame of the file stays as it was, where the documented one leaves the file
      no frame. */
  lemma FlushAsWrittenKeepsPages(s: BufState, file: FileId)
    requires WellFormed(s)
    requires forall j :: 0 <= j < s.numBufs ==> !Blocks(s.descs[j], file)
    ensures FlushFileAsWritten(s, file).out.Ok? && FlushFile(s, file).out.Ok?
    ensures forall j :: 0 <= j < s.numBufs && s.descs[j].file == Some(file) ==>
      && FlushFileAsWritten(s, file).state.descs[j] == s.descs[j]
      && FlushFile(s, file).state.descs[j].file != Some(file)
  {
  }

  /** Two resident pages of FileA: page 1 dirty and unpinned in frame 0, page 2 pinned in
      frame 1, hand on frame 1. */
  function TwoResident(): (s: BufState)
    ensures Consistent(s)
  {
    BufState(2,
      [BufDesc(0, Some(FileA), 1, 0, true, true, false), BufDesc(1, Some(FileA), 2, 1, false, true, false)],
      [Contents(1), Contents(2)],
      map[(FileA, 1) := 0, (FileA, 2) := 1],
      1, [])
  }

  /** As written, reusing frame 0 for page 3 loses the dirty page 1 (never written back)
      and leaves (FileA, 1) indexed to a frame that now holds page 3. */
  lemma StaleIndexEntry()
    ensures var r := ReadPageAsWritten(TwoResident(), FileA, 3, Contents(3));
      && r.out == Ok(0)
      && (FileA, 1) in r.state.index && r.state.index[(FileA, 1)] == 0
      && r.state.descs[0].pageNo == 3
      && r.state.log == [ReadEvent(FileA, 3)]
      && !Consistent(r.state)
  {
    var s := TwoResident();
    assert Clock.ClockSweep(s.descs, 1, 1) == Clock.Sweep(s.descs, 0, Some(0));
    var r := ReadPageAsWritten(s, FileA, 3, Contents(3));
    assert r.state.descs[0] == Loaded(0, FileA, 3);
    assert KeyOf(r.state.descs[r.state.index[(FileA, 1)]]) != (FileA, 1);
  }

  /** With the documented eviction, the same fetch writes page 1 back, drops its entry
      and keeps the state consistent. */
  lemma EvictionWritesBack()
    ensures var r := ReadPage(TwoResident(), FileA, 3, Contents(3));
      && r.out == Ok(0)
      && (FileA, 1) !in r.state.index
      && r.state.log == [WriteEvent(FileA, 1, Contents(1)), ReadEvent(FileA, 3)]
      && Consistent(r.state)
  {
    var s := TwoResident();
    assert Clock.ClockSweep(s.descs, 1, 1) == Clock.Sweep(s.descs, 0, Some(0));
    BufProps.ReadPageConsistent(s, FileA, 3, Contents(3));
  }

  /** As written, the second fetch into an empty pool chooses frame 1 but sets up frame 0:
      frame 1 stays invalid although the index points at it, and the page read never
      reaches the pool. */
  lemma SetTouchesFrameZero()
    ensures var s0 := Init(2);
      var r1 := ReadPageAsWritten(s0, FileA, 1, Contents(1));
      var r2 := ReadPageAsWritten(r1.state, FileA, 2, Contents(2));
      && r1.out == Ok(0) && r2.out == Ok(1)
      && (FileA, 2) in r2.state.index && r2.state.index[(FileA, 2)] == 1
      && |r2.state.descs| == 2 && !r2.state.descs[1].valid
      && r2.state.descs[0].pageNo == 2
      && r2.state.pool == s0.pool
      && !Consistent(r2.state)
  {
    var s0 := Init(2);
    assert Clock.ClockSweep(s0.descs, 1, 1) == Clock.Sweep(s0.descs, 0, Some(0));
    var r1 := ReadPageAsWritten(s0, FileA, 1, Contents(1));
    assert r1.state.clockHand == 0;
    assert Clock.ClockSweep(r1.state.descs, 0, 1) == Clock.Sweep(r1.state.descs, 1, Some(1));
  }

  /** As written, a fetch hit reads the page from the file again: two fetches, two reads. */
  lemma HitRereadsFile()
    ensures var s0 := Init(2);
      var r1 := ReadPageAsWritten(s0, FileA, 1, Contents(1));
      var r2 := ReadPageAsWritten(r1.state, FileA, 1, Contents(1));
      && r1.out == Ok(0) && r2.out == Ok(0)
      && r2.state.log == [ReadEvent(FileA, 1), ReadEvent(FileA, 1)]
  {
    var s0 := Init(2);
    assert Clock.ClockSweep(s0.descs, 1, 1) == Clock.Sweep(s0.descs, 0, Some(0));
  }

  /** As written, allocPage indexes the page under the number the caller passed in (7)
      instead of the new page's number (3), so the new page cannot be found; and with the
      hand on frame 0 the sweep chooses frame 1, yet frame 0 is the one set up. */
  lemma AllocPageIndexesCallerNumber()
    ensures var r := AllocPageAsWritten(Init(2).(clockHand := 0), FileA, 7, Contents(3));
      && r.out == Ok((3, 1))
      && (FileA, 3) !in r.state.index
      && (FileA, 7) in r.state.index && r.state.index[(FileA, 7)] == 1
      && !r.state.descs[1].valid
      && r.state.descs[0] == Loaded(0, FileA, 7)
  {
    var s0 := Init(2).(clockHand := 0, log := [AllocateEvent(FileA, 3)]);
    assert Clock.ClockSweep(s0.descs, 0, 1) == Clock.Sweep(s0.descs, 1, Some(1));
  }

  /** As written, flushing FileA leaves its dirty unpinned page 1 resident and unwritten. */
  lemma FlushLeavesDirtyPage()
    ensures var s := TwoResident().(descs := TwoResident().descs[1 := Cleared(1)], index := map[(FileA, 1) := 0]);
      var r := FlushFileAsWritten(s, FileA);
      && r.out == Ok(())
      && (FileA, 1) in r.state.index && r.state.descs[0].dirty
      && r.state.log == []
  {
  }

  /** flushFile as documented writes the dirty page back and drops it from the pool. */
  lemma FlushWritesBack()
    ensures var s := TwoResident().(descs := TwoResident().descs[1 := Cleared(1)], index := map[(FileA, 1) := 0]);
      var r := FlushFile(s, FileA);
      && r.out == Ok(())
      && (FileA, 1) !in r.state.index && !r.state.descs[0].valid
      && r.state.log == [WriteEvent(FileA, 1, Contents(1))]
  {
    var s := TwoResident().(descs := TwoResident().descs[1 := Cleared(1)], index := map[(FileA, 1) := 0]);
    var s1 := FlushFrame(s, 0);
    assert FlushFrom(s, FileA, 0) == FlushFrom(s1, FileA, 1) == FlushFrom(s1, FileA, 2);
  }
}
