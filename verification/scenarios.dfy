/**
  Round trips and runs of the buffer manager: fetching twice, pin then unpin,
  create / release / fetch, flushing a file with nothing resident, and a two-frame
  run that shows the clock's second chance at work.
*/
module Scenarios {
  import opened BufTypes
  import opened BufMgr
  import BufProps
  import Clock

  /** Fetching a page twice without a release pins it twice in one frame and reads it
      from the file once. */
  lemma FetchTwice(s: BufState, file: FileId, pageNo: PageId, disk1: Page, disk2: Page)
    requires WellFormed(s) && (file, pageNo) !in s.index
    ensures var r1 := ReadPage(s, file, pageNo, disk1);
      var r2 := ReadPage(r1.state, file, pageNo, disk2);
      r1.out.Ok? ==>
        && r2.out == r1.out
        && r2.state.descs[r1.out.value].pinCnt == 2
        && r2.state.pool[r1.out.value] == disk1
        && r2.state.log == r1.state.log
        && |r2.state.log| == |AllocBuf(s).state.log| + 1
  {
  }

  /** Unpinning undoes a fetch hit: a clean release after a hit restores the state but
      for the reference bit, which stays set. */
  lemma PinUnpinRoundTrip(s: BufState, file: FileId, pageNo: PageId, disk: Page)
    requires WellFormed(s) && (file, pageNo) in s.index
    ensures var f := s.index[(file, pageNo)];
      var u := UnPinPage(ReadPage(s, file, pageNo, disk).state, file, pageNo, false);
      && u.out == Ok(())
      && u.state == s.(descs := s.descs[f := s.descs[f].(refbit := true)])
  {
    var f := s.index[(file, pageNo)];
    var r := ReadPage(s, file, pageNo, disk);
    var u := UnPinPage(r.state, file, pageNo, false);
    assert u.state.descs == s.descs[f := s.descs[f].(refbit := true)];
  }

  /** Create, release, fetch: the page allocPage placed is found in the same frame with
      the same contents, without reading the file. */
  lemma CreateReleaseFetch(s: BufState, file: FileId, newPage: Page, disk: Page)
    requires WellFormed(s)
    ensures var c := AllocPage(s, file, newPage);
      c.out.Ok? ==>
        var p := c.out.value.0;
        var f := c.out.value.1;
        var u := UnPinPage(c.state, file, p, false);
        var g := ReadPage(u.state, file, p, disk);
        && u.out == Ok(())
        && g.out == Ok(f)
        && g.state.pool[f] == newPage
        && g.state.descs[f].pinCnt == 1
        && g.state.log == c.state.log
  {
  }

  /** Flushing a file none of whose pages is resident succeeds and changes nothing. */
  lemma {:induction false} FlushAbsentFrom(s: BufState, file: FileId, i: nat)
    requires WellFormed(s) && i <= s.numBufs
    requires forall j :: 0 <= j < s.numBufs ==> s.descs[j].file != Some(file)
    decreases s.numBufs - i
    ensures FlushFrom(s, file, i) == Step(s, Ok(()))
  {
    if i < s.numBufs {
      FlushAbsentFrom(s, file, i + 1);
    }
  }

  /** flushFile on a file with no resident page is a successful no-op. */
  lemma FlushAbsentFile(s: BufState, file: FileId)
    requires WellFormed(s)
    requires forall j :: 0 <= j < s.numBufs ==> s.descs[j].file != Some(file)
    ensures FlushFile(s, file) == Step(s, Ok(()))
  {
    FlushAbsentFrom(s, file, 0);
  }

  /** With a single frame the sweep has nothing to examine: allocBuf always fails, so
      every readPage miss and every allocPage reports BufferExceeded. */
  lemma SingleFrameExceeded(s: BufState)
    requires WellFormed(s) && s.numBufs == 1
    ensures AllocBuf(s).out == Err(BufferExceeded)
  {
    BufProps.AllocBufExhaustion(s);
  }

  /** One revolution only: when every frame past the hand is resident and referenced,
      allocBuf clears their reference bits and fails, even though none is pinned. */
  lemma ReferencedFramesExceeded(s: BufState)
    requires WellFormed(s)
    requires forall i :: 0 <= i < s.numBufs && i != s.clockHand ==> s.descs[i].valid && s.descs[i].refbit
    ensures AllocBuf(s).out == Err(BufferExceeded)
  {
    BufProps.AllocBufExhaustion(s);
  }

  /** A file and page contents for the concrete runs. */
  const FileA: FileId := 1

  function Contents(p: PageId): (page: Page) {
    Page(p, [(p % 256) as bv8])
  }

  /** Two frames after fetching pages 1 and 2 of FileA and releasing page 1 dirty: frame
      0 unpinned, dirty and referenced, frame 1 pinned, hand on frame 1. */
  function TwoFetched(): (s: BufState) {
    BufState(2,
      [BufDesc(0, Some(FileA), 1, 0, true, true, true), Loaded(1, FileA, 2)],
      [Contents(1), Contents(2)],
      map[(FileA, 1) := 0, (FileA, 2) := 1],
      1, [ReadEvent(FileA, 1), ReadEvent(FileA, 2)])
  }

  /** TwoFetched after a failed sweep: frame 0 has lost its reference bit. */
  function TwoSwept(): (s: BufState) {
    TwoFetched().(descs := [BufDesc(0, Some(FileA), 1, 0, true, true, false), Loaded(1, FileA, 2)])
  }

  /** From an empty two-frame pool, pages 1 and 2 land in frames 0 and 1. */
  lemma TwoFrameLoad()
    ensures var s0 := Init(2);
      var r1 := ReadPage(s0, FileA, 1, Contents(1));
      var r2 := ReadPage(r1.state, FileA, 2, Contents(2));
      var u := UnPinPage(r2.state, FileA, 1, true);
      && r1.out == Ok(0) && r2.out == Ok(1) && u.out == Ok(())
      && u.state == TwoFetched()
  {
    var s0 := Init(2);
    assert Clock.ClockSweep(s0.descs, 1, 1) == Clock.Sweep(s0.descs, 0, Some(0));
    var r1 := ReadPage(s0, FileA, 1, Contents(1));
    assert r1.out == Ok(0);
    assert Clock.ClockSweep(r1.state.descs, 0, 1) == Clock.Sweep(r1.state.descs, 1, Some(1));
    var r2 := ReadPage(r1.state, FileA, 2, Contents(2));
    assert r2.out == Ok(1);
    var u := UnPinPage(r2.state, FileA, 1, true);
    assert u.state.descs == TwoFetched().descs;
  }

  /** Fetching page 3 fails: frame 0 is unpinned but referenced, so the sweep only clears
      its bit before the hand is back on frame 1. */
  lemma TwoFrameExceeded()
    ensures var r3 := ReadPage(TwoFetched(), FileA, 3, Contents(3));
      r3 == Step(TwoSwept(), Err(BufferExceeded))
  {
    var t := TwoFetched().descs;
    var t' := TwoSwept().descs;
    assert t' == t[0 := t[0].(refbit := false)];
    assert Clock.ClockSweep(t, 1, 1) == Clock.ClockSweep(t', 1, 2) == Clock.Sweep(t', 1, None);
  }

  /** Retrying takes frame 0, writing the dirty page 1 back before page 3 is read. */
  lemma TwoFrameEvict()
    ensures var r4 := ReadPage(TwoSwept(), FileA, 3, Contents(3));
      && r4.out == Ok(0)
      && r4.state.log == [ReadEvent(FileA, 1), ReadEvent(FileA, 2),
                          WriteEvent(FileA, 1, Contents(1)), ReadEvent(FileA, 3)]
      && (FileA, 1) !in r4.state.index && r4.state.index[(FileA, 3)] == 0
  {
    var t := TwoSwept().descs;
    assert Clock.ClockSweep(t, 1, 1) == Clock.Sweep(t, 0, Some(0));
  }

  /** A two-frame run. Pages 1 and 2 of a file land in frames 0 and 1; page 1 is released
      dirty. Fetching page 3 then fails: frame 0 is unpinned but was referenced, so the
      sweep only clears its bit before the hand is back on frame 1. A second attempt
      takes frame 0, writing page 1 back first. */
  lemma TwoFrameRun()
    ensures var s0 := Init(2);
      var r1 := ReadPage(s0, FileA, 1, Contents(1));
      var r2 := ReadPage(r1.state, FileA, 2, Contents(2));
      var u := UnPinPage(r2.state, FileA, 1, true);
      var r3 := ReadPage(u.state, FileA, 3, Contents(3));
      var r4 := ReadPage(r3.state, FileA, 3, Contents(3));
      && r1.out == Ok(0) && r2.out == Ok(1) && u.out == Ok(())
      && u.state.descs[0].pinCnt == 0 && u.state.descs[0].dirty
      && r3.out == Err(BufferExceeded) && !r3.state.descs[0].refbit
      && r4.out == Ok(0)
      && r4.state.log == [ReadEvent(FileA, 1), ReadEvent(FileA, 2),
                          WriteEvent(FileA, 1, Contents(1)), ReadEvent(FileA, 3)]
      && (FileA, 1) !in r4.state.index && r4.state.index[(FileA, 3)] == 0
  {
    TwoFrameLoad();
    TwoFrameExceeded();
    TwoFrameEvict();
  }
}
