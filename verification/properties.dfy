/**
  Properties of the buffer manager across operations: every operation keeps the
  index and the descriptor table in agreement (Consistent), allocBuf fails exactly
  when no frame past the hand is evictable, and a pinned page is never evicted.
*/
module BufProps {
  import opened BufTypes
  import opened BufMgr
  import Clock

  /** Clearing reference bits of valid frames keeps a consistent state consistent. */
  lemma RefbitsKeepConsistent(s: BufState, t: seq<BufDesc>)
    requires Consistent(s) && |t| == |s.descs|
    requires forall i :: 0 <= i < |t| ==>
      t[i] == s.descs[i] || (s.descs[i].valid && t[i] == s.descs[i].(refbit := false))
    ensures Consistent(s.(descs := t))
  {
    var s1 := s.(descs := t);
    forall key | key in s1.index
      ensures s1.descs[s1.index[key]].valid && KeyOf(s1.descs[s1.index[key]]) == key
    {
      assert KeyOf(s.descs[s.index[key]]) == key;
    }
  }

  /** Evicting an evictable frame of a consistent state leaves it consistent, with the
      frame empty and no index entry pointing at it. */
  lemma EvictKeepsConsistent(s: BufState, f: FrameId)
    requires Consistent(s) && f < s.numBufs && Evictable(s.descs[f])
    ensures Consistent(Evict(s, f))
    ensures Evict(s, f).descs[f] == Cleared(f)
    ensures forall key :: key in Evict(s, f).index ==> Evict(s, f).index[key] != f
  {
    var s' := Evict(s, f);
    if s.descs[f].valid {
      forall key | key in s'.index
        ensures s'.index[key] != f
        ensures s'.descs[s'.index[key]].valid && KeyOf(s'.descs[s'.index[key]]) == key
      {
        assert key != KeyOf(s.descs[f]);
      }
      forall i | 0 <= i < |s'.descs| && s'.descs[i].valid
        ensures KeyOf(s'.descs[i]) in s'.index && s'.index[KeyOf(s'.descs[i])] == i
      {
        assert KeyOf(s.descs[i]) != KeyOf(s.descs[f]);
      }
    }
  }

  /** allocBuf keeps the state consistent, and the frame it hands out is empty and
      referenced by no index entry. */
  lemma AllocBufConsistent(s: BufState)
    requires Consistent(s)
    ensures Consistent(AllocBuf(s).state)
    ensures var r := AllocBuf(s);
      r.out.Ok? ==>
        && r.state.descs[r.out.value] == Cleared(r.out.value)
        && forall key :: key in r.state.index ==> r.state.index[key] != r.out.value
  {
    var sw := Clock.ClockSweep(s.descs, s.clockHand, 1);
    var r := AllocBuf(s);
    Clock.SweepOutcome(s.descs, s.clockHand);
    RefbitsKeepConsistent(s, sw.table);
    var s1 := s.(descs := sw.table, clockHand := sw.hand);
    assert Consistent(s1);
    if r.out.Ok? {
      var f := r.out.value;
      assert r.state == Evict(s1, f);
      assert s1.descs[f] == s.descs[f];
      EvictKeepsConsistent(s1, f);
    } else {
      assert r.state == s1;
    }
  }

  /** Exhaustion: allocBuf reports BufferExceeded exactly when no frame other than the
      one under the hand is evictable, i.e. every such frame is resident and either
      pinned or recently referenced. */
  lemma AllocBufExhaustion(s: BufState)
    requires WellFormed(s)
    ensures AllocBuf(s).out.Err? <==>
      forall i :: 0 <= i < s.numBufs && i != s.clockHand ==> !Evictable(s.descs[i])
  {
    var n := s.numBufs;
    var h := s.clockHand;
    Clock.SweepExhaustedIff(s.descs, h, 1);
    if AllocBuf(s).out.Err? {
      forall i | 0 <= i < n && i != h ensures !Evictable(s.descs[i]) {
        var j := Clock.Offset(h, i, n);
        assert s.descs[Clock.Ring(h, j, n)] == s.descs[i];
      }
    } else {
      var f := AllocBuf(s).out.value;
      assert f != h && Evictable(s.descs[f]);
    }
  }

  /** When every frame holds a pinned page, allocBuf fails. */
  lemma AllPinnedExceeded(s: BufState)
    requires WellFormed(s)
    requires forall i :: 0 <= i < s.numBufs ==> s.descs[i].valid && s.descs[i].pinCnt > 0
    ensures AllocBuf(s).out == Err(BufferExceeded)
  {
    AllocBufExhaustion(s);
  }

  /** A pinned page survives allocBuf: it stays indexed in the same frame with the same
      pin count and dirty bit. */
  lemma PinnedPageSurvives(s: BufState, key: Key)
    requires Consistent(s) && key in s.index && s.descs[s.index[key]].pinCnt > 0
    ensures var r := AllocBuf(s);
      var f := s.index[key];
      && key in r.state.index && r.state.index[key] == f
      && r.state.descs[f].valid && r.state.descs[f].pinCnt == s.descs[f].pinCnt
      && r.state.descs[f].dirty == s.descs[f].dirty
  {
    var f := s.index[key];
    var r := AllocBuf(s);
    assert !Evictable(s.descs[f]);
    if r.out.Ok? {
      assert r.out.value != f;
      assert KeyOf(s.descs[f]) == key;
      if s.descs[r.out.value].valid {
        assert KeyOf(s.descs[r.out.value]) != key;
      }
    }
  }

  /** Installing a page that is not resident into an empty frame no index entry points
      at keeps the state consistent. */
  lemma InstallConsistent(t: BufState, f: FrameId, file: FileId, pageNo: PageId, page: Page)
    requires Consistent(t) && f < t.numBufs && t.descs[f] == Cleared(f)
    requires forall key :: key in t.index ==> t.index[key] != f
    requires (file, pageNo) !in t.index
    ensures Consistent(Install(t, f, file, pageNo, page))
  {
    var t' := Install(t, f, file, pageNo, page);
    forall key | key in t'.index
      ensures t'.descs[t'.index[key]].valid && KeyOf(t'.descs[t'.index[key]]) == key
    {
      if key != (file, pageNo) {
        assert t.index[key] != f;
      }
    }
  }

  /** readPage keeps the state consistent. */
  lemma ReadPageConsistent(s: BufState, file: FileId, pageNo: PageId, disk: Page)
    requires Consistent(s)
    ensures Consistent(ReadPage(s, file, pageNo, disk).state)
  {
    var r := ReadPage(s, file, pageNo, disk);
    if (file, pageNo) in s.index {
      forall key | key in r.state.index
        ensures r.state.descs[r.state.index[key]].valid && KeyOf(r.state.descs[r.state.index[key]]) == key
      {
        assert KeyOf(s.descs[s.index[key]]) == key;
      }
    } else {
      AllocBufConsistent(s);
      var a := AllocBuf(s);
      if a.out.Ok? {
        var t := a.state;
        InstallConsistent(t.(log := t.log + [ReadEvent(file, pageNo)]), a.out.value, file, pageNo, disk);
      }
    }
  }

  /** unPinPage keeps the state consistent. */
  lemma UnPinPageConsistent(s: BufState, file: FileId, pageNo: PageId, dirty: bool)
    requires Consistent(s)
    ensures Consistent(UnPinPage(s, file, pageNo, dirty).state)
  {
    var r := UnPinPage(s, file, pageNo, dirty);
    forall key | key in r.state.index
      ensures r.state.descs[r.state.index[key]].valid && KeyOf(r.state.descs[r.state.index[key]]) == key
    {
      assert KeyOf(s.descs[s.index[key]]) == key;
    }
  }

  /** allocPage keeps the state consistent, given that the page the file allocates is
      not already resident (the file hands out a page that did not exist). */
  lemma AllocPageConsistent(s: BufState, file: FileId, newPage: Page)
    requires Consistent(s) && (file, newPage.number) !in s.index
    ensures Consistent(AllocPage(s, file, newPage).state)
  {
    var s0 := s.(log := s.log + [AllocateEvent(file, newPage.number)]);
    AllocBufConsistent(s0);
    var a := AllocBuf(s0);
    if a.out.Ok? {
      InstallConsistent(a.state, a.out.value, file, newPage.number, newPage);
    }
  }

  /** disposePage keeps the state consistent, even when it discards a pinned page. */
  lemma DisposePageConsistent(s: BufState, file: FileId, pageNo: PageId)
    requires Consistent(s)
    ensures Consistent(DisposePage(s, file, pageNo))
  {
    var s' := DisposePage(s, file, pageNo);
    if (file, pageNo) in s.index {
      var f := s.index[(file, pageNo)];
      forall key | key in s'.index
        ensures s'.index[key] != f
        ensures s'.descs[s'.index[key]].valid && KeyOf(s'.descs[s'.index[key]]) == key
      {
        assert KeyOf(s.descs[s.index[key]]) == key;
      }
      forall i | 0 <= i < |s'.descs| && s'.descs[i].valid
        ensures KeyOf(s'.descs[i]) in s'.index && s'.index[KeyOf(s'.descs[i])] == i
      {
        assert KeyOf(s.descs[i]) != (file, pageNo);
      }
    }
  }

  /** Flushing one unpinned frame keeps the state consistent. */
  lemma FlushFrameConsistent(s: BufState, i: nat)
    requires Consistent(s) && i < s.numBufs && s.descs[i].valid
    ensures Consistent(FlushFrame(s, i))
    ensures FlushFrame(s, i).index == s.index - {KeyOf(s.descs[i])}
  {
    var s' := FlushFrame(s, i);
    var k := KeyOf(s.descs[i]);
    forall key | key in s'.index
      ensures s'.descs[s'.index[key]].valid && KeyOf(s'.descs[s'.index[key]]) == key
    {
      assert key != k;
      assert s.index[key] != i;
    }
    forall j | 0 <= j < |s'.descs| && s'.descs[j].valid
      ensures KeyOf(s'.descs[j]) in s'.index && s'.index[KeyOf(s'.descs[j])] == j
    {
      assert KeyOf(s.descs[j]) != k;
    }
  }

  /** Every index entry of `file` points at frame i or later. */
  predicate FileIndexedFrom(s: BufState, file: FileId, i: nat) {
    forall key :: key in s.index && key.0 == file ==> s.index[key] >= i
  }

  /** One step of the flush scan keeps the state consistent, and every index entry of
      the file then points past frame i. */
  lemma FlushNextConsistent(s: BufState, file: FileId, i: nat)
    requires Consistent(s) && i < s.numBufs && !Blocks(s.descs[i], file)
    requires FileIndexedFrom(s, file, i)
    ensures Consistent(FlushNext(s, file, i)) && FileIndexedFrom(FlushNext(s, file, i), file, i + 1)
  {
    var s' := FlushNext(s, file, i);
    if s.descs[i].file == Some(file) {
      FlushFrameConsistent(s, i);
    }
    forall key | key in s'.index && key.0 == file ensures s'.index[key] >= i + 1 {
      assert KeyOf(s.descs[s.index[key]]) == key;
    }
  }

  /** flushFile, successful or not, keeps the state consistent; when it succeeds the
      index holds no page of the file any more. */
  lemma {:induction false} FlushFromConsistent(s: BufState, file: FileId, i: nat)
    requires Consistent(s) && i <= s.numBufs
    requires FileIndexedFrom(s, file, i)
    decreases s.numBufs - i
    ensures var r := FlushFrom(s, file, i);
      && Consistent(r.state)
      && (r.out.Ok? ==> forall key :: key in r.state.index ==> key.0 != file)
  {
    if i < s.numBufs && !Blocks(s.descs[i], file) {
      FlushNextConsistent(s, file, i);
      FlushFromConsistent(FlushNext(s, file, i), file, i + 1);
      FlushFromStep(s, file, i);
    }
  }

  /** flushFile keeps the state consistent; on success no page of the file remains
      indexed. */
  lemma FlushFileConsistent(s: BufState, file: FileId)
    requires Consistent(s)
    ensures Consistent(FlushFile(s, file).state)
    ensures FlushFile(s, file).out.Ok? ==> forall key :: key in FlushFile(s, file).state.index ==> key.0 != file
  {
    FlushFromConsistent(s, file, 0);
  }
}
