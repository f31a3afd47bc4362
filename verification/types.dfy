/**
  Shared vocabulary of the BadgerDB buffer manager model: identifiers, the frame
  descriptor (BufDesc), abstract pages, the four failure kinds and the events the
  buffer manager issues to its file collaborator.
*/
module BufTypes {

  /** Identity of a File object (the source compares File pointers). */
  type FileId = nat
  /** Page number within a file (uint32 in the source). */
  type PageId = nat
  /** Index of a frame in the buffer pool (uint32 in the source). */
  type FrameId = nat

  /** Bound of the source's uint32 counters. */
  const Word: nat := 0x1_0000_0000

  /** Page number a cleared descriptor carries (BadgerDB's Page::INVALID_NUMBER;
      page.h is not part of this model). */
  const NoPage: PageId := 0

  datatype Option<T> = None | Some(value: T)

  /** A page is opaque to the buffer manager apart from its page number. */
  datatype Page = Page(number: PageId, bytes: seq<bv8>)

  /** Contents of a frame that never held a page. */
  const EmptyPage: Page := Page(NoPage, [])

  /** One frame descriptor: owner file, page number, pin count, dirty, valid and reference bits. */
  datatype BufDesc = BufDesc(
    frameNo: FrameId,
    file: Option<FileId>,
    pageNo: PageId,
    pinCnt: nat,
    dirty: bool,
    valid: bool,
    refbit: bool)

  /** Failures the buffer manager reports (the source throws them as exceptions). */
  datatype BufError = BufferExceeded | PageNotPinned | PagePinned | BadBuffer

  datatype Result<T> = Ok(value: T) | Err(error: BufError)

  /** Calls the buffer manager makes on a File; page contents travel only with write-backs. */
  datatype IoEvent =
    | ReadEvent(file: FileId, pageNo: PageId)
    | WriteEvent(file: FileId, pageNo: PageId, page: Page)
    | AllocateEvent(file: FileId, pageNo: PageId)
    | DeleteEvent(file: FileId, pageNo: PageId)

  /** BufDesc::Clear on frame i: the frame holds no page. */
  function Cleared(i: FrameId): (d: BufDesc) {
    BufDesc(i, None, NoPage, 0, false, false, false)
  }

  /** BufDesc::Set(file, pageNo) on frame i: a freshly loaded page, pinned once and referenced. */
  function Loaded(i: FrameId, file: FileId, pageNo: PageId): (d: BufDesc) {
    BufDesc(i, Some(file), pageNo, 1, false, true, true)
  }

  /** A frame the clock may hand out: empty, or resident but unpinned and not recently referenced. */
  predicate Evictable(d: BufDesc) {
    !d.valid || (d.pinCnt == 0 && !d.refbit)
  }
}
