/** Stateless address arithmetic shared by the simulators: splitting an address
    into page and offset, recombining it, and one-shot table translations. */
module AddressTranslation {
  import opened Common

  /** `split_address`: page number and offset, with Python's floor division. */
  function SplitAddress(address: int, pageSize: int): (r: (int, int))
    requires pageSize != 0
    ensures pageSize > 0 ==> 0 <= r.1 < pageSize
    ensures pageSize < 0 ==> pageSize < r.1 <= 0
  {
    (FloorDiv(address, pageSize), FloorMod(address, pageSize))
  }

  /** `combine_address`. */
  function CombineAddress(pageNumber: int, offset: int, pageSize: int): (r: int)
    ensures 0 <= offset < pageSize ==> pageNumber * pageSize <= r < (pageNumber + 1) * pageSize
  {
    pageNumber * pageSize + offset
  }

  /** Splitting and recombining gives the address back, for any nonzero page size. */
  lemma SplitThenCombine(address: int, pageSize: int)
    requires pageSize != 0
    ensures var (pg, off) := SplitAddress(address, pageSize); CombineAddress(pg, off, pageSize) == address
  {
    FloorDivMod(address, pageSize);
  }

  /** Conversely, a page number and an in-range offset survive the round trip. */
  lemma CombineThenSplit(pageNumber: int, offset: int, pageSize: int)
    requires pageSize > 0 && 0 <= offset < pageSize
    ensures SplitAddress(CombineAddress(pageNumber, offset, pageSize), pageSize) == (pageNumber, offset)
  {
    FloorDivModUnique(CombineAddress(pageNumber, offset, pageSize), pageSize, pageNumber, offset);
  }

  /** `logical_to_physical_paging` over a table from page number to frame (None when not resident). */
  function LogicalToPhysicalPaging(logicalAddress: int, pageSize: int, pageTable: map<int, Option<int>>,
                                   frameSize: int): (r: Option<Translation>)
    requires pageSize != 0
    ensures var (pg, off) := SplitAddress(logicalAddress, pageSize);
      && (r.None? <==> pg !in pageTable)
      && (r.Some? ==> r.value.offset == off)
      && (r.Some? ==> (r.value.pageFault <==> pageTable[pg].None?))
      && (r.Some? ==> (r.value.physicalAddress.Some? <==> !r.value.pageFault))
      && (r.Some? && !r.value.pageFault ==>
            r.value.physicalAddress == Some(pageTable[pg].value * frameSize + off))
  {
    var (pg, off) := SplitAddress(logicalAddress, pageSize);
    if pg !in pageTable then None
    else match pageTable[pg]
      case None => Some(Translation(None, off, true))
      case Some(f) => Some(Translation(Some(f * frameSize + off), off, false))
  }

  /** With equal page and frame sizes, a resident page's address lands inside its
      frame, at the same offset it had inside the page. */
  lemma PagingTranslationStaysInFrame(logicalAddress: int, size: int, pageTable: map<int, Option<int>>)
    requires size > 0
    ensures var r := LogicalToPhysicalPaging(logicalAddress, size, pageTable, size);
      var (pg, off) := SplitAddress(logicalAddress, size);
      r.Some? && !r.value.pageFault ==>
        && pageTable[pg].Some?
        && var f := pageTable[pg].value;
        && f * size <= r.value.physicalAddress.value < f * size + size
        && r.value.physicalAddress.value - f * size == logicalAddress - pg * size
  {
    SplitThenCombine(logicalAddress, size);
  }

  /** Why a segmented translation was refused. */
  datatype BoundsError = OffsetOutOfBounds(offset: int, limit: int)

  /** The `(physical_address, valid, error_message)` triple of a segmented translation. */
  datatype SegmentTranslation = SegmentTranslation(physicalAddress: Option<int>, valid: bool, error: Option<BoundsError>)

  /** `logical_to_physical_segmentation` over a table from segment id to (base, limit). */
  function LogicalToPhysicalSegmentation(segmentId: int, offset: int, segmentTable: map<int, (int, int)>)
    : (r: Option<SegmentTranslation>)
    ensures r.None? <==> segmentId !in segmentTable
    ensures r.Some? ==> var (base, limit) := segmentTable[segmentId];
      && (r.value.valid <==> 0 <= offset < limit)
      && (r.value.valid ==> r.value.error.None? && r.value.physicalAddress.Some?)
      && (r.value.valid ==> base <= r.value.physicalAddress.value < base + limit)
      && (r.value.valid ==> r.value.physicalAddress.value - base == offset)
      && (!r.value.valid ==> r.value.physicalAddress.None? && r.value.error == Some(OffsetOutOfBounds(offset, limit)))
  {
    if segmentId !in segmentTable then None
    else
      var (base, limit) := segmentTable[segmentId];
      if offset < 0 || offset >= limit then Some(SegmentTranslation(None, false, Some(OffsetOutOfBounds(offset, limit))))
      else Some(SegmentTranslation(Some(base + offset), true, None))
  }
}
