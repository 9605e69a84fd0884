/** Per-process page tables: a sparse map from logical page number to an entry
    carrying the frame it is mapped to and the present, modified and referenced bits. */
module PageTables {
  import opened Common

  datatype PageStatus = NotPresent | Present | Modified | Referenced

  datatype PageTableEntry = PageTableEntry(pageId: int, frameId: Option<int>, status: PageStatus,
                                           valid: bool, present: bool, modifiedBit: bool,
                                           referencedBit: bool, protectionBits: int)
  {
    /** The P bit is set exactly when the entry names a frame. */
    predicate Consistent()
    {
      present <==> frameId.Some?
    }

    /** `map_to_frame`: the bits and status of a resident page; nothing else changes. */
    function MapToFrame(f: int): (e: PageTableEntry)
      ensures e.present && e.frameId == Some(f) && e.valid && e.status == Present
      ensures e.pageId == pageId && e.modifiedBit == modifiedBit && e.referencedBit == referencedBit
      ensures e.protectionBits == protectionBits
      ensures e.Consistent()
    {
      this.(frameId := Some(f), present := true, valid := true, status := Present)
    }

    /** `unmap_frame`: the page leaves memory; `valid` stays as it was. */
    function UnmapFrame(): (e: PageTableEntry)
      ensures !e.present && e.frameId.None? && e.status == NotPresent
      ensures e.valid == valid && e.pageId == pageId && e.modifiedBit == modifiedBit
      ensures e.referencedBit == referencedBit && e.protectionBits == protectionBits
      ensures e.Consistent()
    {
      this.(frameId := None, present := false, status := NotPresent)
    }

    /** `mark_modified`: the M bit and the MODIFIED status, from any status. */
    function MarkModified(): (e: PageTableEntry)
      ensures e.modifiedBit && e.status == Modified
      ensures e.(modifiedBit := modifiedBit, status := status) == this
      ensures Consistent() ==> e.Consistent()
    {
      this.(modifiedBit := true, status := Modified)
    }

    /** `mark_referenced`: the R bit; the status moves only from PRESENT to REFERENCED. */
    function MarkReferenced(): (e: PageTableEntry)
      ensures e.referencedBit
      ensures e.status == if status == Present then Referenced else status
      ensures e.(referencedBit := referencedBit, status := status) == this
      ensures Consistent() ==> e.Consistent()
    {
      this.(referencedBit := true, status := if status == Present then Referenced else status)
    }

    /** `clear_referenced`: clears the R bit; the status moves only from REFERENCED back to PRESENT. */
    function ClearReferenced(): (e: PageTableEntry)
      ensures !e.referencedBit
      ensures e.status == if status == Referenced then Present else status
      ensures e.(referencedBit := referencedBit, status := status) == this
      ensures Consistent() ==> e.Consistent()
    {
      this.(referencedBit := false, status := if status == Referenced then Present else status)
    }
  }

  /** `PageTableEntry(page_id)`: not present, no frame, every bit clear. */
  function NewEntry(pageId: int): (e: PageTableEntry)
    ensures e.pageId == pageId && e.frameId.None? && e.status == NotPresent
    ensures !e.valid && !e.present && !e.modifiedBit && !e.referencedBit && e.protectionBits == 0
    ensures e.Consistent()
  {
    PageTableEntry(pageId, None, NotPresent, false, false, false, false, 0)
  }

  /** Marking a page referenced and clearing the mark again restores every field
      except the R bit, unless the page was already in the REFERENCED status. */
  lemma MarkThenClearReferenced(e: PageTableEntry)
    requires e.status != Referenced
    ensures e.MarkReferenced().ClearReferenced() == e.(referencedBit := false)
  {
  }

  /** Unmapping a freshly mapped new entry returns it to the not-present state,
      keeping `valid` set as the record that it was once mapped. */
  lemma MapThenUnmap(pageId: int, f: int)
    ensures NewEntry(pageId).MapToFrame(f).UnmapFrame() == NewEntry(pageId).(valid := true)
  {
  }

  /** The integer fields of `PageTable.get_stats`. */
  datatype PageTableStats = PageTableStats(processId: int, totalPages: int, mappedPages: int,
                                           unmappedPages: int, pageSize: int)

  datatype PageTable = PageTable(processId: int, pageSize: int, entries: map<int, PageTableEntry>)
  {
    /** Each entry is filed under its own page number and keeps P equivalent to a frame. */
    predicate Valid()
    {
      forall pg :: pg in entries ==> entries[pg].pageId == pg && entries[pg].Consistent()
    }

    function GetEntry(pg: int): (r: Option<PageTableEntry>)
      ensures r.Some? <==> pg in entries
      ensures r.Some? ==> r.value == entries[pg]
    {
      if pg in entries then Some(entries[pg]) else None
    }

    /** `create_page`: idempotent; an existing entry is returned and kept as is. */
    function CreatePage(pg: int): (r: (PageTable, PageTableEntry))
      ensures pg in r.0.entries && r.0.entries[pg] == r.1
      ensures pg in entries ==> r.0 == this && r.1 == entries[pg]
      ensures pg !in entries ==> r.0 == this.(entries := entries[pg := NewEntry(pg)])
      ensures Valid() ==> r.0.Valid()
    {
      if pg in entries then (this, entries[pg])
      else
        var t := this.(entries := entries[pg := NewEntry(pg)]);
        (t, NewEntry(pg))
    }

    /** `map_page_to_frame`: creates the entry if needed, then maps it; it always reports success. */
    function MapPageToFrame(pg: int, f: int): (r: (PageTable, bool))
      ensures r.1
      ensures r.0.entries == entries[pg := CreatePage(pg).1.MapToFrame(f)]
      ensures r.0.processId == processId && r.0.pageSize == pageSize
      ensures Valid() ==> r.0.Valid()
    {
      var (t, e) := CreatePage(pg);
      (t.(entries := t.entries[pg := e.MapToFrame(f)]), true)
    }

    /** `unmap_page`: fails exactly when the page has no entry. */
    function UnmapPage(pg: int): (r: (PageTable, bool))
      ensures !r.1 <==> pg !in entries
      ensures r.1 ==> r.0 == this.(entries := entries[pg := entries[pg].UnmapFrame()])
      ensures !r.1 ==> r.0 == this
      ensures Valid() ==> r.0.Valid()
      ensures pg !in r.0.MappedPages()
    {
      if pg in entries then (this.(entries := entries[pg := entries[pg].UnmapFrame()]), true)
      else (this, false)
    }

    /** `get_mapped_pages`, as a set: the pages whose P bit is set. */
    function MappedPages(): (r: set<int>)
      ensures forall pg :: pg in r <==> pg in entries && entries[pg].present
      ensures r <= entries.Keys
    {
      set pg | pg in entries && entries[pg].present
    }

    /** `translate_address`: split a logical address into page number and offset. */
    function TranslateAddress(logicalAddress: int): (r: (int, int))
      requires pageSize != 0
      ensures r.0 * pageSize + r.1 == logicalAddress
      ensures pageSize > 0 ==> 0 <= r.1 < pageSize
    {
      FloorDivMod(logicalAddress, pageSize);
      (FloorDiv(logicalAddress, pageSize), FloorMod(logicalAddress, pageSize))
    }

    /** `get_stats`: mapped and unmapped pages partition the entries. */
    function GetStats(): (r: PageTableStats)
      ensures r.totalPages == |entries| == r.mappedPages + r.unmappedPages
      ensures 0 <= r.mappedPages <= r.totalPages
      ensures r.mappedPages == |MappedPages()|
    {
      SubsetCardinality(MappedPages(), entries.Keys);
      var total := |entries|;
      var mapped := |MappedPages()|;
      PageTableStats(processId, total, mapped, total - mapped, pageSize)
    }
  }

  /** Replacing one entry changes the mapped set only at that page. */
  lemma SetEntryMappedPages(t: PageTable, pg: int, e: PageTableEntry)
    ensures t.(entries := t.entries[pg := e]).MappedPages() ==
            if e.present then t.MappedPages() + {pg} else t.MappedPages() - {pg}
  {
    var t' := t.(entries := t.entries[pg := e]);
    assert forall q :: q in t'.MappedPages() <==> q in (if e.present then t.MappedPages() + {pg} else t.MappedPages() - {pg});
  }

  /** A subset is no larger than its superset. */
  lemma {:induction false} SubsetCardinality<T>(a: set<T>, b: set<T>)
    requires a <= b
    ensures |a| <= |b|
    decreases b
  {
    if a != {} {
      var x :| x in a;
      SubsetCardinality(a - {x}, b - {x});
    }
  }
}
