/** The paging simulator: one physical memory, one allocator, and a page table
    per process. Its central invariant ties the two sides together: a page is
    present exactly when an allocated frame is owned by it and named in its entry. */
module Paging {
  import opened Common
  import opened Physical
  import opened Allocator
  import opened PageTables
  import AddressTranslation

  /** The per-process record `{"num_pages", "allocated_pages"}`. */
  datatype ProcessInfo = ProcessInfo(numPages: int, allocatedPages: int)

  ghost predicate IsPresent(tables: map<int, PageTable>, p: int, pg: int)
  {
    p in tables && pg in tables[p].entries && tables[p].entries[pg].present
  }

  /** The entry of (p, pg) names an in-range frame that is allocated to (p, pg). */
  ghost predicate MapsToOwnedFrame(s: seq<Frame>, tables: map<int, PageTable>, p: int, pg: int)
  {
    && p in tables && pg in tables[p].entries
    && var e := tables[p].entries[pg];
    && e.frameId.Some? && 0 <= e.frameId.value < |s| && s[e.frameId.value].OwnedBy(p, pg)
  }

  /** The owner recorded in frame i has a present entry that names frame i. */
  ghost predicate OwnerMapsHere(s: seq<Frame>, tables: map<int, PageTable>, i: int)
    requires 0 <= i < |s|
  {
    && s[i].processId.Some? && s[i].pageId.Some?
    && IsPresent(tables, s[i].processId.value, s[i].pageId.value)
    && tables[s[i].processId.value].entries[s[i].pageId.value].frameId == Some(i)
  }

  /** Frames and page tables describe the same mapping, seen from both ends. */
  ghost predicate FramesMatchTables(s: seq<Frame>, tables: map<int, PageTable>)
  {
    && (forall p, pg :: IsPresent(tables, p, pg) ==> MapsToOwnedFrame(s, tables, p, pg))
    && (forall i :: 0 <= i < |s| && s[i].status == Allocated ==> OwnerMapsHere(s, tables, i))
  }

  ghost predicate TablesValid(tables: map<int, PageTable>, frameSize: int)
  {
    forall p :: p in tables ==>
      tables[p].Valid() && tables[p].processId == p && tables[p].pageSize == frameSize
  }

  function SetEntry(tables: map<int, PageTable>, p: int, pg: int, e: PageTableEntry): map<int, PageTable>
    requires p in tables
  {
    tables[p := tables[p].(entries := tables[p].entries[pg := e])]
  }

  /** The tables after `create_page` for (p, pg): unchanged when the entry exists. */
  function WithEntry(tables: map<int, PageTable>, p: int, pg: int): (r: map<int, PageTable>)
    requires p in tables
    ensures p in r && pg in r[p].entries
  {
    if pg in tables[p].entries then tables else SetEntry(tables, p, pg, NewEntry(pg))
  }

  /** The entries `create_process` pre-creates: pages 0 to n-1, none present. */
  function InitialEntries(n: int): (m: map<int, PageTableEntry>)
    ensures forall pg :: pg in m <==> 0 <= pg < n
    ensures forall pg :: pg in m ==> m[pg] == NewEntry(pg)
  {
    map pg | 0 <= pg < n :: NewEntry(pg)
  }

  /** What `remove_process` does to the frames: every frame allocated to `pid` is freed. */
  function ReleaseProcess(s: seq<Frame>, pid: int): (r: seq<Frame>)
  {
    seq(|s|, i requires 0 <= i < |s| =>
      if s[i].status == Allocated && s[i].processId == Some(pid) then s[i].Deallocate().0 else s[i])
  }

  /** Part-way through `remove_process`: frame `f` belongs to `pid` and to one of the pages in `done`. */
  ghost predicate ReleasedIn(f: Frame, pid: int, done: set<int>)
  {
    f.status == Allocated && f.processId == Some(pid) && f.pageId.Some? && f.pageId.value in done
  }

  /** `translate_address` of the simulator, as a function of the tables before the call. */
  function TranslationOf(tables: map<int, PageTable>, frameSize: int, pid: int, logicalAddress: int)
    : Option<Translation>
    requires pid in tables ==> tables[pid].pageSize != 0
  {
    if pid !in tables then None
    else
      var (pg, off) := tables[pid].TranslateAddress(logicalAddress);
      match tables[pid].GetEntry(pg)
      case None => Some(Translation(None, off, true))
      case Some(e) =>
        if !e.present || e.frameId.None? then Some(Translation(None, off, true))
        else Some(Translation(Some(e.frameId.value * frameSize + off), off, false))
  }

  /** The R bit `translate_address` sets on any entry it finds. */
  function Touch(tables: map<int, PageTable>, pid: int, pg: int): map<int, PageTable>
  {
    if pid in tables && pg in tables[pid].entries
    then SetEntry(tables, pid, pg, tables[pid].entries[pg].MarkReferenced())
    else tables
  }

  /** No two present entries, in the same or different page tables, share a frame. */
  lemma NoSharedFrames(s: seq<Frame>, tables: map<int, PageTable>, p: int, pg: int, q: int, qg: int)
    requires FramesMatchTables(s, tables)
    requires IsPresent(tables, p, pg) && IsPresent(tables, q, qg)
    requires tables[p].entries[pg].frameId == tables[q].entries[qg].frameId
    ensures p == q && pg == qg
  {
    assert MapsToOwnedFrame(s, tables, p, pg) && MapsToOwnedFrame(s, tables, q, qg);
  }

  ghost function AllocatedIndices(s: seq<Frame>): set<int>
  {
    set i | 0 <= i < |s| && s[i].status == Allocated
  }

  ghost function PresentPairs(tables: map<int, PageTable>): set<(int, int)>
  {
    set p, pg | p in tables && pg in tables[p].entries && tables[p].entries[pg].present :: (p, pg)
  }

  function Owner(f: Frame): (int, int)
  {
    (f.processId.GetOr(0), f.pageId.GetOr(0))
  }

  ghost function OwnersOf(s: seq<Frame>, xs: set<int>): set<(int, int)>
  {
    set i | i in xs && 0 <= i < |s| :: Owner(s[i])
  }

  /** Distinct allocated frames have distinct owners. */
  lemma {:induction false} OwnersOfSize(s: seq<Frame>, tables: map<int, PageTable>, xs: set<int>)
    requires FramesMatchTables(s, tables)
    requires xs <= AllocatedIndices(s)
    ensures |OwnersOf(s, xs)| == |xs|
    decreases |xs|
  {
    if xs != {} {
      var x :| x in xs;
      var rest := xs - {x};
      OwnersOfSize(s, tables, rest);
      assert OwnerMapsHere(s, tables, x);
      forall j | j in rest
        ensures Owner(s[j]) != Owner(s[x])
      {
        assert OwnerMapsHere(s, tables, j);
      }
      assert OwnersOf(s, xs) == OwnersOf(s, rest) + {Owner(s[x])};
    }
  }

  /** The number of allocated frames equals the number of present entries. */
  lemma AllocatedFramesCountPresentEntries(s: seq<Frame>, tables: map<int, PageTable>)
    requires FramesMatchTables(s, tables)
    ensures |AllocatedIndices(s)| == |PresentPairs(tables)|
  {
    OwnersOfSize(s, tables, AllocatedIndices(s));
    forall i | i in AllocatedIndices(s)
      ensures Owner(s[i]) in PresentPairs(tables)
    {
      assert OwnerMapsHere(s, tables, i);
    }
    forall pair | pair in PresentPairs(tables)
      ensures pair in OwnersOf(s, AllocatedIndices(s))
    {
      var (p, pg) := pair;
      assert MapsToOwnedFrame(s, tables, p, pg);
      var f := tables[p].entries[pg].frameId.value;
      assert f in AllocatedIndices(s) && Owner(s[f]) == pair;
    }
    assert OwnersOf(s, AllocatedIndices(s)) == PresentPairs(tables);
  }

  /** Replacing an entry by one with the same present bit and frame keeps the invariant. */
  lemma SetEntryKeepsMatch(s: seq<Frame>, tables: map<int, PageTable>, p: int, pg: int, e: PageTableEntry)
    requires FramesMatchTables(s, tables) && p in tables
    requires e.present == IsPresent(tables, p, pg)
    requires e.present ==> e.frameId == tables[p].entries[pg].frameId
    ensures FramesMatchTables(s, SetEntry(tables, p, pg, e))
  {
    var t' := SetEntry(tables, p, pg, e);
    forall q, qg | IsPresent(t', q, qg)
      ensures MapsToOwnedFrame(s, t', q, qg)
    {
      assert MapsToOwnedFrame(s, tables, q, qg);
    }
    forall i | 0 <= i < |s| && s[i].status == Allocated
      ensures OwnerMapsHere(s, t', i)
    {
      assert OwnerMapsHere(s, tables, i);
    }
  }

  /** Mapping a non-present page to a frame that fits, and allocating that frame
      to it, keeps the invariant. */
  lemma MapFrameKeepsMatch(s: seq<Frame>, tables: map<int, PageTable>, p: int, pg: int,
                           e: PageTableEntry, f: nat, request: int)
    requires FramesMatchTables(s, tables) && p in tables
    requires !IsPresent(tables, p, pg)
    requires f < |s| && s[f].Fits(request)
    requires e.present && e.frameId == Some(f)
    ensures FramesMatchTables(s[f := s[f].Allocate(p, pg, request).0], SetEntry(tables, p, pg, e))
  {
    var s' := s[f := s[f].Allocate(p, pg, request).0];
    var t' := SetEntry(tables, p, pg, e);
    forall q, qg | IsPresent(t', q, qg)
      ensures MapsToOwnedFrame(s', t', q, qg)
    {
      if (q, qg) != (p, pg) {
        assert MapsToOwnedFrame(s, tables, q, qg);
      }
    }
    forall i | 0 <= i < |s'| && s'[i].status == Allocated
      ensures OwnerMapsHere(s', t', i)
    {
      if i != f {
        assert OwnerMapsHere(s, tables, i);
      }
    }
  }

  /** Unmapping a present page and freeing its frame keeps the invariant. */
  lemma UnmapKeepsMatch(s: seq<Frame>, tables: map<int, PageTable>, p: int, pg: int, e: PageTableEntry)
    requires FramesMatchTables(s, tables)
    requires IsPresent(tables, p, pg) && !e.present
    ensures MapsToOwnedFrame(s, tables, p, pg)
    ensures var f := tables[p].entries[pg].frameId.value;
      FramesMatchTables(s[f := s[f].Deallocate().0], SetEntry(tables, p, pg, e))
  {
    assert MapsToOwnedFrame(s, tables, p, pg);
    var f := tables[p].entries[pg].frameId.value;
    var s' := s[f := s[f].Deallocate().0];
    var t' := SetEntry(tables, p, pg, e);
    forall q, qg | IsPresent(t', q, qg)
      ensures MapsToOwnedFrame(s', t', q, qg)
    {
      assert MapsToOwnedFrame(s, tables, q, qg);
    }
    forall i | 0 <= i < |s'| && s'[i].status == Allocated
      ensures OwnerMapsHere(s', t', i)
    {
      assert OwnerMapsHere(s, tables, i);
    }
  }

  /** A new table without present entries keeps the invariant. */
  lemma AddTableKeepsMatch(s: seq<Frame>, tables: map<int, PageTable>, p: int, t: PageTable)
    requires FramesMatchTables(s, tables) && p !in tables
    requires forall pg :: pg in t.entries ==> !t.entries[pg].present
    ensures FramesMatchTables(s, tables[p := t])
  {
    var t' := tables[p := t];
    forall q, qg | IsPresent(t', q, qg)
      ensures MapsToOwnedFrame(s, t', q, qg)
    {
      assert MapsToOwnedFrame(s, tables, q, qg);
    }
    forall i | 0 <= i < |s| && s[i].status == Allocated
      ensures OwnerMapsHere(s, t', i)
    {
      assert OwnerMapsHere(s, tables, i);
    }
  }

  /** Freeing every frame of a process and dropping its table keeps the invariant. */
  lemma ReleaseKeepsMatch(s: seq<Frame>, tables: map<int, PageTable>, pid: int, frameSize: int)
    requires FramesMatchTables(s, tables) && WellFormed(s, frameSize)
    ensures FramesMatchTables(ReleaseProcess(s, pid), tables - {pid})
    ensures WellFormed(ReleaseProcess(s, pid), frameSize)
  {
    var s' := ReleaseProcess(s, pid);
    var t' := tables - {pid};
    forall q, qg | IsPresent(t', q, qg)
      ensures MapsToOwnedFrame(s', t', q, qg)
    {
      assert MapsToOwnedFrame(s, tables, q, qg);
    }
    forall i | 0 <= i < |s'| && s'[i].status == Allocated
      ensures OwnerMapsHere(s', t', i)
    {
      assert OwnerMapsHere(s, tables, i);
    }
  }

  /** `remove_process` frees exactly the frames the process's present entries name. */
  lemma ReleaseFreesExactlyMappedFrames(s: seq<Frame>, tables: map<int, PageTable>, pid: int)
    requires FramesMatchTables(s, tables)
    ensures forall i :: 0 <= i < |s| ==>
      (ReleaseProcess(s, pid)[i] != s[i] <==>
       exists pg :: IsPresent(tables, pid, pg) && tables[pid].entries[pg].frameId == Some(i))
  {
    forall i | 0 <= i < |s|
      ensures ReleaseProcess(s, pid)[i] != s[i] <==>
              exists pg :: IsPresent(tables, pid, pg) && tables[pid].entries[pg].frameId == Some(i)
    {
      if ReleaseProcess(s, pid)[i] != s[i] {
        assert OwnerMapsHere(s, tables, i);
        var pg := s[i].pageId.value;
        assert IsPresent(tables, pid, pg) && tables[pid].entries[pg].frameId == Some(i);
      }
      if exists pg :: IsPresent(tables, pid, pg) && tables[pid].entries[pg].frameId == Some(i) {
        var pg :| IsPresent(tables, pid, pg) && tables[pid].entries[pg].frameId == Some(i);
        assert MapsToOwnedFrame(s, tables, pid, pg);
      }
    }
  }

  /** One step of the release loop: the frame of the present page `pg` joins the released ones. */
  lemma ReleaseStep(s: seq<Frame>, tables: map<int, PageTable>, pid: int, done: set<int>, pg: int)
    requires FramesMatchTables(s, tables)
    requires IsPresent(tables, pid, pg)
    ensures MapsToOwnedFrame(s, tables, pid, pg)
    ensures var f := tables[pid].entries[pg].frameId.value;
      && ReleasedIn(s[f], pid, done + {pg})
      && forall j :: 0 <= j < |s| && j != f ==> (ReleasedIn(s[j], pid, done + {pg}) <==> ReleasedIn(s[j], pid, done))
  {
    assert MapsToOwnedFrame(s, tables, pid, pg);
    var f := tables[pid].entries[pg].frameId.value;
    forall j | 0 <= j < |s| && j != f && ReleasedIn(s[j], pid, done + {pg})
      ensures ReleasedIn(s[j], pid, done)
    {
      assert OwnerMapsHere(s, tables, j);
    }
  }

  /** Once every mapped page is done, the loop has released every frame of the process. */
  lemma ReleaseComplete(s: seq<Frame>, tables: map<int, PageTable>, pid: int)
    requires FramesMatchTables(s, tables) && pid in tables
    ensures forall i :: 0 <= i < |s| ==>
      (ReleasedIn(s[i], pid, tables[pid].MappedPages()) <==> s[i].status == Allocated && s[i].processId == Some(pid))
  {
    forall i | 0 <= i < |s| && s[i].status == Allocated && s[i].processId == Some(pid)
      ensures ReleasedIn(s[i], pid, tables[pid].MappedPages())
    {
      assert OwnerMapsHere(s, tables, i);
    }
  }

  /** A successful translation lands inside a frame allocated to the translated
      page of the translating process, at the page offset. */
  lemma TranslationLandsInOwnedFrame(s: seq<Frame>, tables: map<int, PageTable>, frameSize: int,
                                     pid: int, logicalAddress: int)
    requires FramesMatchTables(s, tables) && TablesValid(tables, frameSize) && frameSize > 0
    ensures var r := TranslationOf(tables, frameSize, pid, logicalAddress);
      var (pg, off) := AddressTranslation.SplitAddress(logicalAddress, frameSize);
      r.Some? && !r.value.pageFault ==>
        && IsPresent(tables, pid, pg)
        && var f := tables[pid].entries[pg].frameId.value;
        && 0 <= f < |s| && s[f].OwnedBy(pid, pg)
        && r.value.physicalAddress == Some(f * frameSize + off)
        && f * frameSize <= r.value.physicalAddress.value < f * frameSize + frameSize
  {
    var (pg, off) := AddressTranslation.SplitAddress(logicalAddress, frameSize);
    if IsPresent(tables, pid, pg) {
      assert MapsToOwnedFrame(s, tables, pid, pg);
    }
  }

  /** The table a process's page table induces for `logical_to_physical_paging`:
      each page to its frame, None when not present. */
  function FrameMap(t: PageTable): map<int, Option<int>>
  {
    map pg | pg in t.entries :: t.entries[pg].frameId
  }

  /** The simulator and the stateless helper agree on every page that has an
      entry; for a page without one the simulator reports a fault where the
      helper reports an invalid page. */
  lemma TranslationAgreesWithHelper(tables: map<int, PageTable>, frameSize: int, pid: int, logicalAddress: int)
    requires pid in tables && tables[pid].Valid() && tables[pid].pageSize != 0
    ensures var ps := tables[pid].pageSize;
      var (pg, off) := AddressTranslation.SplitAddress(logicalAddress, ps);
      var helper := AddressTranslation.LogicalToPhysicalPaging(logicalAddress, ps, FrameMap(tables[pid]), frameSize);
      if pg in tables[pid].entries then TranslationOf(tables, frameSize, pid, logicalAddress) == helper
      else TranslationOf(tables, frameSize, pid, logicalAddress) == Some(Translation(None, off, true)) && helper.None?
  {
  }

  /** Each process record counts the present entries of its table. */
  ghost predicate CountsMatch(tables: map<int, PageTable>, processes: map<int, ProcessInfo>)
  {
    forall p :: p in processes && p in tables ==> processes[p].allocatedPages == |tables[p].MappedPages()|
  }

  /** The simulator's invariant, on the values of its state. */
  ghost predicate SimInv(s: seq<Frame>, frameSize: int, tables: map<int, PageTable>, processes: map<int, ProcessInfo>)
  {
    && WellFormed(s, frameSize)
    && TablesValid(tables, frameSize)
    && (forall p :: p in processes <==> p in tables)
    && CountsMatch(tables, processes)
    && FramesMatchTables(s, tables)
  }

  /** The state right after construction or `reset` satisfies the invariant. */
  lemma FreshStateInv(s: seq<Frame>, frameSize: int)
    requires forall i :: 0 <= i < |s| ==> s[i] == NewFrame(i, frameSize)
    ensures SimInv(s, frameSize, map[], map[])
  {
  }

  /** `create_process` keeps the invariant. */
  lemma AddProcessKeepsInv(s: seq<Frame>, frameSize: int, tables: map<int, PageTable>,
                           processes: map<int, ProcessInfo>, pid: int, numPages: int)
    requires SimInv(s, frameSize, tables, processes) && pid !in tables
    ensures SimInv(s, frameSize, tables[pid := PageTable(pid, frameSize, InitialEntries(numPages))],
                   processes[pid := ProcessInfo(numPages, 0)])
  {
    var t := PageTable(pid, frameSize, InitialEntries(numPages));
    assert t.MappedPages() == {};
    AddTableKeepsMatch(s, tables, pid, t);
  }

  /** `remove_process` keeps the invariant. */
  lemma RemoveProcessKeepsInv(s: seq<Frame>, frameSize: int, tables: map<int, PageTable>,
                              processes: map<int, ProcessInfo>, pid: int)
    requires SimInv(s, frameSize, tables, processes)
    ensures SimInv(ReleaseProcess(s, pid), frameSize, tables - {pid}, processes - {pid})
  {
    ReleaseKeepsMatch(s, tables, pid, frameSize);
  }

  /** Creating a missing entry keeps the invariant. */
  lemma CreateEntryKeepsInv(s: seq<Frame>, frameSize: int, tables: map<int, PageTable>,
                            processes: map<int, ProcessInfo>, pid: int, pg: int)
    requires SimInv(s, frameSize, tables, processes) && pid in tables && pg !in tables[pid].entries
    ensures SimInv(s, frameSize, SetEntry(tables, pid, pg, NewEntry(pg)), processes)
  {
    SetEntryMappedPages(tables[pid], pg, NewEntry(pg));
    SetEntryKeepsMatch(s, tables, pid, pg, NewEntry(pg));
  }

  /** Replacing an entry by one with the same page, present bit and frame keeps the invariant. */
  lemma SameMappingKeepsInv(s: seq<Frame>, frameSize: int, tables: map<int, PageTable>,
                            processes: map<int, ProcessInfo>, pid: int, pg: int, e: PageTableEntry)
    requires SimInv(s, frameSize, tables, processes) && pid in tables && pg in tables[pid].entries
    requires e.pageId == pg && e.Consistent()
    requires e.present == tables[pid].entries[pg].present && e.frameId == tables[pid].entries[pg].frameId
    ensures SimInv(s, frameSize, SetEntry(tables, pid, pg, e), processes)
  {
    SetEntryMappedPages(tables[pid], pg, e);
    SetEntryKeepsMatch(s, tables, pid, pg, e);
  }

  /** Mapping a non-present page to a frame that fits keeps the invariant and adds one page to the count. */
  lemma MapPageKeepsInv(s: seq<Frame>, frameSize: int, tables: map<int, PageTable>,
                        processes: map<int, ProcessInfo>, pid: int, pg: int, f: nat, request: int)
    requires SimInv(s, frameSize, tables, processes) && pid in tables && pg in tables[pid].entries
    requires !tables[pid].entries[pg].present
    requires f < |s| && s[f].Fits(request)
    ensures SimInv(s[f := s[f].Allocate(pid, pg, request).0], frameSize,
                   SetEntry(tables, pid, pg, tables[pid].entries[pg].MapToFrame(f)),
                   processes[pid := processes[pid].(allocatedPages := processes[pid].allocatedPages + 1)])
  {
    var e := tables[pid].entries[pg].MapToFrame(f);
    MapFrameKeepsMatch(s, tables, pid, pg, e, f, request);
    var s' := s[f := s[f].Allocate(pid, pg, request).0];
    var t' := SetEntry(tables, pid, pg, e);
    var pr' := processes[pid := processes[pid].(allocatedPages := processes[pid].allocatedPages + 1)];
    assert WellFormed(s', frameSize);
    assert TablesValid(t', frameSize);
    SetEntryMappedPages(tables[pid], pg, e);
    assert CountsMatch(t', pr');
  }

  /** Unmapping a present page and freeing its frame keeps the invariant and
      removes one page from the count, which was therefore at least one. */
  lemma UnmapPageKeepsInv(s: seq<Frame>, frameSize: int, tables: map<int, PageTable>,
                          processes: map<int, ProcessInfo>, pid: int, pg: int)
    requires SimInv(s, frameSize, tables, processes) && IsPresent(tables, pid, pg)
    ensures MapsToOwnedFrame(s, tables, pid, pg)
    ensures processes[pid].allocatedPages >= 1
    ensures var f := tables[pid].entries[pg].frameId.value;
      SimInv(s[f := s[f].Deallocate().0], frameSize,
             SetEntry(tables, pid, pg, tables[pid].entries[pg].UnmapFrame()),
             processes[pid := processes[pid].(allocatedPages := processes[pid].allocatedPages - 1)])
  {
    var e := tables[pid].entries[pg].UnmapFrame();
    UnmapKeepsMatch(s, tables, pid, pg, e);
    var f := tables[pid].entries[pg].frameId.value;
    var s' := s[f := s[f].Deallocate().0];
    var t' := SetEntry(tables, pid, pg, e);
    var pr' := processes[pid := processes[pid].(allocatedPages := processes[pid].allocatedPages - 1)];
    assert WellFormed(s', frameSize);
    assert TablesValid(t', frameSize);
    SetEntryMappedPages(tables[pid], pg, e);
    assert pg in tables[pid].MappedPages();
    assert |tables[pid].MappedPages() - {pg}| == |tables[pid].MappedPages()| - 1;
    assert CountsMatch(t', pr');
  }

  /** Any element of a non-empty set of pages: the next page of an unordered walk. */
  method PickPage<T>(pages: set<T>) returns (pg: T)
    requires pages != {}
    ensures pg in pages
  {
    pg :| pg in pages;
  }

  class PagingSimulator {
    const memory: PhysicalMemory
    const allocator: MemoryAllocator
    var pageTables: map<int, PageTable>
    var processes: map<int, ProcessInfo>
    var pageFaults: nat
    var successfulTranslations: nat

    ghost predicate Valid()
      reads this, memory, memory.frames, allocator
    {
      && memory.frames.Length == (if memory.numFrames < 0 then 0 else memory.numFrames)
      && allocator.nextFitStart <= memory.frames.Length
      && SimInv(memory.frames[..], memory.frameSize, pageTables, processes)
    }

    constructor (numFrames: int, frameSize: int, strategy: AllocationStrategy)
      ensures Valid() && fresh(memory) && fresh(memory.frames) && fresh(allocator)
      ensures memory.numFrames == numFrames && memory.frameSize == frameSize
      ensures forall i :: 0 <= i < memory.frames.Length ==> memory.frames[i] == NewFrame(i, frameSize)
      ensures allocator.strategy == strategy && allocator.nextFitStart == 0
      ensures pageTables == map[] && processes == map[]
      ensures pageFaults == 0 && successfulTranslations == 0
    {
      memory := new PhysicalMemory(numFrames, frameSize);
      allocator := new MemoryAllocator(strategy);
      pageTables := map[];
      processes := map[];
      pageFaults := 0;
      successfulTranslations := 0;
      new;
      FreshStateInv(memory.frames[..], frameSize);
    }

    /** `create_process`: a duplicate pid is refused; otherwise a table with
        entries for pages 0 to numPages-1, none of them present. */
    method CreateProcess(pid: int, numPages: int) returns (ok: bool)
      requires Valid()
      modifies this
      ensures Valid()
      ensures ok <==> pid !in old(pageTables)
      ensures ok ==> pageTables == old(pageTables)[pid := PageTable(pid, memory.frameSize, InitialEntries(numPages))]
      ensures ok ==> processes == old(processes)[pid := ProcessInfo(numPages, 0)]
      ensures !ok ==> pageTables == old(pageTables) && processes == old(processes)
      ensures pageFaults == old(pageFaults) && successfulTranslations == old(successfulTranslations)
    {
      if pid in pageTables {
        return false;
      }
      var table := PageTable(pid, memory.frameSize, map[]);
      var i := 0;
      while i < numPages
        invariant 0 <= i <= (if numPages < 0 then 0 else numPages)
        invariant table == PageTable(pid, memory.frameSize, InitialEntries(i))
      {
        table := table.CreatePage(i).0;
        i := i + 1;
      }
      assert table.entries.Keys == InitialEntries(numPages).Keys;
      AddProcessKeepsInv(memory.frames[..], memory.frameSize, pageTables, processes, pid, numPages);
      pageTables := pageTables[pid := table];
      processes := processes[pid := ProcessInfo(numPages, 0)];
      return true;
    }

    /** `remove_process`: frees the frame of every mapped page, then drops the table. */
    method RemoveProcess(pid: int) returns (ok: bool)
      requires Valid()
      modifies this, memory.frames
      ensures Valid()
      ensures ok <==> pid in old(pageTables)
      ensures ok ==> memory.frames[..] == ReleaseProcess(old(memory.frames[..]), pid)
      ensures ok ==> pageTables == old(pageTables) - {pid} && processes == old(processes) - {pid}
      ensures !ok ==> memory.frames[..] == old(memory.frames[..])
      ensures !ok ==> pageTables == old(pageTables) && processes == old(processes)
      ensures pageFaults == old(pageFaults) && successfulTranslations == old(successfulTranslations)
    {
      if pid !in pageTables {
        return false;
      }
      RemoveProcessKeepsInv(memory.frames[..], memory.frameSize, pageTables, processes, pid);
      FreeMappedFrames(pid);
      pageTables := pageTables - {pid};
      if pid in processes {
        processes := processes - {pid};
      }
      return true;
    }

    /** The loop of `remove_process`: for each mapped page, free the frame its entry names. */
    method FreeMappedFrames(pid: int)
      requires pid in pageTables && FramesMatchTables(memory.frames[..], pageTables)
      modifies memory.frames
      ensures memory.frames[..] == ReleaseProcess(old(memory.frames[..]), pid)
    {
      var table := pageTables[pid];
      var frames := memory.frames;
      ghost var s0 := frames[..];
      var todo := table.MappedPages();
      ghost var mapped := todo;
      ghost var done: set<int> := {};
      while todo != {}
        invariant todo <= mapped && done == mapped - todo
        invariant forall i :: 0 <= i < frames.Length ==>
          frames[i] == if ReleasedIn(s0[i], pid, done) then s0[i].Deallocate().0 else s0[i]
        decreases |todo|
      {
        var pg := PickPage(todo);
        var entry := table.GetEntry(pg);
        ReleaseStep(s0, pageTables, pid, done, pg);
        if entry.Some? && entry.value.frameId.Some? {
          var f := entry.value.frameId.value;
          if 0 <= f < frames.Length {
            frames[f] := frames[f].Deallocate().0;
          }
        }
        todo, done := todo - {pg}, done + {pg};
      }
      ReleaseComplete(s0, pageTables, pid);
      assert frames[..] == ReleaseProcess(s0, pid);
    }

    /** `allocate_page`: a present page keeps its frame; otherwise the entry is
        created if missing and a frame is allocated for it. */
    method AllocatePage(pid: int, pg: int, size: Option<int>) returns (r: Option<int>)
      requires Valid()
      modifies this, memory.frames, allocator
      ensures Valid()
      ensures pid !in old(pageTables) ==> r.None?
      ensures pid !in old(pageTables) || IsPresent(old(pageTables), pid, pg) ==>
        && memory.frames[..] == old(memory.frames[..])
        && pageTables == old(pageTables) && processes == old(processes)
        && allocator.nextFitStart == old(allocator.nextFitStart)
      ensures IsPresent(old(pageTables), pid, pg) ==> r == old(pageTables)[pid].entries[pg].frameId
      ensures pid in old(pageTables) && !IsPresent(old(pageTables), pid, pg) ==>
        var request := size.GetOr(memory.frameSize);
        var choice := Choice(old(allocator.strategy), old(memory.frames[..]), request, old(allocator.nextFitStart));
        var t1 := WithEntry(old(pageTables), pid, pg);
        && (r.Some? <==> choice.Some?)
        && (r.Some? ==> r.value == choice.value)
        && memory.frames[..] == AllocatedAt(old(memory.frames[..]), choice, pid, pg, request)
        && (r.None? ==> pageTables == t1 && processes == old(processes))
        && (r.Some? ==> pageTables == SetEntry(t1, pid, pg, t1[pid].entries[pg].MapToFrame(r.value)))
        && (r.Some? ==> processes == old(processes)[pid := old(processes)[pid].(allocatedPages := old(processes)[pid].allocatedPages + 1)])
        && allocator.nextFitStart == (if old(allocator.strategy) == NextFit && choice.Some?
                                      then (choice.value + 1) % memory.frames.Length
                                      else old(allocator.nextFitStart))
      ensures r.Some? ==> IsPresent(pageTables, pid, pg) && 0 <= r.value < memory.frames.Length
                          && memory.frames[r.value].OwnedBy(pid, pg)
      ensures allocator.strategy == old(allocator.strategy)
      ensures pageFaults == old(pageFaults) && successfulTranslations == old(successfulTranslations)
    {
      r := None;
      if pid in pageTables {
        CreateMissingEntry(pid, pg);
        var entry := pageTables[pid].entries[pg];
        if entry.present && entry.frameId.Some? {
          r := entry.frameId;
        } else {
          var f := AllocateFrameFor(pid, pg, size.GetOr(memory.frameSize));
          if f.Some? {
            r := Some(f.value);
          }
        }
      }
    }

    /** The first half of `allocate_page`: `create_page` when the page has no entry. */
    method CreateMissingEntry(pid: int, pg: int)
      requires Valid() && pid in pageTables
      modifies this
      ensures Valid()
      ensures pageTables == WithEntry(old(pageTables), pid, pg)
      ensures processes == old(processes)
      ensures pageFaults == old(pageFaults) && successfulTranslations == old(successfulTranslations)
    {
      if pageTables[pid].GetEntry(pg).None? {
        CreateEntryKeepsInv(memory.frames[..], memory.frameSize, pageTables, processes, pid, pg);
        var (table, _) := pageTables[pid].CreatePage(pg);
        pageTables := pageTables[pid := table];
      }
    }

    /** The second half of `allocate_page`, for an entry that exists but is not
        present: ask the allocator for a frame and, on success, map the entry to it. */
    method AllocateFrameFor(pid: int, pg: int, request: int) returns (r: Option<nat>)
      requires Valid() && pid in pageTables && pg in pageTables[pid].entries
      requires !pageTables[pid].entries[pg].present
      modifies this, memory.frames, allocator
      ensures Valid()
      ensures r == Choice(old(allocator.strategy), old(memory.frames[..]), request, old(allocator.nextFitStart))
      ensures memory.frames[..] == AllocatedAt(old(memory.frames[..]), r, pid, pg, request)
      ensures r.None? ==> pageTables == old(pageTables) && processes == old(processes)
      ensures allocator.nextFitStart == if old(allocator.strategy) == NextFit && r.Some?
                                        then (r.value + 1) % memory.frames.Length
                                        else old(allocator.nextFitStart)
      ensures r.Some? ==> pageTables == SetEntry(old(pageTables), pid, pg, old(pageTables)[pid].entries[pg].MapToFrame(r.value))
      ensures r.Some? ==> processes == old(processes)[pid := old(processes)[pid].(allocatedPages := old(processes)[pid].allocatedPages + 1)]
      ensures r.Some? ==> r.value < memory.frames.Length && memory.frames[r.value].OwnedBy(pid, pg)
      ensures allocator.strategy == old(allocator.strategy)
      ensures pageFaults == old(pageFaults) && successfulTranslations == old(successfulTranslations)
    {
      ghost var s0 := memory.frames[..];
      ChoiceSucceedsIffSomeFrameFits(allocator.strategy, s0, request, allocator.nextFitStart);
      r := allocator.Allocate(memory.frames, pid, pg, request);
      if r.Some? {
        MapPageKeepsInv(s0, memory.frameSize, pageTables, processes, pid, pg, r.value, request);
        RecordFrame(pid, pg, r.value, request);
      }
    }

    /** The bookkeeping of `allocate_page` once the allocator has handed out
        frame `f`: map the entry, call the frame's own `allocate` again (a no-op
        on a frame already taken), and count the page. */
    method RecordFrame(pid: int, pg: int, f: nat, request: int)
      requires pid in pageTables && pg in pageTables[pid].entries && pid in processes
      requires f < memory.frames.Length && memory.frames[f].OwnedBy(pid, pg)
      requires memory.frames.Length == (if memory.numFrames < 0 then 0 else memory.numFrames)
      requires allocator.nextFitStart <= memory.frames.Length
      requires SimInv(memory.frames[..], memory.frameSize,
                      SetEntry(pageTables, pid, pg, pageTables[pid].entries[pg].MapToFrame(f)),
                      processes[pid := processes[pid].(allocatedPages := processes[pid].allocatedPages + 1)])
      modifies this, memory.frames
      ensures Valid()
      ensures memory.frames[..] == old(memory.frames[..])
      ensures pageTables == SetEntry(old(pageTables), pid, pg, old(pageTables)[pid].entries[pg].MapToFrame(f))
      ensures processes == old(processes)[pid := old(processes)[pid].(allocatedPages := old(processes)[pid].allocatedPages + 1)]
      ensures pageFaults == old(pageFaults) && successfulTranslations == old(successfulTranslations)
    {
      pageTables := SetEntry(pageTables, pid, pg, pageTables[pid].entries[pg].MapToFrame(f));
      var (frame, _) := memory.frames[f].Allocate(pid, pg, request);
      memory.frames[f] := frame;
      if pid in processes {
        processes := processes[pid := processes[pid].(allocatedPages := processes[pid].allocatedPages + 1)];
      }
    }

    /** `deallocate_page`: frees the frame of a present page and unmaps it. */
    method DeallocatePage(pid: int, pg: int) returns (ok: bool)
      requires Valid()
      modifies this, memory.frames
      ensures Valid()
      ensures ok <==> IsPresent(old(pageTables), pid, pg)
      ensures ok ==> MapsToOwnedFrame(old(memory.frames[..]), old(pageTables), pid, pg)
      ensures ok ==> var f := old(pageTables)[pid].entries[pg].frameId.value;
        && memory.frames[..] == old(memory.frames[..])[f := old(memory.frames[f]).Deallocate().0]
        && memory.frames[f] == NewFrame(f, memory.frameSize)
        && pageTables == SetEntry(old(pageTables), pid, pg, old(pageTables)[pid].entries[pg].UnmapFrame())
        && processes == old(processes)[pid := old(processes)[pid].(allocatedPages := old(processes)[pid].allocatedPages - 1)]
      ensures !ok ==> memory.frames[..] == old(memory.frames[..])
      ensures !ok ==> pageTables == old(pageTables) && processes == old(processes)
      ensures pageFaults == old(pageFaults) && successfulTranslations == old(successfulTranslations)
    {
      if pid !in pageTables {
        return false;
      }
      var entry := pageTables[pid].GetEntry(pg);
      if entry.None? || !entry.value.present || entry.value.frameId.None? {
        return false;
      }
      UnmapPageKeepsInv(memory.frames[..], memory.frameSize, pageTables, processes, pid, pg);
      var f := entry.value.frameId.value;
      if 0 <= f < memory.frames.Length {
        memory.frames[f] := memory.frames[f].Deallocate().0;
      }
      pageTables := SetEntry(pageTables, pid, pg, entry.value.UnmapFrame());
      if pid in processes {
        var info := processes[pid];
        processes := processes[pid := info.(allocatedPages := if info.allocatedPages - 1 < 0 then 0 else info.allocatedPages - 1)];
      }
      return true;
    }

    /** `translate_address`: unknown process gives None; a page without a frame is
        a fault (and is marked referenced when it has an entry); otherwise the
        frame's address plus the offset. */
    method TranslateAddress(pid: int, logicalAddress: int) returns (r: Option<Translation>)
      requires Valid()
      requires pid in pageTables ==> memory.frameSize != 0
      modifies this
      ensures Valid()
      ensures r == TranslationOf(old(pageTables), memory.frameSize, pid, logicalAddress)
      ensures pageFaults == old(pageFaults) + (if r.Some? && r.value.pageFault then 1 else 0)
      ensures successfulTranslations == old(successfulTranslations) + (if r.Some? && !r.value.pageFault then 1 else 0)
      ensures pageTables == if pid in old(pageTables)
                            then Touch(old(pageTables), pid, FloorDiv(logicalAddress, memory.frameSize))
                            else old(pageTables)
      ensures processes == old(processes)
    {
      if pid !in pageTables {
        return None;
      }
      var (pg, off) := pageTables[pid].TranslateAddress(logicalAddress);
      var entry := pageTables[pid].GetEntry(pg);
      if entry.None? {
        pageFaults := pageFaults + 1;
        return Some(Translation(None, off, true));
      }
      var e := entry.value;
      SameMappingKeepsInv(memory.frames[..], memory.frameSize, pageTables, processes, pid, pg, e.MarkReferenced());
      if !e.present || e.frameId.None? {
        pageFaults := pageFaults + 1;
        pageTables := SetEntry(pageTables, pid, pg, e.MarkReferenced());
        return Some(Translation(None, off, true));
      }
      var physicalAddress := e.frameId.value * memory.frameSize + off;
      pageTables := SetEntry(pageTables, pid, pg, e.MarkReferenced());
      successfulTranslations := successfulTranslations + 1;
      return Some(Translation(Some(physicalAddress), off, false));
    }

    /** `access_page`: a present page is marked referenced, and modified on a write. */
    method AccessPage(pid: int, pg: int, write: bool) returns (ok: bool)
      requires Valid()
      modifies this
      ensures Valid()
      ensures ok <==> IsPresent(old(pageTables), pid, pg)
      ensures ok ==> var e := old(pageTables)[pid].entries[pg].MarkReferenced();
        pageTables == SetEntry(old(pageTables), pid, pg, if write then e.MarkModified() else e)
      ensures !ok ==> pageTables == old(pageTables)
      ensures pageFaults == old(pageFaults) + (if pid in old(pageTables) && !ok then 1 else 0)
      ensures successfulTranslations == old(successfulTranslations) + (if ok then 1 else 0)
      ensures processes == old(processes)
    {
      if pid !in pageTables {
        return false;
      }
      var entry := pageTables[pid].GetEntry(pg);
      if entry.None? || !entry.value.present {
        pageFaults := pageFaults + 1;
        return false;
      }
      var e := entry.value.MarkReferenced();
      if write {
        e := e.MarkModified();
      }
      SameMappingKeepsInv(memory.frames[..], memory.frameSize, pageTables, processes, pid, pg, e);
      pageTables := SetEntry(pageTables, pid, pg, e);
      successfulTranslations := successfulTranslations + 1;
      return true;
    }

    /** `reset`: every frame free, no process, counters and next-fit cursor at zero. */
    method Reset()
      requires Valid()
      modifies this, memory.frames, allocator
      ensures Valid()
      ensures forall i :: 0 <= i < memory.frames.Length ==> memory.frames[i] == NewFrame(i, memory.frameSize)
      ensures pageTables == map[] && processes == map[]
      ensures pageFaults == 0 && successfulTranslations == 0
      ensures allocator.nextFitStart == 0 && allocator.strategy == old(allocator.strategy)
    {
      memory.Reset();
      pageTables := map[];
      processes := map[];
      pageFaults := 0;
      successfulTranslations := 0;
      allocator.nextFitStart := 0;
      FreshStateInv(memory.frames[..], memory.frameSize);
    }

    /** `set_allocation_strategy`. */
    method SetAllocationStrategy(strategy: AllocationStrategy)
      requires Valid()
      modifies allocator
      ensures Valid()
      ensures allocator.strategy == strategy
      ensures allocator.nextFitStart == if strategy == NextFit then 0 else old(allocator.nextFitStart)
    {
      allocator.SetStrategy(strategy);
    }
  }
}
