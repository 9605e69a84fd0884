/** Demand paging over a replacement engine: a backing store holds every page of
    every loaded process, a fault on a stored page swaps it in (and the page it
    replaces out), and a virtual address translates through the slot that
    holds its page. Page ids are one namespace shared by all processes. */
module VirtualMemory {
  import opened Common
  import opened Replacement

  type Byte = x: int | 0 <= x < 256

  /** The contents of one page on the backing store. */
  type Blob = seq<Byte>

  /** `bytes(n)`: a page of n zero bytes. */
  function ZeroPage(n: nat): (b: Blob)
    ensures |b| == n
  {
    seq(n, _ => 0)
  }

  class BackingStore {
    var pages: map<int, Blob>

    constructor ()
      ensures pages == map[]
    {
      pages := map[];
    }

    /** `store_page`: adds or overwrites. */
    method StorePage(pageId: int, data: Blob)
      modifies this
      ensures pages == old(pages)[pageId := data]
    {
      pages := pages[pageId := data];
    }

    /** `load_page`: the stored contents, or None. */
    function LoadPage(pageId: int): (r: Option<Blob>)
      reads this
      ensures r.Some? <==> pageId in pages
      ensures r.Some? ==> r.value == pages[pageId]
    {
      if pageId in pages then Some(pages[pageId]) else None
    }

    /** `has_page`. */
    predicate HasPage(pageId: int)
      reads this
      ensures HasPage(pageId) <==> LoadPage(pageId).Some?
    {
      pageId in pages
    }

    /** `remove_page`: fails exactly when the page is absent. */
    method RemovePage(pageId: int) returns (ok: bool)
      modifies this
      ensures ok <==> pageId in old(pages)
      ensures pages == old(pages) - {pageId}
    {
      if pageId in pages {
        pages := pages - {pageId};
        return true;
      }
      return false;
    }
  }

  /** A store after `store_page(p, d)` answers `d` for `p` and keeps every other page. */
  lemma StoreThenLoad(store: map<int, Blob>, p: int, d: Blob, q: int)
    ensures p in store[p := d] && store[p := d][p] == d
    ensures q != p ==> (q in store[p := d] <==> q in store) && (q in store ==> store[p := d][q] == store[q])
  {
  }

  /** The store after `load_process` has seeded `pages`: every listed page that
      was missing gets `blob`; pages already stored keep their contents. */
  function Seeded(store: map<int, Blob>, pages: seq<int>, blob: Blob): (r: map<int, Blob>)
    ensures forall p :: p in r <==> p in store || p in pages
    ensures forall p :: p in store ==> r[p] == store[p]
    ensures forall p :: p in r && p !in store ==> r[p] == blob
  {
    map p | p in store.Keys + (set q | q in pages) :: if p in store then store[p] else blob
  }

  /** The slots after `remove_process` has emptied every slot holding one of `pages`. */
  function WithoutPages(slots: seq<Option<int>>, pages: seq<int>): (r: seq<Option<int>>)
    ensures |r| == |slots|
    ensures forall i :: 0 <= i < |r| ==> r[i] == if slots[i].Some? && slots[i].value in pages then None else slots[i]
  {
    seq(|slots|, i requires 0 <= i < |slots| => if slots[i].Some? && slots[i].value in pages then None else slots[i])
  }

  /** Emptying slots keeps them duplicate-free and leaves none of the removed pages resident. */
  lemma WithoutPagesKeepsNoDuplicates(slots: seq<Option<int>>, pages: seq<int>)
    requires NoDuplicates(slots)
    ensures NoDuplicates(WithoutPages(slots, pages))
    ensures forall p :: p in pages ==> Some(p) !in WithoutPages(slots, pages)
  {
    var r := WithoutPages(slots, pages);
    forall i, j | 0 <= i < j < |r| && r[i].Some?
      ensures r[i] != r[j]
    {
      assert slots[i] != slots[j];
    }
  }

  /** The pages of a list, as a set. */
  function Elements(pages: seq<int>): (r: set<int>)
    ensures forall p :: p in r <==> p in pages
  {
    set p | p in pages
  }

  lemma ElementsStep(pages: seq<int>, i: nat)
    requires i < |pages|
    ensures Elements(pages[..i + 1]) == Elements(pages[..i]) + {pages[i]}
  {
    assert pages[..i + 1] == pages[..i] + [pages[i]];
  }

  /** Emptying the slots of one more page extends the emptying of a prefix;
      a page that is not resident changes nothing. */
  lemma WithoutPagesStep(slots: seq<Option<int>>, pages: seq<int>, i: nat)
    requires i < |pages|
    ensures WithoutPages(slots, pages[..i + 1]) == WithoutPages(WithoutPages(slots, pages[..i]), [pages[i]])
    ensures Some(pages[i]) !in WithoutPages(slots, pages[..i]) ==>
              WithoutPages(WithoutPages(slots, pages[..i]), [pages[i]]) == WithoutPages(slots, pages[..i])
  {
    assert pages[..i + 1] == pages[..i] + [pages[i]];
  }

  datatype VmError = ProcessNotFound | PageNotInProcess | PageNotInBackingStore

  /** The fields of a virtual-memory `access_page` result; `access` is the
      replacement engine's own result when the engine was consulted. */
  datatype VmAccess = VmAccess(success: bool, error: Option<VmError>, pageFault: bool,
                               swapIn: bool, swapOut: bool, access: Option<AccessResult>)

  /** The integer fields of `get_statistics`. */
  datatype VmStats = VmStats(numFrames: int, frameSize: int, swapIns: nat, swapOuts: nat, totalSwaps: nat,
                             processes: nat, backingStorePages: nat, replacement: ReplacementStats)

  /** `translate_address` as a function of the process lists, the slots and the frame size. */
  function VirtualTranslation(processPages: map<int, seq<int>>, slots: seq<Option<int>>, frameSize: int,
                              pid: int, virtualAddress: int): (r: Option<Translation>)
    requires pid in processPages ==> frameSize != 0
    ensures r.None? <==> pid !in processPages || FloorDiv(virtualAddress, frameSize) !in processPages[pid]
    ensures r.Some? ==> r.value.offset == FloorMod(virtualAddress, frameSize)
    ensures r.Some? ==> (r.value.pageFault <==> Some(FloorDiv(virtualAddress, frameSize)) !in slots)
    ensures r.Some? ==> (r.value.physicalAddress.None? <==> r.value.pageFault)
  {
    if pid !in processPages then None
    else
      var pg := FloorDiv(virtualAddress, frameSize);
      var off := FloorMod(virtualAddress, frameSize);
      if pg !in processPages[pid] then None
      else match FirstIndex(slots, Some(pg))
        case None => Some(Translation(None, off, true))
        case Some(i) => Some(Translation(Some(i * frameSize + off), off, false))
  }

  /** A resident page's virtual address lands in the frame of the first slot
      holding the page, at the same offset. */
  lemma TranslationLandsInSlot(processPages: map<int, seq<int>>, slots: seq<Option<int>>, frameSize: int,
                               pid: int, virtualAddress: int)
    requires frameSize > 0
    ensures var r := VirtualTranslation(processPages, slots, frameSize, pid, virtualAddress);
      var pg := FloorDiv(virtualAddress, frameSize);
      r.Some? && !r.value.pageFault ==>
        && FirstIndex(slots, Some(pg)).Some?
        && var i := FirstIndex(slots, Some(pg)).value;
        && slots[i] == Some(pg)
        && i * frameSize <= r.value.physicalAddress.value < i * frameSize + frameSize
        && r.value.physicalAddress.value - i * frameSize == virtualAddress - pg * frameSize
  {
    FloorDivMod(virtualAddress, frameSize);
  }

  class VirtualMemoryManager {
    const numFrames: int
    const frameSize: int
    var algorithm: Policy
    var replacement: ReplacementEngine
    var backingStore: BackingStore
    var processPages: map<int, seq<int>>
    var swapIns: nat
    var swapOuts: nat

    /** The engine matches the configured policy and size, no page sits in two
        slots, and every swap-out came with a swap-in. */
    ghost predicate Valid()
      reads this, replacement
    {
      && replacement.policy == algorithm
      && replacement.numFrames == numFrames
      && |replacement.slots| == (if numFrames < 0 then 0 else numFrames)
      && NoDuplicates(replacement.slots)
      && swapOuts <= swapIns
    }

    constructor (numFrames: int, frameSize: int, algorithm: Policy)
      ensures Valid() && fresh(replacement) && fresh(backingStore)
      ensures this.numFrames == numFrames && this.frameSize == frameSize && this.algorithm == algorithm
      ensures replacement.State() == EngineState(EmptySlots(numFrames), [], 0, 0)
      ensures backingStore.pages == map[] && processPages == map[]
      ensures swapIns == 0 && swapOuts == 0
    {
      this.numFrames := numFrames;
      this.frameSize := frameSize;
      this.algorithm := algorithm;
      replacement := new ReplacementEngine(algorithm, numFrames);
      backingStore := new BackingStore();
      processPages := map[];
      swapIns := 0;
      swapOuts := 0;
    }

    /** `load_process`: records the page list (replacing any earlier one) and
        stores a zero page for each listed page the store does not have yet.
        Building a page of negative length raises, hence the frame-size condition. */
    method LoadProcess(pid: int, pages: seq<int>) returns (ok: bool)
      requires Valid()
      requires frameSize >= 0 || forall p :: p in pages ==> p in backingStore.pages
      modifies this, backingStore
      ensures Valid() && ok
      ensures processPages == old(processPages)[pid := pages]
      ensures backingStore == old(backingStore) && replacement == old(replacement)
      ensures backingStore.pages == Seeded(old(backingStore.pages), pages, ZeroPage(if frameSize < 0 then 0 else frameSize))
      ensures swapIns == old(swapIns) && swapOuts == old(swapOuts)
    {
      processPages := processPages[pid := pages];
      var store := backingStore;
      ghost var before := store.pages;
      ghost var blob := ZeroPage(if frameSize < 0 then 0 else frameSize);
      for i := 0 to |pages|
        invariant forall p :: p in store.pages <==> p in before || p in pages[..i]
        invariant forall p :: p in before ==> store.pages[p] == before[p]
        invariant forall p :: p in store.pages && p !in before ==> store.pages[p] == blob
        modifies store
      {
        if !store.HasPage(pages[i]) {
          store.StorePage(pages[i], ZeroPage(frameSize));
        }
      }
      assert pages[..|pages|] == pages;
      ghost var want := Seeded(before, pages, blob);
      assert forall p :: p in store.pages <==> p in want;
      assert forall p :: p in want ==> store.pages[p] == want[p];
      return true;
    }

    /** Empty every slot that holds `page` (the scan does not stop at the first match). */
    method ClearSlots(page: int)
      modifies replacement
      ensures replacement.slots == WithoutPages(old(replacement.slots), [page])
      ensures replacement.order == old(replacement.order)
      ensures replacement.pageFaults == old(replacement.pageFaults) && replacement.pageHits == old(replacement.pageHits)
    {
      var engine := replacement;
      for i := 0 to |engine.slots|
        invariant |engine.slots| == |old(engine.slots)|
        invariant forall j :: 0 <= j < i ==> engine.slots[j] == WithoutPages(old(engine.slots), [page])[j]
        invariant forall j :: i <= j < |engine.slots| ==> engine.slots[j] == old(engine.slots)[j]
        invariant engine.order == old(engine.order)
        invariant engine.pageFaults == old(engine.pageFaults) && engine.pageHits == old(engine.pageHits)
      {
        if engine.slots[i] == Some(page) {
          engine.slots := engine.slots[i := None];
        }
      }
    }

    /** `remove_process`: drops the process's pages from the store and from the
        slots, and forgets the process. The FIFO queue and the LRU order keep
        the removed pages. */
    method RemoveProcess(pid: int) returns (ok: bool)
      requires Valid()
      modifies this, backingStore, replacement
      ensures Valid()
      ensures ok <==> pid in old(processPages)
      ensures backingStore == old(backingStore) && replacement == old(replacement)
      ensures ok ==> processPages == old(processPages) - {pid}
      ensures ok ==> backingStore.pages == old(backingStore.pages) - Elements(old(processPages)[pid])
      ensures ok ==> replacement.slots == WithoutPages(old(replacement.slots), old(processPages)[pid])
      ensures !ok ==> processPages == old(processPages) && backingStore.pages == old(backingStore.pages)
                      && replacement.slots == old(replacement.slots)
      ensures replacement.order == old(replacement.order)
      ensures replacement.pageFaults == old(replacement.pageFaults) && replacement.pageHits == old(replacement.pageHits)
      ensures swapIns == old(swapIns) && swapOuts == old(swapOuts)
    {
      if pid !in processPages {
        return false;
      }
      var pages := processPages[pid];
      var store := backingStore;
      var engine := replacement;
      ghost var slots0 := engine.slots;
      ghost var pages0 := store.pages;
      for i := 0 to |pages|
        invariant store.pages == pages0 - Elements(pages[..i])
        invariant engine.slots == WithoutPages(slots0, pages[..i])
        invariant engine.order == old(engine.order)
        invariant engine.pageFaults == old(engine.pageFaults) && engine.pageHits == old(engine.pageHits)
        invariant replacement == engine && backingStore == store
        modifies store, engine
      {
        var _ := store.RemovePage(pages[i]);
        if engine.IsPageLoaded(pages[i]) {
          ClearSlots(pages[i]);
        }
        WithoutPagesStep(slots0, pages, i);
        ElementsStep(pages, i);
      }
      assert pages[..|pages|] == pages;
      WithoutPagesKeepsNoDuplicates(slots0, pages);
      processPages := processPages - {pid};
      return true;
    }

    /** `access_page`: an unknown process or an unlisted page is refused; a
        resident page is a hit; a stored page is swapped in, and the page it
        replaces, if any, is written back and swapped out. The `write` flag is
        unused by the source and left out. */
    method AccessPage(pid: int, page: int, future: Option<seq<int>>) returns (r: VmAccess)
      requires Valid()
      requires algorithm == Optimal ==> numFrames > 0
      requires frameSize >= 0
      modifies this, backingStore, replacement
      ensures Valid()
      ensures backingStore == old(backingStore) && replacement == old(replacement)
      ensures processPages == old(processPages)
      ensures pid !in old(processPages) ==> r == VmAccess(false, Some(ProcessNotFound), false, false, false, None)
      ensures pid in old(processPages) && page !in old(processPages)[pid] ==>
                r == VmAccess(false, Some(PageNotInProcess), false, false, false, None)
      ensures pid in old(processPages) && page in old(processPages)[pid] && !old(replacement.IsPageLoaded(page))
              && page !in old(backingStore.pages) ==>
                r == VmAccess(false, Some(PageNotInBackingStore), true, false, false, None)
      ensures !r.success ==> replacement.State() == old(replacement.State()) && backingStore.pages == old(backingStore.pages)
                             && swapIns == old(swapIns) && swapOuts == old(swapOuts)
      ensures r.success <==> pid in old(processPages) && page in old(processPages)[pid]
                             && (old(replacement.IsPageLoaded(page)) || page in old(backingStore.pages))
      ensures r.success ==>
        && r.access.Some?
        && (replacement.State(), r.access.value) == Access(algorithm, old(replacement.State()), page, future)
        && r.error.None? && r.pageFault == r.access.value.pageFault
        && r.swapIn == !old(replacement.IsPageLoaded(page))
        && r.swapOut == r.access.value.replacedPage.Some?
        && swapIns == old(swapIns) + (if r.swapIn then 1 else 0)
        && swapOuts == old(swapOuts) + (if r.swapOut then 1 else 0)
        && backingStore.pages == if r.swapOut then old(backingStore.pages)[r.access.value.replacedPage.value := ZeroPage(frameSize)]
                                 else old(backingStore.pages)
    {
      if pid !in processPages {
        return VmAccess(false, Some(ProcessNotFound), false, false, false, None);
      }
      if page !in processPages[pid] {
        return VmAccess(false, Some(PageNotInProcess), false, false, false, None);
      }
      AccessKeepsNoDuplicates(algorithm, replacement.State(), page, future);
      if replacement.IsPageLoaded(page) {
        var hit := replacement.AccessPage(page, future);
        return VmAccess(true, None, hit.pageFault, false, false, Some(hit));
      }
      if !backingStore.HasPage(page) {
        return VmAccess(false, Some(PageNotInBackingStore), true, false, false, None);
      }
      var data := backingStore.LoadPage(page);
      var access := replacement.AccessPage(page, future);
      var swapOut := false;
      if access.replacedPage.Some? {
        backingStore.StorePage(access.replacedPage.value, ZeroPage(frameSize));
        swapOuts := swapOuts + 1;
        swapOut := true;
      }
      swapIns := swapIns + 1;
      return VmAccess(true, None, access.pageFault, true, swapOut, Some(access));
    }

    /** `translate_address`: the frame is the first slot holding the page. */
    method TranslateAddress(pid: int, virtualAddress: int) returns (r: Option<Translation>)
      requires pid in processPages ==> frameSize != 0
      ensures r == VirtualTranslation(processPages, replacement.slots, frameSize, pid, virtualAddress)
    {
      if pid !in processPages {
        return None;
      }
      var pg := FloorDiv(virtualAddress, frameSize);
      var off := FloorMod(virtualAddress, frameSize);
      if pg !in processPages[pid] {
        return None;
      }
      if !replacement.IsPageLoaded(pg) {
        return Some(Translation(None, off, true));
      }
      var frameIndex := replacement.SlotIndex(Some(pg));
      if frameIndex.None? {
        return Some(Translation(None, off, true));
      }
      return Some(Translation(Some(frameIndex.value * frameSize + off), off, false));
    }

    /** `set_replacement_algorithm`: a fresh engine of the new policy; every
        resident page is discarded. */
    method SetReplacementAlgorithm(algorithm: Policy)
      requires Valid()
      modifies this
      ensures Valid() && fresh(replacement)
      ensures this.algorithm == algorithm
      ensures replacement.State() == EngineState(EmptySlots(numFrames), [], 0, 0)
      ensures backingStore == old(backingStore) && processPages == old(processPages)
      ensures swapIns == old(swapIns) && swapOuts == old(swapOuts)
    {
      this.algorithm := algorithm;
      replacement := new ReplacementEngine(algorithm, numFrames);
    }

    /** `reset`: a fresh engine and an empty store, no processes, no swaps. */
    method Reset()
      requires Valid()
      modifies this, replacement
      ensures Valid() && fresh(replacement) && fresh(backingStore)
      ensures algorithm == old(algorithm)
      ensures replacement.State() == EngineState(EmptySlots(numFrames), [], 0, 0)
      ensures backingStore.pages == map[] && processPages == map[]
      ensures swapIns == 0 && swapOuts == 0
    {
      replacement.Reset();
      backingStore := new BackingStore();
      processPages := map[];
      swapIns := 0;
      swapOuts := 0;
      replacement := new ReplacementEngine(algorithm, numFrames);
    }

    /** The integer fields of `get_statistics`. */
    function Statistics(): (r: VmStats)
      reads this, replacement, backingStore
      ensures r.totalSwaps == r.swapIns + r.swapOuts
      ensures r.swapIns == swapIns && r.swapOuts == swapOuts
      ensures r.processes == |processPages| && r.backingStorePages == |backingStore.pages|
      ensures r.replacement == Replacement.Statistics(replacement.State())
    {
      VmStats(numFrames, frameSize, swapIns, swapOuts, swapIns + swapOuts, |processPages|,
              |backingStore.pages|, Replacement.Statistics(replacement.State()))
    }
  }
}
