/** Page replacement over a fixed row of frame slots. The three policies share
    the slot helpers and the hit/fault accounting; FIFO keeps a queue of loaded
    pages, LRU a recency list (most recent last), and Optimal looks ahead in a
    list of future references. */
module Replacement {
  import opened Common

  datatype Policy = FIFO | LRU | Optimal

  /** The lowest index holding `x` (`list.index`, or a scan that stops at the first match). */
  function FirstIndex<T(==)>(s: seq<T>, x: T): (r: Option<nat>)
    ensures r.None? <==> x !in s
    ensures r.Some? ==> r.value < |s| && s[r.value] == x
    ensures r.Some? ==> forall j :: 0 <= j < r.value ==> s[j] != x
  {
    if |s| == 0 then None
    else if s[0] == x then Some(0)
    else
      match FirstIndex(s[1..], x)
      case None => None
      case Some(i) => Some(i + 1)
  }

  /** `list.remove`: drop the first occurrence of `x`. */
  function RemoveFirst<T(==)>(s: seq<T>, x: T): (r: seq<T>)
    requires x in s
    ensures |r| == |s| - 1
    ensures multiset(r) == multiset(s) - multiset{x}
    ensures forall a :: 0 <= a < |r| ==> r[a] == if a < FirstIndex(s, x).value then s[a] else s[a + 1]
  {
    var i := FirstIndex(s, x).value;
    assert s == s[..i] + [x] + s[i + 1..];
    s[..i] + s[i + 1..]
  }

  /** No element appears twice. */
  ghost predicate Distinct<T>(s: seq<T>)
  {
    forall i, j :: 0 <= i < j < |s| ==> s[i] != s[j]
  }

  /** No page occupies two slots. */
  ghost predicate NoDuplicates(slots: seq<Option<int>>)
  {
    forall i, j :: 0 <= i < j < |slots| && slots[i].Some? ==> slots[i] != slots[j]
  }

  /** The state of one replacement engine, as values. `order` is the FIFO queue
      or the LRU access order; Optimal leaves it empty. */
  datatype EngineState = EngineState(slots: seq<Option<int>>, order: seq<int>, pageFaults: nat, pageHits: nat)

  /** The integer fields of an `access_page` result. */
  datatype AccessResult = AccessResult(pageId: int, pageFault: bool, replacedPage: Option<int>, frameIndex: Option<nat>)

  /** `[None] * num_frames`. */
  function EmptySlots(numFrames: int): (s: seq<Option<int>>)
    ensures |s| == (if numFrames < 0 then 0 else numFrames)
    ensures forall i :: 0 <= i < |s| ==> s[i].None?
  {
    seq(if numFrames < 0 then 0 else numFrames, _ => None)
  }

  /** The loop of Optimal's victim search after it has looked at slots[..i]:
      the candidate so far and the largest next-use distance seen. A page that
      is never used again ends the search at once. */
  function OptimalScan(slots: seq<Option<int>>, future: seq<int>, i: nat, victim: Option<int>, maxDistance: int)
    : Option<int>
    requires i <= |slots|
    decreases |slots| - i
  {
    if i == |slots| then victim
    else match slots[i]
      case None => OptimalScan(slots, future, i + 1, victim, maxDistance)
      case Some(p) =>
        match FirstIndex(future, p)
        case None => Some(p)
        case Some(d) =>
          if d > maxDistance then OptimalScan(slots, future, i + 1, Some(p), d)
          else OptimalScan(slots, future, i + 1, victim, maxDistance)
  }

  /** What the search has established after slots[..i]. */
  ghost predicate ScanInv(slots: seq<Option<int>>, future: seq<int>, i: nat, victim: Option<int>, maxDistance: int)
  {
    && i <= |slots|
    && (forall j :: 0 <= j < i && slots[j].Some? ==> slots[j].value in future)
    && (victim.None? ==> maxDistance == -1 && forall j :: 0 <= j < i ==> slots[j].None?)
    && (victim.Some? ==>
          && victim.value in future && maxDistance == FirstIndex(future, victim.value).value
          && FirstIndex(slots, victim).Some? && FirstIndex(slots, victim).value < i
          && (forall j :: 0 <= j < i && slots[j].Some? ==> FirstIndex(future, slots[j].value).value <= maxDistance)
          && (forall j :: 0 <= j < FirstIndex(slots, victim).value && slots[j].Some? ==>
                FirstIndex(future, slots[j].value).value < maxDistance))
  }

  /** The victim rule of the optimal policy: a resident page; the first one in
      slot order that is never referenced again, if any; otherwise the one whose
      next reference is furthest away, the earliest slot winning ties. */
  ghost predicate IsOptimalVictim(slots: seq<Option<int>>, future: seq<int>, v: Option<int>)
  {
    && ((exists j :: 0 <= j < |slots| && slots[j].Some?) <==> v.Some?)
    && (v.Some? ==> FirstIndex(slots, v).Some?)
    && (v.Some? && v.value !in future ==>
          forall j :: 0 <= j < FirstIndex(slots, v).value && slots[j].Some? ==> slots[j].value in future)
    && (v.Some? && v.value in future ==>
          && (forall j :: 0 <= j < |slots| && slots[j].Some? ==>
                slots[j].value in future && FirstIndex(future, slots[j].value).value <= FirstIndex(future, v.value).value)
          && (forall j :: 0 <= j < FirstIndex(slots, v).value && slots[j].Some? ==>
                FirstIndex(future, slots[j].value).value < FirstIndex(future, v.value).value))
  }

  /** At the end of the slots, the candidate kept by the search is the optimal victim. */
  lemma ScanEnd(slots: seq<Option<int>>, future: seq<int>, victim: Option<int>, maxDistance: int)
    requires ScanInv(slots, future, |slots|, victim, maxDistance)
    ensures IsOptimalVictim(slots, future, victim)
  {
    if victim.None? {
      assert forall j :: 0 <= j < |slots| ==> slots[j].None?;
    } else {
      assert slots[FirstIndex(slots, victim).value].Some?;
    }
  }

  /** A resident page that is never used again, found at slot i, is the optimal victim. */
  lemma ScanBreak(slots: seq<Option<int>>, future: seq<int>, i: nat, victim: Option<int>, maxDistance: int, p: int)
    requires ScanInv(slots, future, i, victim, maxDistance) && i < |slots|
    requires slots[i] == Some(p) && p !in future
    ensures IsOptimalVictim(slots, future, Some(p))
  {
    assert FirstIndex(slots, Some(p)).value <= i;
  }

  /** A resident page further away than every candidate so far becomes the candidate. */
  lemma ScanFurther(slots: seq<Option<int>>, future: seq<int>, i: nat, victim: Option<int>, maxDistance: int, p: int)
    requires ScanInv(slots, future, i, victim, maxDistance) && i < |slots|
    requires slots[i] == Some(p) && p in future && FirstIndex(future, p).value > maxDistance
    ensures ScanInv(slots, future, i + 1, Some(p), FirstIndex(future, p).value)
  {
    var k := FirstIndex(slots, Some(p)).value;
    assert slots[k] == Some(p);
    assert FirstIndex(slots, Some(p)) == Some(i);
  }

  /** Any other slot leaves the candidate as it is. */
  lemma ScanKeep(slots: seq<Option<int>>, future: seq<int>, i: nat, victim: Option<int>, maxDistance: int)
    requires ScanInv(slots, future, i, victim, maxDistance) && i < |slots|
    requires slots[i].Some? ==> slots[i].value in future && FirstIndex(future, slots[i].value).value <= maxDistance
    ensures ScanInv(slots, future, i + 1, victim, maxDistance)
  {
    forall j | 0 <= j < i + 1 && slots[j].Some?
      ensures slots[j].value in future && FirstIndex(future, slots[j].value).value <= maxDistance
    {
      if j < i {
        assert slots[j].Some? ==> slots[j].value in future;
      }
    }
  }

  lemma {:induction false} OptimalScanChoosesOptimally(slots: seq<Option<int>>, future: seq<int>, i: nat,
                                                       victim: Option<int>, maxDistance: int)
    requires ScanInv(slots, future, i, victim, maxDistance)
    ensures IsOptimalVictim(slots, future, OptimalScan(slots, future, i, victim, maxDistance))
    decreases |slots| - i
  {
    if i == |slots| {
      ScanEnd(slots, future, victim, maxDistance);
    } else {
      match slots[i]
      case None =>
        ScanKeep(slots, future, i, victim, maxDistance);
        OptimalScanChoosesOptimally(slots, future, i + 1, victim, maxDistance);
      case Some(p) =>
        match FirstIndex(future, p)
        case None =>
          ScanBreak(slots, future, i, victim, maxDistance, p);
        case Some(d) =>
          if d > maxDistance {
            ScanFurther(slots, future, i, victim, maxDistance, p);
            OptimalScanChoosesOptimally(slots, future, i + 1, Some(p), d);
          } else {
            ScanKeep(slots, future, i, victim, maxDistance);
            OptimalScanChoosesOptimally(slots, future, i + 1, victim, maxDistance);
          }
    }
  }

  /** Optimal's victim for a full row of slots. */
  function OptimalVictim(slots: seq<Option<int>>, future: seq<int>): (v: Option<int>)
    ensures IsOptimalVictim(slots, future, v)
  {
    OptimalScanChoosesOptimally(slots, future, 0, None, -1);
    OptimalScan(slots, future, 0, None, -1)
  }

  /** Put `page` in the first slot holding `victim`; if no slot holds it, nothing is placed. */
  function Evict(policy: Policy, e: EngineState, page: int, victim: int): (EngineState, AccessResult)
  {
    match FirstIndex(e.slots, Some(victim))
    case None => (e, AccessResult(page, true, None, None))
    case Some(i) =>
      (e.(slots := e.slots[i := Some(page)], order := if policy == Optimal then e.order else e.order + [page]),
       AccessResult(page, true, Some(victim), Some(i)))
  }

  /** The hit path: only LRU touches its list, moving the page to the most recent end. */
  function Hit(policy: Policy, e: EngineState, page: int): (EngineState, AccessResult)
  {
    var order := if policy == LRU then (if page in e.order then RemoveFirst(e.order, page) else e.order) + [page]
                 else e.order;
    (e.(order := order, pageHits := e.pageHits + 1), AccessResult(page, false, None, FirstIndex(e.slots, Some(page))))
  }

  /** The fault path, after the fault has been counted: a free slot if there is
      one, otherwise the policy's victim. */
  function Fault(policy: Policy, e: EngineState, page: int, future: Option<seq<int>>): (EngineState, AccessResult)
    requires policy == Optimal ==> |e.slots| > 0
  {
    match FirstIndex(e.slots, None)
    case Some(i) =>
      (e.(slots := e.slots[i := Some(page)], order := if policy == Optimal then e.order else e.order + [page]),
       AccessResult(page, true, None, Some(i)))
    case None =>
      if policy == Optimal then
        match OptimalVictim(e.slots, future.GetOr([]))
        case None => (e, AccessResult(page, true, None, None))
        case Some(v) => Evict(policy, e, page, v)
      else if e.order == [] then (e, AccessResult(page, true, None, None))
      else Evict(policy, e.(order := e.order[1..]), page, e.order[0])
  }

  /** `access_page` of each policy. An Optimal engine needs at least one slot:
      with none, its fallback search for a resident page raises. */
  function Access(policy: Policy, e: EngineState, page: int, future: Option<seq<int>>): (r: (EngineState, AccessResult))
    requires policy == Optimal ==> |e.slots| > 0
    ensures r.1.pageId == page
    ensures r.1.pageFault <==> Some(page) !in e.slots
    ensures r.0.pageFaults == e.pageFaults + (if r.1.pageFault then 1 else 0)
    ensures r.0.pageHits == e.pageHits + (if r.1.pageFault then 0 else 1)
    ensures |r.0.slots| == |e.slots|
    ensures r.1.frameIndex.Some? ==> r.1.frameIndex.value < |e.slots| && r.0.slots[r.1.frameIndex.value] == Some(page)
  {
    if Some(page) in e.slots then Hit(policy, e, page)
    else Fault(policy, e.(pageFaults := e.pageFaults + 1), page, future)
  }

  /** A hit leaves the slots as they were and reports the page's slot; only LRU
      touches its list, moving the page to the most recent end. */
  lemma HitKeepsSlots(policy: Policy, e: EngineState, page: int, future: Option<seq<int>>)
    requires policy == Optimal ==> |e.slots| > 0
    requires Some(page) in e.slots
    ensures var (e', r) := Access(policy, e, page, future);
      && e'.slots == e.slots
      && r.replacedPage.None? && r.frameIndex == FirstIndex(e.slots, Some(page))
      && e'.order == if policy == LRU then (if page in e.order then RemoveFirst(e.order, page) else e.order) + [page]
                     else e.order
  {
  }

  /** A fault with a free slot fills the lowest-index free slot; FIFO and LRU
      append the page to their list. */
  lemma FaultFillsFirstFreeSlot(policy: Policy, e: EngineState, page: int, future: Option<seq<int>>)
    requires policy == Optimal ==> |e.slots| > 0
    requires Some(page) !in e.slots && None in e.slots
    ensures var (e', r) := Access(policy, e, page, future);
      var i := FirstIndex(e.slots, None).value;
      && (forall j :: 0 <= j < i ==> e.slots[j].Some?)
      && e'.slots == e.slots[i := Some(page)]
      && r.replacedPage.None? && r.frameIndex == Some(i)
      && e'.order == if policy == Optimal then e.order else e.order + [page]
  {
  }

  /** A FIFO or LRU fault with every slot taken evicts the head of the list,
      whose slot receives the new page. If the head is no longer in any slot
      (a stale head), it is dropped and the new page is not placed. */
  lemma FaultEvictsListHead(policy: Policy, e: EngineState, page: int, future: Option<seq<int>>)
    requires policy != Optimal
    requires Some(page) !in e.slots && None !in e.slots && e.order != []
    ensures var (e', r) := Access(policy, e, page, future);
      var head := e.order[0];
      && (Some(head) in e.slots ==>
            && r.replacedPage == Some(head)
            && r.frameIndex == FirstIndex(e.slots, Some(head))
            && e'.slots == e.slots[FirstIndex(e.slots, Some(head)).value := Some(page)]
            && e'.order == e.order[1..] + [page])
      && (Some(head) !in e.slots ==>
            && r.replacedPage.None? && r.frameIndex.None?
            && e'.slots == e.slots && e'.order == e.order[1..])
  {
  }

  /** An Optimal fault with every slot taken replaces the page chosen by the optimal rule. */
  lemma FaultEvictsOptimalVictim(e: EngineState, page: int, future: Option<seq<int>>)
    requires |e.slots| > 0
    requires Some(page) !in e.slots && None !in e.slots
    ensures var (e', r) := Access(Optimal, e, page, future);
      var v := OptimalVictim(e.slots, future.GetOr([]));
      && v.Some? && IsOptimalVictim(e.slots, future.GetOr([]), v)
      && r.replacedPage == v
      && r.frameIndex == FirstIndex(e.slots, v)
      && e'.slots == e.slots[FirstIndex(e.slots, v).value := Some(page)]
      && e'.order == e.order
  {
    assert e.slots[0].Some?;
  }

  /** A page is written into a slot only when it is not resident, so no page
      ever occupies two slots; and a reported replaced page was resident before
      the access and is not after it. */
  lemma AccessKeepsNoDuplicates(policy: Policy, e: EngineState, page: int, future: Option<seq<int>>)
    requires policy == Optimal ==> |e.slots| > 0
    requires NoDuplicates(e.slots)
    ensures var (e', r) := Access(policy, e, page, future);
      && NoDuplicates(e'.slots)
      && (r.replacedPage.Some? ==> Some(r.replacedPage.value) in e.slots && Some(r.replacedPage.value) !in e'.slots)
      && (r.frameIndex.None? ==> e'.slots == e.slots)
  {
    if Some(page) !in e.slots {
      var e1 := e.(pageFaults := e.pageFaults + 1);
      FaultChangesOneSlot(policy, e1, page, future);
      var (e', r) := Fault(policy, e1, page, future);
      if r.frameIndex.Some? {
        PlaceKeepsNoDuplicates(e.slots, r.frameIndex.value, page);
      }
    }
  }

  /** The slots after a fault: untouched when nothing was placed, otherwise the
      new page in one slot, which held the replaced page or nothing. */
  ghost predicate ChangesOneSlot(before: seq<Option<int>>, after: seq<Option<int>>, r: AccessResult, page: int)
  {
    && (r.frameIndex.None? ==> after == before && r.replacedPage.None?)
    && (r.frameIndex.Some? ==>
          && r.frameIndex.value < |before|
          && after == before[r.frameIndex.value := Some(page)]
          && before[r.frameIndex.value] == (if r.replacedPage.Some? then Some(r.replacedPage.value) else None))
  }

  lemma EvictChangesOneSlot(policy: Policy, e: EngineState, page: int, victim: int)
    ensures var (e', r) := Evict(policy, e, page, victim); ChangesOneSlot(e.slots, e'.slots, r, page)
  {
  }

  lemma FaultChangesOneSlot(policy: Policy, e: EngineState, page: int, future: Option<seq<int>>)
    requires policy == Optimal ==> |e.slots| > 0
    ensures var (e', r) := Fault(policy, e, page, future); ChangesOneSlot(e.slots, e'.slots, r, page)
  {
    if FirstIndex(e.slots, None).None? {
      if policy == Optimal {
        var v := OptimalVictim(e.slots, future.GetOr([]));
        if v.Some? {
          EvictChangesOneSlot(policy, e, page, v.value);
        }
      } else if e.order != [] {
        EvictChangesOneSlot(policy, e.(order := e.order[1..]), page, e.order[0]);
      }
    }
  }

  /** Writing a non-resident page into one slot keeps the slots duplicate-free
      and leaves the page it overwrote nowhere. */
  lemma PlaceKeepsNoDuplicates(slots: seq<Option<int>>, k: nat, page: int)
    requires NoDuplicates(slots) && k < |slots| && Some(page) !in slots
    ensures NoDuplicates(slots[k := Some(page)])
    ensures slots[k].Some? ==> slots[k] !in slots[k := Some(page)]
  {
    var after := slots[k := Some(page)];
    forall i, j | 0 <= i < j < |after| && after[i].Some?
      ensures after[i] != after[j]
    {
      if i != k && j != k {
        assert slots[i] != slots[j];
      }
    }
    if slots[k].Some? {
      forall j | 0 <= j < |after|
        ensures after[j] != slots[k]
      {
        if j < k {
          assert slots[j] != slots[k];
        } else if j > k {
          assert slots[k] != slots[j];
        }
      }
    }
  }

  /** FIFO and LRU on their own: the list holds each resident page exactly once. */
  ghost predicate Tracks(e: EngineState)
  {
    && NoDuplicates(e.slots)
    && Distinct(e.order)
    && (forall p :: p in e.order <==> Some(p) in e.slots)
  }

  lemma RemoveFirstKeepsDistinct(s: seq<int>, x: int)
    requires x in s && Distinct(s)
    ensures Distinct(RemoveFirst(s, x)) && x !in RemoveFirst(s, x)
    ensures forall y :: y in RemoveFirst(s, x) <==> y in s && y != x
  {
    var i := FirstIndex(s, x).value;
    var r := RemoveFirst(s, x);
    forall a, b | 0 <= a < b < |r|
      ensures r[a] != r[b]
    {
      var a' := if a < i then a else a + 1;
      var b' := if b < i then b else b + 1;
      assert r[a] == s[a'] && r[b] == s[b'];
    }
    forall y
      ensures y in r <==> y in s && y != x
    {
      if y in r {
        var a :| 0 <= a < |r| && r[a] == y;
        var a' := if a < i then a else a + 1;
        assert s[a'] == y && a' != i;
      }
      if y in s && y != x {
        var k :| 0 <= k < |s| && s[k] == y;
        if k < i {
          assert r[k] == y;
        } else {
          assert s[i] == x && k > i;
          assert r[k - 1] == s[k];
        }
      }
    }
  }

  /** When FIFO or LRU is used alone, its list stays in step with the slots, so
      once the slots are in use every access leaves the page resident. */
  lemma AccessKeepsTracks(policy: Policy, e: EngineState, page: int, future: Option<seq<int>>)
    requires policy != Optimal && Tracks(e) && |e.slots| > 0
    ensures var (e', r) := Access(policy, e, page, future);
      Tracks(e') && r.frameIndex.Some?
  {
    AccessKeepsNoDuplicates(policy, e, page, future);
    if Some(page) in e.slots {
      HitKeepsTracks(policy, e, page);
    } else if None in e.slots {
      FillKeepsTracks(policy, e.(pageFaults := e.pageFaults + 1), page, future);
    } else {
      EvictKeepsTracks(policy, e.(pageFaults := e.pageFaults + 1), page, future);
    }
  }

  lemma HitKeepsTracks(policy: Policy, e: EngineState, page: int)
    requires policy != Optimal && Tracks(e) && Some(page) in e.slots
    ensures var e' := Hit(policy, e, page).0;
      Distinct(e'.order) && forall q :: q in e'.order <==> Some(q) in e'.slots
  {
    if policy == LRU {
      RemoveFirstKeepsDistinct(e.order, page);
      var rest := RemoveFirst(e.order, page);
      assert forall q :: q in rest + [page] <==> q in rest || q == page;
    }
  }

  lemma FillKeepsTracks(policy: Policy, e: EngineState, page: int, future: Option<seq<int>>)
    requires policy != Optimal && Tracks(e) && Some(page) !in e.slots && None in e.slots
    ensures var e' := Fault(policy, e, page, future).0;
      Distinct(e'.order) && forall q :: q in e'.order <==> Some(q) in e'.slots
  {
    var e' := Fault(policy, e, page, future).0;
    var i := FirstIndex(e.slots, None).value;
    assert e'.slots == e.slots[i := Some(page)];
    assert e'.order == e.order + [page];
    assert e'.slots[i] == Some(page);
    forall q
      ensures q in e'.order <==> Some(q) in e'.slots
    {
      if Some(q) in e'.slots && q != page {
        var k :| 0 <= k < |e'.slots| && e'.slots[k] == Some(q);
        assert k != i && e.slots[k] == Some(q);
        assert q in e.order;
      }
      if q in e.order {
        assert Some(q) in e.slots;
        var k :| 0 <= k < |e.slots| && e.slots[k] == Some(q);
        assert k != i && e'.slots[k] == Some(q);
      }
    }
  }

  lemma EvictKeepsTracks(policy: Policy, e: EngineState, page: int, future: Option<seq<int>>)
    requires policy != Optimal && Tracks(e) && |e.slots| > 0 && Some(page) !in e.slots && None !in e.slots
    ensures var (e', r) := Fault(policy, e, page, future);
      Distinct(e'.order) && (forall q :: q in e'.order <==> Some(q) in e'.slots) && r.frameIndex.Some?
  {
    var first := e.slots[0].value;
    assert e.slots[0] == Some(first);
    assert first in e.order;
    var head := e.order[0];
    assert Some(head) in e.slots;
    var k := FirstIndex(e.slots, Some(head)).value;
    var e' := Fault(policy, e, page, future).0;
    assert e'.slots == e.slots[k := Some(page)];
    assert e'.order == e.order[1..] + [page];
    assert head !in e.order[1..];
    assert e'.slots[k] == Some(page);
    forall q
      ensures q in e'.order <==> Some(q) in e'.slots
    {
      if Some(q) in e'.slots && q != page {
        var j :| 0 <= j < |e'.slots| && e'.slots[j] == Some(q);
        assert j != k && e.slots[j] == Some(q);
        assert q in e.order;
        var m :| 0 <= m < |e.order| && e.order[m] == q;
        assert m != 0;
        assert e.order[1..][m - 1] == q;
      }
      if q in e.order[1..] {
        assert q in e.order && q != head;
        assert Some(q) in e.slots;
        var j :| 0 <= j < |e.slots| && e.slots[j] == Some(q);
        assert j != k;
        assert e'.slots[j] == Some(q);
      }
    }
  }

  /** The pages in the slots, in slot order (`loaded_pages`). */
  function Residents(slots: seq<Option<int>>): (r: seq<int>)
    ensures forall p :: p in r <==> Some(p) in slots
    ensures |r| <= |slots|
  {
    if |slots| == 0 then []
    else
      var rest := Residents(slots[1..]);
      assert forall p :: Some(p) in slots <==> slots[0] == Some(p) || Some(p) in slots[1..];
      match slots[0]
      case None => rest
      case Some(p) => [p] + rest
  }

  /** The integer fields of `get_statistics`. */
  datatype ReplacementStats = ReplacementStats(pageFaults: nat, pageHits: nat, totalAccesses: nat, loadedPages: seq<int>)

  function Statistics(e: EngineState): (r: ReplacementStats)
    ensures r.totalAccesses == r.pageFaults + r.pageHits
    ensures r.pageFaults == e.pageFaults && r.pageHits == e.pageHits
    ensures forall p :: p in r.loadedPages <==> Some(p) in e.slots
  {
    ReplacementStats(e.pageFaults, e.pageHits, e.pageFaults + e.pageHits, Residents(e.slots))
  }

  class ReplacementEngine {
    const policy: Policy
    const numFrames: int
    var slots: seq<Option<int>>
    var order: seq<int>
    var pageFaults: nat
    var pageHits: nat

    function State(): EngineState
      reads this
    {
      EngineState(slots, order, pageFaults, pageHits)
    }

    constructor (policy: Policy, numFrames: int)
      ensures this.policy == policy && this.numFrames == numFrames
      ensures State() == EngineState(EmptySlots(numFrames), [], 0, 0)
    {
      this.policy := policy;
      this.numFrames := numFrames;
      slots := EmptySlots(numFrames);
      order := [];
      pageFaults := 0;
      pageHits := 0;
    }

    /** `is_page_loaded`. */
    predicate IsPageLoaded(page: int)
      reads this
      ensures IsPageLoaded(page) <==> FirstIndex(slots, Some(page)).Some?
    {
      Some(page) in slots
    }

    /** The slot scans: `get_free_frame_index` for `None`, and the search for a
        page's slot that stops at the first match. */
    method SlotIndex(x: Option<int>) returns (r: Option<nat>)
      ensures r == FirstIndex(slots, x)
    {
      for i := 0 to |slots|
        invariant forall j :: 0 <= j < i ==> slots[j] != x
      {
        if slots[i] == x {
          return Some(i);
        }
      }
      return None;
    }

    /** Optimal's victim search over the slots, with its early exit. */
    method OptimalVictimSearch(future: seq<int>) returns (victim: Option<int>)
      ensures victim == OptimalVictim(slots, future)
    {
      victim := None;
      var maxDistance: int := -1;
      for i := 0 to |slots|
        invariant OptimalScan(slots, future, i, victim, maxDistance) == OptimalScan(slots, future, 0, None, -1)
      {
        if slots[i].Some? {
          var p := slots[i].value;
          var next := FirstIndex(future, p);
          if next.None? {
            return Some(p);
          }
          if next.value > maxDistance {
            maxDistance := next.value;
            victim := Some(p);
          }
        }
      }
    }

    /** `access_page`, one policy per engine. */
    method AccessPage(page: int, future: Option<seq<int>>) returns (r: AccessResult)
      requires policy == Optimal ==> |slots| > 0
      modifies this
      ensures (State(), r) == Access(policy, old(State()), page, future)
    {
      if IsPageLoaded(page) {
        pageHits := pageHits + 1;
        if policy == LRU {
          if page in order {
            order := RemoveFirst(order, page);
          }
          order := order + [page];
        }
        var i := SlotIndex(Some(page));
        return AccessResult(page, false, None, i);
      }
      pageFaults := pageFaults + 1;
      r := HandleFault(page, future);
    }

    /** The fault path of `access_page`, after the fault has been counted. */
    method HandleFault(page: int, future: Option<seq<int>>) returns (r: AccessResult)
      requires policy == Optimal ==> |slots| > 0
      modifies this
      ensures (State(), r) == Fault(policy, old(State()), page, future)
    {
      var free := SlotIndex(None);
      if free.Some? {
        slots := slots[free.value := Some(page)];
        if policy != Optimal {
          order := order + [page];
        }
        return AccessResult(page, true, None, free);
      }
      var victim: Option<int> := None;
      if policy == Optimal {
        victim := OptimalVictimSearch(future.GetOr([]));
      } else if order != [] {
        victim := Some(order[0]);
        order := order[1..];
      }
      r := AccessResult(page, true, None, None);
      if victim.Some? {
        var i := SlotIndex(victim);
        if i.Some? {
          slots := slots[i.value := Some(page)];
          if policy != Optimal {
            order := order + [page];
          }
          r := AccessResult(page, true, victim, i);
        }
      }
    }

    /** `reset`: empty slots, zero counters, empty queue or order list. */
    method Reset()
      modifies this
      ensures State() == EngineState(EmptySlots(numFrames), [], 0, 0)
    {
      slots := EmptySlots(numFrames);
      order := [];
      pageFaults := 0;
      pageHits := 0;
    }
  }
}
