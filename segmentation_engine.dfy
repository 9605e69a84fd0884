/** Segmentation: per-process segment tables of (base, limit) pairs, bounds-checked
    translation of (segment, offset) addresses, a global placement cursor for
    segments added without a base, and the external fragmentation of a table. */
module Segmentation {
  import opened Common
  import AddressTranslation

  /** The cursor's initial value and the gap left after each auto-placed segment. */
  const InitialBase: int := 0x1000
  const PlacementGap: int := 0x100

  datatype Segment = Segment(segmentId: int, name: string, base: int, limit: int)
  {
    /** `contains_address`. */
    predicate ContainsAddress(offset: int)
      ensures ContainsAddress(offset) <==>
                AddressTranslation.LogicalToPhysicalSegmentation(segmentId, offset, map[segmentId := (base, limit)]).value.valid
    {
      0 <= offset < limit
    }

    /** `translate`: an address inside the segment exactly for in-bounds offsets. */
    function Translate(offset: int): (r: Option<int>)
      ensures r.Some? <==> 0 <= offset < limit
      ensures r.Some? ==> base <= r.value < base + limit && r.value - base == offset
    {
      if ContainsAddress(offset) then Some(base + offset) else None
    }
  }

  /** Why a segmented translation was refused. */
  datatype SegmentError = ProcessDoesNotExist | SegmentDoesNotExist | OffsetOutOfBounds(offset: int, limit: int)

  /** The `(physical_address, valid, error_message)` triple. */
  datatype SegmentResult = SegmentResult(physicalAddress: Option<int>, valid: bool, error: Option<SegmentError>)

  /** The position of the segment with the given id, if any. */
  function IndexOfSegment(segments: seq<Segment>, segmentId: int): (r: Option<nat>)
    ensures r.None? <==> forall i :: 0 <= i < |segments| ==> segments[i].segmentId != segmentId
    ensures r.Some? ==> r.value < |segments| && segments[r.value].segmentId == segmentId
    ensures r.Some? ==> forall i :: 0 <= i < r.value ==> segments[i].segmentId != segmentId
  {
    if |segments| == 0 then None
    else if segments[0].segmentId == segmentId then Some(0)
    else match IndexOfSegment(segments[1..], segmentId)
      case None => None
      case Some(i) => Some(i + 1)
  }

  /** A process's segment table. The segments are kept in insertion order, which
      is the order the fragmentation sort starts from; an overwritten segment
      keeps its position. */
  datatype SegmentTable = SegmentTable(processId: int, segments: seq<Segment>)
  {
    /** Segment ids are unique within the table. */
    predicate Valid()
    {
      forall i, j :: 0 <= i < j < |segments| ==> segments[i].segmentId != segments[j].segmentId
    }

    /** `get_segment`. */
    function GetSegment(segmentId: int): (r: Option<Segment>)
      ensures r.Some? <==> exists i :: 0 <= i < |segments| && segments[i].segmentId == segmentId
      ensures r.Some? ==> r.value in segments && r.value.segmentId == segmentId
    {
      match IndexOfSegment(segments, segmentId)
      case None => None
      case Some(i) => Some(segments[i])
    }

    /** `add_segment`: a new id is appended; an existing id is overwritten in place. */
    function AddSegment(segmentId: int, name: string, base: int, limit: int): (r: (SegmentTable, Segment))
      requires Valid()
      ensures r.1 == Segment(segmentId, name, base, limit)
      ensures r.0.Valid() && r.0.processId == processId
      ensures r.0.GetSegment(segmentId) == Some(r.1)
      ensures forall id :: id != segmentId ==> r.0.GetSegment(id) == GetSegment(id)
      ensures |r.0.segments| == |segments| + (if GetSegment(segmentId).Some? then 0 else 1)
    {
      var seg := Segment(segmentId, name, base, limit);
      match IndexOfSegment(segments, segmentId)
      case Some(i) =>
        var t := this.(segments := segments[i := seg]);
        assert t.segments[i] == seg;
        LookupAfterUpdate(segments, i, seg);
        (t, seg)
      case None =>
        var t := this.(segments := segments + [seg]);
        assert t.segments[|segments|] == seg;
        LookupAfterAppend(segments, seg);
        (t, seg)
    }

    /** `translate_address`: a missing segment or an out-of-bounds offset is refused. */
    function TranslateAddress(segmentId: int, offset: int): (r: SegmentResult)
      ensures GetSegment(segmentId).None? ==> r == SegmentResult(None, false, Some(SegmentDoesNotExist))
      ensures GetSegment(segmentId).Some? ==> var s := GetSegment(segmentId).value;
        && (r.valid <==> 0 <= offset < s.limit)
        && (r.valid ==> r == SegmentResult(Some(s.base + offset), true, None))
        && (!r.valid ==> r == SegmentResult(None, false, Some(OffsetOutOfBounds(offset, s.limit))))
    {
      match GetSegment(segmentId)
      case None => SegmentResult(None, false, Some(SegmentDoesNotExist))
      case Some(s) =>
        if !s.ContainsAddress(offset) then SegmentResult(None, false, Some(OffsetOutOfBounds(offset, s.limit)))
        else SegmentResult(s.Translate(offset), true, None)
    }

    /** The table as the (base, limit) map that `logical_to_physical_segmentation` takes. */
    function Bounds(): (r: map<int, (int, int)>)
      requires Valid()
      ensures forall id :: id in r <==> GetSegment(id).Some?
      ensures forall id :: id in r ==> r[id] == (GetSegment(id).value.base, GetSegment(id).value.limit)
    {
      map id | id in (set s | s in segments :: s.segmentId) :: (GetSegment(id).value.base, GetSegment(id).value.limit)
    }
  }

  /** The first position holding an id is the one lookup finds. */
  lemma IndexOfSegmentIs(s: seq<Segment>, segmentId: int, k: nat)
    requires k < |s| && s[k].segmentId == segmentId
    requires forall i :: 0 <= i < k ==> s[i].segmentId != segmentId
    ensures IndexOfSegment(s, segmentId) == Some(k)
  {
    var r := IndexOfSegment(s, segmentId);
    assert r.Some?;
    assert r.value <= k;
    assert s[r.value].segmentId == segmentId;
  }

  /** After overwriting position i of a duplicate-free list, only that id's lookup changes. */
  lemma LookupAfterUpdate(segments: seq<Segment>, i: nat, seg: Segment)
    requires i < |segments| && segments[i].segmentId == seg.segmentId
    requires forall a, b :: 0 <= a < b < |segments| ==> segments[a].segmentId != segments[b].segmentId
    ensures IndexOfSegment(segments[i := seg], seg.segmentId) == Some(i)
    ensures forall id :: id != seg.segmentId ==> IndexOfSegment(segments[i := seg], id) == IndexOfSegment(segments, id)
  {
    var t := segments[i := seg];
    IndexOfSegmentIs(t, seg.segmentId, i);
    forall id | id != seg.segmentId
      ensures IndexOfSegment(t, id) == IndexOfSegment(segments, id)
    {
      var k := IndexOfSegment(segments, id);
      if k.Some? {
        IndexOfSegmentIs(t, id, k.value);
      }
    }
  }

  /** Appending a fresh id leaves every other lookup as it was. */
  lemma LookupAfterAppend(segments: seq<Segment>, seg: Segment)
    requires forall a :: 0 <= a < |segments| ==> segments[a].segmentId != seg.segmentId
    ensures IndexOfSegment(segments + [seg], seg.segmentId) == Some(|segments|)
    ensures forall id :: id != seg.segmentId ==> IndexOfSegment(segments + [seg], id) == IndexOfSegment(segments, id)
  {
    var t := segments + [seg];
    IndexOfSegmentIs(t, seg.segmentId, |segments|);
    forall id | id != seg.segmentId
      ensures IndexOfSegment(t, id) == IndexOfSegment(segments, id)
    {
      var k := IndexOfSegment(segments, id);
      if k.Some? {
        IndexOfSegmentIs(t, id, k.value);
      } else {
        assert forall a :: 0 <= a < |t| ==> t[a].segmentId != id;
      }
    }
  }

  /** A segment table translates exactly as the stateless
      `logical_to_physical_segmentation` does over the table's (base, limit) map. */
  lemma TableAgreesWithStatelessTranslation(t: SegmentTable, segmentId: int, offset: int)
    requires t.Valid()
    ensures var r := t.TranslateAddress(segmentId, offset);
      var q := AddressTranslation.LogicalToPhysicalSegmentation(segmentId, offset, t.Bounds());
      && (q.None? <==> r.error == Some(SegmentDoesNotExist))
      && (q.Some? ==> r.valid == q.value.valid && r.physicalAddress == q.value.physicalAddress)
  {
    var b := t.Bounds();
    AgreesOverBounds(t, b, segmentId, offset);
  }

  lemma AgreesOverBounds(t: SegmentTable, b: map<int, (int, int)>, segmentId: int, offset: int)
    requires segmentId in b <==> t.GetSegment(segmentId).Some?
    requires segmentId in b ==> b[segmentId] == (t.GetSegment(segmentId).value.base, t.GetSegment(segmentId).value.limit)
    ensures var r := t.TranslateAddress(segmentId, offset);
      var q := AddressTranslation.LogicalToPhysicalSegmentation(segmentId, offset, b);
      && (q.None? <==> r.error == Some(SegmentDoesNotExist))
      && (q.Some? ==> r.valid == q.value.valid && r.physicalAddress == q.value.physicalAddress)
  {
  }

  /** Segments ordered by base address. */
  ghost predicate SortedByBase(s: seq<Segment>)
  {
    forall i, j :: 0 <= i < j < |s| ==> s[i].base <= s[j].base
  }

  /** Insert x into a base-sorted list after every segment whose base is not
      greater, as a stable sort places a later element. */
  function InsertByBase(t: seq<Segment>, x: Segment): (r: seq<Segment>)
    ensures multiset(r) == multiset(t) + multiset{x}
    ensures forall y :: y in r ==> y == x || y in t
  {
    if |t| == 0 then [x]
    else if x.base < t[0].base then [x] + t
    else
      assert t == [t[0]] + t[1..];
      [t[0]] + InsertByBase(t[1..], x)
  }

  lemma {:induction false} InsertKeepsSorted(t: seq<Segment>, x: Segment)
    requires SortedByBase(t)
    ensures SortedByBase(InsertByBase(t, x))
  {
    if |t| > 0 && x.base >= t[0].base {
      var tail := t[1..];
      forall i, j | 0 <= i < j < |tail|
        ensures tail[i].base <= tail[j].base
      {
        assert tail[i] == t[i + 1] && tail[j] == t[j + 1];
      }
      InsertKeepsSorted(tail, x);
      var rest := InsertByBase(tail, x);
      var r := [t[0]] + rest;
      forall i, j | 0 <= i < j < |r|
        ensures r[i].base <= r[j].base
      {
        var y := rest[j - 1];
        assert r[j] == y;
        if i == 0 {
          assert y in rest;
          if y != x {
            var k :| 0 <= k < |tail| && tail[k] == y;
            assert t[k + 1] == y;
          }
        } else {
          assert r[i] == rest[i - 1];
        }
      }
    } else if |t| > 0 {
      var r := [x] + t;
      forall i, j | 0 <= i < j < |r|
        ensures r[i].base <= r[j].base
      {
        assert r[j] == t[j - 1];
        if i > 0 {
          assert r[i] == t[i - 1];
        }
      }
    }
  }

  /** `sorted(segments, key=lambda s: s.base)`: a stable insertion sort. */
  function SortByBase(s: seq<Segment>): (r: seq<Segment>)
    ensures SortedByBase(r)
    ensures multiset(r) == multiset(s)
  {
    if |s| == 0 then []
    else
      assert s == s[..|s| - 1] + [s[|s| - 1]];
      var init := SortByBase(s[..|s| - 1]);
      InsertKeepsSorted(init, s[|s| - 1]);
      InsertByBase(init, s[|s| - 1])
  }

  /** The sum of the positive gaps between consecutive segments. */
  function ExternalGaps(s: seq<Segment>): (r: int)
    ensures r >= 0
  {
    if |s| < 2 then 0
    else
      var currentEnd := s[0].base + s[0].limit;
      (if s[1].base > currentEnd then s[1].base - currentEnd else 0) + ExternalGaps(s[1..])
  }

  function SumLimits(s: seq<Segment>): int
  {
    if |s| == 0 then 0 else s[0].limit + SumLimits(s[1..])
  }

  /** The byte fields of `calculate_fragmentation`; a missing process or an empty
      table yields the short `{internal, external}` form, modelled as NoSegments. */
  datatype Fragmentation = NoSegments | Fragmentation(internalBytes: int, externalBytes: int)

  /** `calculate_fragmentation` over one table. */
  function TableFragmentation(t: SegmentTable): (r: Fragmentation)
    ensures r.NoSegments? <==> |t.segments| == 0
    ensures r.Fragmentation? ==> r.internalBytes == 0 && r.externalBytes >= 0
  {
    if |t.segments| == 0 then NoSegments
    else Fragmentation(0, ExternalGaps(SortByBase(t.segments)))
  }

  /** When sorted segments do not overlap, the gaps and the sizes together span
      from the first base to the end of the last segment. */
  lemma {:induction false} GapsSpanTheTable(s: seq<Segment>)
    requires |s| > 0
    requires forall i :: 0 <= i < |s| - 1 ==> s[i].base + s[i].limit <= s[i + 1].base
    ensures ExternalGaps(s) + SumLimits(s) == s[|s| - 1].base + s[|s| - 1].limit - s[0].base
  {
    if |s| > 1 {
      GapsSpanTheTable(s[1..]);
    }
  }

  /** Segments that overlap or abut pairwise contribute no external fragmentation. */
  lemma {:induction false} TouchingSegmentsHaveNoGaps(s: seq<Segment>)
    requires forall i :: 0 <= i < |s| - 1 ==> s[i + 1].base <= s[i].base + s[i].limit
    ensures ExternalGaps(s) == 0
  {
    if |s| >= 2 {
      TouchingSegmentsHaveNoGaps(s[1..]);
    }
  }

  /** Consecutive auto-placements: each base is the previous base plus its size plus the gap. */
  ghost predicate AutoPlaced(s: seq<Segment>)
  {
    forall i :: 0 <= i < |s| - 1 ==> s[i + 1].base == s[i].base + s[i].limit + PlacementGap
  }

  /** Auto-placed segments of non-negative size never overlap: every earlier
      segment ends at least a gap below every later base. */
  lemma {:induction false} AutoPlacedDisjoint(s: seq<Segment>)
    requires AutoPlaced(s)
    requires forall i :: 0 <= i < |s| ==> s[i].limit >= 0
    ensures forall i, j :: 0 <= i < j < |s| ==> s[i].base + s[i].limit + PlacementGap <= s[j].base
  {
    if |s| > 1 {
      AutoPlacedDisjoint(s[1..]);
      forall i, j | 0 <= i < j < |s|
        ensures s[i].base + s[i].limit + PlacementGap <= s[j].base
      {
        if i > 0 {
          assert s[1..][i - 1] == s[i] && s[1..][j - 1] == s[j];
        } else if j > 1 {
          assert s[1..][0] == s[1] && s[1..][j - 1] == s[j];
        }
      }
    }
  }

  /** Inserting a segment whose base is the largest appends it. */
  lemma {:induction false} InsertLargestAppends(t: seq<Segment>, x: Segment)
    requires forall i :: 0 <= i < |t| ==> t[i].base <= x.base
    ensures InsertByBase(t, x) == t + [x]
  {
    if |t| > 0 {
      InsertLargestAppends(t[1..], x);
      assert t == [t[0]] + t[1..];
    }
  }

  /** The stable sort leaves an already sorted list as it is. */
  lemma {:induction false} SortKeepsSorted(s: seq<Segment>)
    requires SortedByBase(s)
    ensures SortByBase(s) == s
  {
    if |s| > 0 {
      var init := s[..|s| - 1];
      SortKeepsSorted(init);
      InsertLargestAppends(init, s[|s| - 1]);
      assert init + [s[|s| - 1]] == s;
    }
  }

  /** A table filled by n consecutive auto-placements of non-negative sizes has
      exactly n - 1 gaps of 0x100 bytes of external fragmentation. */
  lemma {:induction false} AutoPlacedFragmentation(s: seq<Segment>)
    requires |s| > 0 && AutoPlaced(s)
    requires forall i :: 0 <= i < |s| ==> s[i].limit >= 0
    ensures ExternalGaps(SortByBase(s)) == PlacementGap * (|s| - 1)
  {
    AutoPlacedDisjoint(s);
    SortKeepsSorted(s);
    AutoPlacedGaps(s);
  }

  lemma {:induction false} AutoPlacedGaps(s: seq<Segment>)
    requires |s| > 0 && AutoPlaced(s)
    requires forall i :: 0 <= i < |s| ==> s[i].limit >= 0
    ensures ExternalGaps(s) == PlacementGap * (|s| - 1)
  {
    if |s| > 1 {
      AutoPlacedGaps(s[1..]);
    }
  }

  /** The integer fields of `get_statistics`. */
  datatype SegmentationStats = SegmentationStats(totalProcesses: nat, accessAttempts: nat,
                                                 accessSuccesses: nat, boundsViolations: nat)

  class SegmentationEngine {
    var segmentTables: map<int, SegmentTable>
    var nextBaseAddress: int
    var accessAttempts: nat
    var accessSuccesses: nat
    var boundsViolations: nat

    /** Each table is filed under its own process with unique segment ids, and
        every success or violation was counted as an attempt. */
    ghost predicate Valid()
      reads this
    {
      && (forall pid :: pid in segmentTables ==> segmentTables[pid].processId == pid && segmentTables[pid].Valid())
      && accessSuccesses + boundsViolations <= accessAttempts
    }

    constructor ()
      ensures Valid()
      ensures segmentTables == map[] && nextBaseAddress == InitialBase
      ensures accessAttempts == 0 && accessSuccesses == 0 && boundsViolations == 0
    {
      segmentTables := map[];
      nextBaseAddress := InitialBase;
      accessAttempts := 0;
      accessSuccesses := 0;
      boundsViolations := 0;
    }

    /** `create_process`: fails on an existing process. */
    method CreateProcess(pid: int) returns (ok: bool)
      requires Valid()
      modifies this
      ensures Valid()
      ensures ok <==> pid !in old(segmentTables)
      ensures ok ==> segmentTables == old(segmentTables)[pid := SegmentTable(pid, [])]
      ensures !ok ==> segmentTables == old(segmentTables)
      ensures nextBaseAddress == old(nextBaseAddress)
      ensures accessAttempts == old(accessAttempts) && accessSuccesses == old(accessSuccesses)
      ensures boundsViolations == old(boundsViolations)
    {
      if pid in segmentTables {
        return false;
      }
      segmentTables := segmentTables[pid := SegmentTable(pid, [])];
      return true;
    }

    /** `remove_process`: fails on an absent process. */
    method RemoveProcess(pid: int) returns (ok: bool)
      requires Valid()
      modifies this
      ensures Valid()
      ensures ok <==> pid in old(segmentTables)
      ensures segmentTables == old(segmentTables) - {pid}
      ensures nextBaseAddress == old(nextBaseAddress)
      ensures accessAttempts == old(accessAttempts) && accessSuccesses == old(accessSuccesses)
      ensures boundsViolations == old(boundsViolations)
    {
      if pid !in segmentTables {
        return false;
      }
      segmentTables := segmentTables - {pid};
      return true;
    }

    /** `add_segment`: without a base, the segment goes at the cursor and the
        cursor moves past it plus the gap; the cursor is shared by all processes. */
    method AddSegment(pid: int, segmentId: int, name: string, size: int, base: Option<int>) returns (ok: bool)
      requires Valid()
      modifies this
      ensures Valid()
      ensures ok <==> pid in old(segmentTables)
      ensures !ok ==> segmentTables == old(segmentTables) && nextBaseAddress == old(nextBaseAddress)
      ensures ok ==> var placed := base.GetOr(old(nextBaseAddress));
        segmentTables == old(segmentTables)[pid := old(segmentTables)[pid].AddSegment(segmentId, name, placed, size).0]
      ensures ok && base.None? ==> nextBaseAddress == old(nextBaseAddress) + size + PlacementGap
      ensures ok && base.Some? ==> nextBaseAddress == old(nextBaseAddress)
      ensures accessAttempts == old(accessAttempts) && accessSuccesses == old(accessSuccesses)
      ensures boundsViolations == old(boundsViolations)
    {
      if pid !in segmentTables {
        return false;
      }
      var table := segmentTables[pid];
      var placed: int;
      if base.None? {
        placed := nextBaseAddress;
        nextBaseAddress := nextBaseAddress + size + PlacementGap;
      } else {
        placed := base.value;
      }
      var (table', _) := table.AddSegment(segmentId, name, placed, size);
      segmentTables := segmentTables[pid := table'];
      return true;
    }

    /** `translate_address`: every call is an attempt; a valid result is a
        success, a refusal by the table a violation, an unknown process neither. */
    method TranslateAddress(pid: int, segmentId: int, offset: int) returns (r: SegmentResult)
      requires Valid()
      modifies this
      ensures Valid()
      ensures pid !in segmentTables ==> r == SegmentResult(None, false, Some(ProcessDoesNotExist))
      ensures pid in segmentTables ==> r == segmentTables[pid].TranslateAddress(segmentId, offset)
      ensures accessAttempts == old(accessAttempts) + 1
      ensures accessSuccesses == old(accessSuccesses) + (if r.valid then 1 else 0)
      ensures boundsViolations == old(boundsViolations) + (if pid in segmentTables && !r.valid then 1 else 0)
      ensures segmentTables == old(segmentTables) && nextBaseAddress == old(nextBaseAddress)
    {
      accessAttempts := accessAttempts + 1;
      if pid !in segmentTables {
        return SegmentResult(None, false, Some(ProcessDoesNotExist));
      }
      r := segmentTables[pid].TranslateAddress(segmentId, offset);
      if r.valid {
        accessSuccesses := accessSuccesses + 1;
      } else {
        boundsViolations := boundsViolations + 1;
      }
    }

    /** `calculate_fragmentation` (byte fields). */
    function CalculateFragmentation(pid: int): (r: Fragmentation)
      reads this
      ensures pid !in segmentTables ==> r.NoSegments?
      ensures pid in segmentTables ==> r == TableFragmentation(segmentTables[pid])
    {
      if pid !in segmentTables then NoSegments else TableFragmentation(segmentTables[pid])
    }

    /** The integer fields of `get_statistics`. */
    function Statistics(): (r: SegmentationStats)
      requires Valid()
      reads this
      ensures r.accessSuccesses + r.boundsViolations <= r.accessAttempts
      ensures r.totalProcesses == |segmentTables|
    {
      SegmentationStats(|segmentTables|, accessAttempts, accessSuccesses, boundsViolations)
    }

    /** `reset`: the initial state. */
    method Reset()
      modifies this
      ensures Valid()
      ensures segmentTables == map[] && nextBaseAddress == InitialBase
      ensures accessAttempts == 0 && accessSuccesses == 0 && boundsViolations == 0
    {
      segmentTables := map[];
      nextBaseAddress := InitialBase;
      accessAttempts := 0;
      accessSuccesses := 0;
      boundsViolations := 0;
    }
  }
}
