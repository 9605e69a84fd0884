/** Frame allocation strategies: first fit, best fit and next fit. Each scans
    the frame array, allocates the chosen frame in place, and reports its id. */
module Allocator {
  import opened Common
  import opened Physical

  datatype AllocationStrategy = FirstFit | BestFit | NextFit

  /** The lowest index in [lo, hi) whose frame fits the request. */
  function FirstFitIn(s: seq<Frame>, request: int, lo: nat, hi: nat): (r: Option<nat>)
    requires lo <= hi <= |s|
    decreases hi - lo
    ensures r.Some? ==> lo <= r.value < hi && s[r.value].Fits(request)
    ensures r.Some? ==> forall j :: lo <= j < r.value ==> !s[j].Fits(request)
    ensures r.None? <==> forall j :: lo <= j < hi ==> !s[j].Fits(request)
  {
    if lo == hi then None
    else if s[lo].Fits(request) then Some(lo)
    else FirstFitIn(s, request, lo + 1, hi)
  }

  /** Bytes left unused when `f` holds the request. */
  function Waste(f: Frame, request: int): int
  {
    f.size - request
  }

  /** The choice of the best-fit loop after it has scanned s[..k]: a fitting
      frame of least waste, the earliest one among equals. */
  function BestFitUpTo(s: seq<Frame>, request: int, k: nat): (r: Option<nat>)
    requires k <= |s|
    ensures r.Some? ==> r.value < k && s[r.value].Fits(request)
    ensures r.Some? ==> forall j :: 0 <= j < k && s[j].Fits(request) ==>
                          Waste(s[r.value], request) <= Waste(s[j], request)
    ensures r.Some? ==> forall j :: 0 <= j < r.value && s[j].Fits(request) ==>
                          Waste(s[r.value], request) < Waste(s[j], request)
    ensures r.None? <==> forall j :: 0 <= j < k ==> !s[j].Fits(request)
  {
    if k == 0 then None
    else
      var best := BestFitUpTo(s, request, k - 1);
      if s[k - 1].Fits(request) && (best.None? || Waste(s[k - 1], request) < Waste(s[best.value], request))
      then Some(k - 1)
      else best
  }

  /** Next fit: the first fitting frame scanning from the cursor to the end,
      then from the start up to the cursor. */
  function NextFitFrom(s: seq<Frame>, request: int, cursor: nat): (r: Option<nat>)
    requires cursor <= |s|
    ensures r.Some? ==> r.value < |s| && s[r.value].Fits(request)
    ensures r.None? <==> forall j :: 0 <= j < |s| ==> !s[j].Fits(request)
  {
    match FirstFitIn(s, request, cursor, |s|)
    case Some(i) => Some(i)
    case None => FirstFitIn(s, request, 0, cursor)
  }

  /** The frame index each strategy picks. */
  function Choice(strategy: AllocationStrategy, s: seq<Frame>, request: int, cursor: nat): Option<nat>
    requires cursor <= |s|
  {
    match strategy
    case FirstFit => FirstFitIn(s, request, 0, |s|)
    case BestFit => BestFitUpTo(s, request, |s|)
    case NextFit => NextFitFrom(s, request, cursor)
  }

  /** The frames after the chosen one (if any) has been allocated. */
  function AllocatedAt(s: seq<Frame>, r: Option<nat>, pid: int, page: int, request: int): seq<Frame>
    requires r.Some? ==> r.value < |s|
  {
    if r.Some? then s[r.value := s[r.value].Allocate(pid, page, request).0] else s
  }

  /** Whether `j` comes strictly before `i` when scanning from `cursor` and wrapping around. */
  predicate RotatedBefore(n: nat, cursor: nat, j: nat, i: nat)
  {
    if cursor <= i then cursor <= j < i
    else cursor <= j < n || j < i
  }

  /** Next fit picks the first fitting frame in the rotated order. */
  lemma NextFitIsFirstInRotation(s: seq<Frame>, request: int, cursor: nat)
    requires cursor <= |s|
    ensures var r := NextFitFrom(s, request, cursor);
      r.Some? ==> r.value < |s| && s[r.value].Fits(request) &&
                  forall j :: 0 <= j < |s| && RotatedBefore(|s|, cursor, j, r.value) ==> !s[j].Fits(request)
  {
  }

  /** Every strategy succeeds exactly when some frame is free and large enough;
      a chosen frame always fits. */
  lemma ChoiceSucceedsIffSomeFrameFits(strategy: AllocationStrategy, s: seq<Frame>, request: int, cursor: nat)
    requires cursor <= |s|
    ensures var r := Choice(strategy, s, request, cursor);
      (r.Some? <==> exists j :: 0 <= j < |s| && s[j].Fits(request)) &&
      (r.Some? ==> r.value < |s| && s[r.value].Fits(request))
  {
    var r := Choice(strategy, s, request, cursor);
    if r.None? && strategy == NextFit {
      forall j | 0 <= j < |s| ensures !s[j].Fits(request) {
        if j < cursor {
          assert FirstFitIn(s, request, 0, cursor).None?;
        } else {
          assert FirstFitIn(s, request, cursor, |s|).None?;
        }
      }
    }
  }

  /** Allocation changes at most the chosen frame, and makes it owned by the requester. */
  lemma AllocatedAtChangesOnlyChoice(s: seq<Frame>, r: Option<nat>, pid: int, page: int, request: int)
    requires r.Some? ==> r.value < |s| && s[r.value].Fits(request)
    ensures |AllocatedAt(s, r, pid, page, request)| == |s|
    ensures forall j :: 0 <= j < |s| && (r.None? || j != r.value) ==> AllocatedAt(s, r, pid, page, request)[j] == s[j]
    ensures r.Some? ==> AllocatedAt(s, r, pid, page, request)[r.value].OwnedBy(pid, page)
  {
  }

  class MemoryAllocator {
    var strategy: AllocationStrategy
    var nextFitStart: nat

    constructor (strategy: AllocationStrategy)
      ensures this.strategy == strategy && nextFitStart == 0
    {
      this.strategy := strategy;
      nextFitStart := 0;
    }

    /** `allocate`: dispatch on the configured strategy. The wrap-around scan of
        next fit reads frames below the cursor, so the cursor must be in range. */
    method Allocate(frames: array<Frame>, pid: int, page: int, request: int) returns (r: Option<nat>)
      requires nextFitStart <= frames.Length
      requires forall i :: 0 <= i < frames.Length ==> frames[i].frameId == i
      modifies this, frames
      ensures r == Choice(old(strategy), old(frames[..]), request, old(nextFitStart))
      ensures r.Some? ==> r.value < frames.Length
      ensures r.Some? ==> frames[r.value].frameId == r.value
      ensures frames[..] == AllocatedAt(old(frames[..]), r, pid, page, request)
      ensures strategy == old(strategy)
      ensures nextFitStart == if strategy == NextFit && r.Some? then (r.value + 1) % frames.Length
                              else old(nextFitStart)
    {
      match strategy
      case FirstFit => r := AllocateFirstFit(frames, pid, page, request);
      case BestFit => r := AllocateBestFit(frames, pid, page, request);
      case NextFit => r := AllocateNextFit(frames, pid, page, request);
    }

    /** `_first_fit`. */
    method AllocateFirstFit(frames: array<Frame>, pid: int, page: int, request: int) returns (r: Option<nat>)
      requires forall i :: 0 <= i < frames.Length ==> frames[i].frameId == i
      modifies frames
      ensures r == FirstFitIn(old(frames[..]), request, 0, frames.Length)
      ensures r.Some? ==> r.value < frames.Length
      ensures r.Some? ==> frames[r.value].frameId == r.value
      ensures frames[..] == AllocatedAt(old(frames[..]), r, pid, page, request)
    {
      for i := 0 to frames.Length
        invariant frames[..] == old(frames[..])
        invariant forall j :: 0 <= j < i ==> !frames[j].Fits(request)
      {
        if frames[i].status == Free && request <= frames[i].size {
          var (f, ok) := frames[i].Allocate(pid, page, request);
          if ok {
            frames[i] := f;
            return Some(i);
          }
        }
      }
      return None;
    }

    /** `_best_fit`: `best` is None exactly while the running best waste is infinite. */
    method AllocateBestFit(frames: array<Frame>, pid: int, page: int, request: int) returns (r: Option<nat>)
      requires forall i :: 0 <= i < frames.Length ==> frames[i].frameId == i
      modifies frames
      ensures r == BestFitUpTo(old(frames[..]), request, frames.Length)
      ensures r.Some? ==> r.value < frames.Length
      ensures r.Some? ==> frames[r.value].frameId == r.value
      ensures frames[..] == AllocatedAt(old(frames[..]), r, pid, page, request)
    {
      var best: Option<nat> := None;
      var bestWaste := 0;
      for i := 0 to frames.Length
        invariant best == BestFitUpTo(frames[..], request, i)
        invariant best.Some? ==> bestWaste == Waste(frames[best.value], request)
      {
        if frames[i].status == Free && request <= frames[i].size {
          var waste := frames[i].size - request;
          if best.None? || waste < bestWaste {
            bestWaste := waste;
            best := Some(i);
          }
        }
      }
      r := None;
      if best.Some? {
        var (f, ok) := frames[best.value].Allocate(pid, page, request);
        if ok {
          frames[best.value] := f;
          r := best;
        }
      }
    }

    /** `_next_fit`: scan [cursor, n), then [0, cursor); move the cursor past the chosen frame. */
    method AllocateNextFit(frames: array<Frame>, pid: int, page: int, request: int) returns (r: Option<nat>)
      requires nextFitStart <= frames.Length
      requires forall i :: 0 <= i < frames.Length ==> frames[i].frameId == i
      modifies this, frames
      ensures r == NextFitFrom(old(frames[..]), request, old(nextFitStart))
      ensures r.Some? ==> r.value < frames.Length
      ensures r.Some? ==> frames[r.value].frameId == r.value
      ensures frames[..] == AllocatedAt(old(frames[..]), r, pid, page, request)
      ensures strategy == old(strategy)
      ensures nextFitStart == if r.Some? then (r.value + 1) % frames.Length else old(nextFitStart)
    {
      for i := nextFitStart to frames.Length
        invariant frames[..] == old(frames[..])
        invariant forall j :: old(nextFitStart) <= j < i ==> !frames[j].Fits(request)
      {
        if frames[i].status == Free && request <= frames[i].size {
          var (f, ok) := frames[i].Allocate(pid, page, request);
          if ok {
            frames[i] := f;
            nextFitStart := (i + 1) % frames.Length;
            return Some(i);
          }
        }
      }
      for i := 0 to nextFitStart
        invariant frames[..] == old(frames[..])
        invariant forall j :: 0 <= j < i ==> !frames[j].Fits(request)
      {
        if frames[i].status == Free && request <= frames[i].size {
          var (f, ok) := frames[i].Allocate(pid, page, request);
          if ok {
            frames[i] := f;
            nextFitStart := (i + 1) % frames.Length;
            return Some(i);
          }
        }
      }
      return None;
    }

    /** `deallocate`: an id outside the pool is refused without effect. */
    method Deallocate(frames: array<Frame>, frameId: int) returns (ok: bool)
      modifies frames
      ensures ok <==> 0 <= frameId < frames.Length && old(frames[frameId]).status == Allocated
      ensures frames[..] == if 0 <= frameId < frames.Length
                            then old(frames[..])[frameId := old(frames[frameId]).Deallocate().0]
                            else old(frames[..])
    {
      if 0 <= frameId < frames.Length {
        var (f, released) := frames[frameId].Deallocate();
        frames[frameId] := f;
        ok := released;
      } else {
        ok := false;
      }
    }

    /** `set_strategy`: only a switch to next fit rewinds the cursor. */
    method SetStrategy(s: AllocationStrategy)
      modifies this
      ensures strategy == s
      ensures nextFitStart == if s == NextFit then 0 else old(nextFitStart)
    {
      strategy := s;
      if s == NextFit {
        nextFitStart := 0;
      }
    }
  }
}
