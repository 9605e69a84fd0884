/** Physical memory of the paging simulator: a fixed array of frames, each FREE
    or ALLOCATED to one (process, page). */
module Physical {
  import opened Common

  datatype FrameStatus = Free | Allocated

  /** One frame of `size` bytes. The owner fields are set exactly while the
      frame is allocated. */
  datatype Frame = Frame(frameId: int, size: int, status: FrameStatus,
                         processId: Option<int>, pageId: Option<int>, allocatedSize: int)
  {
    /** The consistency rule that allocation and release keep. */
    predicate Valid()
    {
      && (status == Allocated <==> processId.Some?)
      && (status == Allocated <==> pageId.Some?)
      && (status == Free ==> allocatedSize == 0)
      && (status == Allocated ==> allocatedSize <= size)
    }

    predicate OwnedBy(pid: int, page: int)
    {
      status == Allocated && processId == Some(pid) && pageId == Some(page)
    }

    /** The test every allocation strategy applies to a candidate frame. */
    predicate Fits(request: int)
    {
      status == Free && request <= size
    }

    /** `Frame.allocate`: the new frame and whether the allocation happened. */
    function Allocate(pid: int, page: int, request: int): (r: (Frame, bool))
      ensures r.1 <==> Fits(request)
      ensures r.1 ==> r.0.OwnedBy(pid, page) && r.0.allocatedSize == request
      ensures r.1 ==> r.0.frameId == frameId && r.0.size == size
      ensures !r.1 ==> r.0 == this
      ensures Valid() ==> r.0.Valid()
    {
      if Fits(request) then
        (this.(status := Allocated, processId := Some(pid), pageId := Some(page),
               allocatedSize := Min(request, size)), true)
      else
        (this, false)
    }

    /** `Frame.deallocate`: the new frame and whether it was allocated before. */
    function Deallocate(): (r: (Frame, bool))
      ensures r.1 <==> status == Allocated
      ensures r.1 ==> r.0 == NewFrame(frameId, size)
      ensures !r.1 ==> r.0 == this
      ensures Valid() ==> r.0.Valid()
    {
      if status == Allocated then
        (this.(status := Free, processId := None, pageId := None, allocatedSize := 0), true)
      else
        (this, false)
    }
  }

  /** A frame as the constructor `Frame(frame_id, size)` creates it. */
  function NewFrame(frameId: int, size: int): (f: Frame)
    ensures f.Valid() && f.status == Free && f.frameId == frameId && f.size == size
  {
    Frame(frameId, size, Free, None, None, 0)
  }

  /** Releasing a frame that was just allocated gives back the free frame. */
  lemma AllocateThenDeallocate(f: Frame, pid: int, page: int, request: int)
    requires f.Valid() && f.Fits(request)
    ensures f.Allocate(pid, page, request).0.Deallocate() == (f, true)
  {
  }

  /** Every frame is valid, sits at the index equal to its id, and has the pool's frame size. */
  ghost predicate WellFormed(s: seq<Frame>, frameSize: int)
  {
    forall i :: 0 <= i < |s| ==> s[i].frameId == i && s[i].size == frameSize && s[i].Valid()
  }

  /** The frames of `s` in `s`'s order whose status is `st` (the list
      comprehensions of `get_free_frames` and `get_allocated_frames`). */
  function WithStatus(s: seq<Frame>, st: FrameStatus): (r: seq<Frame>)
    ensures |r| <= |s|
    ensures forall f :: f in r <==> f in s && f.status == st
  {
    if s == [] then []
    else if s[0].status == st then [s[0]] + WithStatus(s[1..], st)
    else WithStatus(s[1..], st)
  }

  /** Every frame is either free or allocated, so the two lists partition the pool. */
  lemma {:induction false} FreeAndAllocatedPartition(s: seq<Frame>)
    ensures |WithStatus(s, Free)| + |WithStatus(s, Allocated)| == |s|
  {
    if s != [] {
      FreeAndAllocatedPartition(s[1..]);
    }
  }

  /** The integer fields of `get_frame_status`. */
  datatype MemoryStatus = MemoryStatus(totalFrames: int, freeFrames: int, allocatedFrames: int,
                                       totalSize: int, usedSize: int, freeSize: int)

  class PhysicalMemory {
    const numFrames: int
    const frameSize: int
    const frames: array<Frame>

    ghost predicate Valid()
      reads this, frames
    {
      && frames.Length == (if numFrames < 0 then 0 else numFrames)
      && WellFormed(frames[..], frameSize)
    }

    /** `range(num_frames)` yields no frame for a negative count. */
    constructor (numFrames: int, frameSize: int)
      ensures Valid() && fresh(frames)
      ensures this.numFrames == numFrames && this.frameSize == frameSize
      ensures forall i :: 0 <= i < frames.Length ==> frames[i] == NewFrame(i, frameSize)
    {
      this.numFrames := numFrames;
      this.frameSize := frameSize;
      frames := new Frame[if numFrames < 0 then 0 else numFrames](i => NewFrame(i, frameSize));
    }

    function GetFrame(frameId: int): (r: Option<Frame>)
      reads this, frames
      ensures r.Some? <==> 0 <= frameId < frames.Length
      ensures r.Some? ==> r.value == frames[frameId]
    {
      if 0 <= frameId < frames.Length then Some(frames[frameId]) else None
    }

    function GetFreeFrames(): (r: seq<Frame>)
      reads this, frames
      ensures forall f :: f in r <==> f in frames[..] && f.status == Free
      ensures |r| <= frames.Length
    {
      WithStatus(frames[..], Free)
    }

    function GetAllocatedFrames(): (r: seq<Frame>)
      reads this, frames
      ensures forall f :: f in r <==> f in frames[..] && f.status == Allocated
      ensures |r| <= frames.Length
    {
      WithStatus(frames[..], Allocated)
    }

    /** `get_frame_status`, without the utilisation percentage. */
    function GetFrameStatus(): (r: MemoryStatus)
      reads this, frames
      requires Valid()
      ensures r.freeFrames + r.allocatedFrames == frames.Length
      ensures numFrames >= 0 ==> r.freeFrames + r.allocatedFrames == r.totalFrames
      ensures numFrames >= 0 ==> r.freeSize == r.freeFrames * frameSize
    {
      FreeAndAllocatedPartition(frames[..]);
      var freeCount := |GetFreeFrames()|;
      var allocatedCount := |GetAllocatedFrames()|;
      var total := numFrames * frameSize;
      var used := allocatedCount * frameSize;
      assert numFrames >= 0 ==> total - used == (numFrames - allocatedCount) * frameSize;
      MemoryStatus(numFrames, freeCount, allocatedCount, total, used, total - used)
    }

    /** `reset`: release every frame, one at a time. */
    method Reset()
      requires Valid()
      modifies frames
      ensures Valid()
      ensures forall i :: 0 <= i < frames.Length ==> frames[i] == NewFrame(i, frameSize)
    {
      for i := 0 to frames.Length
        invariant forall j :: 0 <= j < i ==> frames[j] == NewFrame(j, frameSize)
        invariant forall j :: i <= j < frames.Length ==> frames[j] == old(frames[j])
      {
        frames[i] := frames[i].Deallocate().0;
      }
    }
  }
}
