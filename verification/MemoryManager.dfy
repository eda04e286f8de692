/** The bounded memory map, filled in order. */
module MemoryMap {
  import opened Machine
  import opened Errors
  import opened MemoryModel
  import T = MemoryTheory

  class MemoryMap {
    const regions: array<MemoryRegion>
    var len: nat
    /** The active regions. */
    ghost var active: seq<Region>

    ghost predicate Valid()
      reads this, regions
    {
      && regions.Length == MAX_MEMORY_REGIONS
      && len == |active| <= MAX_MEMORY_REGIONS
      && (forall i | 0 <= i < |active| :: regions[i] == active[i])
      && Disjoint(active)
    }

    constructor ()
      ensures Valid() && fresh(regions)
      ensures active == []
    {
      regions := new MemoryRegion[MAX_MEMORY_REGIONS](_ => EMPTY_REGION);
      len, active := 0, [];
    }

    /** Adds a region unless it overlaps one present or the map is full. */
    method PushRegion(region: Region) returns (r: Result<()>)
      requires Valid()
      modifies this, regions
      ensures Valid()
      ensures (active, r) == Push(old(active), region)
    {
      T.PushIsExact(active, region);
      if len == MAX_MEMORY_REGIONS { return Failure(CapacityExceeded); }
      for i := 0 to len
        invariant forall j | 0 <= j < i :: !active[j].Overlaps(region)
      {
        var existing: Region := regions[i];
        if existing.Overlaps(region) { return Failure(Overlap); }
      }
      regions[len] := region;
      len := len + 1;
      active := active + [region];
      return Success(());
    }

    /** The first active region that contains the range. */
    method Find(start: u64, rangeLen: u64) returns (found: Option<Region>)
      requires Valid()
      ensures found == FindContaining(active, start, rangeLen)
    {
      for i := 0 to len
        invariant FindContaining(active, start, rangeLen) == FindContaining(active[i..], start, rangeLen)
      {
        var region: Region := regions[i];
        if region.ContainsRange(start, rangeLen) { return Some(region); }
        assert active[i..][1..] == active[i + 1..];
      }
      return None;
    }

    /** Adds up the lengths of the regions of a kind; no partial sum overflows. */
    method Total(kind: MemoryRegionKind) returns (total: u64)
      requires Valid()
      ensures total == TotalByKind(active, kind)
      ensures total == |T.Covered(active, kind)|
    {
      total := 0;
      for i := 0 to len
        invariant total == TotalByKind(active[..i], kind)
      {
        assert active[..i + 1][..i] == active[..i];
        T.TotalCountsAddresses(active[..i + 1], kind);
        if regions[i].kind == kind {
          total := total + regions[i].len;
        }
      }
      assert active[..len] == active;
      T.TotalCountsAddresses(active, kind);
    }
  }
}

/** The memory manager: the map, the userspace limits and the shared-region table. */
module MemoryManager {
  import opened Machine
  import opened Errors
  import opened Capabilities
  import opened MemoryModel
  import T = MemoryTheory
  import Map = MemoryMap

  /** The used shared slots are the first ones, and hold these regions. */
  ghost predicate Lists(slots: seq<SharedRegion>, shared: seq<SharedRegion>) {
    && |shared| <= |slots|
    && (forall i | 0 <= i < |shared| :: slots[i] == shared[i] && shared[i].handle.id == i + 1)
    && (forall i | |shared| <= i < |slots| :: slots[i].handle.id == 0)
  }

  class MemoryManager {
    const memoryMap: Map.MemoryMap
    var allocatorPhase: AllocatorPhase
    var userLowerBound: u64
    var userUpperBound: u64
    var maxUserBufferLen: u64
    var minimumUserAlignment: u64
    const sharedRegions: array<SharedRegion>
    var nextSharedId: u64
    /** The shared regions registered so far, in slot order. */
    ghost var shared: seq<SharedRegion>

    function Limits(): UserLimits
      reads this
    {
      UserLimits(userLowerBound, userUpperBound, maxUserBufferLen, minimumUserAlignment)
    }

    ghost function View(): Memory
      reads this, memoryMap
    {
      Memory(memoryMap.active, allocatorPhase, Limits(), shared)
    }

    ghost function Repr(): set<object> {
      {this, memoryMap, memoryMap.regions, sharedRegions}
    }

    ghost predicate Valid()
      reads this, memoryMap, memoryMap.regions, sharedRegions
    {
      && memoryMap.Valid()
      && Wf(View())
      && sharedRegions.Length == MAX_SHARED_REGIONS
      && Lists(sharedRegions[..], shared)
      && nextSharedId == |shared| + 1
    }

    constructor ()
      ensures Valid() && fresh(Repr())
      ensures View() == INITIAL
    {
      memoryMap := new Map.MemoryMap();
      allocatorPhase := Uninitialized;
      userLowerBound, userUpperBound := DEFAULT_LIMITS.lower, DEFAULT_LIMITS.upper;
      maxUserBufferLen, minimumUserAlignment := DEFAULT_LIMITS.maxLen, DEFAULT_LIMITS.alignment;
      sharedRegions := new SharedRegion[MAX_SHARED_REGIONS](_ => EMPTY_SHARED);
      nextSharedId, shared := 1, [];
      new;
      T.InitialIsWf();
    }

    method AddRegion(region: Region) returns (r: Result<()>)
      requires Valid()
      modifies memoryMap, memoryMap.regions
      ensures Valid()
      ensures View() == T.Step(old(View()), T.OpPush(region)) && r == Push(old(View()).regions, region).1
    {
      r := memoryMap.PushRegion(region);
    }

    method SetAllocatorPhase(phase: AllocatorPhase) returns (r: Result<()>)
      requires Valid()
      modifies `allocatorPhase
      ensures Valid()
      ensures View() == T.Step(old(View()), T.OpSetPhase(phase))
      ensures r.Success? <==> PhaseFollows(old(allocatorPhase), phase)
    {
      if !PhaseFollows(allocatorPhase, phase) { return Failure(InvalidState); }
      allocatorPhase := phase;
      return Success(());
    }

    method SetBounds(lower: u64, upper: u64) returns (r: Result<()>)
      requires Valid()
      modifies `userLowerBound, `userUpperBound
      ensures Valid()
      ensures View() == T.Step(old(View()), T.OpSetUserBounds(lower, upper))
      ensures r.Success? <==> 1 <= lower < upper
    {
      T.SettersKeepLimits(Limits(), lower, upper);
      if lower == 0 || lower >= upper { return Failure(InvalidArgument); }
      userLowerBound, userUpperBound := lower, upper;
      return Success(());
    }

    method SetMaxBufferLen(maxLen: u64) returns (r: Result<()>)
      requires Valid()
      modifies `maxUserBufferLen
      ensures Valid()
      ensures View() == T.Step(old(View()), T.OpSetMaxLen(maxLen))
      ensures r.Success? <==> maxLen >= 1
    {
      T.SettersKeepLimits(Limits(), maxLen, 0);
      if maxLen == 0 { return Failure(InvalidArgument); }
      maxUserBufferLen := maxLen;
      return Success(());
    }

    method SetMinimumAlignment(alignment: u64) returns (r: Result<()>)
      requires Valid()
      modifies `minimumUserAlignment
      ensures Valid()
      ensures View() == T.Step(old(View()), T.OpSetAlignment(alignment))
      ensures r.Success? <==> SetAlignment(old(Limits()), alignment).Success?
    {
      T.SettersKeepLimits(Limits(), alignment, 0);
      if alignment == 0 || !IsPowerOfTwo(alignment) { return Failure(InvalidArgument); }
      minimumUserAlignment := alignment;
      return Success(());
    }

    /** The first unused slot. */
    method FindUnused() returns (slot: Option<nat>)
      requires Valid()
      ensures slot == if |shared| < MAX_SHARED_REGIONS then Some(|shared|) else None
    {
      for i := 0 to sharedRegions.Length
        invariant i <= |shared|
      {
        if sharedRegions[i].handle.id == 0 { return Some(i); }
      }
      return None;
    }

    /** The first used slot whose handle has this id. */
    method FindShared(id: u64) returns (slot: Option<nat>)
      requires Valid()
      ensures slot == if 1 <= id <= |shared| then Some(id - 1) else None
    {
      for i := 0 to sharedRegions.Length
        invariant 1 <= id <= |shared| ==> i < id
      {
        if sharedRegions[i].handle.id == id && sharedRegions[i].handle.id != 0 { return Some(i); }
      }
      return None;
    }

    method ShareRegion(owner: TaskId, start: u64, len: u64, permissions: MemoryPermissions)
      returns (r: Result<SharedMemoryHandle>)
      requires Valid()
      modifies this, sharedRegions
      ensures Valid()
      ensures View() == T.Step(old(View()), T.OpShare(owner, start, len, permissions))
      ensures r == Share(old(Limits()), old(shared), owner, start, len, permissions).1
    {
      T.ShareKeepsOk(Limits(), shared, owner, start, len, permissions);
      var range := ValidateRange(Limits(), start, len);
      if range.Failure? { return Failure(range.error); }
      if permissions.Contains(SEALED) { return Failure(Sealed); }
      var slot := FindUnused();
      if slot.None? { return Failure(CapacityExceeded); }
      var handle := SharedMemoryHandle(nextSharedId, owner, permissions.bits);
      // At most 32 ids are ever given out, so the checked addition has no error case.
      nextSharedId := nextSharedId + 1;
      var region := SharedRegion(handle, start, len, false);
      sharedRegions[slot.value] := region;
      shared := shared + [region];
      return Success(handle);
    }

    method SealRegion(handle: SharedMemoryHandle) returns (r: Result<()>)
      requires Valid()
      modifies `shared, sharedRegions
      ensures Valid()
      ensures View() == T.Step(old(View()), T.OpSeal(handle))
      ensures r == SealShared(old(shared), handle).1
    {
      ghost var next := T.Step(View(), T.OpSeal(handle));
      var slot := FindShared(handle.id);
      if slot.None? { return Failure(NotFound); }
      var region := sharedRegions[slot.value].Seal();
      sharedRegions[slot.value] := region;
      shared := shared[slot.value := region];
      assert View() == next;
      return Success(());
    }

    method LookupRegion(handle: SharedMemoryHandle) returns (r: Result<SharedRegion>)
      requires Valid()
      ensures r == LookupShared(shared, handle)
    {
      var slot := FindShared(handle.id);
      match slot
      case None => return Failure(NotFound);
      case Some(i) => return Success(sharedRegions[i]);
    }
  }
}
