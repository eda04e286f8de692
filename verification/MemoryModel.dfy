/** Memory regions and their map, userspace range limits, and sealable shared regions, as values. */
module MemoryModel {
  import opened Machine
  import opened Errors
  import opened Bits
  import opened Capabilities

  const MAX_MEMORY_REGIONS := 64
  const MAX_SHARED_REGIONS := 32

  datatype MemoryRegionKind =
    Usable | Reserved | KernelText | KernelReadOnly | KernelData | Stack | User | Mmio | Guard | Bootloader | Device

  const READ: u32 := 0x1
  const WRITE: u32 := 0x2
  const EXECUTE: u32 := 0x4
  const USER: u32 := 0x8
  const DEVICE: u32 := 0x10
  const SEALED: u32 := 0x20
  /** The union of the six permissions. */
  const KNOWN_PERMISSIONS: u32 := 0x3f

  datatype MemoryPermissions = MemoryPermissions(bits: u32) {
    predicate Contains(other: u32) {
      BitAnd(bits, other) == other
    }
  }

  function PermissionsFromBits(bits: u32): Result<MemoryPermissions> {
    if BitAnd(bits, BitNot(KNOWN_PERMISSIONS, 32)) == 0 then Success(MemoryPermissions(bits))
    else Failure(ReservedBits)
  }

  datatype MemoryRegion = MemoryRegion(start: u64, len: u64, kind: MemoryRegionKind, permissions: MemoryPermissions) {
    /** What the region constructor checks: not empty, and the end is an address. */
    predicate Proper() {
      len > 0 && start + len <= U64_MAX
    }

    function End(): u64
      requires Proper()
    {
      start + len
    }

    predicate Overlaps(other: MemoryRegion)
      requires Proper() && other.Proper()
    {
      start < other.End() && other.start < End()
    }

    predicate ContainsRange(rangeStart: u64, rangeLen: u64)
      requires Proper()
    {
      match CheckedAdd(rangeStart, rangeLen)
      case Some(end) => rangeStart >= start && end <= End()
      case None => false
    }
  }

  const EMPTY_REGION := MemoryRegion(0, 0, Reserved, MemoryPermissions(0))

  type Region = r: MemoryRegion | r.Proper() witness MemoryRegion(0, 1, Reserved, MemoryPermissions(0))

  /** A region is made exactly if it is not empty and ends inside the address space. */
  function NewRegion(start: u64, len: u64, kind: MemoryRegionKind, permissions: MemoryPermissions)
    : (r: Result<Region>)
    ensures r.Success? <==> len > 0 && start + len <= U64_MAX
    ensures r.Success? ==> r.value == MemoryRegion(start, len, kind, permissions)
    ensures r.Failure? ==> r.error == InvalidArgument
  {
    if len == 0 then Failure(InvalidArgument)
    else if CheckedAdd(start, len).None? then Failure(InvalidArgument)
    else Success(MemoryRegion(start, len, kind, permissions))
  }

  predicate AnyOverlaps(regions: seq<Region>, region: Region) {
    exists i | 0 <= i < |regions| :: regions[i].Overlaps(region)
  }

  function Push(regions: seq<Region>, region: Region): (seq<Region>, Result<()>) {
    if |regions| == MAX_MEMORY_REGIONS then (regions, Failure(CapacityExceeded))
    else if AnyOverlaps(regions, region) then (regions, Failure(Overlap))
    else (regions + [region], Success(()))
  }

  /** The first region that contains the range. */
  function FindContaining(regions: seq<Region>, start: u64, len: u64): Option<Region> {
    if regions == [] then None
    else if regions[0].ContainsRange(start, len) then Some(regions[0])
    else FindContaining(regions[1..], start, len)
  }

  /** The bytes in regions of a kind. */
  function TotalByKind(regions: seq<Region>, kind: MemoryRegionKind): nat {
    if regions == [] then 0
    else
      var last := regions[|regions| - 1];
      TotalByKind(regions[..|regions| - 1], kind) + if last.kind == kind then last.len else 0
  }

  ghost predicate Disjoint(regions: seq<Region>) {
    forall i, j | 0 <= i < j < |regions| :: !regions[i].Overlaps(regions[j])
  }

  // ---------------------------------------------------------------- userspace ranges

  datatype UserLimits = UserLimits(lower: u64, upper: u64, maxLen: u64, alignment: u64)

  const DEFAULT_LIMITS := UserLimits(0x1000, 0x8000_0000_0000, 16 * 1024 * 1024, 1)

  ghost predicate LimitsOk(l: UserLimits) {
    1 <= l.lower < l.upper && l.maxLen >= 1 && l.alignment >= 1 && exists k: nat :: l.alignment == Pow2(k)
  }

  predicate IsPowerOfTwo(x: u64) {
    CountOnes(x) == 1
  }

  function SetUserBounds(l: UserLimits, lower: u64, upper: u64): Result<UserLimits> {
    if lower == 0 || lower >= upper then Failure(InvalidArgument) else Success(l.(lower := lower, upper := upper))
  }

  function SetMaxLen(l: UserLimits, maxLen: u64): Result<UserLimits> {
    if maxLen == 0 then Failure(InvalidArgument) else Success(l.(maxLen := maxLen))
  }

  function SetAlignment(l: UserLimits, alignment: u64): Result<UserLimits> {
    if alignment == 0 || !IsPowerOfTwo(alignment) then Failure(InvalidArgument)
    else Success(l.(alignment := alignment))
  }

  function ValidateRange(l: UserLimits, ptr: u64, len: u64): Result<()>
    requires l.alignment >= 1
  {
    if ptr == 0 || len == 0 then Failure(InvalidUserBuffer)
    else if len > l.maxLen then Failure(BufferTooLarge)
    else
      match CheckedAdd(ptr, len)
      case None => Failure(InvalidUserBuffer)
      case Some(end) =>
        if ptr < l.lower || end > l.upper then Failure(BufferOutOfRange)
        else if BitAnd(ptr, l.alignment - 1) != 0 then Failure(InvalidUserBuffer)
        else Success(())
  }

  const USER_BUFFER_READ: u32 := 1
  const USER_BUFFER_WRITE: u32 := 2
  /** Readable, writable and pinnable. */
  const USER_BUFFER_KNOWN_FLAGS: u32 := 7

  datatype UserBuffer = UserBuffer(ptr: u64, len: u64, flags: u32, reserved: u32)

  datatype BufferAccess = AccessRead | AccessWrite | AccessReadWrite {
    function Required(): u32 {
      match this
      case AccessRead => USER_BUFFER_READ
      case AccessWrite => USER_BUFFER_WRITE
      case AccessReadWrite => BitOr(USER_BUFFER_READ, USER_BUFFER_WRITE)
    }
  }

  function ValidateBuffer(l: UserLimits, buffer: UserBuffer, access: BufferAccess): Result<()>
    requires l.alignment >= 1
  {
    if buffer.reserved != 0 || BitAnd(buffer.flags, BitNot(USER_BUFFER_KNOWN_FLAGS, 32)) != 0 then Failure(ReservedBits)
    else if BitAnd(buffer.flags, access.Required()) != access.Required() then Failure(PermissionDenied)
    else ValidateRange(l, buffer.ptr, buffer.len)
  }

  // ---------------------------------------------------------------- shared regions

  datatype SharedMemoryHandle = SharedMemoryHandle(id: u64, owner: TaskId, permissions: u32)

  datatype SharedRegion = SharedRegion(handle: SharedMemoryHandle, start: u64, len: u64, sealed: bool) {
    function Seal(): SharedRegion {
      AndIsSmaller(handle.permissions, BitNot(WRITE, 32));
      Pow2Values();
      OrFits(BitAnd(handle.permissions, BitNot(WRITE, 32)), SEALED, 32);
      var permissions := BitOr(BitAnd(handle.permissions, BitNot(WRITE, 32)), SEALED);
      this.(sealed := true, handle := handle.(permissions := permissions))
    }
  }

  const EMPTY_SHARED := SharedRegion(SharedMemoryHandle(0, 0, 0), 0, 0, true)

  /** shared[i] is the content of shared slot i; the slots past the end are unused. */
  function Share(
    l: UserLimits, shared: seq<SharedRegion>, owner: TaskId, start: u64, len: u64, permissions: MemoryPermissions)
    : (seq<SharedRegion>, Result<SharedMemoryHandle>)
    requires l.alignment >= 1 && |shared| <= MAX_SHARED_REGIONS
  {
    match ValidateRange(l, start, len)
    case Failure(e) => (shared, Failure(e))
    case Success(_) =>
      if permissions.Contains(SEALED) then (shared, Failure(Sealed))
      else if |shared| == MAX_SHARED_REGIONS then (shared, Failure(CapacityExceeded))
      else
        var handle := SharedMemoryHandle(|shared| + 1, owner, permissions.bits);
        (shared + [SharedRegion(handle, start, len, false)], Success(handle))
  }

  function SealShared(shared: seq<SharedRegion>, handle: SharedMemoryHandle): (seq<SharedRegion>, Result<()>) {
    if 1 <= handle.id <= |shared| then (shared[handle.id - 1 := shared[handle.id - 1].Seal()], Success(()))
    else (shared, Failure(NotFound))
  }

  function LookupShared(shared: seq<SharedRegion>, handle: SharedMemoryHandle): Result<SharedRegion> {
    if 1 <= handle.id <= |shared| then Success(shared[handle.id - 1]) else Failure(NotFound)
  }

  // ---------------------------------------------------------------- the whole manager

  datatype AllocatorPhase = Uninitialized | BootBump | Frame | Heap

  predicate PhaseFollows(from: AllocatorPhase, to: AllocatorPhase) {
    from == to || (from.Uninitialized? && to.BootBump?) || (from.BootBump? && to.Frame?) || (from.Frame? && to.Heap?)
  }

  datatype Memory = Memory(
    regions: seq<Region>, phase: AllocatorPhase, limits: UserLimits, shared: seq<SharedRegion>)

  const INITIAL := Memory([], Uninitialized, DEFAULT_LIMITS, [])

  /** Shared slot i has id i + 1; it is sealed as its SEALED bit says, and sealed is not writable. */
  ghost predicate SharedOk(shared: seq<SharedRegion>, i: nat)
    requires i < |shared|
  {
    var r := shared[i];
    && r.handle.id == i + 1
    && (r.sealed <==> TestBit(r.handle.permissions, 5))
    && (r.sealed ==> !TestBit(r.handle.permissions, 1))
  }

  /** Holds in every reachable state. */
  ghost predicate Wf(m: Memory) {
    && |m.regions| <= MAX_MEMORY_REGIONS && Disjoint(m.regions)
    && LimitsOk(m.limits)
    && |m.shared| <= MAX_SHARED_REGIONS
    && forall i | 0 <= i < |m.shared| :: SharedOk(m.shared, i)
  }
}
