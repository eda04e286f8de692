/** What the memory manager promises: exact byte totals, unambiguous lookup, exact range
    validation, and permanent sealing over arbitrary runs. */
module MemoryTheory {
  import opened Machine
  import opened Errors
  import opened Bits
  import opened Capabilities
  import opened MemoryModel
  import opened Sets

  // ---------------------------------------------------------------- bytes

  ghost predicate Within(a: int, lo: int, hi: int) {
    lo <= a < hi
  }

  /** The addresses in an interval. */
  ghost function Interval(lo: nat, hi: nat): set<int> {
    set a: int | 0 <= a < hi && Within(a, lo, hi)
  }

  lemma {:induction false} IntervalSize(lo: nat, hi: nat)
    requires lo <= hi
    ensures |Interval(lo, hi)| == hi - lo
    decreases hi - lo
  {
    if lo == hi {
      assert Interval(lo, hi) == {};
    } else {
      IntervalSize(lo, hi - 1);
      assert Within(hi - 1, lo, hi);
      assert Interval(lo, hi) == Interval(lo, hi - 1) + {hi - 1} by {
        forall a ensures a in Interval(lo, hi) <==> a in Interval(lo, hi - 1) + {hi - 1} {
          assert Within(a, lo, hi) <==> Within(a, lo, hi - 1) || a == hi - 1;
        }
      }
    }
  }

  /** Some region of this kind covers the address. */
  ghost predicate CoveredAt(regions: seq<Region>, kind: MemoryRegionKind, a: int) {
    exists i | 0 <= i < |regions| :: regions[i].kind == kind && Within(a, regions[i].start, regions[i].End())
  }

  ghost function Covered(regions: seq<Region>, kind: MemoryRegionKind): set<int> {
    set a: int | 0 <= a < U64_MAX && CoveredAt(regions, kind, a)
  }

  lemma CoveredLast(regions: seq<Region>, kind: MemoryRegionKind)
    requires regions != []
    ensures var last := regions[|regions| - 1];
            Covered(regions, kind)
            == Covered(regions[..|regions| - 1], kind)
               + if last.kind == kind then Interval(last.start, last.End()) else {}
  {
    var front, last := regions[..|regions| - 1], regions[|regions| - 1];
    forall a: int
      ensures CoveredAt(regions, kind, a) <==>
                CoveredAt(front, kind, a) || (last.kind == kind && Within(a, last.start, last.End()))
    {
      if CoveredAt(regions, kind, a) {
        var i :| 0 <= i < |regions| && regions[i].kind == kind && Within(a, regions[i].start, regions[i].End());
        assert i < |front| ==> front[i] == regions[i];
      }
      if CoveredAt(front, kind, a) {
        var i :| 0 <= i < |front| && front[i].kind == kind && Within(a, front[i].start, front[i].End());
        assert regions[i] == front[i];
      }
    }
  }

  /** In a map of disjoint regions the total for a kind is the number of addresses of that kind,
      so it fits in 64 bits, and so does every partial sum on the way to it. */
  lemma {:induction false} TotalCountsAddresses(regions: seq<Region>, kind: MemoryRegionKind)
    requires Disjoint(regions)
    ensures TotalByKind(regions, kind) == |Covered(regions, kind)| <= U64_MAX
  {
    if regions == [] {
      assert Covered(regions, kind) == {};
    } else {
      var front, last := regions[..|regions| - 1], regions[|regions| - 1];
      TotalCountsAddresses(front, kind);
      CoveredLast(regions, kind);
      if last.kind == kind {
        IntervalSize(last.start, last.End());
        LastIsSeparate(regions, kind);
      }
    }
    FitsAddressSpace(Covered(regions, kind));
  }

  lemma LastIsSeparate(regions: seq<Region>, kind: MemoryRegionKind)
    requires regions != [] && Disjoint(regions)
    ensures var last := regions[|regions| - 1];
            Covered(regions[..|regions| - 1], kind) !! Interval(last.start, last.End())
  {
    var front, last := regions[..|regions| - 1], regions[|regions| - 1];
    forall a | a in Covered(front, kind) ensures a !in Interval(last.start, last.End()) {
      var i :| 0 <= i < |front| && front[i].kind == kind && Within(a, front[i].start, front[i].End());
      assert !regions[i].Overlaps(last);
    }
  }

  lemma FitsAddressSpace(s: set<int>)
    requires forall a | a in s :: 0 <= a < U64_MAX
    ensures |s| <= U64_MAX
  {
    IntervalSize(0, U64_MAX);
    forall a | a in s ensures a in Interval(0, U64_MAX) {
      assert Within(a, 0, U64_MAX);
    }
    SubsetSize(s, Interval(0, U64_MAX));
  }

  /** The region has no address in common with any of these. */
  ghost predicate SharesNoAddress(regions: seq<Region>, region: Region) {
    forall i | 0 <= i < |regions| :: !Touches(regions[i], region)
  }

  /** Some address lies in both regions. */
  ghost predicate Touches(r: Region, q: Region) {
    exists a: int :: InBoth(a, r, q)
  }

  ghost predicate InBoth(a: int, r: Region, q: Region) {
    Within(a, r.start, r.End()) && Within(a, q.start, q.End())
  }

  /** The overlap test is exact on regions that are not empty. */
  lemma OverlapIsCommonAddress(r: Region, q: Region)
    ensures r.Overlaps(q) <==> Touches(r, q)
  {
    if r.Overlaps(q) {
      assert InBoth(if r.start >= q.start then r.start else q.start, r, q);
    }
  }

  /** A region is added exactly if there is room and it shares no address with one present. */
  lemma PushIsExact(regions: seq<Region>, region: Region)
    requires Disjoint(regions) && |regions| <= MAX_MEMORY_REGIONS
    ensures Disjoint(Push(regions, region).0)
    ensures Push(regions, region).1.Success? <==> |regions| < MAX_MEMORY_REGIONS && SharesNoAddress(regions, region)
  {
    if AnyOverlaps(regions, region) {
      var i :| 0 <= i < |regions| && regions[i].Overlaps(region);
      OverlapIsCommonAddress(regions[i], region);
    } else {
      forall i | 0 <= i < |regions| ensures !Touches(regions[i], region) {
        OverlapIsCommonAddress(regions[i], region);
      }
    }
  }

  // ---------------------------------------------------------------- lookup

  lemma {:induction false} FindIsFirst(regions: seq<Region>, start: u64, len: u64) returns (i: nat)
    ensures FindContaining(regions, start, len).None? <==> i == |regions|
    ensures i <= |regions|
    ensures forall j | 0 <= j < i :: !regions[j].ContainsRange(start, len)
    ensures i < |regions| ==>
              regions[i].ContainsRange(start, len) && FindContaining(regions, start, len) == Some(regions[i])
  {
    if regions == [] || regions[0].ContainsRange(start, len) {
      i := 0;
    } else {
      var k := FindIsFirst(regions[1..], start, len);
      i := k + 1;
      forall j | 0 <= j < i ensures !regions[j].ContainsRange(start, len) {
        if j > 0 { assert regions[j] == regions[1..][j - 1]; }
      }
    }
  }

  /** The range is empty and sits where one region ends and another starts. */
  ghost predicate OnBoundary(regions: seq<Region>, start: u64, len: u64) {
    && len == 0
    && (exists i | 0 <= i < |regions| :: regions[i].End() == start)
    && (exists j | 0 <= j < |regions| :: regions[j].start == start)
  }

  /** Two different regions of a map contain the same range only on a boundary. */
  lemma ContainerIsUnique(regions: seq<Region>, start: u64, len: u64, i: nat, j: nat)
    requires Disjoint(regions) && i < j < |regions|
    requires regions[i].ContainsRange(start, len) && regions[j].ContainsRange(start, len)
    ensures OnBoundary(regions, start, len)
  {
  }

  /** The lookup gives the same answer however the same regions are ordered. */
  ghost predicate OrderIndependent(regions: seq<Region>, start: u64, len: u64) {
    forall other: seq<Region> | multiset(other) == multiset(regions) ::
      FindContaining(other, start, len) == FindContaining(regions, start, len)
  }

  lemma SameMembers(a: seq<Region>, b: seq<Region>, i: nat) returns (j: nat)
    requires multiset(a) == multiset(b) && i < |a|
    ensures j < |b| && b[j] == a[i]
  {
    assert a[i] in multiset(b);
    j :| 0 <= j < |b| && b[j] == a[i];
  }

  /** Off the boundaries any ordering finds the same region. */
  lemma LookupIgnoresOrder(regions: seq<Region>, other: seq<Region>, start: u64, len: u64)
    requires Disjoint(regions) && !OnBoundary(regions, start, len)
    requires multiset(other) == multiset(regions)
    ensures FindContaining(other, start, len) == FindContaining(regions, start, len)
  {
    var i := FindIsFirst(regions, start, len);
    var j := FindIsFirst(other, start, len);
    if j < |other| {
      var k := SameMembers(other, regions, j);
      if i < k { ContainerIsUnique(regions, start, len, i, k); }
    } else if i < |regions| {
      var k := SameMembers(regions, other, i);
    }
  }

  /** The same regions with number i moved to the front. */
  function Fronted(regions: seq<Region>, i: nat): seq<Region>
    requires i < |regions|
  {
    [regions[i]] + regions[..i] + regions[i + 1..]
  }

  lemma FrontedIsReordering(regions: seq<Region>, i: nat)
    requires i < |regions|
    ensures multiset(Fronted(regions, i)) == multiset(regions)
  {
    assert regions == regions[..i] + [regions[i]] + regions[i + 1..];
  }

  /** On a boundary the region found is the one listed first. */
  lemma BoundaryDependsOnOrder(regions: seq<Region>, start: u64, len: u64)
    requires OnBoundary(regions, start, len)
    ensures !OrderIndependent(regions, start, len)
  {
    var i :| 0 <= i < |regions| && regions[i].End() == start;
    var j :| 0 <= j < |regions| && regions[j].start == start;
    FrontedIsReordering(regions, i);
    FrontedIsReordering(regions, j);
    assert regions[i].ContainsRange(start, len) && regions[j].ContainsRange(start, len);
    assert FindContaining(Fronted(regions, i), start, len) == Some(regions[i]);
    assert FindContaining(Fronted(regions, j), start, len) == Some(regions[j]);
    assert regions[i].start < start;
  }

  /** Lookup is order-independent exactly off the boundaries; in particular for every range
      that is not empty, where at most one region contains it. */
  lemma LookupOrderIndependence(regions: seq<Region>, start: u64, len: u64)
    requires Disjoint(regions)
    ensures OrderIndependent(regions, start, len) <==> !OnBoundary(regions, start, len)
    ensures len > 0 ==> OrderIndependent(regions, start, len)
  {
    if OnBoundary(regions, start, len) {
      BoundaryDependsOnOrder(regions, start, len);
    } else {
      forall other: seq<Region> | multiset(other) == multiset(regions)
        ensures FindContaining(other, start, len) == FindContaining(regions, start, len)
      {
        LookupIgnoresOrder(regions, other, start, len);
      }
    }
  }

  /** Two neighbouring regions, pushed in either order, and the empty range between them. */
  lemma BoundaryWitness(p: MemoryPermissions)
    ensures Wf(INITIAL)
    ensures var (low, high) := (MemoryRegion(0x1000, 0x1000, Usable, p), MemoryRegion(0x2000, 0x1000, Usable, p));
            var m1 := Run(INITIAL, [OpPush(low), OpPush(high)]);
            var m2 := Run(INITIAL, [OpPush(high), OpPush(low)]);
            && FindContaining(m1.regions, 0x2000, 0) == Some(low)
            && FindContaining(m2.regions, 0x2000, 0) == Some(high)
  {
    var low: Region, high: Region :=
      MemoryRegion(0x1000, 0x1000, Usable, p), MemoryRegion(0x2000, 0x1000, Usable, p);
    InitialIsWf();
    RunTwo(INITIAL, OpPush(low), OpPush(high));
    RunTwo(INITIAL, OpPush(high), OpPush(low));
    PushBoth(low, high);
    PushBoth(high, low);
  }

  lemma PushBoth(a: Region, b: Region)
    requires !a.Overlaps(b)
    ensures Push([], a).0 == [a] && Push([a], b).0 == [a, b]
  {
  }

  lemma RunTwo(m: Memory, a: Op, b: Op)
    requires Wf(m)
    ensures Run(m, [a, b]) == Step(Step(m, a), b)
  {
    assert [a, b][1..] == [b] && [b][1..] == [];
    assert Run(m, [a, b]) == Run(Step(m, a), [b]) == Run(Step(Step(m, a), b), []);
  }

  // ---------------------------------------------------------------- ranges

  /** Over unbounded integers, what a userspace range must satisfy. */
  ghost predicate RangeOk(l: UserLimits, ptr: int, len: int)
    requires l.alignment >= 1
  {
    1 <= len <= l.maxLen && l.lower <= ptr && ptr + len <= l.upper && ptr % l.alignment == 0
  }

  /** Range validation, masks and checked additions included, accepts exactly those ranges. */
  lemma RangeValidationIsExact(l: UserLimits, ptr: u64, len: u64)
    requires LimitsOk(l)
    ensures ValidateRange(l, ptr, len).Success? <==> RangeOk(l, ptr, len)
  {
    var k: nat :| l.alignment == Pow2(k);
    LowMaskIsRemainder(ptr, k);
  }

  /** The setters keep the limits meaningful, and refuse exactly what would not be. */
  lemma SettersKeepLimits(l: UserLimits, x: u64, y: u64)
    requires LimitsOk(l)
    ensures SetUserBounds(l, x, y).Success? <==> 1 <= x < y
    ensures SetUserBounds(l, x, y).Success? ==> LimitsOk(SetUserBounds(l, x, y).value)
    ensures SetMaxLen(l, x).Success? <==> x >= 1
    ensures SetMaxLen(l, x).Success? ==> LimitsOk(SetMaxLen(l, x).value)
    ensures SetAlignment(l, x).Success? <==> exists k: nat :: x == Pow2(k)
    ensures SetAlignment(l, x).Success? ==> LimitsOk(SetAlignment(l, x).value)
  {
    if IsPowerOfTwo(x) {
      var k := OneBitIsPow2(x);
    }
    if exists k: nat :: x == Pow2(k) {
      var k: nat :| x == Pow2(k);
      Pow2Positive(k);
      Pow2HasOneBit(k);
    }
  }

  /** The flags include the direction that the access needs. */
  ghost predicate Permits(flags: u32, access: BufferAccess) {
    (access.AccessWrite? || TestBit(flags, 0)) && (access.AccessRead? || TestBit(flags, 1))
  }

  /** A user buffer is accepted exactly if its reserved field is zero, its flags are among the
      three known ones and include the required direction, and its range is acceptable; it is
      denied, rather than invalid, exactly if only the direction is missing so far. */
  lemma BufferValidationIsExact(l: UserLimits, b: UserBuffer, access: BufferAccess)
    requires LimitsOk(l)
    ensures ValidateBuffer(l, b, access).Success? <==>
              b.reserved == 0 && b.flags < 8 && Permits(b.flags, access) && RangeOk(l, b.ptr, b.len)
    ensures ValidateBuffer(l, b, access) == Failure(PermissionDenied) <==>
              b.reserved == 0 && b.flags < 8 && !Permits(b.flags, access)
  {
    BufferOutcome(l, b, access);
    RangeValidationIsExact(l, b.ptr, b.len);
  }

  lemma BufferOutcome(l: UserLimits, b: UserBuffer, access: BufferAccess)
    requires l.alignment >= 1
    ensures ValidateBuffer(l, b, access)
            == if b.reserved != 0 || b.flags >= 8 then Failure(ReservedBits)
               else if !Permits(b.flags, access) then Failure(PermissionDenied)
               else ValidateRange(l, b.ptr, b.len)
  {
    KnownFlags(b.flags);
    DirectionMask(b.flags, access);
  }

  lemma KnownFlags(flags: u32)
    ensures BitAnd(flags, BitNot(USER_BUFFER_KNOWN_FLAGS, 32)) == 0 <==> flags < 8
  {
    Pow2Values();
    ReservedBitsMask(flags, 3, 32);
  }

  lemma DirectionMask(flags: u32, access: BufferAccess)
    ensures BitAnd(flags, access.Required()) == access.Required() <==> Permits(flags, access)
  {
    assert Pow2(0) == 1 && Pow2(1) == 2;
    match access
    case AccessRead => OneBitMask(flags, 0);
    case AccessWrite => OneBitMask(flags, 1);
    case AccessReadWrite =>
      assert BitOr(1, 2) == 3 by { assert BitOr(0, 1) == 1; }
      assert Pow2(2) - 1 == 3;
      MaskContained(flags, 3);
      forall k: nat ensures TestBit(3, k) <==> k < 2 { BitOfLowMask(2, k); }
      assert TestBit(3, 0) && TestBit(3, 1);
  }

  // ---------------------------------------------------------------- sealing

  /** Sealing clears WRITE, sets SEALED and touches no other bit. */
  lemma SealBits(r: SharedRegion, k: nat)
    ensures TestBit(r.Seal().handle.permissions, k) <==> k == 5 || (k != 1 && TestBit(r.handle.permissions, k))
  {
    var p := r.handle.permissions;
    BitOfReplacement(p, WRITE, 32, SEALED, k);
    SealMasks(k);
    if TestBit(p, k) {
      Pow2Values();
      BoundedNumberBits(p, 32, k);
    }
  }

  /** WRITE is bit 1 and SEALED is bit 5. */
  lemma SealMasks(k: nat)
    ensures TestBit(WRITE, k) <==> k == 1
    ensures TestBit(SEALED, k) <==> k == 5
  {
    Pow2Values();
    BitOfPow2(1, k);
    BitOfPow2(5, k);
  }

  lemma SealKeepsOk(shared: seq<SharedRegion>, handle: SharedMemoryHandle)
    requires forall i | 0 <= i < |shared| :: SharedOk(shared, i)
    ensures forall i | 0 <= i < |SealShared(shared, handle).0| :: SharedOk(SealShared(shared, handle).0, i)
  {
    var shared' := SealShared(shared, handle).0;
    forall i | 0 <= i < |shared'| ensures SharedOk(shared', i) {
      assert SharedOk(shared, i);
      SealBits(shared[i], 5);
      SealBits(shared[i], 1);
    }
  }

  lemma ShareKeepsOk(
    l: UserLimits, shared: seq<SharedRegion>, owner: TaskId, start: u64, len: u64, permissions: MemoryPermissions)
    requires l.alignment >= 1 && |shared| <= MAX_SHARED_REGIONS
    requires forall i | 0 <= i < |shared| :: SharedOk(shared, i)
    ensures var shared' := Share(l, shared, owner, start, len, permissions).0;
            && shared <= shared' && |shared'| <= MAX_SHARED_REGIONS
            && forall i | 0 <= i < |shared'| :: SharedOk(shared', i)
  {
    var shared' := Share(l, shared, owner, start, len, permissions).0;
    Pow2Values();
    OneBitMask(permissions.bits, 5);
    forall i | 0 <= i < |shared'| ensures SharedOk(shared', i) {
      if i < |shared| { assert SharedOk(shared, i); }
    }
  }

  /** Sharing succeeds exactly for an acceptable range, without the SEALED bit, while fewer than
      32 regions are shared. Its handle then looks up the region just as it was shared, not
      sealed, and every other handle looks up what it did before. */
  lemma ShareThenLookup(
    l: UserLimits, shared: seq<SharedRegion>, owner: TaskId, start: u64, len: u64, permissions: MemoryPermissions,
    other: SharedMemoryHandle)
    requires LimitsOk(l) && |shared| <= MAX_SHARED_REGIONS
    ensures var (shared', r) := Share(l, shared, owner, start, len, permissions);
            && (r.Success? <==>
                  RangeOk(l, start, len) && !TestBit(permissions.bits, 5) && |shared| < MAX_SHARED_REGIONS)
            && (r.Success? ==>
                  && LookupShared(shared, r.value) == Failure(NotFound)
                  && LookupShared(shared', r.value)
                     == Success(SharedRegion(r.value, start, len, false))
                  && r.value.owner == owner && r.value.permissions == permissions.bits
                  && (other.id != r.value.id ==> LookupShared(shared', other) == LookupShared(shared, other)))
            && (r.Failure? ==> shared' == shared)
  {
    RangeValidationIsExact(l, start, len);
    Pow2Values();
    OneBitMask(permissions.bits, 5);
  }

  // ---------------------------------------------------------------- runs

  datatype Op =
    | OpPush(region: Region)
    | OpSetUserBounds(lower: u64, upper: u64)
    | OpSetMaxLen(maxLen: u64)
    | OpSetAlignment(alignment: u64)
    | OpSetPhase(phase: AllocatorPhase)
    | OpShare(owner: TaskId, start: u64, len: u64, permissions: MemoryPermissions)
    | OpSeal(handle: SharedMemoryHandle)

  function LimitsAfter(l: UserLimits, r: Result<UserLimits>): UserLimits {
    if r.Success? then r.value else l
  }

  function Step(m: Memory, op: Op): (m': Memory)
    requires Wf(m)
    ensures Wf(m')
  {
    match op
    case OpPush(region) =>
      PushIsExact(m.regions, region);
      m.(regions := Push(m.regions, region).0)
    case OpSetUserBounds(lower, upper) =>
      SettersKeepLimits(m.limits, lower, upper);
      m.(limits := LimitsAfter(m.limits, SetUserBounds(m.limits, lower, upper)))
    case OpSetMaxLen(maxLen) =>
      SettersKeepLimits(m.limits, maxLen, 0);
      m.(limits := LimitsAfter(m.limits, SetMaxLen(m.limits, maxLen)))
    case OpSetAlignment(alignment) =>
      SettersKeepLimits(m.limits, alignment, 0);
      m.(limits := LimitsAfter(m.limits, SetAlignment(m.limits, alignment)))
    case OpSetPhase(phase) =>
      if PhaseFollows(m.phase, phase) then m.(phase := phase) else m
    case OpShare(owner, start, len, permissions) =>
      ShareKeepsOk(m.limits, m.shared, owner, start, len, permissions);
      m.(shared := Share(m.limits, m.shared, owner, start, len, permissions).0)
    case OpSeal(handle) =>
      SealKeepsOk(m.shared, handle);
      m.(shared := SealShared(m.shared, handle).0)
  }

  function Run(m: Memory, ops: seq<Op>): (m': Memory)
    requires Wf(m)
    ensures Wf(m')
    decreases |ops|
  {
    if ops == [] then m else Run(Step(m, ops[0]), ops[1..])
  }

  lemma InitialIsWf()
    ensures Wf(INITIAL)
  {
    assert Pow2(0) == 1;
  }

  /** Sharing and sealing leave the map, the limits and the phase alone. */
  lemma SharingKeepsTheRest(m: Memory, op: Op)
    requires Wf(m) && (op.OpShare? || op.OpSeal?)
    ensures Step(m, op).(shared := m.shared) == m
  {
  }

  function SealsId(op: Op, id: u64): bool {
    op.OpSeal? && op.handle.id == id
  }

  ghost predicate SealedIn(ops: seq<Op>, id: u64) {
    exists i | 0 <= i < |ops| :: SealsId(ops[i], id)
  }

  /** How a stored shared region may change: it keeps its identity and range, and if it was
      sealed (`nowSealed`) it loses WRITE and gains SEALED for good. */
  ghost predicate SharedEvolves(a: SharedRegion, b: SharedRegion, nowSealed: bool) {
    && b.start == a.start && b.len == a.len
    && b.handle.id == a.handle.id && b.handle.owner == a.handle.owner
    && (b.sealed <==> a.sealed || nowSealed)
    && forall k: nat ::
         TestBit(b.handle.permissions, k) <==>
         if nowSealed && k == 5 then true else if nowSealed && k == 1 then false else TestBit(a.handle.permissions, k)
  }

  lemma StepEvolvesShared(m: Memory, op: Op, i: nat)
    requires Wf(m) && i < |m.shared|
    ensures |m.shared| <= |Step(m, op).shared|
    ensures SharedEvolves(m.shared[i], Step(m, op).shared[i], SealsId(op, i + 1))
  {
    assert SharedOk(m.shared, i);
    if op.OpSeal? {
      forall k: nat
        ensures TestBit(m.shared[i].Seal().handle.permissions, k)
                <==> k == 5 || (k != 1 && TestBit(m.shared[i].handle.permissions, k))
      {
        SealBits(m.shared[i], k);
      }
    }
  }

  /** Sealing is permanent: over every run a shared region keeps its id, owner and range, is
      sealed at the end exactly if it was before or the run seals it, and has exactly the
      permission bits it had, less WRITE and with SEALED once the run seals it. */
  lemma {:induction false} SealingIsPermanent(m: Memory, ops: seq<Op>, i: nat)
    requires Wf(m) && i < |m.shared|
    ensures i < |Run(m, ops).shared|
    ensures SharedEvolves(m.shared[i], Run(m, ops).shared[i], SealedIn(ops, i + 1))
    decreases |ops|
  {
    if ops != [] {
      StepEvolvesShared(m, ops[0], i);
      SealingIsPermanent(Step(m, ops[0]), ops[1..], i);
      SealedInHead(ops, i + 1);
    }
  }

  /** Sharing and sealing compose: a region that evolves twice has evolved. */
  lemma EvolvesTwice(a: SharedRegion, b: SharedRegion, c: SharedRegion, first: bool, second: bool)
    requires SharedEvolves(a, b, first) && SharedEvolves(b, c, second)
    ensures SharedEvolves(a, c, first || second)
  {
  }

  lemma SealedInHead(ops: seq<Op>, id: u64)
    requires ops != []
    ensures SealedIn(ops, id) <==> SealsId(ops[0], id) || SealedIn(ops[1..], id)
  {
  }

  /** In every reachable state a sealed region is not writable, its SEALED bit says that it is
      sealed, byte totals fit in 64 bits, and range validation is exact. */
  lemma ReachableMemory(ops: seq<Op>, i: nat, kind: MemoryRegionKind, ptr: u64, len: u64)
    ensures Wf(INITIAL)
    ensures var m := Run(INITIAL, ops);
            && (i < |m.shared| ==>
                  && m.shared[i].handle.id == i + 1
                  && (m.shared[i].sealed <==> TestBit(m.shared[i].handle.permissions, 5))
                  && (m.shared[i].sealed ==> !TestBit(m.shared[i].handle.permissions, 1)))
            && TotalByKind(m.regions, kind) == |Covered(m.regions, kind)| <= U64_MAX
            && (ValidateRange(m.limits, ptr, len).Success? <==> RangeOk(m.limits, ptr, len))
  {
    InitialIsWf();
    var m := Run(INITIAL, ops);
    if i < |m.shared| { assert SharedOk(m.shared, i); }
    TotalCountsAddresses(m.regions, kind);
    RangeValidationIsExact(m.limits, ptr, len);
  }
}
