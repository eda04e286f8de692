/** What each memory operation does, over unbounded integers, addresses and single bits: when it
    succeeds, with which error it fails, and what a later lookup or validation sees of it. */
module MemoryOperations {
  import opened Machine
  import opened Errors
  import opened Bits
  import opened Capabilities
  import opened MemoryModel
  import opened MemoryTheory

  // ---------------------------------------------------------------- the memory map

  /** A non-empty range is contained address by address, an empty one by its position, which may
      be the end of the region. */
  ghost predicate Encloses(r: Region, start: int, len: int) {
    if len > 0 then EveryAddress(start, start + len, r.start, r.start + r.len)
    else r.start <= start <= r.start + r.len
  }

  /** Every address of the first interval is one of the second. */
  ghost predicate EveryAddress(lo: int, hi: int, from: int, to: int) {
    forall a: int :: Within(a, lo, hi) ==> Within(a, from, to)
  }

  lemma ContainmentIsByAddress(r: Region, start: u64, len: u64)
    ensures r.ContainsRange(start, len) <==> Encloses(r, start, len)
  {
    if len > 0 && Encloses(r, start, len) {
      assert Within(start, start, start + len) && Within(start + len - 1, start, start + len);
    }
  }

  /** The search returns the first region that encloses the range, and none only if none does. */
  lemma FindIsExact(regions: seq<Region>, start: u64, len: u64) returns (i: nat)
    ensures i <= |regions| && forall j | 0 <= j < i :: !Encloses(regions[j], start, len)
    ensures i < |regions| ==> Encloses(regions[i], start, len)
    ensures FindContaining(regions, start, len) == if i < |regions| then Some(regions[i]) else None
  {
    i := FindIsFirst(regions, start, len);
    forall j | 0 <= j < |regions| ensures regions[j].ContainsRange(start, len) <==> Encloses(regions[j], start, len) {
      ContainmentIsByAddress(regions[j], start, len);
    }
  }

  /** A push appends the region if there is room and no address of it is taken; otherwise it says
      which of these failed and leaves the map as it was. */
  lemma PushAppends(regions: seq<Region>, region: Region)
    requires Disjoint(regions) && |regions| <= MAX_MEMORY_REGIONS
    ensures Push(regions, region)
            == if |regions| == 64 then (regions, Failure(CapacityExceeded))
               else if SharesNoAddress(regions, region) then (regions + [region], Success(()))
               else (regions, Failure(Overlap))
  {
    PushIsExact(regions, region);
  }

  /** What has been pushed is found: a non-empty range finds the new region if that encloses it,
      and otherwise what it found before. */
  lemma PushThenFind(regions: seq<Region>, region: Region, start: u64, len: u64)
    requires Disjoint(regions) && |regions| <= MAX_MEMORY_REGIONS && len > 0
    requires Push(regions, region).1.Success?
    ensures FindContaining(Push(regions, region).0, start, len)
            == if Encloses(region, start, len) then Some(region) else FindContaining(regions, start, len)
  {
    var i := FindIsExact(regions, start, len);
    PushAppends(regions, region);
    FindInExtended(regions, region, start, len);
    ContainmentIsByAddress(region, start, len);
    if i < |regions| && Encloses(region, start, len) {
      EnclosersTouch(regions[i], region, start, len);
    }
  }

  lemma {:induction false} FindInExtended(regions: seq<Region>, region: Region, start: u64, len: u64)
    ensures FindContaining(regions + [region], start, len)
            == if FindContaining(regions, start, len).Some? then FindContaining(regions, start, len)
               else if region.ContainsRange(start, len) then Some(region) else None
  {
    var all := regions + [region];
    if regions != [] {
      assert all[0] == regions[0] && all[1..] == regions[1..] + [region];
      FindInExtended(regions[1..], region, start, len);
    }
  }

  /** Two regions that enclose the same non-empty range have an address in common. */
  lemma EnclosersTouch(r: Region, q: Region, start: u64, len: u64)
    requires len > 0 && Encloses(r, start, len) && Encloses(q, start, len)
    ensures Touches(r, q)
  {
    assert Within(start, start, start + len);
    assert InBoth(start, r, q);
  }

  // ---------------------------------------------------------------- limits and ranges

  /** Which error a range gets: the checks in their order. */
  lemma RangeErrors(l: UserLimits, ptr: u64, len: u64)
    requires LimitsOk(l)
    ensures ValidateRange(l, ptr, len)
            == if ptr == 0 || len == 0 then Failure(InvalidUserBuffer)
               else if len > l.maxLen then Failure(BufferTooLarge)
               else if ptr + len > 0xffff_ffff_ffff_ffff then Failure(InvalidUserBuffer)
               else if ptr < l.lower || ptr + len > l.upper then Failure(BufferOutOfRange)
               else if ptr % l.alignment != 0 then Failure(InvalidUserBuffer)
               else Success(())
  {
    RangeValidationIsExact(l, ptr, len);
  }

  /** A new manager accepts the non-empty ranges of at most 16 MiB in [0x1000, 2^47). */
  lemma NewManagerAccepts(ptr: u64, len: u64)
    ensures LimitsOk(INITIAL.limits)
    ensures ValidateRange(INITIAL.limits, ptr, len).Success? <==>
              0x1000 <= ptr && 1 <= len <= 0x100_0000 && ptr + len <= 0x8000_0000_0000
  {
    InitialIsWf();
    RangeValidationIsExact(INITIAL.limits, ptr, len);
  }

  /** New bounds take effect, and only they do: after the call a range is accepted exactly if it
      meets the new bounds and the other limits as they were. Refused bounds change nothing. */
  lemma BoundsTakeEffect(m: Memory, lower: u64, upper: u64, ptr: u64, len: u64)
    requires Wf(m)
    ensures var (m', r) := (Step(m, OpSetUserBounds(lower, upper)), SetUserBounds(m.limits, lower, upper));
            && m' == m.(limits := m'.limits)
            && (r.Success? <==> 1 <= lower < upper) && (r.Failure? ==> r.error == InvalidArgument && m' == m)
            && (r.Success? ==>
                  (ValidateRange(m'.limits, ptr, len).Success? <==>
                     && 1 <= len <= m.limits.maxLen && ptr % m.limits.alignment == 0
                     && lower <= ptr && ptr + len <= upper))
  {
    SettersKeepLimits(m.limits, lower, upper);
    RangeValidationIsExact(Step(m, OpSetUserBounds(lower, upper)).limits, ptr, len);
  }

  lemma MaxLenTakesEffect(m: Memory, maxLen: u64, ptr: u64, len: u64)
    requires Wf(m)
    ensures var (m', r) := (Step(m, OpSetMaxLen(maxLen)), SetMaxLen(m.limits, maxLen));
            && m' == m.(limits := m'.limits)
            && (r.Success? <==> 1 <= maxLen) && (r.Failure? ==> r.error == InvalidArgument && m' == m)
            && (r.Success? ==>
                  (ValidateRange(m'.limits, ptr, len).Success? <==>
                     && 1 <= len <= maxLen && ptr % m.limits.alignment == 0
                     && m.limits.lower <= ptr && ptr + len <= m.limits.upper))
  {
    SettersKeepLimits(m.limits, maxLen, 0);
    RangeValidationIsExact(Step(m, OpSetMaxLen(maxLen)).limits, ptr, len);
  }

  lemma AlignmentTakesEffect(m: Memory, alignment: u64, ptr: u64, len: u64)
    requires Wf(m)
    ensures var (m', r) := (Step(m, OpSetAlignment(alignment)), SetAlignment(m.limits, alignment));
            && m' == m.(limits := m'.limits)
            && (r.Success? <==> exists k: nat :: alignment == Pow2(k))
            && (r.Failure? ==> r.error == InvalidArgument && m' == m)
            && (r.Success? ==>
                  && alignment > 0
                  && (ValidateRange(m'.limits, ptr, len).Success? <==>
                        && 1 <= len <= m.limits.maxLen && ptr % alignment == 0
                        && m.limits.lower <= ptr && ptr + len <= m.limits.upper))
  {
    SettersKeepLimits(m.limits, alignment, 0);
    RangeValidationIsExact(Step(m, OpSetAlignment(alignment)).limits, ptr, len);
  }

  /** The allocator phases in the order in which boot goes through them. */
  function Rank(p: AllocatorPhase): nat {
    match p
    case Uninitialized => 0
    case BootBump => 1
    case Frame => 2
    case Heap => 3
  }

  /** The phase may stay or move one step ahead; no run of operations moves it back, and the only
      way to the heap is through every phase before it. */
  lemma PhaseStepIsExact(m: Memory, to: AllocatorPhase)
    requires Wf(m)
    ensures Step(m, OpSetPhase(to))
            == if Rank(to) == Rank(m.phase) || Rank(to) == Rank(m.phase) + 1 then m.(phase := to) else m
  {
  }

  function PhaseCalls(ops: seq<Op>): nat {
    if ops == [] then 0 else (if ops[0].OpSetPhase? then 1 else 0) + PhaseCalls(ops[1..])
  }

  lemma {:induction false} PhaseNeverGoesBack(m: Memory, ops: seq<Op>)
    requires Wf(m)
    ensures Rank(m.phase) <= Rank(Run(m, ops).phase) <= Rank(m.phase) + PhaseCalls(ops)
    decreases |ops|
  {
    if ops != [] {
      PhaseNeverGoesBack(Step(m, ops[0]), ops[1..]);
    }
  }

  // ---------------------------------------------------------------- permissions

  /** Permission bits are accepted exactly if they are among the six defined ones. */
  lemma PermissionBits(bits: u32)
    ensures PermissionsFromBits(bits) == if bits < 64 then Success(MemoryPermissions(bits)) else Failure(ReservedBits)
  {
    Pow2Values();
    ReservedBitsMask(bits, 6, 32);
  }

  // ---------------------------------------------------------------- shared regions

  /** Why sharing fails, and what it stores and returns when it does not. */
  lemma ShareIsExact(
    l: UserLimits, shared: seq<SharedRegion>, owner: TaskId, start: u64, len: u64, permissions: MemoryPermissions)
    requires LimitsOk(l) && |shared| <= MAX_SHARED_REGIONS
    ensures var (shared', r) := Share(l, shared, owner, start, len, permissions);
            && r == (if ValidateRange(l, start, len).Failure? then Failure(ValidateRange(l, start, len).error)
                     else if TestBit(permissions.bits, 5) then Failure(Sealed)
                     else if |shared| == 32 then Failure(CapacityExceeded)
                     else Success(SharedMemoryHandle(|shared| + 1, owner, permissions.bits)))
            && shared' == (if r.Failure? then shared else shared + [SharedRegion(r.value, start, len, false)])
            && (r.Success? ==> RangeOk(l, start, len))
  {
    RangeValidationIsExact(l, start, len);
    Pow2Values();
    OneBitMask(permissions.bits, 5);
  }

  /** b is region a after sealing. */
  ghost predicate SealedForm(a: SharedRegion, b: SharedRegion) {
    && b.sealed
    && b.handle.id == a.handle.id && b.handle.owner == a.handle.owner && b.start == a.start && b.len == a.len
    && !TestBit(b.handle.permissions, 1) && TestBit(b.handle.permissions, 5)
    && forall k: nat | k != 1 && k != 5 :: TestBit(b.handle.permissions, k) <==> TestBit(a.handle.permissions, k)
  }

  /** Sealing succeeds exactly for a handle that looks up. That handle then looks up the same
      region sealed, without WRITE and with SEALED, and every other handle what it did before. */
  lemma SealThenLookup(shared: seq<SharedRegion>, h: SharedMemoryHandle, other: SharedMemoryHandle)
    ensures var (shared', r) := SealShared(shared, h);
            && r == (if LookupShared(shared, h).Success? then Success(()) else Failure(NotFound))
            && (r.Failure? ==> shared' == shared)
            && (r.Success? ==>
                  && LookupShared(shared', h).Success?
                  && SealedForm(LookupShared(shared, h).value, LookupShared(shared', h).value))
            && (other.id != h.id ==> LookupShared(shared', other) == LookupShared(shared, other))
  {
    if 1 <= h.id <= |shared| {
      var region := shared[h.id - 1];
      forall k: nat
        ensures TestBit(region.Seal().handle.permissions, k)
                <==> k == 5 || (k != 1 && TestBit(region.handle.permissions, k))
      {
        SealBits(region, k);
      }
    }
  }

  /** Some operation of the run seals this identifier when a region is shared under it. */
  ghost predicate SealedOnceShared(m: Memory, ops: seq<Op>, id: u64)
    requires Wf(m)
    decreases |ops|
  {
    ops != [] && ((SealsId(ops[0], id) && 1 <= id <= |m.shared|) || SealedOnceShared(Step(m, ops[0]), ops[1..], id))
  }

  /** Over any run from any state, a handle looks up a sealed region at the end exactly if it did
      at the start or the run sealed it once it was shared. */
  lemma {:induction false} LookupTellsSealing(m: Memory, ops: seq<Op>, h: SharedMemoryHandle)
    requires Wf(m) && LookupShared(Run(m, ops).shared, h).Success?
    ensures LookupShared(Run(m, ops).shared, h).value.sealed <==>
              (LookupShared(m.shared, h).Success? && LookupShared(m.shared, h).value.sealed)
              || SealedOnceShared(m, ops, h.id)
    decreases |ops|
  {
    if ops != [] {
      LookupTellsSealing(Step(m, ops[0]), ops[1..], h);
      StepTellsSealing(m, ops[0], h);
    }
  }

  lemma StepTellsSealing(m: Memory, op: Op, h: SharedMemoryHandle)
    requires Wf(m)
    ensures var (before, after) := (LookupShared(m.shared, h), LookupShared(Step(m, op).shared, h));
            && (before.Success? ==> after.Success?)
            && (after.Success? ==>
                  (after.value.sealed <==>
                     (before.Success? && before.value.sealed) || (SealsId(op, h.id) && 1 <= h.id <= |m.shared|)))
  {
    match op
    case OpShare(owner, start, len, permissions) =>
      ShareIsExact(m.limits, m.shared, owner, start, len, permissions);
    case OpSeal(handle) => SealThenLookup(m.shared, handle, h);
    case _ =>
  }

  /** So a new manager looks a region up as sealed exactly if it was sealed after it was shared. */
  lemma NewManagerTellsSealing(ops: seq<Op>, h: SharedMemoryHandle)
    ensures Wf(INITIAL)
    ensures LookupShared(Run(INITIAL, ops).shared, h).Success? ==>
              (LookupShared(Run(INITIAL, ops).shared, h).value.sealed <==> SealedOnceShared(INITIAL, ops, h.id))
  {
    InitialIsWf();
    if LookupShared(Run(INITIAL, ops).shared, h).Success? { LookupTellsSealing(INITIAL, ops, h); }
  }
}
