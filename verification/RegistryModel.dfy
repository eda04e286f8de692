/** What the capability registry means: every handle ever issued, and the finite map from
    the live handles to their rights. The theorems are about arbitrary runs of it. */
module RegistryModel {
  import opened Machine
  import opened Errors
  import opened Capabilities
  import Bits

  const MAX_CAPABILITY_RECORDS := 64

  datatype CapabilityHandle = CapabilityHandle(id: u64, rights: u64, owner: TaskId, generation: u32)

  /** What identifies a handle to the registry. */
  type Key = (u64, u32)

  function KeyOf(h: CapabilityHandle): Key {
    (h.id, h.generation)
  }

  /** One issued handle, with the identifier of the handle it was derived from. */
  datatype Issued = Issued(handle: CapabilityHandle, parent: Option<u64>) {
    function Rights(): CapabilitySet {
      CapabilitySet(handle.rights)
    }
  }

  /** issued[i] is the handle with identifier i + 1. */
  datatype Registry = Registry(issued: seq<Issued>, live: map<Key, CapabilitySet>)

  const EMPTY := Registry([], map[])

  /** The generation given to an identifier: the counter counts 1 .. 2^32 - 1 and starts over. */
  function Generation(id: u64): u32
    requires id >= 1
  {
    (id - 1) % U32_MAX + 1
  }

  lemma NextGeneration(id: u64)
    requires 1 <= id < U64_MAX
    ensures Generation(id + 1) == (match CheckedAdd32(Generation(id)) case Some(g) => g case None => 1)
  {
  }

  function CheckedAdd32(x: u32): Option<u32> {
    if x + 1 <= U32_MAX then Some(x + 1) else None
  }

  ghost predicate Wf(g: Registry) {
    && |g.issued| + 1 <= U64_MAX
    && |g.live| <= MAX_CAPABILITY_RECORDS
    && (forall i | 0 <= i < |g.issued| :: IssueOk(g.issued, i))
    && (forall k | k in g.live :: LiveOk(g, k))
  }

  /** The record of identifier i + 1 is numbered so, and does not exceed its parent's rights. */
  ghost predicate IssueOk(issued: seq<Issued>, i: nat)
    requires i < |issued|
    requires |issued| + 1 <= U64_MAX
  {
    var e := issued[i];
    && KeyOf(e.handle) == (i + 1, Generation(i + 1))
    && (e.parent.Some? ==>
          && 1 <= e.parent.value <= i
          && issued[e.parent.value - 1].Rights().ContainsAll(e.Rights()))
  }

  ghost predicate LiveOk(g: Registry, k: Key)
    requires k in g.live
  {
    && 1 <= k.0 <= |g.issued|
    && k == KeyOf(g.issued[k.0 - 1].handle)
    && g.live[k] == g.issued[k.0 - 1].Rights()
  }

  /** A key not issued yet is not live. */
  lemma FreshKey(g: Registry, k: Key)
    requires Wf(g) && k.0 > |g.issued|
    ensures k !in g.live
  {
  }

  function Resolve(g: Registry, h: CapabilityHandle): Result<CapabilitySet> {
    if h.id != 0 && KeyOf(h) in g.live then FromBits(g.live[KeyOf(h)].bits) else Failure(NotFound)
  }

  /** The rights are no more than those of the parent, when there is one. */
  ghost predicate ParentAllows(g: Registry, parent: Option<u64>, rights: CapabilitySet) {
    parent.Some? ==> 1 <= parent.value <= |g.issued| && g.issued[parent.value - 1].Rights().ContainsAll(rights)
  }

  lemma IssueKeepsWf(g: Registry, h: CapabilityHandle, rights: CapabilitySet, parent: Option<u64>)
    requires Wf(g) && ParentAllows(g, parent, rights)
    requires |g.live| < MAX_CAPABILITY_RECORDS && |g.issued| + 1 < U64_MAX
    requires KeyOf(h) == (|g.issued| + 1, Generation(|g.issued| + 1)) && h.rights == rights.bits
    ensures Wf(Registry(g.issued + [Issued(h, parent)], g.live[KeyOf(h) := rights]))
  {
    var next := Registry(g.issued + [Issued(h, parent)], g.live[KeyOf(h) := rights]);
    FreshKey(g, KeyOf(h));
    forall i | 0 <= i < |next.issued| ensures IssueOk(next.issued, i) {
      if i < |g.issued| { assert IssueOk(g.issued, i); }
    }
    forall k | k in next.live ensures LiveOk(next, k) {
      if k != KeyOf(h) { assert LiveOk(g, k); }
    }
  }

  function Issue(g: Registry, owner: TaskId, rights: CapabilitySet, parent: Option<u64>)
    : (r: (Registry, Result<CapabilityHandle>))
    requires Wf(g)
    requires ParentAllows(g, parent, rights)
    ensures Wf(r.0)
  {
    if |g.live| == MAX_CAPABILITY_RECORDS then (g, Failure(CapacityExceeded))
    else if |g.issued| + 1 == U64_MAX then (g, Failure(Internal))
    else
      var id := |g.issued| + 1;
      var h := CapabilityHandle(id, rights.bits, owner, Generation(id));
      var issued := g.issued + [Issued(h, parent)];
      IssueKeepsWf(g, h, rights, parent);
      (Registry(issued, g.live[KeyOf(h) := rights]), Success(h))
  }

  /** An issue that there is room for, spelled out. */
  lemma IssueEffect(g: Registry, owner: TaskId, rights: CapabilitySet, parent: Option<u64>)
    requires Wf(g) && ParentAllows(g, parent, rights)
    requires |g.live| < MAX_CAPABILITY_RECORDS && |g.issued| + 1 < U64_MAX
    ensures var id := |g.issued| + 1;
            var h := CapabilityHandle(id, rights.bits, owner, Generation(id));
            Issue(g, owner, rights, parent)
            == (Registry(g.issued + [Issued(h, parent)], g.live[KeyOf(h) := rights]), Success(h))
  {
  }

  function Derive(g: Registry, parent: CapabilityHandle, owner: TaskId, requested: CapabilitySet)
    : (r: (Registry, Result<CapabilityHandle>))
    requires Wf(g)
    ensures Wf(r.0)
  {
    match Resolve(g, parent)
    case Failure(e) => (g, Failure(e))
    case Success(rights) =>
      match rights.Derive(requested)
      case Failure(e) => (g, Failure(e))
      case Success(child) =>
        assert LiveOk(g, KeyOf(parent));
        Issue(g, owner, child, Some(parent.id))
  }

  function Revoke(g: Registry, h: CapabilityHandle): (r: (Registry, Result<()>))
    requires Wf(g)
    ensures Wf(r.0)
  {
    if KeyOf(h) in g.live then
      var next := g.(live := g.live - {KeyOf(h)});
      assert next.live.Keys == g.live.Keys - {KeyOf(h)};
      assert forall k | k in next.live :: LiveOk(g, k) ==> LiveOk(next, k);
      (next, Success(()))
    else (g, Failure(NotFound))
  }

  datatype Op =
    | OpIssue(owner: TaskId, rights: CapabilitySet)
    | OpDerive(parent: CapabilityHandle, owner: TaskId, requested: CapabilitySet)
    | OpRevoke(handle: CapabilityHandle)

  function Step(g: Registry, op: Op): (g': Registry)
    requires Wf(g)
    ensures Wf(g')
  {
    match op
    case OpIssue(owner, rights) => Issue(g, owner, rights, None).0
    case OpDerive(parent, owner, requested) => Derive(g, parent, owner, requested).0
    case OpRevoke(h) => Revoke(g, h).0
  }

  function Run(g: Registry, ops: seq<Op>): (g': Registry)
    requires Wf(g)
    ensures Wf(g')
    decreases |ops|
  {
    if ops == [] then g else Run(Step(g, ops[0]), ops[1..])
  }

  /** No step rewrites the record of an issued handle, and no failing operation changes anything. */
  lemma StepExtends(g: Registry, op: Op)
    requires Wf(g)
    ensures g.issued <= Step(g, op).issued
    ensures op.OpIssue? && Issue(g, op.owner, op.rights, None).1.Failure? ==> Step(g, op) == g
    ensures op.OpDerive? && Derive(g, op.parent, op.owner, op.requested).1.Failure? ==> Step(g, op) == g
    ensures op.OpRevoke? && Revoke(g, op.handle).1.Failure? ==> Step(g, op) == g
  {
  }

  lemma {:induction false} RunExtends(g: Registry, ops: seq<Op>)
    requires Wf(g)
    ensures g.issued <= Run(g, ops).issued
    decreases |ops|
  {
    if ops != [] {
      StepExtends(g, ops[0]);
      RunExtends(Step(g, ops[0]), ops[1..]);
    }
  }

  /** Handle a is handle d, or d was derived from it in one or more steps. */
  ghost predicate Ancestor(g: Registry, a: u64, d: u64)
    requires Wf(g) && 1 <= d <= |g.issued|
    decreases d
  {
    assert IssueOk(g.issued, d - 1);
    a == d || (g.issued[d - 1].parent.Some? && Ancestor(g, a, g.issued[d - 1].parent.value))
  }

  /** Attenuation: along every derivation chain of every run, a handle's rights are contained
      in those of each of its ancestors, so no authority is ever gained by deriving. */
  lemma {:induction false} RightsAttenuate(g: Registry, a: u64, d: u64)
    requires Wf(g) && 1 <= d <= |g.issued|
    requires Ancestor(g, a, d)
    ensures 1 <= a <= d
    ensures g.issued[a - 1].Rights().ContainsAll(g.issued[d - 1].Rights())
    ensures g.issued[a - 1].Rights().Known() ==> g.issued[d - 1].Rights().Known()
    ensures NoMoreThan(g.issued[d - 1].Rights(), g.issued[a - 1].Rights())
    decreases d
  {
    var top, bottom := g.issued[d - 1].Rights(), g.issued[d - 1].Rights();
    if a == d {
      ContainmentIsReflexive(bottom);
    } else {
      assert IssueOk(g.issued, d - 1);
      var p := g.issued[d - 1].parent.value;
      RightsAttenuate(g, a, p);
      top := g.issued[a - 1].Rights();
      ContainmentIsTransitive(top, g.issued[p - 1].Rights(), bottom);
      if top.Known() { ContainedStaysKnown(top, bottom); }
    }
    forall x: Capability | bottom.Contains(x) ensures top.Contains(x) {
      ContainedAddsNoAuthority(top, bottom, x);
    }
  }

  /** Whether some operation of the run revokes the handle with this key. */
  ghost predicate RevokedIn(ops: seq<Op>, k: Key) {
    exists i | 0 <= i < |ops| :: ops[i].OpRevoke? && KeyOf(ops[i].handle) == k
  }

  lemma {:induction false} LiveUntilRevoked(g: Registry, ops: seq<Op>, k: Key)
    requires Wf(g) && k in g.live
    ensures k in Run(g, ops).live <==> !RevokedIn(ops, k)
    decreases |ops|
  {
    if ops != [] {
      var g' := Step(g, ops[0]);
      if k in g'.live {
        assert !(ops[0].OpRevoke? && KeyOf(ops[0].handle) == k);
        LiveUntilRevoked(g', ops[1..], k);
        RevokedInTail(ops, k);
      } else {
        assert LiveOk(g, k);
        StepExtends(g, ops[0]);
        RevokedIsDead(g, ops[0].handle);
        DeadStaysDead(g', ops[1..], k.0);
      }
    }
  }

  lemma RevokedInTail(ops: seq<Op>, k: Key)
    requires ops != [] && !(ops[0].OpRevoke? && KeyOf(ops[0].handle) == k)
    ensures RevokedIn(ops, k) <==> RevokedIn(ops[1..], k)
  {
  }

  /** No live key carries identifier id. */
  ghost predicate Dead(g: Registry, id: u64) {
    forall k | k in g.live :: k.0 != id
  }

  lemma RevokedIsDead(g: Registry, h: CapabilityHandle)
    requires Wf(g) && KeyOf(h) in g.live
    ensures Dead(Revoke(g, h).0, h.id)
  {
  }

  /** Identifiers are never given out twice, so a dead one stays dead whatever slots are reused
      and however often the generation counter wraps. */
  lemma {:induction false} DeadStaysDead(g: Registry, ops: seq<Op>, id: u64)
    requires Wf(g) && 1 <= id <= |g.issued| && Dead(g, id)
    ensures Dead(Run(g, ops), id)
    decreases |ops|
  {
    if ops != [] {
      StepExtends(g, ops[0]);
      DeadStaysDead(Step(g, ops[0]), ops[1..], id);
    }
  }

  /** Revocation is permanent: after a successful revoke, no handle presented with that
      identifier, whatever its other fields, ever resolves again. */
  lemma RevocationIsPermanent(g: Registry, h: CapabilityHandle, ops: seq<Op>, presented: CapabilityHandle)
    requires Wf(g) && Revoke(g, h).1.Success?
    requires presented.id == h.id
    ensures Resolve(Run(Revoke(g, h).0, ops), presented) == Failure(NotFound)
  {
    assert LiveOk(g, KeyOf(h));
    RevokedIsDead(g, h);
    DeadStaysDead(Revoke(g, h).0, ops, h.id);
  }

  /** A live handle of known rights, however it was issued, resolves after any run to exactly the
      rights recorded when it was issued, whatever rights and owner the presenter claims, unless
      the run has revoked it. */
  lemma ResolveReturnsIssuedRights(g: Registry, k: Key, ops: seq<Op>, presented: CapabilityHandle)
    requires Wf(g) && k in g.live && g.live[k].Known()
    requires KeyOf(presented) == k
    ensures 1 <= k.0 <= |g.issued| && g.live[k] == g.issued[k.0 - 1].Rights()
    ensures Resolve(Run(g, ops), presented)
            == if RevokedIn(ops, k) then Failure(NotFound) else Success(g.issued[k.0 - 1].Rights())
  {
    assert LiveOk(g, k);
    LiveUntilRevoked(g, ops, k);
    RunExtends(g, ops);
    if k in Run(g, ops).live {
      assert LiveOk(Run(g, ops), k);
      assert g.issued[k.0 - 1] == Run(g, ops).issued[k.0 - 1];
    }
  }

  /** So does a root handle, */
  lemma RootResolvesOverRuns(
    g: Registry, owner: TaskId, rights: CapabilitySet, ops: seq<Op>, presented: CapabilityHandle)
    requires Wf(g) && rights.Known()
    requires Issue(g, owner, rights, None).1.Success?
    requires KeyOf(presented) == KeyOf(Issue(g, owner, rights, None).1.value)
    ensures Resolve(Run(Issue(g, owner, rights, None).0, ops), presented)
            == if RevokedIn(ops, KeyOf(presented)) then Failure(NotFound) else Success(rights)
  {
    ResolveReturnsIssuedRights(Issue(g, owner, rights, None).0, KeyOf(presented), ops, presented);
  }

  /** and a derived one, independently of what happens to its parent. */
  lemma DerivedResolvesOverRuns(
    g: Registry, parent: CapabilityHandle, owner: TaskId, requested: CapabilitySet, ops: seq<Op>,
    presented: CapabilityHandle)
    requires Wf(g) && Derive(g, parent, owner, requested).1.Success?
    requires KeyOf(presented) == KeyOf(Derive(g, parent, owner, requested).1.value)
    ensures Resolve(Run(Derive(g, parent, owner, requested).0, ops), presented)
            == if RevokedIn(ops, KeyOf(presented)) then Failure(NotFound) else Success(requested)
  {
    DeriveIsAttenuated(g, parent, owner, requested);
    ResolveReturnsIssuedRights(Derive(g, parent, owner, requested).0, KeyOf(presented), ops, presented);
  }

  /** Deriving through a live parent never widens it, and what it returns is what resolves. */
  lemma DeriveIsAttenuated(g: Registry, parent: CapabilityHandle, owner: TaskId, requested: CapabilitySet)
    requires Wf(g) && Derive(g, parent, owner, requested).1.Success?
    ensures var (g', r) := Derive(g, parent, owner, requested);
            && Resolve(g, parent).Success?
            && Resolve(g, parent).value.ContainsAll(requested)
            && Resolve(g', r.value) == Success(requested)
            && Resolve(g', parent) == Resolve(g, parent)
            && Ancestor(g', parent.id, r.value.id)
  {
    var (g', r) := Derive(g, parent, owner, requested);
    assert LiveOk(g, KeyOf(parent));
    ContainedStaysKnown(Resolve(g, parent).value, requested);
    assert IssueOk(g'.issued, r.value.id - 1);
    assert g'.issued[r.value.id - 1].parent == Some(parent.id);
    assert Ancestor(g', parent.id, parent.id);
  }

  // ---------------------------------------------------------------- outcomes

  /** Every bit of the second mask is a bit of the first. */
  ghost predicate HasEveryBit(a: u64, b: u64) {
    forall k: nat :: Bits.TestBit(b, k) ==> Bits.TestBit(a, k)
  }

  /** Resolving gives the rights recorded at issue exactly if the handle is live and they are below
      2^15; a live handle of other rights is refused for its reserved bits. */
  lemma ResolveIsExact(g: Registry, h: CapabilityHandle)
    requires Wf(g)
    ensures KeyOf(h) in g.live ==> 1 <= h.id <= |g.issued|
    ensures Resolve(g, h)
            == if KeyOf(h) !in g.live then Failure(NotFound)
               else if g.issued[h.id - 1].handle.rights >= 0x8000 then Failure(ReservedBits)
               else Success(CapabilitySet(g.issued[h.id - 1].handle.rights))
  {
    if KeyOf(h) in g.live {
      assert LiveOk(g, KeyOf(h));
      KnownIsLowBits(g.live[KeyOf(h)]);
    }
  }

  /** The handle that the next issue returns. */
  function NextHandle(g: Registry, owner: TaskId, bits: u64): CapabilityHandle
    requires Wf(g)
  {
    CapabilityHandle(|g.issued| + 1, bits, owner, |g.issued| % 0xffff_ffff + 1)
  }

  /** Issuing succeeds exactly while fewer than 64 handles are live and identifiers are left. It
      then returns the next identifier with the rights and the owner it was given, live from now on,
      and leaves every other handle as it was; otherwise it changes nothing. */
  lemma IssueIsExact(g: Registry, owner: TaskId, rights: CapabilitySet)
    requires Wf(g)
    ensures var (g', r) := Issue(g, owner, rights, None);
            && r == (if |g.live| == 64 then Failure(CapacityExceeded)
                     else if |g.issued| == 0xffff_ffff_ffff_fffe then Failure(Internal)
                     else Success(NextHandle(g, owner, rights.bits)))
            && g' == (if r.Failure? then g
                      else Registry(g.issued + [Issued(r.value, None)], g.live[KeyOf(r.value) := rights]))
  {
    if |g.live| < MAX_CAPABILITY_RECORDS && |g.issued| + 1 < U64_MAX { IssueEffect(g, owner, rights, None); }
  }

  /** Deriving succeeds exactly if the parent is live with known rights, has every bit that is
      requested, and there is room for another handle. The new handle carries the requested rights,
      the given owner and the next identifier, and is the parent's child. Every failure has its
      own cause, looked for in this order, and changes nothing. */
  lemma DeriveIsExact(g: Registry, parent: CapabilityHandle, owner: TaskId, requested: CapabilitySet)
    requires Wf(g)
    ensures KeyOf(parent) in g.live ==> 1 <= parent.id <= |g.issued|
    ensures var (g', r) := Derive(g, parent, owner, requested);
            && r == (if KeyOf(parent) !in g.live then Failure(NotFound)
                     else if g.issued[parent.id - 1].handle.rights >= 0x8000 then Failure(ReservedBits)
                     else if !HasEveryBit(g.issued[parent.id - 1].handle.rights, requested.bits)
                     then Failure(MissingCapability)
                     else if |g.live| == 64 then Failure(CapacityExceeded)
                     else if |g.issued| == 0xffff_ffff_ffff_fffe then Failure(Internal)
                     else Success(NextHandle(g, owner, requested.bits)))
            && g' == (if r.Failure? then g
                      else Registry(g.issued + [Issued(r.value, Some(parent.id))],
                                    g.live[KeyOf(r.value) := requested]))
  {
    ResolveIsExact(g, parent);
    if Resolve(g, parent).Success? {
      var rights := Resolve(g, parent).value;
      Bits.MaskContained(rights.bits, requested.bits);
      if rights.ContainsAll(requested) && |g.live| < MAX_CAPABILITY_RECORDS && |g.issued| + 1 < U64_MAX {
        assert LiveOk(g, KeyOf(parent));
        IssueEffect(g, owner, requested, Some(parent.id));
      }
    }
  }

  /** Revoking succeeds exactly if the handle is live, and then that handle alone is not. */
  lemma RevokeIsExact(g: Registry, h: CapabilityHandle, k: Key)
    requires Wf(g)
    ensures var (g', r) := Revoke(g, h);
            && r == (if KeyOf(h) in g.live then Success(()) else Failure(NotFound))
            && g'.issued == g.issued
            && (k in g'.live <==> k in g.live && k != KeyOf(h))
            && (k in g'.live ==> g'.live[k] == g.live[k])
  {
  }

  /** In particular the rights of a live handle derive whole, and so does the empty set. */
  lemma EqualRightsDerive(g: Registry, parent: CapabilityHandle, owner: TaskId, requested: CapabilitySet)
    requires Wf(g) && KeyOf(parent) in g.live && g.live[KeyOf(parent)].bits < 0x8000
    requires requested == g.live[KeyOf(parent)] || requested == EMPTY_SET
    requires |g.live| < 64 && |g.issued| < 0xffff_ffff_ffff_fffe
    ensures Derive(g, parent, owner, requested).1 == Success(NextHandle(g, owner, requested.bits))
  {
    assert LiveOk(g, KeyOf(parent));
    forall k: nat | Bits.TestBit(EMPTY_SET.bits, k) ensures false { Bits.ZeroHasNoBits(k); }
    DeriveIsExact(g, parent, owner, requested);
  }
}
