/** The 64 record slots, and when they represent a finite map of live handles. */
module RecordTable {
  import opened Capabilities
  import M = RegistryModel

  datatype CapabilityRecord = CapabilityRecord(handle: M.CapabilityHandle, revoked: bool)

  const EMPTY_RECORD := CapabilityRecord(M.CapabilityHandle(0, 0, 0, 0), true)

  type LiveMap = map<M.Key, CapabilitySet>

  /** Slot i holds the live handle with key k. */
  ghost predicate Holds(records: seq<CapabilityRecord>, live: LiveMap, i: nat, k: M.Key) {
    && i < |records|
    && !records[i].revoked
    && M.KeyOf(records[i].handle) == k
    && k in live
    && live[k] == CapabilitySet(records[i].handle.rights)
  }

  /** The slots that may be written. */
  ghost function Free(records: seq<CapabilityRecord>): set<nat> {
    set i: nat | i < |records| && records[i].revoked
  }

  /** The table holds exactly the live handles, each in the slot recorded for it. */
  ghost predicate Represents(records: seq<CapabilityRecord>, live: LiveMap, slotOf: map<M.Key, nat>) {
    && |records| == M.MAX_CAPABILITY_RECORDS
    && slotOf.Keys == live.Keys
    && (forall k | k in slotOf :: Holds(records, live, slotOf[k], k))
    && (forall i | 0 <= i < |records| && !records[i].revoked :: Located(records, slotOf, i))
    && |Free(records)| + |live| == M.MAX_CAPABILITY_RECORDS
  }

  ghost predicate Located(records: seq<CapabilityRecord>, slotOf: map<M.Key, nat>, i: nat)
    requires i < |records|
  {
    var k := M.KeyOf(records[i].handle);
    k in slotOf && slotOf[k] == i
  }

  lemma {:induction false} AllFree(records: seq<CapabilityRecord>)
    requires forall i | 0 <= i < |records| :: records[i].revoked
    ensures |Free(records)| == |records|
  {
    if records == [] {
      assert Free(records) == {};
    } else {
      var last := |records| - 1;
      AllFree(records[..last]);
      assert Free(records) == Free(records[..last]) + {last};
    }
  }

  /** With no slot free, 64 handles are live. */
  lemma FullTable(records: seq<CapabilityRecord>, live: LiveMap, slotOf: map<M.Key, nat>)
    requires Represents(records, live, slotOf)
    requires forall i | 0 <= i < |records| :: !records[i].revoked
    ensures |live| == M.MAX_CAPABILITY_RECORDS
  {
  }

  /** A slot that `issue` accepts is a revoked one, and then fewer than 64 handles are live. */
  lemma FreeSlotMeansRoom(records: seq<CapabilityRecord>, g: M.Registry, slotOf: map<M.Key, nat>, slot: nat)
    requires Represents(records, g.live, slotOf) && M.Wf(g)
    requires slot < |records| && (records[slot].handle.id == 0 || records[slot].revoked)
    ensures records[slot].revoked
    ensures |g.live| < M.MAX_CAPABILITY_RECORDS
  {
    var k := M.KeyOf(records[slot].handle);
    assert k in g.live ==> M.LiveOk(g, k);
    assert slot in Free(records);
  }

  /** Writing a handle into a free slot keeps the representation. */
  lemma WriteKeepsRepresentation(
    records: seq<CapabilityRecord>, live: LiveMap, slotOf: map<M.Key, nat>, slot: nat, h: M.CapabilityHandle,
    records': seq<CapabilityRecord>, live': LiveMap, slotOf': map<M.Key, nat>)
    requires Represents(records, live, slotOf)
    requires slot < |records| && records[slot].revoked && M.KeyOf(h) !in live
    requires records' == records[slot := CapabilityRecord(h, false)]
    requires live' == live[M.KeyOf(h) := CapabilitySet(h.rights)] && slotOf' == slotOf[M.KeyOf(h) := slot]
    ensures Represents(records', live', slotOf')
  {
    var k := M.KeyOf(h);
    forall key | key in slotOf' ensures Holds(records', live', slotOf'[key], key) {
      assert key != k ==> Holds(records, live, slotOf[key], key);
    }
    forall i | 0 <= i < |records'| && !records'[i].revoked ensures Located(records', slotOf', i) {
      assert i != slot ==> Located(records, slotOf, i);
    }
    assert Free(records') == Free(records) - {slot};
  }

  /** Marking the slot of a live handle revoked keeps the representation. */
  lemma RevokeKeepsRepresentation(records: seq<CapabilityRecord>, live: LiveMap, slotOf: map<M.Key, nat>, k: M.Key)
    requires Represents(records, live, slotOf) && k in live
    ensures var slot := slotOf[k];
            && Holds(records, live, slot, k)
            && Represents(records[slot := records[slot].(revoked := true)], live - {k}, slotOf - {k})
  {
    var slot, live', slotOf' := slotOf[k], live - {k}, slotOf - {k};
    assert Holds(records, live, slot, k);
    var records' := records[slot := records[slot].(revoked := true)];
    assert live'.Keys == live.Keys - {k};
    forall key | key in slotOf' ensures Holds(records', live', slotOf'[key], key) {
      assert Holds(records, live, slotOf[key], key);
    }
    forall i | 0 <= i < |records'| && !records'[i].revoked ensures Located(records', slotOf', i) {
      assert Located(records, slotOf, i);
    }
    assert Free(records') == Free(records) + {slot};
  }

}

/** The registry as the kernel keeps it: record slots that are reused after revocation. */
module Registry {
  import opened Machine
  import opened Errors
  import opened Capabilities
  import opened RecordTable
  import M = RegistryModel

  class CapabilityRegistry {
    const records: array<CapabilityRecord>
    var nextId: u64
    var nextGeneration: u32
    /** The registry as a finite map, and the slot that holds each live handle. */
    ghost var model: M.Registry
    ghost var slotOf: map<M.Key, nat>

    ghost predicate Valid()
      reads this, records
    {
      && M.Wf(model)
      && Represents(records[..], model.live, slotOf)
      && nextId == |model.issued| + 1
      && nextGeneration == M.Generation(nextId)
    }

    constructor ()
      ensures Valid() && fresh(records)
      ensures model == M.EMPTY
    {
      records := new CapabilityRecord[M.MAX_CAPABILITY_RECORDS](_ => EMPTY_RECORD);
      nextId, nextGeneration := 1, 1;
      model, slotOf := M.EMPTY, map[];
      new;
      AllFree(records[..]);
    }

    /** The first slot whose live record has this key. */
    method FindLive(h: M.CapabilityHandle) returns (slot: Option<nat>)
      requires Valid()
      ensures slot.Some? <==> M.KeyOf(h) in model.live
      ensures slot.Some? ==> Holds(records[..], model.live, slot.value, M.KeyOf(h)) && slotOf[M.KeyOf(h)] == slot.value
    {
      ghost var k := M.KeyOf(h);
      for i := 0 to records.Length
        invariant forall j | 0 <= j < i :: records[j].revoked || M.KeyOf(records[j].handle) != k
      {
        if !records[i].revoked && records[i].handle.id == h.id && records[i].handle.generation == h.generation {
          assert Located(records[..], slotOf, i);
          assert Holds(records[..], model.live, slotOf[k], k);
          return Some(i);
        }
      }
      assert k in slotOf ==> Holds(records[..], model.live, slotOf[k], k);
      return None;
    }

    /** The first slot that may be written; there is none exactly when 64 handles are live. */
    method FindFree() returns (slot: Option<nat>)
      requires Valid()
      ensures slot.None? <==> |model.live| == M.MAX_CAPABILITY_RECORDS
      ensures slot.Some? ==> slot.value < records.Length && records[slot.value].revoked
    {
      for i := 0 to records.Length
        invariant forall j | 0 <= j < i :: !records[j].revoked
      {
        if records[i].handle.id == 0 || records[i].revoked {
          FreeSlotMeansRoom(records[..], model, slotOf, i);
          return Some(i);
        }
      }
      FullTable(records[..], model.live, slotOf);
      return None;
    }

    /** `parent` only annotates the history with where the rights came from. */
    method Issue(owner: TaskId, rights: CapabilitySet, ghost parent: Option<u64> := None)
      returns (r: Result<M.CapabilityHandle>)
      requires Valid()
      requires M.ParentAllows(model, parent, rights)
      modifies this, records
      ensures Valid()
      ensures (model, r) == M.Issue(old(model), owner, rights, parent)
    {
      var slot := FindFree();
      if slot.None? {
        return Failure(CapacityExceeded);
      }
      var successor := CheckedAdd(nextId, 1);
      if successor.None? {
        return Failure(Internal);
      }
      var handle := Store(slot.value, successor.value, owner, rights, parent);
      return Success(handle);
    }

    /** Writes a new handle into a free slot and moves the counters past it. */
    method Store(slot: nat, successor: u64, owner: TaskId, rights: CapabilitySet, ghost parent: Option<u64>)
      returns (handle: M.CapabilityHandle)
      requires Valid()
      requires slot < records.Length && records[slot].revoked
      requires |model.live| < M.MAX_CAPABILITY_RECORDS && successor == nextId + 1
      requires M.ParentAllows(model, parent, rights)
      modifies this, records
      ensures Valid()
      ensures (model, Success(handle)) == M.Issue(old(model), owner, rights, parent)
    {
      ghost var next := M.Issue(model, owner, rights, parent).0;
      M.IssueEffect(model, owner, rights, parent);
      handle := M.CapabilityHandle(nextId, rights.bits, owner, nextGeneration);
      M.FreshKey(model, M.KeyOf(handle));
      AdvanceCounters(successor);
      Write(slot, handle);
      model := next;
    }

    /** Moves both counters on; the generation starts over at one. */
    method AdvanceCounters(successor: u64)
      requires 1 <= nextId && successor == nextId + 1 && nextGeneration == M.Generation(nextId)
      modifies `nextId, `nextGeneration
      ensures nextId == successor && nextGeneration == M.Generation(successor)
    {
      M.NextGeneration(nextId);
      var generation := M.CheckedAdd32(nextGeneration);
      nextId := successor;
      nextGeneration := match generation case Some(g) => g case None => 1;
    }

    /** Makes a free slot hold a handle that is not live yet. */
    method Write(slot: nat, h: M.CapabilityHandle)
      requires Represents(records[..], model.live, slotOf)
      requires slot < records.Length && records[slot].revoked && M.KeyOf(h) !in model.live
      modifies records, `slotOf
      ensures Represents(records[..], model.live[M.KeyOf(h) := CapabilitySet(h.rights)], slotOf)
    {
      ghost var live := model.live[M.KeyOf(h) := CapabilitySet(h.rights)];
      records[slot] := CapabilityRecord(h, false);
      assert records[..] == old(records[..])[slot := CapabilityRecord(h, false)];
      slotOf := slotOf[M.KeyOf(h) := slot];
      WriteKeepsRepresentation(old(records[..]), model.live, old(slotOf), slot, h, records[..], live, slotOf);
    }

    method Derive(parent: M.CapabilityHandle, owner: TaskId, requested: CapabilitySet)
      returns (r: Result<M.CapabilityHandle>)
      requires Valid()
      modifies this, records
      ensures Valid()
      ensures (model, r) == M.Derive(old(model), parent, owner, requested)
    {
      var rights := Resolve(parent);
      if rights.Failure? { return Failure(rights.error); }
      var child := rights.value.Derive(requested);
      if child.Failure? { return Failure(child.error); }
      assert M.LiveOk(model, M.KeyOf(parent));
      r := Issue(owner, child.value, Some(parent.id));
    }

    method Revoke(h: M.CapabilityHandle) returns (r: Result<()>)
      requires Valid()
      modifies this, records
      ensures Valid()
      ensures (model, r) == M.Revoke(old(model), h)
    {
      var slot := FindLive(h);
      if slot.None? { return Failure(NotFound); }
      RevokeKeepsRepresentation(records[..], model.live, slotOf, M.KeyOf(h));
      var revoked := records[slot.value].(revoked := true);
      records[slot.value] := revoked;
      assert records[..] == old(records[..])[slot.value := revoked];
      model := M.Revoke(model, h).0;
      slotOf := slotOf - {M.KeyOf(h)};
      return Success(());
    }

    /** What a presented handle resolves to. */
    method Resolve(h: M.CapabilityHandle) returns (r: Result<CapabilitySet>)
      requires Valid()
      ensures r == M.Resolve(model, h)
    {
      if h.id == 0 { return Failure(NotFound); }
      var slot := FindLive(h);
      if slot.None? { return Failure(NotFound); }
      return FromBits(records[slot.value].handle.rights);
    }
  }
}
