/** Capabilities, rights, and the per-task capability space (src/capability.rs). */
module Capabilities {
  import opened Prelude

  datatype ResourceType = Memory | Interrupt | Thread | Endpoint | WasmModule

  datatype Rights = Rights(read: bool, write: bool, execute: bool, grant: bool) {
    predicate Has(other: Rights) {
      && (!other.read || read)
      && (!other.write || write)
      && (!other.execute || execute)
      && (!other.grant || grant)
    }

    function Derive(requested: Rights): Option<Rights> {
      if Has(requested) then Some(requested) else None
    }
  }

  const NONE := Rights(false, false, false, false)

  datatype Capability = Capability(id: u64, resourceType: ResourceType, resourceId: u64, rights: Rights) {
    function Derive(newId: u64, newRights: Rights): Option<Capability> {
      match rights.Derive(newRights)
      case Some(granted) => Some(Capability(newId, resourceType, resourceId, granted))
      case None => None
    }

    /** This capability names the same resource as `source` and carries no right that `source` lacks. */
    predicate NoStrongerThan(source: Capability) {
      && resourceType == source.resourceType
      && resourceId == source.resourceId
      && source.rights.Has(rights)
    }
  }

  /** The value of a capability space; also what a cloned snapshot holds. */
  datatype CapSpace = CapSpace(caps: map<u64, Capability>, nextId: u64) {

    function Inserted(cap: Capability): CapSpace {
      this.(caps := caps[cap.id := cap])
    }

    function Revoked(id: u64): CapSpace {
      this.(caps := caps - {id})
    }

    function Created(resourceType: ResourceType, resourceId: u64, rights: Rights): CapSpace {
      CapSpace(caps[nextId := Capability(nextId, resourceType, resourceId, rights)], Bumped(nextId))
    }

    /** The derived capability, if the source exists and has the rights asked for. */
    function Derivation(sourceId: u64, rights: Rights): Option<Capability> {
      if sourceId in caps then caps[sourceId].Derive(nextId, rights) else None
    }

    /** A refused derivation still uses up an id once its source was found. */
    function Derived(sourceId: u64, rights: Rights): CapSpace {
      if sourceId !in caps then this
      else match Derivation(sourceId, rights)
        case Some(cap) => CapSpace(caps[nextId := cap], Bumped(nextId))
        case None => this.(nextId := Bumped(nextId))
    }

    /** Every entry sits under its own id, and every id was handed out by the counter. */
    ghost predicate WellFormed() {
      forall id :: id in caps ==> id < nextId && caps[id].id == id
    }

    /** Some entry is an endpoint capability for `e` whose rights satisfy `needed`. */
    ghost predicate Authorises(e: u64, needed: Rights) {
      exists id :: id in caps && caps[id].resourceType == Endpoint && caps[id].resourceId == e
        && caps[id].rights.Has(needed)
    }
  }

  predicate IsFor(cap: Capability, e: u64) {
    cap.resourceType == Endpoint && cap.resourceId == e
  }

  /** Some entry allows sending to endpoint `e`. */
  ghost predicate MayWrite(cs: CapSpace, e: u64) {
    exists id :: id in cs.caps && IsFor(cs.caps[id], e) && cs.caps[id].rights.write
  }

  /** Some entry allows receiving from endpoint `e`. */
  ghost predicate MayRead(cs: CapSpace, e: u64) {
    exists id :: id in cs.caps && IsFor(cs.caps[id], e) && cs.caps[id].rights.read
  }

  lemma MayWriteIsAuthority(cs: CapSpace, e: u64)
    ensures MayWrite(cs, e) <==> cs.Authorises(e, Rights(false, true, false, false))
    ensures MayRead(cs, e) <==> cs.Authorises(e, Rights(true, false, false, false))
  {
    assert forall r: Rights :: r.Has(Rights(false, true, false, false)) == r.write;
    assert forall r: Rights :: r.Has(Rights(true, false, false, false)) == r.read;
  }

  const EMPTY := CapSpace(map[], 1)

  class CSpace {
    var capabilities: map<u64, Capability>
    var nextId: u64

    function State(): CapSpace
      reads this
    {
      CapSpace(capabilities, nextId)
    }

    constructor ()
      ensures State() == EMPTY
    {
      capabilities := map[];
      nextId := 1;
    }

    method Insert(capability: Capability) returns (id: u64)
      modifies this
      ensures State() == old(State()).Inserted(capability)
      ensures capabilities == old(capabilities)[capability.id := capability] && nextId == old(nextId)
      ensures id == capability.id
    {
      id := capability.id;
      capabilities := capabilities[id := capability];
    }

    method Get(id: u64) returns (r: Option<Capability>)
      ensures r.Some? <==> id in capabilities
      ensures r.Some? ==> r.value == capabilities[id]
    {
      if id in capabilities {
        return Some(capabilities[id]);
      }
      return None;
    }

    method Revoke(id: u64) returns (r: Option<Capability>)
      modifies this
      ensures State() == old(State()).Revoked(id)
      ensures capabilities == old(capabilities) - {id} && nextId == old(nextId)
      ensures r.Some? <==> id in old(capabilities)
      ensures r.Some? ==> r.value == old(capabilities)[id]
    {
      r := Get(id);
      capabilities := capabilities - {id};
    }

    method Create(resourceType: ResourceType, resourceId: u64, rights: Rights) returns (id: u64)
      modifies this
      ensures State() == old(State()).Created(resourceType, resourceId, rights)
      ensures id == old(nextId) && nextId == (old(nextId) + 1) % TWO_64
      ensures capabilities == old(capabilities)[id := Capability(id, resourceType, resourceId, rights)]
    {
      id := nextId;
      nextId := Bumped(nextId);
      var _ := Insert(Capability(id, resourceType, resourceId, rights));
    }

    method Derive(sourceId: u64, newRights: Rights) returns (id: Option<u64>)
      modifies this
      ensures State() == old(State()).Derived(sourceId, newRights)
      ensures id == if old(State()).Derivation(sourceId, newRights).Some? then Some(old(nextId)) else None
      ensures var caps := old(capabilities);
        && nextId == (if sourceId in caps then (old(nextId) + 1) % TWO_64 else old(nextId))
        && (id.Some? <==> sourceId in caps && caps[sourceId].rights.Has(newRights))
        && (id.None? ==> capabilities == caps)
        && (id.Some? ==>
              var source := caps[sourceId];
              capabilities == caps[id.value := Capability(id.value, source.resourceType, source.resourceId, newRights)])
    {
      var source := Get(sourceId);
      if source.None? {
        return None;
      }
      var newId := nextId;
      nextId := Bumped(nextId);
      var derived := source.value.Derive(newId, newRights);
      if derived.None? {
        return None;
      }
      var _ := Insert(derived.value);
      return Some(newId);
    }
  }

  datatype Right = Read | Write | Execute | Grant

  /** The rights as a set. */
  function RightSet(r: Rights): set<Right> {
    (if r.read then {Read} else {}) + (if r.write then {Write} else {})
    + (if r.execute then {Execute} else {}) + (if r.grant then {Grant} else {})
  }

  /** `Has` is inclusion of the rights as sets, and rights are determined by their set. */
  lemma HasIsInclusion(a: Rights, b: Rights)
    ensures a.Has(b) <==> RightSet(b) <= RightSet(a)
    ensures a == b <==> RightSet(a) == RightSet(b)
  {
    assert forall r: Rights ::
      && (Read in RightSet(r) <==> r.read) && (Write in RightSet(r) <==> r.write)
      && (Execute in RightSet(r) <==> r.execute) && (Grant in RightSet(r) <==> r.grant);
  }

  /**
   * A derivation succeeds exactly when its source exists and has every right asked for, and then delivers
   * exactly those: the new entry names the source's resource and satisfies what the request satisfies. A
   * refusal adds nothing, but uses up an id if the source exists.
   */
  lemma DerivedCarriesTheRequest(cs: CapSpace, sourceId: u64, requested: Rights, x: Rights)
    ensures cs.Derivation(sourceId, requested).Some?
      <==> sourceId in cs.caps && RightSet(requested) <= RightSet(cs.caps[sourceId].rights)
    ensures cs.Derived(sourceId, requested).nextId
      == if sourceId in cs.caps then (cs.nextId + 1) % TWO_64 else cs.nextId
    ensures cs.Derivation(sourceId, requested).None? ==> cs.Derived(sourceId, requested).caps == cs.caps
    ensures cs.Derivation(sourceId, requested).Some? ==>
      var after, source := cs.Derived(sourceId, requested).caps, cs.caps[sourceId];
      && cs.nextId in after && after[cs.nextId].id == cs.nextId
      && after[cs.nextId].resourceType == source.resourceType && after[cs.nextId].resourceId == source.resourceId
      && (after[cs.nextId].rights.Has(x) <==> requested.Has(x))
  {
    if sourceId in cs.caps {
      HasIsInclusion(cs.caps[sourceId].rights, requested);
    }
  }

  /** Rights form a partial order under `Has`, and deriving succeeds exactly downwards in it. */
  lemma RightsOrder(a: Rights, b: Rights, c: Rights)
    ensures a.Has(a)
    ensures a.Has(b) && b.Has(a) ==> a == b
    ensures a.Has(b) && b.Has(c) ==> a.Has(c)
    ensures a.Derive(b) == if a.Has(b) then Some(b) else None
  {
  }

  /** `Insert` takes any id, so it keeps a space well formed exactly when the id was already handed out. */
  lemma InsertKeepsWellFormedExactly(cs: CapSpace, cap: Capability)
    requires cs.WellFormed()
    ensures cs.Inserted(cap).WellFormed() <==> cap.id < cs.nextId
  {
    if cs.Inserted(cap).WellFormed() {
      assert cap.id in cs.Inserted(cap).caps;
    }
  }

  /**
   * A successful derivation leaves every earlier entry as it was exactly when the counter's next id
   * is unused, or already holds the very capability being derived.
   */
  lemma DeriveKeepsEntriesExactly(cs: CapSpace, sourceId: u64, rights: Rights)
    requires cs.Derivation(sourceId, rights).Some?
    ensures
      (forall id :: id in cs.caps ==> cs.Derived(sourceId, rights).caps[id] == cs.caps[id])
      <==> (cs.nextId in cs.caps ==> cs.caps[cs.nextId] == cs.Derivation(sourceId, rights).value)
  {
    var after := cs.Derived(sourceId, rights).caps;
    if cs.nextId in cs.caps {
      assert after[cs.nextId] == cs.Derivation(sourceId, rights).value;
    }
  }

  /**
   * The boot code inserts id 1 while the counter still stands at 1, so the task's first derivation
   * replaces the granted capability, be it the receiver's or the sender's: asking for no rights at all
   * destroys every right the task had.
   */
  lemma BootInsertIsOverwritten(rights: Rights, needed: Rights)
    ensures var boot := EMPTY.Inserted(Capability(1, Endpoint, 100, rights));
      && !boot.WellFormed()
      && boot.Derivation(1, NONE).Some?
      && (boot.Authorises(100, needed) <==> rights.Has(needed))
      && (boot.Derived(1, NONE).Authorises(100, needed) <==> needed == NONE)
  {
    var boot := EMPTY.Inserted(Capability(1, Endpoint, 100, rights));
    assert 1 in boot.caps;
    assert boot.Derived(1, NONE).caps == map[1 := Capability(1, Endpoint, 100, NONE)];
    assert 1 in boot.Derived(1, NONE).caps;
  }
}
