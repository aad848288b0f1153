/** Capability spaces over whole runs of the kernel's own operations (src/capability.rs). */
module SpaceRuns {
  import opened Prelude
  import opened Capabilities

  datatype Op =
    | Create(resourceType: ResourceType, resourceId: u64, rights: Rights)
    | Derive(sourceId: u64, requested: Rights)
    | Revoke(id: u64)

  function Step(cs: CapSpace, op: Op): CapSpace {
    match op
    case Create(resourceType, resourceId, rights) => cs.Created(resourceType, resourceId, rights)
    case Derive(sourceId, requested) => cs.Derived(sourceId, requested)
    case Revoke(id) => cs.Revoked(id)
  }

  function Run(cs: CapSpace, ops: seq<Op>): CapSpace
    decreases |ops|
  {
    if ops == [] then cs else Run(Step(cs, ops[0]), ops[1..])
  }

  /** How many ids a run uses up, those of refused derivations included. */
  function IdsUsed(cs: CapSpace, ops: seq<Op>): nat
    decreases |ops|
  {
    if ops == [] then 0
    else (if Step(cs, ops[0]).nextId == cs.nextId then 0 else 1) + IdsUsed(Step(cs, ops[0]), ops[1..])
  }

  /** The id an operation hands out. */
  function Issued(cs: CapSpace, op: Op): seq<u64> {
    if op.Create? || (op.Derive? && cs.Derivation(op.sourceId, op.requested).Some?) then [cs.nextId] else []
  }

  function IssuedLog(cs: CapSpace, ops: seq<Op>): seq<u64>
    decreases |ops|
  {
    if ops == [] then [] else Issued(cs, ops[0]) + IssuedLog(Step(cs, ops[0]), ops[1..])
  }

  lemma StepKeeps(cs: CapSpace, op: Op)
    requires cs.WellFormed() && cs.nextId + IdsUsed(cs, [op]) < TWO_64
    ensures Step(cs, op).WellFormed() && Step(cs, op).nextId == cs.nextId + IdsUsed(cs, [op])
    ensures forall id :: id in Step(cs, op).caps && id < cs.nextId ==>
      id in cs.caps && Step(cs, op).caps[id] == cs.caps[id]
    ensures forall id :: id in Issued(cs, op) ==> id == cs.nextId && id < Step(cs, op).nextId
  {
    assert IdsUsed(Step(cs, op), []) == 0;
  }

  /**
   * While the counter does not wrap, an id it has already handed out can only keep the capability it
   * names or lose it for good: neither creation nor derivation overwrites an entry, and a revoked id
   * never resolves again.
   */
  lemma {:induction false} NoResurrection(cs: CapSpace, ops: seq<Op>, id: u64)
    requires cs.WellFormed() && cs.nextId + IdsUsed(cs, ops) < TWO_64
    requires id < cs.nextId
    ensures id in Run(cs, ops).caps ==> id in cs.caps && Run(cs, ops).caps[id] == cs.caps[id]
    ensures Run(cs, ops).WellFormed()
    ensures Run(cs, ops).nextId == cs.nextId + IdsUsed(cs, ops)
    decreases |ops|
  {
    if ops != [] {
      assert IdsUsed(cs, [ops[0]]) <= IdsUsed(cs, ops);
      StepKeeps(cs, ops[0]);
      NoResurrection(Step(cs, ops[0]), ops[1..], id);
    }
  }

  /** Every id handed out in a run is new: not one used before the run, and not handed out twice in it. */
  lemma {:induction false} IdsAreFresh(cs: CapSpace, ops: seq<Op>)
    requires cs.WellFormed() && cs.nextId + IdsUsed(cs, ops) < TWO_64
    ensures NoDup(IssuedLog(cs, ops))
    ensures forall id :: id in IssuedLog(cs, ops) ==> cs.nextId <= id < cs.nextId + IdsUsed(cs, ops) && id !in cs.caps
    decreases |ops|
  {
    if ops != [] {
      assert IdsUsed(cs, [ops[0]]) <= IdsUsed(cs, ops);
      StepKeeps(cs, ops[0]);
      var next := Step(cs, ops[0]);
      IdsAreFresh(next, ops[1..]);
      var rest := IssuedLog(next, ops[1..]);
      assert forall j :: 0 <= j < |rest| ==> rest[j] in rest;
    }
  }

  /**
   * Without any bound: an id that does not resolve comes to resolve at some point of a run if and only
   * if the counter hands it out during the run.
   */
  lemma ResolvesOnlyWhenIssued(cs: CapSpace, ops: seq<Op>, id: u64)
    requires id !in cs.caps
    ensures (exists i :: 0 <= i <= |ops| && id in Run(cs, ops[..i]).caps) <==> id in IssuedLog(cs, ops)
  {
    if id in IssuedLog(cs, ops) {
      var i := IssuedResolves(cs, ops, id);
      assert id in Run(cs, ops[..i]).caps;
    } else {
      forall i | 0 <= i <= |ops|
        ensures id !in Run(cs, ops[..i]).caps
      {
        AbsentUntilIssued(cs, ops, id, i);
      }
    }
  }

  lemma {:induction false} IssuedResolves(cs: CapSpace, ops: seq<Op>, id: u64) returns (i: nat)
    requires id in IssuedLog(cs, ops)
    ensures i <= |ops| && id in Run(cs, ops[..i]).caps
    decreases |ops|
  {
    var next := Step(cs, ops[0]);
    if id in Issued(cs, ops[0]) {
      i := 1;
      assert ops[..1] == [ops[0]] && Run(next, []) == next;
    } else {
      i := IssuedResolves(next, ops[1..], id);
      assert ops[..i + 1][0] == ops[0] && ops[..i + 1][1..] == ops[1..][..i];
      i := i + 1;
    }
  }

  lemma {:induction false} AbsentUntilIssued(cs: CapSpace, ops: seq<Op>, id: u64, i: nat)
    requires id !in cs.caps && id !in IssuedLog(cs, ops) && i <= |ops|
    ensures id !in Run(cs, ops[..i]).caps
    decreases i
  {
    if i > 0 {
      assert ops[..i][0] == ops[0] && ops[..i][1..] == ops[1..][..i - 1];
      AbsentUntilIssued(Step(cs, ops[0]), ops[1..], id, i - 1);
    }
  }

  /** The bound is the right one: after the counter's last value, creation hands out id 0 again. */
  lemma WrappedCounterReissues(cs: CapSpace, op: Op)
    requires cs.WellFormed() && cs.nextId == TWO_64 - 1 && op.Create?
    ensures IssuedLog(cs, [op, op]) == [TWO_64 - 1, 0] && 0 in Run(cs, [op, op]).caps
  {
    var one := Step(cs, op);
    assert one.nextId == 0;
    assert [op, op][1..] == [op] && [op][1..] == [];
    assert Run(one, [op]) == Run(Step(one, op), []) == Step(one, op);
    assert IssuedLog(one, [op]) == Issued(one, op) + IssuedLog(Step(one, op), []);
  }
}
