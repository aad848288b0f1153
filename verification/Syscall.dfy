/** The system-call interface over one capability space, and what holds after any trace of calls (src/syscall.rs). */
module Syscalls {
  import opened Prelude
  import opened Capabilities
  import SpaceRuns

  datatype SyscallNumber = CapCreate | CapDerive | CapRevoke | CapInvoke | Print

  function FromU64(n: u64): Option<SyscallNumber> {
    match n
    case 0 => Some(CapCreate)
    case 1 => Some(CapDerive)
    case 2 => Some(CapRevoke)
    case 3 => Some(CapInvoke)
    case 100 => Some(Print)
    case _ => None
  }

  datatype SyscallError = InvalidSyscall | InvalidCapability | PermissionDenied | InvalidArgument
  datatype SyscallResult = Success(value: u64) | Error(error: SyscallError)

  datatype Call = Call(number: u64, arg1: u64, arg2: u64, arg3: u64, arg4: u64)

  /** Bit `mask` of `bits`, for a power of two. */
  predicate Bit(bits: u64, mask: u64)
    requires mask > 0
  {
    bits / mask % 2 == 1
  }

  function DecodeRights(bits: u64): Rights {
    Rights(Bit(bits, 0x1), Bit(bits, 0x2), Bit(bits, 0x4), Bit(bits, 0x8))
  }

  /** Each `|=` sets a bit that is still clear, which is an addition. */
  method EncodeRights(rights: Rights) returns (bits: u64)
    ensures bits < 16 && DecodeRights(bits) == rights
    ensures bits == (if rights.read then 1 else 0) + (if rights.write then 2 else 0)
                  + (if rights.execute then 4 else 0) + (if rights.grant then 8 else 0)
  {
    bits := 0;
    if rights.read { bits := bits + 0x1; }
    if rights.write { bits := bits + 0x2; }
    if rights.execute { bits := bits + 0x4; }
    if rights.grant { bits := bits + 0x8; }
  }

  lemma BitOfLowBits(n: u64, mask: u64)
    requires mask in {1, 2, 4, 8}
    ensures Bit(n, mask) == Bit(n % 16, mask)
  {
    var q, r := n / 16, n % 16;
    var h := r / mask;
    if mask == 1 {
      DivModUnique(n, 2, 8 * q + r / 2, r % 2);
    } else if mask == 2 {
      DivModUnique(n, 2, 8 * q + h, r % 2);
      DivModUnique(8 * q + h, 2, 4 * q + h / 2, h % 2);
    } else if mask == 4 {
      DivModUnique(n, 4, 4 * q + h, r % 4);
      DivModUnique(4 * q + h, 2, 2 * q + h / 2, h % 2);
    } else {
      DivModUnique(n, 8, 2 * q + h, r % 8);
      DivModUnique(2 * q + h, 2, q + h / 2, h % 2);
    }
  }

  /** Only the low four bits are read, so two arguments ask for the same rights exactly when those agree. */
  lemma EncodingIsUnique(a: u64, b: u64)
    ensures DecodeRights(a) == DecodeRights(b) <==> a % 16 == b % 16
  {
    forall mask | mask in {1, 2, 4, 8}
      ensures Bit(a, mask) == Bit(a % 16, mask) && Bit(b, mask) == Bit(b % 16, mask)
    {
      BitOfLowBits(a, mask);
      BitOfLowBits(b, mask);
    }
    FourBits(a % 16);
    FourBits(b % 16);
    assert DecodeRights(a) == DecodeRights(a % 16) && DecodeRights(b) == DecodeRights(b % 16);
  }

  lemma FourBits(r: u64)
    requires r < 16
    ensures r == (if Bit(r, 1) then 1 else 0) + (if Bit(r, 2) then 2 else 0) + (if Bit(r, 4) then 4 else 0)
      + (if Bit(r, 8) then 8 else 0)
  {
  }

  /** The capability space after a call. */
  function After(cs: CapSpace, call: Call): CapSpace {
    match FromU64(call.number)
    case Some(CapDerive) => cs.Derived(call.arg1, DecodeRights(call.arg2))
    case Some(CapRevoke) => cs.Revoked(call.arg1)
    case _ => cs
  }

  function Reply(cs: CapSpace, call: Call): SyscallResult {
    match FromU64(call.number)
    case None => Error(InvalidSyscall)
    case Some(CapCreate) => Error(PermissionDenied)
    case Some(CapDerive) =>
      if cs.Derivation(call.arg1, DecodeRights(call.arg2)).Some? then Success(cs.nextId) else Error(PermissionDenied)
    case Some(CapRevoke) => if call.arg1 in cs.caps then Success(0) else Error(InvalidCapability)
    case Some(CapInvoke) => if call.arg1 in cs.caps then Success(1) else Error(InvalidCapability)
    case Some(Print) => Success(0)
  }

  /** Bits 0 to 3 stand for read, write, execute and grant. */
  lemma DecodedBits(bits: u64)
    ensures DecodeRights(bits).read <==> bits % 2 >= 1
    ensures DecodeRights(bits).write <==> bits % 4 >= 2
    ensures DecodeRights(bits).execute <==> bits % 8 >= 4
    ensures DecodeRights(bits).grant <==> bits % 16 >= 8
  {
    forall mask | mask in {1, 2, 4, 8}
      ensures Bit(bits, mask) == Bit(bits % 16, mask)
    {
      BitOfLowBits(bits, mask);
    }
    FourBits(bits % 16);
    var q, r := bits / 16, bits % 16;
    DivModUnique(bits, 2, 8 * q + r / 2, r % 2);
    DivModUnique(bits, 4, 4 * q + r / 4, r % 4);
    DivModUnique(bits, 8, 2 * q + r / 8, r % 8);
  }

  /**
   * Each number does what it stands for: 1 derives, 2 revokes, 3 looks up, 0 is denied, 100 prints, and any
   * other is refused. Only 1 and 2 change the capability space.
   */
  lemma CallsByNumber(cs: CapSpace, call: Call)
    ensures var after, reply, n, id := After(cs, call), Reply(cs, call), call.number, call.arg1;
      && (n == 1 ==> after == cs.Derived(id, DecodeRights(call.arg2)))
      && (n == 1 ==> reply == if cs.Derivation(id, DecodeRights(call.arg2)).Some?
                              then Success(cs.nextId) else Error(PermissionDenied))
      && (n == 2 ==> after.caps == cs.caps - {id} && after.nextId == cs.nextId)
      && (n == 2 ==> reply == if id in cs.caps then Success(0) else Error(InvalidCapability))
      && (n == 3 ==> reply == if id in cs.caps then Success(1) else Error(InvalidCapability))
      && (n == 0 ==> reply == Error(PermissionDenied))
      && (n == 100 ==> reply == Success(0))
      && (n !in {0, 1, 2, 3, 100} ==> reply == Error(InvalidSyscall))
      && (n !in {1, 2} ==> after == cs)
  {
  }

  /**
   * Delegation works: a call that asks for rights its source has, encoded in any way, is answered with a
   * new id, and that id then names the source's resource with exactly those rights.
   */
  lemma DerivationDelivers(cs: CapSpace, call: Call, requested: Rights)
    requires call.number == 1 && call.arg1 in cs.caps && DecodeRights(call.arg2) == requested
    requires RightSet(requested) <= RightSet(cs.caps[call.arg1].rights)
    ensures Reply(cs, call) == Success(cs.nextId) && cs.nextId in After(cs, call).caps
    ensures var source, derived := cs.caps[call.arg1], After(cs, call).caps[cs.nextId];
      && derived.resourceType == source.resourceType && derived.resourceId == source.resourceId
      && RightSet(derived.rights) == RightSet(requested)
  {
    DerivedCarriesTheRequest(cs, call.arg1, requested, requested);
    forall x: Rights
      ensures After(cs, call).caps[cs.nextId].rights.Has(x) <==> requested.Has(x)
    {
      DerivedCarriesTheRequest(cs, call.arg1, requested, x);
    }
    RightsOrder(After(cs, call).caps[cs.nextId].rights, requested, requested);
    RightsOrder(requested, After(cs, call).caps[cs.nextId].rights, requested);
  }

  class SyscallContext {
    const cspace: CSpace

    constructor ()
      ensures fresh(cspace) && cspace.State() == EMPTY
    {
      cspace := new CSpace();
    }

    method Syscall(syscallNum: u64, arg1: u64, arg2: u64, arg3: u64, arg4: u64) returns (r: SyscallResult)
      modifies cspace
      ensures cspace.State() == After(old(cspace.State()), Call(syscallNum, arg1, arg2, arg3, arg4))
      ensures r == Reply(old(cspace.State()), Call(syscallNum, arg1, arg2, arg3, arg4))
    {
      var syscall := FromU64(syscallNum);
      if syscall.None? {
        return Error(InvalidSyscall);
      }
      match syscall.value {
        case CapCreate => r := Error(PermissionDenied);
        case CapDerive => r := SysCapDerive(arg1, arg2);
        case CapRevoke => r := SysCapRevoke(arg1);
        case CapInvoke => r := SysCapInvoke(arg1);
        case Print => r := Success(0);
      }
    }

    method SysCapDerive(sourceId: u64, rightsBits: u64) returns (r: SyscallResult)
      modifies cspace
      ensures cspace.State() == old(cspace.State()).Derived(sourceId, DecodeRights(rightsBits))
      ensures r == if old(cspace.State()).Derivation(sourceId, DecodeRights(rightsBits)).Some?
                   then Success(old(cspace.nextId)) else Error(PermissionDenied)
    {
      var id := cspace.Derive(sourceId, DecodeRights(rightsBits));
      r := match id case Some(newId) => Success(newId) case None => Error(PermissionDenied);
    }

    method SysCapRevoke(capId: u64) returns (r: SyscallResult)
      modifies cspace
      ensures cspace.State() == old(cspace.State()).Revoked(capId)
      ensures r == if capId in old(cspace.capabilities) then Success(0) else Error(InvalidCapability)
    {
      var removed := cspace.Revoke(capId);
      r := if removed.Some? then Success(0) else Error(InvalidCapability);
    }

    method SysCapInvoke(capId: u64) returns (r: SyscallResult)
      ensures r == if capId in cspace.capabilities then Success(1) else Error(InvalidCapability)
    {
      var cap := cspace.Get(capId);
      r := if cap.Some? then Success(1) else Error(InvalidCapability);
    }
  }

  /** The capability space after a whole trace of calls. */
  function Run(cs: CapSpace, calls: seq<Call>): CapSpace
    decreases |calls|
  {
    if calls == [] then cs else Run(After(cs, calls[0]), calls[1..])
  }

  /** How many ids the trace uses up. */
  function IdsUsed(cs: CapSpace, calls: seq<Call>): nat
    decreases |calls|
  {
    if calls == [] then 0
    else (if After(cs, calls[0]).nextId == cs.nextId then 0 else 1) + IdsUsed(After(cs, calls[0]), calls[1..])
  }

  /**
   * No authority amplification: whatever the calls and their arguments, each capability held at the
   * end names the resource of one held at the start, with no right that one lacked.
   */
  lemma {:induction false} NoAmplification(cs: CapSpace, calls: seq<Call>, id: u64) returns (source: u64)
    requires id in Run(cs, calls).caps
    ensures source in cs.caps && Run(cs, calls).caps[id].NoStrongerThan(cs.caps[source])
    decreases |calls|
  {
    if calls == [] {
      source := id;
    } else {
      var middle := NoAmplification(After(cs, calls[0]), calls[1..], id);
      var call := calls[0];
      if FromU64(call.number) == Some(CapDerive) && middle == cs.nextId
        && cs.Derivation(call.arg1, DecodeRights(call.arg2)).Some?
      {
        source := call.arg1;
      } else {
        source := middle;
      }
    }
  }

  /** A context that starts with no capability never obtains one. */
  lemma EmptyStaysEmpty(calls: seq<Call>)
    ensures Run(EMPTY, calls).caps == map[]
  {
    if id :| id in Run(EMPTY, calls).caps {
      var source := NoAmplification(EMPTY, calls, id);
      assert false;
    }
  }

  /** What a call does to the capability space, as operations of the kernel. */
  function Operations(call: Call): seq<SpaceRuns.Op> {
    match FromU64(call.number)
    case Some(CapDerive) => [SpaceRuns.Derive(call.arg1, DecodeRights(call.arg2))]
    case Some(CapRevoke) => [SpaceRuns.Revoke(call.arg1)]
    case _ => []
  }

  function AllOperations(calls: seq<Call>): seq<SpaceRuns.Op> {
    if calls == [] then [] else Operations(calls[0]) + AllOperations(calls[1..])
  }

  /** A trace of calls, whatever their numbers and arguments, is a run of derivations and revocations. */
  lemma {:induction false} CallsAreOperations(cs: CapSpace, calls: seq<Call>)
    ensures Run(cs, calls) == SpaceRuns.Run(cs, AllOperations(calls))
    ensures IdsUsed(cs, calls) == SpaceRuns.IdsUsed(cs, AllOperations(calls))
    ensures forall op :: op in AllOperations(calls) ==> !op.Create?
    decreases |calls|
  {
    if calls != [] {
      var first, rest := Operations(calls[0]), AllOperations(calls[1..]);
      CallsAreOperations(After(cs, calls[0]), calls[1..]);
      if first == [] {
        assert AllOperations(calls) == rest;
      } else {
        assert AllOperations(calls)[0] == first[0] && AllOperations(calls)[1..] == rest;
      }
    }
  }

  /**
   * No system call brings a revoked capability back: while the counter does not wrap, an id it has
   * already handed out can only keep the capability it names or lose it for good.
   */
  lemma NoResurrection(cs: CapSpace, calls: seq<Call>, id: u64)
    requires cs.WellFormed() && cs.nextId + IdsUsed(cs, calls) < TWO_64
    requires id < cs.nextId
    ensures id in Run(cs, calls).caps ==> id in cs.caps && Run(cs, calls).caps[id] == cs.caps[id]
    ensures Run(cs, calls).WellFormed()
    ensures Run(cs, calls).nextId == cs.nextId + IdsUsed(cs, calls)
  {
    CallsAreOperations(cs, calls);
    SpaceRuns.NoResurrection(cs, AllOperations(calls), id);
  }

  predicate Revokes(call: Call, id: u64) {
    FromU64(call.number) == Some(CapRevoke) && call.arg1 == id
  }

  /** An issued id resolves after a trace if and only if it did before and no call of the trace revokes it. */
  lemma {:induction false} ResolvesUnlessRevoked(cs: CapSpace, calls: seq<Call>, id: u64)
    requires cs.WellFormed() && cs.nextId + IdsUsed(cs, calls) < TWO_64
    requires id < cs.nextId
    ensures id in Run(cs, calls).caps <==> id in cs.caps && forall call :: call in calls ==> !Revokes(call, id)
    decreases |calls|
  {
    if calls != [] {
      OneCall(cs, calls[0], id);
      ResolvesUnlessRevoked(After(cs, calls[0]), calls[1..], id);
      assert forall call :: call in calls <==> call == calls[0] || call in calls[1..];
    }
  }

  lemma OneCall(cs: CapSpace, call: Call, id: u64)
    requires cs.WellFormed() && id < cs.nextId && (After(cs, call).nextId == cs.nextId || cs.nextId + 1 < TWO_64)
    ensures After(cs, call).WellFormed() && id < After(cs, call).nextId
    ensures After(cs, call).nextId == cs.nextId || After(cs, call).nextId == cs.nextId + 1
    ensures id in After(cs, call).caps <==> id in cs.caps && !Revokes(call, id)
  {
  }

  /** The bound is the right one: a wrapped counter hands out id 0 again, and a revoked id 0 resolves once more. */
  lemma WrappedCounterResurrects(cs: CapSpace, source: u64, calls: seq<Call>)
    requires cs.WellFormed() && source in cs.caps && 0 !in cs.caps
    requires cs.nextId == TWO_64 - 1
    requires calls == [Call(1, source, 0, 0, 0), Call(1, source, 0, 0, 0)]
    ensures 0 < cs.nextId && 0 in Run(cs, calls).caps
  {
    var one := After(cs, calls[0]);
    assert one.nextId == 0 && source in one.caps;
    assert Run(one, calls[1..]) == After(one, calls[1]);
    assert one.Derivation(source, DecodeRights(0)).Some?;
  }

  /**
   * A process that starts without authority over an endpoint never presents a snapshot that has it,
   * however stale or fresh the snapshot is.
   */
  lemma SnapshotsCarryNoNewAuthority(cs: CapSpace, calls: seq<Call>, e: u64, needed: Rights)
    requires Run(cs, calls).Authorises(e, needed)
    ensures cs.Authorises(e, needed)
  {
    var end := Run(cs, calls);
    var id :| id in end.caps && end.caps[id].resourceType == Endpoint && end.caps[id].resourceId == e
      && end.caps[id].rights.Has(needed);
    var source := NoAmplification(cs, calls, id);
    RightsOrder(cs.caps[source].rights, end.caps[id].rights, needed);
  }
}
