/** What a receive notices of a revocation: the live capability space does, a snapshot does not. */
module Revocation {
  import opened Prelude
  import opened Capabilities
  import Syscalls
  import opened Ipc
  import opened KernelRuns

  /**
   * Checked against the live space, a capability opens after any system calls what it opened before
   * if and only if it opened nothing then, or none of the calls revokes it.
   */
  lemma LiveCheckNoticesExactly(cs: CapSpace, calls: seq<Syscalls.Call>, id: u64, needed: Rights)
    requires cs.WellFormed() && id < cs.nextId && cs.nextId + Syscalls.IdsUsed(cs, calls) < TWO_64
    ensures Opens(Syscalls.Run(cs, calls), id, needed) == Opens(cs, id, needed)
      <==> Opens(cs, id, needed).Err? || forall call :: call in calls ==> !Syscalls.Revokes(call, id)
  {
    Syscalls.NoResurrection(cs, calls, id);
    Syscalls.ResolvesUnlessRevoked(cs, calls, id);
  }

  /** One revoking call: the live space refuses at once. */
  lemma LiveCheckRefuses(cs: CapSpace, id: u64, needed: Rights)
    ensures Opens(Syscalls.After(cs, Syscalls.Call(2, id, 0, 0, 0)), id, needed) == Err(PermissionDenied)
  {
  }

  /**
   * A blocking receive checks the space it was given at the start, which nothing changes: over any
   * kernel run its permission verdict stays that of the first pass, and once a pass found its
   * endpoint, every later pass does. So no revocation, nor anything else, ends its waiting.
   */
  lemma {:induction false} EveryPassAgrees(sys: System, ops: seq<Op>, snapshot: CapSpace, capId: u64)
    ensures var before, after := sys.Endpoints(), Run(sys, ops).Endpoints();
      && (ReceiveVerdict(after, snapshot, capId) == Err(PermissionDenied)
          <==> ReceiveVerdict(before, snapshot, capId) == Err(PermissionDenied))
      && (ReceiveVerdict(before, snapshot, capId).Ok?
          ==> ReceiveVerdict(after, snapshot, capId) == ReceiveVerdict(before, snapshot, capId))
    decreases |ops|
  {
    if ops != [] {
      assert sys.Endpoints().Keys <= Step(sys, ops[0]).Endpoints().Keys;
      EveryPassAgrees(Step(sys, ops[0]), ops[1..], snapshot, capId);
    }
  }

  /**
   * Revoked while it waits: the capability is gone from the live space of the process, and the next
   * pass under the snapshot takes the message that has arrived meanwhile all the same.
   */
  lemma RevokedReceiverStillReceives(cs: CapSpace, capId: u64, sys: System, ops: seq<Op>)
    requires ReceiveReply(sys.Endpoints(), cs, capId) == Ok(None)
    requires var e := cs.caps[capId].resourceId;
      e in Run(sys, ops).Endpoints() && Run(sys, ops).Endpoints()[e].messages != []
    ensures var live, later := Syscalls.After(cs, Syscalls.Call(2, capId, 0, 0, 0)), Run(sys, ops).Endpoints();
      && ReceiveReply(later, live, capId) == Err(PermissionDenied)
      && ReceiveReply(later, cs, capId) == Ok(Some(later[cs.caps[capId].resourceId].messages[0]))
  {
    LiveCheckRefuses(cs, capId, RECEIVE);
    EveryPassAgrees(sys, ops, cs, capId);
  }
}
