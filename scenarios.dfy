/** Concrete runs of the registry from a fresh deployment: the behaviour
    the contract is meant to show on small examples. */
module Scenarios {
  import opened Types
  import opened Ledger
  import Registry

  const A := AccountHash([0xA0])
  const G1 := AccountHash([0x01])
  const G2 := AccountHash([0x02])
  const G3 := AccountHash([0x03])
  const K := PublicKey([0x4B])

  /** Guardians G1, G2 with threshold 1: one approval approves, finalize then
      succeeds, and the account can never open a second recovery. */
  lemma SingleApprovalRecovery()
    ensures var s1 := InitGuardians(Empty(), A, A, [G1, G2], 1);
      s1.result.Ok? && HasGuardians(s1.next, A) &&
      var s2 := StartRecovery(s1.next, A, K);
      s2.result == Ok(1) && !IsApproved(s2.next, 1) &&
      var s3 := Approve(s2.next, G1, 1);
      s3.result.Ok? && IsApproved(s3.next, 1) &&
      Finalize(s3.next, 1).result.Ok? &&
      StartRecovery(Finalize(s3.next, 1).next, A, K).result == Fail(RecoveryExists)
  {
  }

  /** Guardians G1, G2, G3 with threshold 2: the second distinct approval
      approves, a repeated approval is refused without changing the count,
      and a third guardian may still approve. */
  lemma TwoOfThreeRecovery()
    ensures var s1 := InitGuardians(Empty(), A, A, [G1, G2, G3], 2).next;
      var s2 := StartRecovery(s1, A, K).next;
      var s3 := Approve(s2, G1, 1);
      s3.result.Ok? && !IsApproved(s3.next, 1) && Finalize(s3.next, 1).result == Fail(NotApproved) &&
      Approve(s3.next, G1, 1) == Revert(s3.next, AlreadyApproved) &&
      var s4 := Approve(s3.next, G2, 1);
      s4.result.Ok? && IsApproved(s4.next, 1) && s4.next.counts[1] == 2 &&
      var s5 := Approve(s4.next, G3, 1);
      s5.result.Ok? && IsApproved(s5.next, 1) && s5.next.counts[1] == 3
  {
  }

  /** Every guard of the entry points and of `get_guardians`, each on a
      concrete input that reaches it. */
  lemma GuardFailures()
    ensures InitGuardians(Empty(), G1, A, [G1, G2], 1).result == Fail(NotOwner)
    ensures InitGuardians(Empty(), A, A, [G1], 1).result == Fail(BadGuardians)
    ensures InitGuardians(Empty(), A, A, [G1, G2], 0).result == Fail(BadThreshold)
    ensures InitGuardians(Empty(), A, A, [G1, G2], 3).result == Fail(BadThreshold)
    ensures StartRecovery(Empty(), A, K).result == Fail(NotInit)
    ensures var s1 := InitGuardians(Empty(), A, A, [G1, G2], 1).next;
      var s2 := StartRecovery(s1, A, K).next;
      Approve(s2, G3, 1).result == Fail(NotGuardian) &&
      Approve(s2, G1, 2).result == Fail(NotFound) &&
      GetGuardians(s1, A) == Ok([G1, G2]) && GetGuardians(s1, G1) == Fail(NotInit)
    ensures var s1 := InitGuardians(Empty(), A, A, [G1, G2], 1).next;
      InitGuardians(s1, A, A, [G2, G3], 2).result == Fail(AlreadyInit) &&
      var s2 := StartRecovery(s1, A, K).next;
      StartRecovery(s2, A, K).result == Fail(RecoveryExists) &&
      var s3 := Approve(s2, G1, 1).next;
      Approve(s3, G1, 1).result == Fail(AlreadyApproved)
  {
  }

  /** Recoveries of two different accounts get ids 1 and 2. */
  lemma IdsAcrossAccounts()
    ensures var s1 := InitGuardians(Empty(), A, A, [G1, G2], 1).next;
      var s2 := InitGuardians(s1, G3, G3, [G1, G2], 2).next;
      var s3 := StartRecovery(s2, A, K);
      var s4 := StartRecovery(s3.next, G3, K);
      s3.result == Ok(1) && s4.result == Ok(2)
  {
  }

  /** The same single-approval recovery against the contract object: what a
      caller can conclude from the entry points' contracts alone. */
  method SingleApprovalOnObject()
  {
    var c := new Registry.RecoveryRegistry();
    var r1 := c.InitGuardians(A, A, [G1, G2], 1);
    assert r1.Ok? && c.HasGuardians(A);
    var r2 := c.StartRecovery(A, K);
    assert r2 == Ok(1);
    var r3 := c.Approve(G1, 1);
    assert r3.Ok? && c.IsApproved(1);
    var r4 := c.Finalize(1);
    assert r4.Ok?;
    var r5 := c.StartRecovery(A, K);
    assert r5 == Fail(RecoveryExists);
  }
}
