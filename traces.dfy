/** Sequences of entry-point calls, as the host runs them one after another,
    and the properties that hold along every such sequence: the invariant,
    the shape of the recovery ids, and what is never undone. */
module Traces {
  import opened Types
  import opened Ledger

  /** A call of one of the entry points that may write. */
  datatype Call =
    | InitGuardiansCall(caller: AccountHash, account: AccountHash,
                        guards: seq<AccountHash>, thresh: u8)
    | StartRecoveryCall(account: AccountHash, newKey: PublicKey)
    | ApproveCall(caller: AccountHash, id: nat)
    | FinalizeCall(id: nat)

  /** The dictionary after one call, whether it succeeded or reverted. */
  function Exec(s: Store, c: Call): Store
  {
    match c
    case InitGuardiansCall(caller, account, guards, thresh) =>
      InitGuardians(s, caller, account, guards, thresh).next
    case StartRecoveryCall(account, newKey) => StartRecovery(s, account, newKey).next
    case ApproveCall(caller, id) => Approve(s, caller, id).next
    case FinalizeCall(id) => Finalize(s, id).next
  }

  /** The id a call returned: one for a recovery it opened, none otherwise. */
  function Opened(s: Store, c: Call): seq<nat>
  {
    if c.StartRecoveryCall? && StartRecovery(s, c.account, c.newKey).result.Ok?
    then [StartRecovery(s, c.account, c.newKey).result.value]
    else []
  }

  /** The dictionary after the calls, in order. */
  function Run(s: Store, calls: seq<Call>): Store
    decreases |calls|
  {
    if calls == [] then s else Run(Exec(s, calls[0]), calls[1..])
  }

  /** The recovery ids the calls returned, in order. */
  function OpenedIds(s: Store, calls: seq<Call>): seq<nat>
    decreases |calls|
  {
    if calls == [] then [] else Opened(s, calls[0]) + OpenedIds(Exec(s, calls[0]), calls[1..])
  }

  // ---------------------------------------------------------------------
  // The invariant holds in every reachable dictionary

  lemma ExecKeepsValid(s: Store, c: Call)
    requires Valid(s)
    ensures Valid(Exec(s, c))
  {
    match c
    case InitGuardiansCall(caller, account, guards, thresh) =>
      InitGuardiansKeepsValid(s, caller, account, guards, thresh);
    case StartRecoveryCall(account, newKey) => StartRecoveryKeepsValid(s, account, newKey);
    case ApproveCall(caller, id) => ApproveKeepsValid(s, caller, id);
    case FinalizeCall(id) =>
  }

  lemma {:induction false} RunKeepsValid(s: Store, calls: seq<Call>)
    requires Valid(s)
    ensures Valid(Run(s, calls))
    decreases |calls|
  {
    if calls != [] {
      ExecKeepsValid(s, calls[0]);
      RunKeepsValid(Exec(s, calls[0]), calls[1..]);
    }
  }

  /** Every dictionary the contract can reach from its deployment satisfies
      the invariant; in particular every count is at most the number of
      distinct guardians of its account. */
  lemma Reachable(calls: seq<Call>, id: nat)
    ensures Valid(Run(Empty(), calls))
    ensures var s := Run(Empty(), calls);
      id in s.targets ==>
        s.targets[id] in s.guardians &&
        s.counts[id] <= |Distinct(s.guardians[s.targets[id]])|
  {
    RunKeepsValid(Empty(), calls);
    var s := Run(Empty(), calls);
    if id in s.targets {
      CountAtMostGuardians(s, id);
    }
  }

  // ---------------------------------------------------------------------
  // Recovery ids

  /** The ids handed out are the next integers after the counter, one per
      recovery opened, and the counter ends at the last of them. */
  lemma {:induction false} OpenedIdsConsecutive(s: Store, calls: seq<Call>)
    ensures Run(s, calls).counter == s.counter + |OpenedIds(s, calls)|
    ensures forall i :: 0 <= i < |OpenedIds(s, calls)| ==>
      OpenedIds(s, calls)[i] == s.counter + 1 + i
    decreases |calls|
  {
    if calls != [] {
      var t := Exec(s, calls[0]);
      OpenedIdsConsecutive(t, calls[1..]);
      assert t.counter == s.counter + |Opened(s, calls[0])|;
    }
  }

  /** From deployment, the i-th recovery opened gets id i + 1; ids are
      strictly increasing, hence never shared between two recoveries,
      whatever their accounts. */
  lemma IdsStrictlyIncreasing(calls: seq<Call>, i: nat, j: nat)
    requires i < j < |OpenedIds(Empty(), calls)|
    ensures OpenedIds(Empty(), calls)[i] == i + 1
    ensures OpenedIds(Empty(), calls)[i] < OpenedIds(Empty(), calls)[j]
  {
    OpenedIdsConsecutive(Empty(), calls);
  }

  // ---------------------------------------------------------------------
  // What is never undone

  lemma ExecKeepsApproved(s: Store, c: Call, id: nat)
    requires Valid(s) && IsApproved(s, id)
    ensures IsApproved(Exec(s, c), id)
  {
    if c.StartRecoveryCall? {
      assert id in s.targets;
    }
  }

  /** Once a request is approved it stays approved. */
  lemma {:induction false} ApprovedIsMonotone(s: Store, calls: seq<Call>, id: nat)
    requires Valid(s) && IsApproved(s, id)
    ensures IsApproved(Run(s, calls), id)
    decreases |calls|
  {
    if calls != [] {
      ExecKeepsApproved(s, calls[0], id);
      ExecKeepsValid(s, calls[0]);
      ApprovedIsMonotone(Exec(s, calls[0]), calls[1..], id);
    }
  }

  lemma ExecKeepsConfig(s: Store, c: Call, account: AccountHash)
    requires HasGuardians(s, account) && account in s.guardians && account in s.thresholds
    ensures var t := Exec(s, c);
      HasGuardians(t, account) && account in t.guardians && t.guardians[account] == s.guardians[account] &&
      account in t.thresholds && t.thresholds[account] == s.thresholds[account]
  {
    match c
    case InitGuardiansCall(caller, acc, guards, thresh) =>
    case StartRecoveryCall(acc, newKey) =>
    case ApproveCall(caller, id) =>
    case FinalizeCall(id) =>
  }

  /** Once registered, an account's guardian list and threshold never change. */
  lemma {:induction false} ConfigIsFrozen(s: Store, calls: seq<Call>, account: AccountHash)
    requires HasGuardians(s, account) && account in s.guardians && account in s.thresholds
    ensures var t := Run(s, calls);
      HasGuardians(t, account) && GetGuardians(t, account) == GetGuardians(s, account) &&
      account in t.thresholds && t.thresholds[account] == s.thresholds[account]
    decreases |calls|
  {
    if calls != [] {
      ExecKeepsConfig(s, calls[0], account);
      ConfigIsFrozen(Exec(s, calls[0]), calls[1..], account);
    }
  }

  /** The open-recovery marker of an account is never cleared, not even by a
      successful `finalize`. */
  lemma {:induction false} MarkerIsPermanent(s: Store, calls: seq<Call>, account: AccountHash)
    requires account in s.openRecovery
    ensures account in Run(s, calls).openRecovery
    ensures Run(s, calls).openRecovery[account] == s.openRecovery[account]
    decreases |calls|
  {
    if calls != [] {
      MarkerIsPermanent(Exec(s, calls[0]), calls[1..], account);
    }
  }

  /** After its first recovery has been opened, an account can never open
      another: every later `start_recovery` for it reverts with
      `RecoveryExists`. */
  lemma OneRecoveryPerAccountForever(s: Store, account: AccountHash, newKey: PublicKey,
                                     calls: seq<Call>, laterKey: PublicKey)
    requires Valid(s)
    requires StartRecovery(s, account, newKey).result.Ok?
    ensures var t := Run(StartRecovery(s, account, newKey).next, calls);
      StartRecovery(t, account, laterKey) == Revert(t, RecoveryExists)
  {
    var u := StartRecovery(s, account, newKey).next;
    MarkerIsPermanent(u, calls, account);
    ConfigIsFrozen(u, calls, account);
  }
}
