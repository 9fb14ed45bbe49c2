/** The contract as it runs: one object holding the dictionary, one map
    field per key prefix, and one method per entry point that checks its
    guards in the order the contract does and then writes field by field.
    A method that reverts returns before its first write, so a failed call
    leaves every field as it was. */
module Registry {
  import opened Types
  import Ledger

  class RecoveryRegistry {
    var guardians: map<AccountHash, seq<AccountHash>>  // "g" + account
    var thresholds: map<AccountHash, u8>               // "t" + account
    var initialized: map<AccountHash, bool>            // "i" + account
    var openRecovery: map<AccountHash, nat>            // "a" + account
    var counter: nat                                   // "c"
    var targets: map<nat, AccountHash>                 // "ra" + id
    var newKeys: map<nat, PublicKey>                   // "rk" + id
    var counts: map<nat, nat>                          // "rc" + id
    var approvedFlags: map<nat, bool>                  // "ro" + id
    var marks: map<(nat, AccountHash), bool>           // "rp" + id + "_" + guardian

    /** The dictionary this object holds, as a value. */
    ghost function State(): Ledger.Store
      reads this
    {
      Ledger.Store(guardians, thresholds, initialized, openRecovery, counter,
                   targets, newKeys, counts, approvedFlags, marks)
    }

    ghost predicate Valid()
      reads this
    {
      Ledger.Valid(State())
    }

    /** A freshly deployed contract: the dictionary is empty. */
    constructor ()
      ensures Valid() && State() == Ledger.Empty()
    {
      guardians, thresholds, initialized, openRecovery := map[], map[], map[], map[];
      counter := 0;
      targets, newKeys, counts, approvedFlags, marks := map[], map[], map[], map[], map[];
    }

    method InitGuardians(caller: AccountHash, account: AccountHash,
                         guards: seq<AccountHash>, thresh: u8) returns (r: Result<()>)
      modifies this
      ensures old(Valid()) ==> Valid()
      ensures Ledger.Step(State(), r) ==
              Ledger.InitGuardians(old(State()), caller, account, guards, thresh)
    {
      if caller != account { return Fail(NotOwner); }
      if |guards| < 2 { return Fail(BadGuardians); }
      if thresh == 0 || thresh as int > |guards| { return Fail(BadThreshold); }
      if ReadOr(initialized, account, false) { return Fail(AlreadyInit); }
      guardians := guardians[account := guards];
      thresholds := thresholds[account := thresh];
      initialized := initialized[account := true];
      r := Ok(());
      assert State() == Ledger.WithGuardians(old(State()), account, guards, thresh);
      if old(Valid()) {
        Ledger.InitGuardiansKeepsValid(old(State()), caller, account, guards, thresh);
      }
    }

    method StartRecovery(account: AccountHash, newKey: PublicKey) returns (r: Result<nat>)
      modifies this
      ensures old(Valid()) ==> Valid()
      ensures Ledger.Step(State(), r) == Ledger.StartRecovery(old(State()), account, newKey)
    {
      if !ReadOr(initialized, account, false) { return Fail(NotInit); }
      if account in openRecovery { return Fail(RecoveryExists); }
      var id := counter + 1;
      counter := id;
      targets := targets[id := account];
      newKeys := newKeys[id := newKey];
      counts := counts[id := 0];
      approvedFlags := approvedFlags[id := false];
      openRecovery := openRecovery[account := id];
      r := Ok(id);
      assert State() == Ledger.WithRequest(old(State()), account, newKey);
      if old(Valid()) {
        Ledger.StartRecoveryKeepsValid(old(State()), account, newKey);
      }
    }

    method Approve(caller: AccountHash, id: nat) returns (r: Result<()>)
      modifies this
      ensures old(Valid()) ==> Valid()
      ensures Ledger.Step(State(), r) == Ledger.Approve(old(State()), caller, id)
    {
      if id !in targets { return Fail(NotFound); }
      var account := targets[id];
      if account !in guardians { return Fail(NotGuardian); }
      if caller !in guardians[account] { return Fail(NotGuardian); }
      if ReadOr(marks, (id, caller), false) { return Fail(AlreadyApproved); }
      marks := marks[(id, caller) := true];
      var count := ReadOr(counts, id, 0) + 1;
      counts := counts[id := count];
      var thresh := ReadOr(thresholds, account, 2);
      if count >= thresh as int {
        approvedFlags := approvedFlags[id := true];
      }
      r := Ok(());
      assert Ledger.Step(State(), r) == Ledger.Approve(old(State()), caller, id);
      if old(Valid()) {
        Ledger.ApproveKeepsValid(old(State()), caller, id);
      }
    }

    /** `finalize` only checks the approved flag; it writes nothing. */
    method Finalize(id: nat) returns (r: Result<()>)
      requires Valid()
      ensures r == Ledger.Finalize(State(), id).result
      ensures r.Ok? <==> id in targets && counts[id] >= thresholds[targets[id]] as int
    {
      Ledger.ApprovedMeansQuorum(State(), id);
      if !ReadOr(approvedFlags, id, false) { return Fail(NotApproved); }
      r := Ok(());
    }

    /** `is_approved`: true exactly when the request exists and its count has
        reached its account's threshold. */
    function IsApproved(id: nat): (b: bool)
      reads this
      requires Valid()
      ensures b == Ledger.IsApproved(State(), id)
      ensures b <==> id in targets && counts[id] >= thresholds[targets[id]] as int
    {
      Ledger.ApprovedMeansQuorum(State(), id);
      ReadOr(approvedFlags, id, false)
    }

    /** `get_guardians`: the registered list, `NotInit` before registration. */
    function GetGuardians(account: AccountHash): (r: Result<seq<AccountHash>>)
      reads this
      requires Valid()
      ensures r == Ledger.GetGuardians(State(), account)
      ensures r.Ok? <==> HasGuardians(account)
      ensures r.Ok? ==> |r.value| >= 2 && 1 <= thresholds[account] as int <= |r.value|
    {
      if account in guardians then Ok(guardians[account]) else Fail(NotInit)
    }

    /** `has_guardians`: the initialised flag, false when never written. */
    function HasGuardians(account: AccountHash): (b: bool)
      reads this
      ensures b == Ledger.HasGuardians(State(), account)
    {
      ReadOr(initialized, account, false)
    }
  }
}
