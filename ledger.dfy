/** The registry's state and entry points as values: the contract's one
    dictionary is split into one map per key prefix, and each entry point is
    a function from the state before the call to the state after it and the
    call's result. A call that reverts yields the state it started from,
    which is the host's all-or-nothing `runtime::revert`. */
module Ledger {
  import opened Types

  /** The dictionary, one map per key prefix. */
  datatype Store = Store(
    guardians: map<AccountHash, seq<AccountHash>>,  // "g" + account
    thresholds: map<AccountHash, u8>,               // "t" + account
    initialized: map<AccountHash, bool>,            // "i" + account
    openRecovery: map<AccountHash, nat>,            // "a" + account: the account's recovery id
    counter: nat,                                   // "c": last id handed out, 0 while absent
    targets: map<nat, AccountHash>,                 // "ra" + id
    newKeys: map<nat, PublicKey>,                   // "rk" + id
    counts: map<nat, nat>,                          // "rc" + id
    approved: map<nat, bool>,                       // "ro" + id
    marks: map<(nat, AccountHash), bool>)           // "rp" + id + "_" + guardian

  /** The state after a call, and what the call returned or reverted with. */
  datatype Step<T> = Step(next: Store, result: Result<T>)

  function Revert<T>(s: Store, e: Err): Step<T>
  {
    Step(s, Fail(e))
  }

  /** The dictionary of a freshly installed contract. */
  function Empty(): (s: Store)
    ensures Valid(s)
    ensures forall acc :: !HasGuardians(s, acc) && GetGuardians(s, acc) == Fail(NotInit)
    ensures forall acc :: acc !in s.openRecovery
    ensures forall id :: id !in s.targets && !IsApproved(s, id)
    ensures forall id, g :: !HasApproved(s, id, g)
  {
    Store(map[], map[], map[], map[], 0, map[], map[], map[], map[], map[])
  }

  // ---------------------------------------------------------------------
  // Reads

  /** `has_guardians`: the initialised flag, false when never written. */
  function HasGuardians(s: Store, account: AccountHash): (b: bool)
    ensures b <==> account in s.initialized && s.initialized[account]
  {
    ReadOr(s.initialized, account, false)
  }

  /** `get_guardians`: the stored list, or `NotInit` when there is none. */
  function GetGuardians(s: Store, account: AccountHash): (r: Result<seq<AccountHash>>)
    ensures r.Ok? <==> account in s.guardians
    ensures r.Ok? ==> r.value == s.guardians[account]
    ensures r.Fail? ==> r.err == NotInit
  {
    if account in s.guardians then Ok(s.guardians[account]) else Fail(NotInit)
  }

  /** `is_approved`: the approved flag, false for an id never created. */
  function IsApproved(s: Store, id: nat): (b: bool)
    ensures b <==> id in s.approved && s.approved[id]
  {
    ReadOr(s.approved, id, false)
  }

  /** The per-(id, guardian) approval mark, false when never written. */
  function HasApproved(s: Store, id: nat, guardian: AccountHash): bool
  {
    ReadOr(s.marks, (id, guardian), false)
  }

  /** The guardians whose approval of `id` is recorded. */
  function Approvers(s: Store, id: nat): set<AccountHash>
  {
    set p | p in s.marks && p.0 == id && s.marks[p] :: p.1
  }

  /** The distinct identities of a guardian list. */
  function Distinct(guards: seq<AccountHash>): set<AccountHash>
  {
    set g | g in guards
  }

  // ---------------------------------------------------------------------
  // The invariant every reachable dictionary satisfies

  /** Guardian list, threshold and flag are written together, only when
      the list has two entries or more and the threshold is within it. */
  ghost predicate ConfigsValid(s: Store)
  {
    s.guardians.Keys == s.initialized.Keys &&
    s.thresholds.Keys == s.initialized.Keys &&
    forall acc :: acc in s.initialized ==>
      s.initialized[acc] &&
      acc in s.guardians && acc in s.thresholds &&
      |s.guardians[acc]| >= 2 &&
      1 <= s.thresholds[acc] as int <= |s.guardians[acc]|
  }

  /** Requests exist exactly for the ids 1..counter, each for an initialised
      account whose open-recovery marker names it, and every marker names
      the request of its own account. */
  ghost predicate RequestsValid(s: Store)
  {
    IdsValid(s) && TargetsValid(s) && MarkersValid(s)
  }

  ghost predicate IdsValid(s: Store)
  {
    (forall id :: id in s.targets <==> 1 <= id <= s.counter) &&
    s.newKeys.Keys == s.targets.Keys &&
    s.counts.Keys == s.targets.Keys &&
    s.approved.Keys == s.targets.Keys
  }

  ghost predicate TargetsValid(s: Store)
  {
    forall id :: id in s.targets ==>
      HasGuardians(s, s.targets[id]) &&
      s.targets[id] in s.openRecovery && s.openRecovery[s.targets[id]] == id
  }

  ghost predicate MarkersValid(s: Store)
  {
    forall acc :: acc in s.openRecovery ==>
      s.openRecovery[acc] in s.targets && s.targets[s.openRecovery[acc]] == acc
  }

  /** Marks are only ever written true, and only for guardians of the
      request's account. */
  ghost predicate MarksValid(s: Store)
  {
    forall p :: p in s.marks ==>
      s.marks[p] && p.0 in s.targets &&
      s.targets[p.0] in s.guardians && p.1 in s.guardians[s.targets[p.0]]
  }

  /** The count is the number of distinct approvers, and the approved flag
      is set exactly when the count has reached the account's threshold. */
  ghost predicate TallyValid(s: Store)
  {
    CountsValid(s) && ApprovalsValid(s)
  }

  ghost predicate CountsValid(s: Store)
  {
    forall id :: id in s.counts ==> s.counts[id] == |Approvers(s, id)|
  }

  ghost predicate ApprovalsValid(s: Store)
  {
    forall id :: id in s.approved ==>
      id in s.counts && id in s.targets && s.targets[id] in s.thresholds &&
      (s.approved[id] <==> s.counts[id] >= s.thresholds[s.targets[id]] as int)
  }

  ghost predicate Valid(s: Store)
  {
    ConfigsValid(s) && RequestsValid(s) && MarksValid(s) && TallyValid(s)
  }

  // ---------------------------------------------------------------------
  // The writes of each entry point that gets past its guards

  /** `init_guardians` writes the list, the threshold and the flag. */
  function WithGuardians(s: Store, account: AccountHash, guards: seq<AccountHash>, thresh: u8): Store
  {
    s.(guardians := s.guardians[account := guards],
       thresholds := s.thresholds[account := thresh],
       initialized := s.initialized[account := true])
  }

  /** `start_recovery` writes the counter, the request's fields and the
      account's marker, all with the id one past the counter. */
  function WithRequest(s: Store, account: AccountHash, newKey: PublicKey): Store
  {
    var id := s.counter + 1;
    s.(counter := id,
       targets := s.targets[id := account],
       newKeys := s.newKeys[id := newKey],
       counts := s.counts[id := 0],
       approved := s.approved[id := false],
       openRecovery := s.openRecovery[account := id])
  }

  /** `approve` writes the caller's mark and the incremented count, and the
      approved flag when the count reaches the threshold (2 when absent). */
  function WithApproval(s: Store, caller: AccountHash, id: nat, account: AccountHash): Store
  {
    var count := ReadOr(s.counts, id, 0) + 1;
    var thresh := ReadOr(s.thresholds, account, 2);
    s.(marks := s.marks[(id, caller) := true],
       counts := s.counts[id := count],
       approved := if count >= thresh as int then s.approved[id := true] else s.approved)
  }

  // ---------------------------------------------------------------------
  // Entry points

  /** `init_guardians`: the owner registers its guardians once. */
  function InitGuardians(s: Store, caller: AccountHash, account: AccountHash,
                         guards: seq<AccountHash>, thresh: u8): (o: Step<()>)
    ensures o.result == Fail(NotOwner) <==> caller != account
    ensures o.result == Fail(BadGuardians) <==> caller == account && |guards| < 2
    ensures o.result == Fail(BadThreshold) <==>
      caller == account && |guards| >= 2 && (thresh == 0 || thresh as int > |guards|)
    ensures o.result == Fail(AlreadyInit) <==>
      caller == account && |guards| >= 2 && 1 <= thresh as int <= |guards| &&
      HasGuardians(s, account)
    ensures o.result.Ok? <==>
      caller == account && |guards| >= 2 && 1 <= thresh as int <= |guards| &&
      !HasGuardians(s, account)
    ensures o.result.Fail? ==> o.next == s
    ensures o.result.Ok? ==>
      HasGuardians(o.next, account) &&
      GetGuardians(o.next, account) == Ok(guards) &&
      account in o.next.thresholds && o.next.thresholds[account] == thresh
    ensures o.result.Ok? ==> forall other :: other != account ==>
      HasGuardians(o.next, other) == HasGuardians(s, other) &&
      GetGuardians(o.next, other) == GetGuardians(s, other)
    ensures o.result.Ok? ==>
      o.next.guardians == s.guardians[account := guards] &&
      o.next.thresholds == s.thresholds[account := thresh] &&
      o.next.initialized == s.initialized[account := true]
    ensures o.next.(guardians := s.guardians, thresholds := s.thresholds,
                    initialized := s.initialized) == s
  {
    if caller != account then Revert(s, NotOwner)
    else if |guards| < 2 then Revert(s, BadGuardians)
    else if thresh == 0 || thresh as int > |guards| then Revert(s, BadThreshold)
    else if ReadOr(s.initialized, account, false) then Revert(s, AlreadyInit)
    else Step(WithGuardians(s, account, guards, thresh), Ok(()))
  }

  /** `start_recovery`: anyone opens a recovery of an initialised account
      that has none yet; the new id is one past the counter. */
  function StartRecovery(s: Store, account: AccountHash, newKey: PublicKey): (o: Step<nat>)
    ensures o.result == Fail(NotInit) <==> !HasGuardians(s, account)
    ensures o.result == Fail(RecoveryExists) <==>
      HasGuardians(s, account) && account in s.openRecovery
    ensures o.result.Ok? <==> HasGuardians(s, account) && account !in s.openRecovery
    ensures o.result.Fail? ==> o.next == s
    ensures o.result.Ok? ==>
      var id := o.result.value;
      id == s.counter + 1 && o.next.counter == id &&
      o.next.targets == s.targets[id := account] &&
      o.next.newKeys == s.newKeys[id := newKey] &&
      o.next.counts == s.counts[id := 0] &&
      o.next.approved == s.approved[id := false] &&
      o.next.openRecovery == s.openRecovery[account := id]
    ensures o.next.(counter := s.counter, targets := s.targets, newKeys := s.newKeys,
                    counts := s.counts, approved := s.approved,
                    openRecovery := s.openRecovery) == s
  {
    if !ReadOr(s.initialized, account, false) then Revert(s, NotInit)
    else if account in s.openRecovery then Revert(s, RecoveryExists)
    else Step(WithRequest(s, account, newKey), Ok(s.counter + 1))
  }

  /** `approve`: a guardian of the request's account records its approval
      once; the request is approved when the count reaches the threshold. */
  function Approve(s: Store, caller: AccountHash, id: nat): (o: Step<()>)
    ensures o.result == Fail(NotFound) <==> id !in s.targets
    ensures o.result == Fail(NotGuardian) <==>
      id in s.targets &&
      (s.targets[id] !in s.guardians || caller !in s.guardians[s.targets[id]])
    ensures o.result == Fail(AlreadyApproved) <==>
      id in s.targets && s.targets[id] in s.guardians &&
      caller in s.guardians[s.targets[id]] && HasApproved(s, id, caller)
    ensures o.result.Ok? <==>
      id in s.targets && s.targets[id] in s.guardians &&
      caller in s.guardians[s.targets[id]] && !HasApproved(s, id, caller)
    ensures o.result.Fail? ==> o.next == s
    ensures o.result.Ok? ==>
      HasApproved(o.next, id, caller) &&
      o.next.marks == s.marks[(id, caller) := true] &&
      o.next.counts == s.counts[id := ReadOr(s.counts, id, 0) + 1]
    ensures o.result.Ok? ==>
      (IsApproved(o.next, id) <==>
        IsApproved(s, id) || o.next.counts[id] >= ReadOr(s.thresholds, s.targets[id], 2) as int)
    ensures forall j :: j != id ==> IsApproved(o.next, j) == IsApproved(s, j)
    ensures o.next.(marks := s.marks, counts := s.counts, approved := s.approved) == s
  {
    if id !in s.targets then Revert(s, NotFound)
    else
      var account := s.targets[id];
      if account !in s.guardians then Revert(s, NotGuardian)
      else if caller !in s.guardians[account] then Revert(s, NotGuardian)
      else if ReadOr(s.marks, (id, caller), false) then Revert(s, AlreadyApproved)
      else Step(WithApproval(s, caller, id, account), Ok(()))
  }

  /** `finalize`: succeeds exactly on an approved id and writes nothing. */
  function Finalize(s: Store, id: nat): (o: Step<()>)
    ensures o.result.Ok? <==> IsApproved(s, id)
    ensures o.result.Fail? ==> o.result.err == NotApproved
    ensures o.next == s
  {
    if !ReadOr(s.approved, id, false) then Revert(s, NotApproved) else Step(s, Ok(()))
  }

  // ---------------------------------------------------------------------
  // Each entry point keeps the invariant

  lemma InitGuardiansKeepsValid(s: Store, caller: AccountHash, account: AccountHash,
                                guards: seq<AccountHash>, thresh: u8)
    requires Valid(s)
    ensures Valid(InitGuardians(s, caller, account, guards, thresh).next)
  {
    if InitGuardians(s, caller, account, guards, thresh).result.Ok? {
      WithGuardiansKeepsValid(s, account, guards, thresh);
    }
  }

  lemma WithGuardiansKeepsValid(s: Store, account: AccountHash, guards: seq<AccountHash>, thresh: u8)
    requires Valid(s) && !HasGuardians(s, account)
    requires |guards| >= 2 && 1 <= thresh as int <= |guards|
    ensures Valid(WithGuardians(s, account, guards, thresh))
  {
    var t := WithGuardians(s, account, guards, thresh);
    assert account !in s.initialized && account !in s.guardians && account !in s.thresholds;
    WithGuardiansKeepsConfigs(s, account, guards, thresh);
    WithGuardiansKeepsRequests(s, account, guards, thresh);
    WithGuardiansKeepsMarks(s, account, guards, thresh);
    SameMarksKeepTally(s, t);
  }

  lemma WithGuardiansKeepsConfigs(s: Store, account: AccountHash, guards: seq<AccountHash>, thresh: u8)
    requires ConfigsValid(s)
    requires |guards| >= 2 && 1 <= thresh as int <= |guards|
    ensures ConfigsValid(WithGuardians(s, account, guards, thresh))
  {
  }

  lemma WithGuardiansKeepsRequests(s: Store, account: AccountHash, guards: seq<AccountHash>, thresh: u8)
    requires RequestsValid(s)
    ensures RequestsValid(WithGuardians(s, account, guards, thresh))
  {
    var t := WithGuardians(s, account, guards, thresh);
    forall id | id in t.targets ensures HasGuardians(t, t.targets[id]) {
      assert HasGuardians(s, s.targets[id]);
    }
  }

  lemma WithGuardiansKeepsMarks(s: Store, account: AccountHash, guards: seq<AccountHash>, thresh: u8)
    requires MarksValid(s) && account !in s.guardians
    ensures MarksValid(WithGuardians(s, account, guards, thresh))
  {
  }

  /** A write that leaves marks, counts, approvals, targets and the
      thresholds already present alone keeps the tally. */
  lemma SameMarksKeepTally(s: Store, t: Store)
    requires TallyValid(s)
    requires t.marks == s.marks && t.counts == s.counts && t.approved == s.approved
    requires t.targets == s.targets
    requires forall acc :: acc in s.thresholds ==> acc in t.thresholds && t.thresholds[acc] == s.thresholds[acc]
    ensures TallyValid(t)
  {
    forall id | id in t.counts ensures t.counts[id] == |Approvers(t, id)| {
      assert Approvers(t, id) == Approvers(s, id);
    }
  }

  lemma StartRecoveryKeepsValid(s: Store, account: AccountHash, newKey: PublicKey)
    requires Valid(s)
    ensures Valid(StartRecovery(s, account, newKey).next)
  {
    if StartRecovery(s, account, newKey).result.Ok? {
      WithRequestKeepsValid(s, account, newKey);
    }
  }

  lemma WithRequestKeepsValid(s: Store, account: AccountHash, newKey: PublicKey)
    requires Valid(s) && HasGuardians(s, account) && account !in s.openRecovery
    ensures Valid(WithRequest(s, account, newKey))
  {
    var id := s.counter + 1;
    assert id !in s.targets;
    assert account in s.thresholds && s.thresholds[account] >= 1;
    WithRequestKeepsConfigs(s, account, newKey);
    WithRequestKeepsIds(s, account, newKey);
    WithRequestKeepsTargets(s, account, newKey);
    WithRequestKeepsMarkers(s, account, newKey);
    WithRequestKeepsMarks(s, account, newKey);
    WithRequestKeepsTally(s, account, newKey);
  }

  lemma WithRequestKeepsConfigs(s: Store, account: AccountHash, newKey: PublicKey)
    requires ConfigsValid(s)
    ensures ConfigsValid(WithRequest(s, account, newKey))
  {
  }

  lemma WithRequestKeepsIds(s: Store, account: AccountHash, newKey: PublicKey)
    requires IdsValid(s)
    ensures IdsValid(WithRequest(s, account, newKey))
  {
    var t, id := WithRequest(s, account, newKey), s.counter + 1;
    forall j ensures j in t.targets <==> 1 <= j <= t.counter {
      assert j in t.targets <==> j == id || j in s.targets;
    }
  }

  lemma WithRequestKeepsTargets(s: Store, account: AccountHash, newKey: PublicKey)
    requires TargetsValid(s) && HasGuardians(s, account) && account !in s.openRecovery
    requires s.counter + 1 !in s.targets
    ensures TargetsValid(WithRequest(s, account, newKey))
  {
    var t, id := WithRequest(s, account, newKey), s.counter + 1;
    forall j | j in t.targets
      ensures HasGuardians(t, t.targets[j]) &&
              t.targets[j] in t.openRecovery && t.openRecovery[t.targets[j]] == j
    {
      if j != id {
        assert s.targets[j] in s.openRecovery;
      }
    }
  }

  lemma WithRequestKeepsMarkers(s: Store, account: AccountHash, newKey: PublicKey)
    requires MarkersValid(s) && s.counter + 1 !in s.targets
    ensures MarkersValid(WithRequest(s, account, newKey))
  {
  }

  lemma WithRequestKeepsMarks(s: Store, account: AccountHash, newKey: PublicKey)
    requires MarksValid(s) && s.counter + 1 !in s.targets
    ensures MarksValid(WithRequest(s, account, newKey))
  {
  }

  lemma WithRequestKeepsTally(s: Store, account: AccountHash, newKey: PublicKey)
    requires TallyValid(s) && MarksValid(s) && s.counter + 1 !in s.targets
    requires s.approved.Keys == s.targets.Keys
    requires account in s.thresholds && s.thresholds[account] >= 1
    ensures TallyValid(WithRequest(s, account, newKey))
  {
    WithRequestKeepsCounts(s, account, newKey);
    WithRequestKeepsApprovals(s, account, newKey);
  }

  lemma WithRequestKeepsCounts(s: Store, account: AccountHash, newKey: PublicKey)
    requires CountsValid(s) && MarksValid(s) && s.counter + 1 !in s.targets
    ensures CountsValid(WithRequest(s, account, newKey))
  {
    var t, id := WithRequest(s, account, newKey), s.counter + 1;
    forall j | j in t.counts ensures t.counts[j] == |Approvers(t, j)| {
      if j == id {
        assert Approvers(t, j) == {};
      } else {
        assert Approvers(t, j) == Approvers(s, j);
      }
    }
  }

  lemma WithRequestKeepsApprovals(s: Store, account: AccountHash, newKey: PublicKey)
    requires ApprovalsValid(s) && s.counter + 1 !in s.targets
    requires s.approved.Keys == s.targets.Keys
    requires account in s.thresholds && s.thresholds[account] >= 1
    ensures ApprovalsValid(WithRequest(s, account, newKey))
  {
  }

  lemma ApproveKeepsValid(s: Store, caller: AccountHash, id: nat)
    requires Valid(s)
    ensures Valid(Approve(s, caller, id).next)
  {
    if Approve(s, caller, id).result.Ok? {
      WithApprovalKeepsValid(s, caller, id);
    }
  }

  lemma WithApprovalKeepsValid(s: Store, caller: AccountHash, id: nat)
    requires Valid(s) && id in s.targets && s.targets[id] in s.guardians
    requires caller in s.guardians[s.targets[id]] && !HasApproved(s, id, caller)
    ensures Valid(WithApproval(s, caller, id, s.targets[id]))
  {
    assert (id, caller) !in s.marks;
    WithApprovalKeepsStructure(s, caller, id);
    WithApprovalKeepsCounts(s, caller, id);
    WithApprovalKeepsApprovals(s, caller, id);
  }

  lemma WithApprovalKeepsStructure(s: Store, caller: AccountHash, id: nat)
    requires ConfigsValid(s) && RequestsValid(s) && MarksValid(s)
    requires id in s.targets && s.targets[id] in s.guardians
    requires caller in s.guardians[s.targets[id]]
    ensures var t := WithApproval(s, caller, id, s.targets[id]);
      ConfigsValid(t) && RequestsValid(t) && MarksValid(t)
  {
    var t := WithApproval(s, caller, id, s.targets[id]);
    assert ConfigsValid(t);
    assert IdsValid(t) by {
      assert t.counts.Keys == s.counts.Keys && t.approved.Keys == s.approved.Keys;
    }
    assert TargetsValid(t);
    assert MarkersValid(t);
    WithApprovalKeepsMarks(s, caller, id);
  }

  lemma WithApprovalKeepsMarks(s: Store, caller: AccountHash, id: nat)
    requires MarksValid(s)
    requires id in s.targets && s.targets[id] in s.guardians
    requires caller in s.guardians[s.targets[id]]
    ensures MarksValid(WithApproval(s, caller, id, s.targets[id]))
  {
  }

  lemma WithApprovalKeepsCounts(s: Store, caller: AccountHash, id: nat)
    requires CountsValid(s) && id in s.counts && (id, caller) !in s.marks
    requires id in s.targets
    ensures CountsValid(WithApproval(s, caller, id, s.targets[id]))
  {
    var t := WithApproval(s, caller, id, s.targets[id]);
    forall j | j in t.counts ensures t.counts[j] == |Approvers(t, j)| {
      ApproversAfterMark(s, t, caller, id, j);
    }
  }

  lemma WithApprovalKeepsApprovals(s: Store, caller: AccountHash, id: nat)
    requires ApprovalsValid(s) && CountsValid(s) && id in s.targets && id in s.counts
    requires id in s.approved && s.targets[id] in s.thresholds
    ensures ApprovalsValid(WithApproval(s, caller, id, s.targets[id]))
  {
  }

  /** Marking one guardian for one id adds exactly that guardian to that
      id's approvers and leaves every other id's approvers alone. */
  lemma ApproversAfterMark(s: Store, t: Store, caller: AccountHash, id: nat, j: nat)
    requires (id, caller) !in s.marks && t.marks == s.marks[(id, caller) := true]
    ensures j == id ==>
      (caller !in Approvers(s, j) && Approvers(t, j) == Approvers(s, j) + {caller})
    ensures j != id ==> Approvers(t, j) == Approvers(s, j)
  {
    if j == id {
      assert Approvers(t, j) == Approvers(s, j) + {caller};
    } else {
      assert Approvers(t, j) == Approvers(s, j);
    }
  }

  // ---------------------------------------------------------------------
  // Consequences of the invariant

  /** The defaults `unwrap_or(2)` for the threshold and `NotGuardian` for a
      missing list are never used: a request's account always has both. */
  lemma DefaultsAreDead(s: Store, id: nat)
    requires Valid(s) && id in s.targets
    ensures s.targets[id] in s.guardians && s.targets[id] in s.thresholds
    ensures ReadOr(s.thresholds, s.targets[id], 2) == s.thresholds[s.targets[id]]
  {
  }

  /** The approval count never exceeds the number of distinct guardians of
      the request's account, however often an identity is listed. */
  lemma CountAtMostGuardians(s: Store, id: nat)
    requires Valid(s) && id in s.targets
    ensures s.targets[id] in s.guardians
    ensures s.counts[id] <= |Distinct(s.guardians[s.targets[id]])|
  {
    var guards := s.guardians[s.targets[id]];
    assert Approvers(s, id) <= Distinct(guards);
    SubsetCardinality(Approvers(s, id), Distinct(guards));
  }

  lemma SubsetCardinality<T>(a: set<T>, b: set<T>)
    requires a <= b
    ensures |a| <= |b|
  {
    assert b == a + (b - a);
  }

  /** A request is approved exactly when its count has reached the threshold
      of its account; an id that was never created is not approved. */
  lemma ApprovedMeansQuorum(s: Store, id: nat)
    requires Valid(s)
    ensures IsApproved(s, id) <==>
      id in s.targets && s.counts[id] >= s.thresholds[s.targets[id]] as int
    ensures id !in s.targets ==> !IsApproved(s, id)
  {
  }

  /** An account carries an open-recovery marker exactly when some request
      targets it, and the marker then names that request. */
  lemma MarkerNamesRequest(s: Store, acc: AccountHash)
    requires Valid(s)
    ensures acc in s.openRecovery <==> exists id :: id in s.targets && s.targets[id] == acc
    ensures acc in s.openRecovery ==> s.targets[s.openRecovery[acc]] == acc
  {
    if acc in s.openRecovery {
      var id := s.openRecovery[acc];
      assert id in s.targets && s.targets[id] == acc;
    }
  }

  /** Every account has at most one recovery request, ever. */
  lemma OneRequestPerAccount(s: Store, id1: nat, id2: nat)
    requires Valid(s) && id1 in s.targets && id2 in s.targets
    requires s.targets[id1] == s.targets[id2]
    ensures id1 == id2
  {
  }

  /** A new id is different from every id handed out before, whatever the
      account. */
  lemma StartRecoveryIdIsFresh(s: Store, account: AccountHash, newKey: PublicKey)
    requires Valid(s)
    requires StartRecovery(s, account, newKey).result.Ok?
    ensures StartRecovery(s, account, newKey).result.value !in s.targets
    ensures forall id :: id in s.targets ==> id < StartRecovery(s, account, newKey).result.value
  {
  }

  /** The `u8` increment of the count cannot overflow while the account lists
      at most 255 distinct guardians: the new count stays within them. */
  lemma ApproveCountFits(s: Store, caller: AccountHash, id: nat)
    requires Valid(s)
    requires Approve(s, caller, id).result.Ok?
    ensures s.targets[id] in s.guardians
    ensures Approve(s, caller, id).next.counts[id] <= |Distinct(s.guardians[s.targets[id]])|
  {
    CountBelowGuardiansBeforeApproval(s, caller, id);
  }

  /** A guardian who has not yet approved is a guardian missing from the
      approvers, so the count is below the number of distinct guardians. */
  lemma CountBelowGuardiansBeforeApproval(s: Store, caller: AccountHash, id: nat)
    requires MarksValid(s) && CountsValid(s) && id in s.counts
    requires id in s.targets && s.targets[id] in s.guardians
    requires caller in s.guardians[s.targets[id]] && (id, caller) !in s.marks
    ensures s.counts[id] + 1 <= |Distinct(s.guardians[s.targets[id]])|
  {
    var guards := s.guardians[s.targets[id]];
    assert caller !in Approvers(s, id);
    assert Approvers(s, id) + {caller} <= Distinct(guards);
    SubsetCardinality(Approvers(s, id) + {caller}, Distinct(guards));
  }

  /** A second registration of an account is refused with `AlreadyInit`
      and leaves the first registration as it was. */
  lemma SecondInitFails(s: Store, account: AccountHash,
                        guards1: seq<AccountHash>, thresh1: u8,
                        guards2: seq<AccountHash>, thresh2: u8)
    requires InitGuardians(s, account, account, guards1, thresh1).result.Ok?
    requires |guards2| >= 2 && 1 <= thresh2 as int <= |guards2|
    ensures var t := InitGuardians(s, account, account, guards1, thresh1).next;
      InitGuardians(t, account, account, guards2, thresh2) == Revert(t, AlreadyInit) &&
      GetGuardians(t, account) == Ok(guards1) && t.thresholds[account] == thresh1
  {
  }
}
