# Social-recovery registry, modelled in Dafny

This project models the recovery registry contract of
`contracts/recovery_registry/src/main.rs`. An account owner registers a
list of guardians and a threshold. Anyone may then open a recovery request
that proposes a new public key for the account. Each guardian approves the
request at most once. The request is approved once the number of distinct
approvals reaches the threshold. `finalize` succeeds only on an approved
request.

The contract keeps all of its state in one key-value dictionary. Each
record sits under a key made of a short prefix and an identifier. The model
keeps one map per prefix instead:

- guardian list, threshold, initialised flag and open-recovery marker per account;
- target account, proposed key, approval count and approved flag per recovery id;
- the approval mark per (id, guardian);
- the global id counter.

Files:

- `types.dfy` (module `Types`) holds identities, the `u8` threshold type,
  the numbered error codes and `ReadOr`. `ReadOr` is the typed
  `read(key).unwrap_or(default)` of one prefix.
- `ledger.dfy` (module `Ledger`) holds the dictionary as a value (`Store`)
  and each entry point as a function from the state before a call to the
  state after it plus the call's result. A reverting call returns the state
  it started from: this is the host's all-or-nothing `runtime::revert`. The
  file also holds the invariant `Valid` that every reachable dictionary
  satisfies, the proofs that each entry point keeps it, and its consequences.
- `registry.dfy` (module `Registry`) holds the contract as an object. Class
  `RecoveryRegistry` has one map field per prefix and one method per entry
  point. Each method checks its guards in the contract's order, returns the
  error code of the first guard that fails, and otherwise writes field by
  field. Each method is proved to do exactly what the matching `Ledger`
  function does.
- `traces.dfy` (module `Traces`) holds sequences of calls and the properties
  that hold along all of them.
- `scenarios.dfy` (module `Scenarios`) holds concrete runs from a fresh deployment.

## Model

| member | source | states |
|---|---|---|
| `Types.Code` | contracts/recovery_registry/src/main.rs:32-49 | the number `ApiError::User` reports for each error, one of 1..11 |
| `Types.ReadOr` | contracts/recovery_registry/src/main.rs:60-62 | a typed read of one prefix: the stored value when the key is present, the caller's default otherwise |
| `Types.FromCode` | contracts/recovery_registry/src/main.rs:32-48 | exactly the user codes 1..11 are contract errors, and decoding a code gives the error that `ApiError::User` reports with it |
| `Types.CodeRoundTrip` | contracts/recovery_registry/src/main.rs:32-45 | every error has a code in 1..11 and decoding that code gives the error back, so no two errors share a code |
| `Ledger.Empty` | contracts/recovery_registry/src/main.rs:60-62 | in a fresh dictionary every read gets its default: no account is initialised and `get_guardians` reverts with `NotInit`, no account has an open-recovery marker, no request exists or is approved, no approval mark is set, and the invariant holds |
| `Ledger.HasGuardians` | contracts/recovery_registry/src/main.rs:145-149 | true exactly when the account's initialised flag is stored and true |
| `Ledger.GetGuardians` | contracts/recovery_registry/src/main.rs:138-143 | the stored list when the account has one, otherwise `NotInit` |
| `Ledger.IsApproved` | contracts/recovery_registry/src/main.rs:126-130 | true exactly when the id's approved flag is stored and true; false for an id never created |
| `Ledger.WithGuardians` | contracts/recovery_registry/src/main.rs:81-83 | the three writes of a registration: list, threshold and initialised flag of the account |
| `Ledger.WithRequest` | contracts/recovery_registry/src/main.rs:94-100 | the six writes of a new recovery: counter, target, key, zero count, unset flag and the account's marker, all with id counter + 1 |
| `Ledger.WithApproval` | contracts/recovery_registry/src/main.rs:118-123 | the writes of an approval: the caller's mark, the count read with default 0 plus one, and the approved flag when that count reaches the threshold read with default 2 |
| `Ledger.InitGuardians` | contracts/recovery_registry/src/main.rs:68-84 | fails with `NotOwner`, `BadGuardians`, `BadThreshold`, `AlreadyInit` exactly when that guard is the first to fail, in this order; a failure changes nothing; on success `has_guardians` is true and `get_guardians` returns exactly the given list with the given threshold; the list, threshold and flag maps change only at this account, and the recovery records are unchanged |
| `Ledger.StartRecovery` | contracts/recovery_registry/src/main.rs:86-103 | fails with `NotInit` exactly on an uninitialised account and with `RecoveryExists` exactly when its marker is present; a failure changes nothing; otherwise it returns counter + 1, stores it as the counter, creates the request with count 0 and not approved, and sets the account's marker to it; nothing else changes |
| `Ledger.Approve` | contracts/recovery_registry/src/main.rs:105-124 | fails with `NotFound` exactly on an unknown id, with `NotGuardian` exactly when the caller is not in the account's list, and with `AlreadyApproved` exactly when the caller's mark is set; a failure changes nothing, so the count stays; on success the caller's mark is set, the count grows by one, and the request is approved exactly when it already was or the new count reaches the threshold; no other request's flag changes |
| `Ledger.Finalize` | contracts/recovery_registry/src/main.rs:132-136 | succeeds exactly on an approved id, otherwise fails with `NotApproved`, and never changes the dictionary |
| `Ledger.InitGuardiansKeepsValid` | contracts/recovery_registry/src/main.rs:78-83 | registration keeps the invariant: list, threshold and flag are written together and the list has at least two entries with the threshold in 1..length |
| `Ledger.StartRecoveryKeepsValid` | contracts/recovery_registry/src/main.rs:94-100 | opening a recovery keeps the invariant: requests exist exactly for ids 1..counter, each for an initialised account whose marker names it, every marker names its account's request, and the new request has no approvals yet |
| `Ledger.ApproveKeepsValid` | contracts/recovery_registry/src/main.rs:115-123 | approving keeps the invariant: each count equals the number of distinct guardians marked for that id, and a request is approved exactly when its count has reached its account's threshold |
| `Ledger.DefaultsAreDead` | contracts/recovery_registry/src/main.rs:110-122 | in a valid dictionary a request's account always has a list and a threshold, so the `NotGuardian` fallback for a missing list and the `unwrap_or(2)` threshold are never used |
| `Ledger.CountAtMostGuardians` | contracts/recovery_registry/src/main.rs:113-120 | a request's count never exceeds the number of distinct guardians of its account, even when the list repeats an identity |
| `Ledger.ApprovedMeansQuorum` | contracts/recovery_registry/src/main.rs:119-129 | `is_approved` is true exactly when the request exists and its count has reached the threshold; an id never created reads as not approved |
| `Ledger.MarkerNamesRequest` | contracts/recovery_registry/src/main.rs:92-100 | an account has an open-recovery marker exactly when some request targets it, and the marker holds that request's id |
| `Ledger.OneRequestPerAccount` | contracts/recovery_registry/src/main.rs:92-100 | no two recovery requests ever target the same account |
| `Ledger.StartRecoveryIdIsFresh` | contracts/recovery_registry/src/main.rs:94-96 | a new id is larger than, and so different from, every id already handed out to any account |
| `Ledger.ApproveCountFits` | contracts/recovery_registry/src/main.rs:119-120 | after a successful approval the count is at most the number of distinct guardians, so the `u8` increment cannot overflow while an account lists at most 255 distinct guardians |
| `Ledger.SecondInitFails` | contracts/recovery_registry/src/main.rs:78-83 | a second registration of an account, with any valid list and threshold, reverts with `AlreadyInit` and leaves the first list and threshold in place |
| `Registry.RecoveryRegistry.constructor` | contracts/recovery_registry/src/main.rs:199-204 | a freshly created dictionary is the empty store and satisfies the invariant |
| `Registry.RecoveryRegistry.InitGuardians` | contracts/recovery_registry/src/main.rs:68-84 | the guards and the three writes produce exactly the result and the new state of `Ledger.InitGuardians`, and a valid object stays valid |
| `Registry.RecoveryRegistry.StartRecovery` | contracts/recovery_registry/src/main.rs:86-103 | the guards and the six writes produce exactly the result and the new state of `Ledger.StartRecovery`, and a valid object stays valid |
| `Registry.RecoveryRegistry.Approve` | contracts/recovery_registry/src/main.rs:105-124 | the guards, the mark, the count and the conditional flag write produce exactly the result and the new state of `Ledger.Approve`, and a valid object stays valid |
| `Registry.RecoveryRegistry.Finalize` | contracts/recovery_registry/src/main.rs:132-136 | succeeds exactly when the request exists and its count has reached its account's threshold; writes nothing |
| `Registry.RecoveryRegistry.IsApproved` | contracts/recovery_registry/src/main.rs:126-130 | true exactly when the request exists and its count has reached its account's threshold |
| `Registry.RecoveryRegistry.GetGuardians` | contracts/recovery_registry/src/main.rs:138-143 | returns the list exactly when the account is initialised, otherwise `NotInit`; a returned list has at least two entries and the threshold lies within it |
| `Registry.RecoveryRegistry.HasGuardians` | contracts/recovery_registry/src/main.rs:145-149 | the initialised flag, false for an account never registered |
| `Traces.ExecKeepsValid` | contracts/recovery_registry/src/main.rs:68-136 | every writing entry point, succeeding or reverting, keeps the invariant |
| `Traces.RunKeepsValid` | contracts/recovery_registry/src/main.rs:68-136 | any sequence of calls keeps the invariant |
| `Traces.Reachable` | contracts/recovery_registry/src/main.rs:113-120 | every dictionary reachable from deployment is valid, and each count in it is at most the number of distinct guardians of its account |
| `Traces.OpenedIdsConsecutive` | contracts/recovery_registry/src/main.rs:94-95 | the ids returned by a run are counter + 1, counter + 2, ... in order, one per recovery opened, and the counter ends at the last of them |
| `Traces.IdsStrictlyIncreasing` | contracts/recovery_registry/src/main.rs:94-95 | from deployment the i-th recovery opened gets id i + 1, so ids are strictly increasing and unique across all accounts |
| `Traces.ExecKeepsApproved` | contracts/recovery_registry/src/main.rs:98-123 | no single call resets an approved flag to false |
| `Traces.ApprovedIsMonotone` | contracts/recovery_registry/src/main.rs:122-123 | once approved, a request stays approved after any sequence of calls |
| `Traces.ConfigIsFrozen` | contracts/recovery_registry/src/main.rs:78-83 | once registered, an account's flag, guardian list and threshold never change |
| `Traces.MarkerIsPermanent` | contracts/recovery_registry/src/main.rs:100-136 | an account's open-recovery marker, once written, is never cleared or changed, `finalize` included |
| `Traces.OneRecoveryPerAccountForever` | contracts/recovery_registry/src/main.rs:92-100 | after an account's first recovery is opened, every later `start_recovery` for it, after any calls, reverts with `RecoveryExists` |
| `Scenarios.SingleApprovalRecovery` | contracts/recovery_registry/src/main.rs:68-136 | with guardians G1, G2 and threshold 1: the first recovery gets id 1, one approval approves it, `finalize` succeeds, and a second `start_recovery` reverts with `RecoveryExists` |
| `Scenarios.TwoOfThreeRecovery` | contracts/recovery_registry/src/main.rs:105-136 | with threshold 2 over G1, G2, G3: one approval does not approve and `finalize` fails, a repeat is refused, the second approves, and the third still succeeds with count 3 |
| `Scenarios.GuardFailures` | contracts/recovery_registry/src/main.rs:74-141 | each guard fails with its own code on a concrete input: `NotOwner`, `BadGuardians`, `BadThreshold` (zero and too large) and `AlreadyInit` of `init_guardians`; `NotInit` and `RecoveryExists` of `start_recovery`; `NotFound`, `NotGuardian` and `AlreadyApproved` of `approve`; `NotInit` of `get_guardians` |
| `Scenarios.IdsAcrossAccounts` | contracts/recovery_registry/src/main.rs:94-95 | recoveries of two different accounts get ids 1 and 2 |

## Left out

- Deployment (`call`, main.rs:152-208) is left out: entry-point registration, the named key of the dictionary and contract installation are host plumbing.
- `get_dict` and the `MissingDict` revert are left out. The model's dictionary always exists. `MissingDict` appears only in the code table.
- The string keys (`"i"`, `"g"`, `"t"`, `"a"`, `"ra"`, `"rk"`, `"rc"`, `"ro"`, `"rp"` plus the `Debug` or decimal rendering of the identifier) become one map per prefix. No two prefixes can produce the same key, so separate maps lose nothing. The byte layout itself is not modelled.
- Argument decoding (`get_named_arg`), caller authentication (`get_caller`) and return encoding (`runtime::ret`) are left out. The caller and the arguments are parameters, and the return value is the result.
- `PublicKey` is an opaque value that is only stored. `U256` ids and the counter are unbounded naturals; their overflow, after 2^256 - 1 recoveries, is not modelled.
- Ledger.Approve: the approval count is an unbounded natural, not the source's `u8`. Wrap-around or a panic at the 256th approval is not modelled. `Ledger.ApproveCountFits` shows that the count never passes 255 while an account lists at most 255 distinct guardians. The same holds for `Registry.RecoveryRegistry.Approve`.
- The writing methods of `RecoveryRegistry` promise `old(Valid()) ==> Valid()` instead of requiring `Valid()`. This says the same for every object built by the constructor.
- The counter key `"c"` is a plain natural that starts at 0. An absent counter reads as 0 in the source, so the two cannot be told apart.
- Host transaction ordering and concurrency are not modelled. The host runs one entry point at a time, and a sequence of calls (`Traces.Run`) stands for that order.
- `contracts/test_contract/src/main.rs` is not modelled: its `ping` entry point does nothing.
- A reverse index (guardian to protected accounts, guardian to active recoveries), a finalized flag, and the queries `get_protected_accounts` and `get_recoveries_for_guardian` are not in this contract's code: it has no reverse index, no finalized flag and no such queries, so none is modelled. Here `finalize` writes nothing (main.rs:133-136), and the model follows the code.
- The model keeps two behaviours of the code as written. First, `start_recovery` does not check who calls it. Second, the open-recovery marker is never cleared, so an account can open only one recovery in its lifetime (`Traces.OneRecoveryPerAccountForever`).
