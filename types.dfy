/** Values shared by every part of the recovery registry: identities, the
    numbered error codes, the result of an entry point, and the typed read of
    the contract's key-value dictionary. */
module Types {

  /** The 32-byte hash that identifies an account (and a guardian). Only
      equality of identities matters to the registry. */
  datatype AccountHash = AccountHash(bytes: seq<bv8>)

  /** The credential proposed by a recovery; the registry only stores it. */
  datatype PublicKey = PublicKey(bytes: seq<bv8>)

  /** The threshold argument is a `u8`. */
  newtype u8 = x: int | 0 <= x < 256

  /** The user error codes of the contract, in declaration order. */
  datatype Err =
    | NotOwner
    | AlreadyInit
    | BadGuardians
    | BadThreshold
    | NotGuardian
    | RecoveryExists
    | NotFound
    | AlreadyApproved
    | NotApproved
    | NotInit
    | MissingDict

  /** The number a caller observes as `ApiError::User(code)`. */
  function Code(e: Err): (c: nat)
    ensures 1 <= c <= 11
  {
    match e
    case NotOwner => 1
    case AlreadyInit => 2
    case BadGuardians => 3
    case BadThreshold => 4
    case NotGuardian => 5
    case RecoveryExists => 6
    case NotFound => 7
    case AlreadyApproved => 8
    case NotApproved => 9
    case NotInit => 10
    case MissingDict => 11
  }

  datatype Option<T> = None | Some(value: T)

  /** Interprets a user error code; exactly the codes 1..11 are errors of the
      contract, and each names the error that reports it. */
  function FromCode(c: nat): (r: Option<Err>)
    ensures r.Some? <==> 1 <= c <= 11
    ensures r.Some? ==> Code(r.value) == c
  {
    if c == 1 then Some(NotOwner)
    else if c == 2 then Some(AlreadyInit)
    else if c == 3 then Some(BadGuardians)
    else if c == 4 then Some(BadThreshold)
    else if c == 5 then Some(NotGuardian)
    else if c == 6 then Some(RecoveryExists)
    else if c == 7 then Some(NotFound)
    else if c == 8 then Some(AlreadyApproved)
    else if c == 9 then Some(NotApproved)
    else if c == 10 then Some(NotInit)
    else if c == 11 then Some(MissingDict)
    else None
  }

  /** Distinct errors carry distinct codes: decoding a code gives back its error. */
  lemma CodeRoundTrip(e: Err)
    ensures 1 <= Code(e) <= 11
    ensures FromCode(Code(e)) == Some(e)
  {
  }

  /** What an entry point produces: a return value, or the error it reverts with. */
  datatype Result<T> = Ok(value: T) | Fail(err: Err)

  /** `read(key).unwrap_or(default)` on one prefix of the dictionary. */
  function ReadOr<K, V>(m: map<K, V>, k: K, default: V): (v: V)
    ensures k in m ==> v == m[k]
    ensures k !in m ==> v == default
  {
    if k in m then m[k] else default
  }
}
