/** The value types of a passkey ceremony: kinds, states, error codes, ceremony
    and credential rows, and the outcome rules that depend on nothing else. */
module Ceremonies {

  newtype byte = b: int | 0 <= b < 256
  type Bytes = seq<byte>

  /** A UUID as its 128-bit value; canonical text order is numeric order.
      The value 0 is the nil UUID, which no generator hands out. */
  type Uuid = nat

  /** Nanoseconds on the database clock. */
  type Time = int

  datatype Option<+T> = None | Some(value: T)

  /** Bytes written by the JSON encoder, seen through the decoder: they either
      decode to a value or are corrupt. */
  datatype Stored<+T> = Decodes(value: T) | Corrupt

  datatype Kind = Registration | Authentication {

    function NotFound(): Error {
      CeremonyNotFound(this)
    }

    function Expired(): Error {
      CeremonyExpired(this)
    }

    function Invalid(): Error {
      CeremonyInvalid(this)
    }
  }

  /** The public error codes. */
  datatype Error =
    | InvalidRequest
    | Forbidden
    | ApplicationNotFound
    | CredentialNotFound
    | Conflict
    | CeremonyNotFound(kind: Kind)
    | CeremonyExpired(kind: Kind)
    | CeremonyInvalid(kind: Kind)

  /** An error value: a bare code, a code that keeps its internal cause, or an
      error without a public code (infrastructure, corrupt stored state). */
  datatype Fault =
    | Plain(code: Error)
    | Diagnostic(code: Error, cause: string)
    | Other(reason: string)
  {
    /** Whether unwrapping this error reaches `e`. */
    predicate Is(e: Error) {
      !Other? && code == e
    }
  }

  datatype State = Pending | Succeeded | Failed | Expired

  datatype Ceremony = Ceremony(
    id: Uuid,
    application: string,
    subject: string,
    rpId: string,
    tokenHash: Bytes,
    webauthn: Stored<Bytes>,
    state: State,
    createdAt: Time,
    expiresAt: Time,
    credential: Option<Uuid>)
  {
    /** Whether the ceremony may still be finished at `now`. */
    function Check(k: Kind, now: Time): Option<Fault> {
      if state != Pending then Some(Plain(Conflict))
      else if expiresAt <= now then Some(Plain(k.Expired()))
      else None
    }
  }

  /** The library's own credential record, stored whole. */
  datatype LibraryCredential = LibraryCredential(
    id: Bytes,
    publicKey: Bytes,
    transport: seq<string>,
    aaguid: Bytes,
    signCount: nat,
    cloneWarning: bool,
    backupEligible: bool,
    backupState: bool,
    residentKey: Option<bool>)

  datatype Credential = Credential(
    id: Uuid,
    application: string,
    subject: string,
    rpId: string,
    webauthnId: Bytes,
    publicKey: Bytes,
    algorithm: int,
    signCount: nat,
    transports: seq<string>,
    aaguid: Bytes,
    backupEligible: bool,
    backupState: bool,
    webauthn: Stored<LibraryCredential>,
    createdAt: Time,
    usedAt: Option<Time>)

  const ZERO_CEREMONY := Ceremony(0, "", "", "", [], Corrupt, Pending, 0, 0, None)

  const ZERO_CREDENTIAL := Credential(0, "", "", "", [], [], 0, 0, [], [], false, false, Corrupt, 0, None)

  /** What a verification callback answers. */
  datatype Verdict = Accepted(credential: Credential) | Refused(fault: Fault)

  datatype EventKind = StartOf(kind: Kind) | FinishOf(kind: Kind) | CredentialDelete

  datatype Event = Event(
    application: string,
    subject: string,
    credential: Option<Uuid>,
    kind: EventKind,
    result: State,
    error: Option<Error>,
    cause: Option<string>,
    occurredAt: Time)

  /** The terminal state a finished ceremony moves to. */
  function Terminal(k: Kind, outcome: Option<Fault>): State {
    match outcome
    case None => Succeeded
    case Some(fault) => if fault.Is(k.Expired()) then Expired else Failed
  }
}
