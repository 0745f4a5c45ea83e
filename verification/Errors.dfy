/** Why a verification fails (src/error.rs). The wording of messages is not kept, only their causes. */
module Errors {

  datatype ErrorKind = InvalidRequest | InvalidToken | ReplayStoreUnavailable
  {
    function Code(): string {
      match this
      case InvalidRequest => "invalid_request"
      case InvalidToken | ReplayStoreUnavailable => "invalid_token"
    }

    function Status(): nat {
      match this
      case InvalidRequest | InvalidToken => 401
      case ReplayStoreUnavailable => 503
    }
  }

  datatype Reason =
    // reading and verifying a JWS
    | MalformedToken | MalformedHeader | NoAlg | BadEmbeddedKey | AlgNotPermitted | AlgNotVerifiable | WrongTyp
    | NoKey | SymmetricKey | PrivateKey | UnusableKey | BadSignature
    // the request and its access token
    | BearerNotAccepted | UnsupportedScheme | NoIssuer | UntrustedIssuer | KeysUnavailable | TokenNotVerified
    | MissingClaim | IssuerMismatch | AudienceMismatch | Expired | NoExpiry | NotYetValid | IssuedInFuture | NoIssuedAt
    // proof of possession
    | CertBindingMalformed | NoProof | NotDpopBound | ProofNotVerified | HtmMismatch | HtuMismatch | NoJti
    | NoProofIat | StaleProof | AthMismatch | NoAth | ProofKeyInvalid | ConfirmationMismatch
    | NoClientCert | ClientCertMismatch
    // identity and replay
    | NoWebId | BadWebId | PartyNotAccepted | Replayed | ReplayBackend | IssuerNotListed

  datatype VerifyError = VerifyError(kind: ErrorKind, reason: Reason, dpop: bool)

  function InvalidTokenError(reason: Reason): VerifyError {
    VerifyError(InvalidToken, reason, false)
  }

  function InvalidTokenDpop(reason: Reason): VerifyError {
    VerifyError(InvalidToken, reason, true)
  }

  function InvalidRequestError(reason: Reason): VerifyError {
    VerifyError(InvalidRequest, reason, false)
  }

  /** The codes of section 3.1 of RFC 6750, and the statuses that go with them. */
  lemma CodesAndStatuses(kind: ErrorKind)
    ensures kind.Code() == "invalid_request" <==> kind == InvalidRequest
    ensures kind.Code() == "invalid_token" <==> kind == InvalidToken || kind == ReplayStoreUnavailable
    ensures kind.Status() == 503 <==> kind == ReplayStoreUnavailable
    ensures kind.Status() == 401 <==> kind == InvalidRequest || kind == InvalidToken
  {
    assert |"invalid_request"| == 15 && |"invalid_token"| == 13;
  }

  /** Only what concerns a proof asks for a DPoP challenge. */
  lemma ErrorShapes(reason: Reason)
    ensures InvalidTokenError(reason) == VerifyError(InvalidToken, reason, false)
    ensures InvalidTokenDpop(reason) == VerifyError(InvalidToken, reason, true)
    ensures InvalidRequestError(reason) == VerifyError(InvalidRequest, reason, false)
  {}
}
