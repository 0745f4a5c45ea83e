/** The parts of the verifier's configuration that decide something (src/config.rs). */
module Config {
  import opened Wrappers

  const DPOP_PROOF_MAX_AGE_SECS: nat := 300

  /** Clock ticks in a second: instants and durations are kept to the nanosecond. */
  const TICKS_PER_SEC: nat := 1_000_000_000

  datatype BidirectionalMode = Strict | Warn | Off

  datatype VerifierConfig = VerifierConfig(
    trustedIssuers: seq<string>,
    webidClaim: string,
    requireDpop: bool,
    allowMissingAth: bool,
    clockToleranceSecs: nat,
    audience: string,
    authorizedParties: seq<string>,
    bidirectionalMode: BidirectionalMode,
    hasResolver: bool,
    replayFailClosed: bool)

  datatype ConfigError = NoTrustedIssuer | NoAudience | ResolverMissing

  /** Half the width, in whole seconds, of the interval in which a proof's `iat` is accepted. */
  function FreshnessWindow(toleranceSecs: nat): nat {
    DPOP_PROOF_MAX_AGE_SECS + toleranceSecs
  }

  /** How long, in ticks, the store is told to remember a proof. */
  function ReplayTtl(toleranceSecs: nat): nat {
    (2 * (DPOP_PROOF_MAX_AGE_SECS + toleranceSecs) + 1) * TICKS_PER_SEC
  }

  /** With the default tolerance of five seconds, a store remembers for 611 of them. */
  lemma DefaultTtl()
    ensures FreshnessWindow(5) == 305 && ReplayTtl(5) == 611 * 1_000_000_000
  {}

  function Validate(c: VerifierConfig): (r: Result<(), ConfigError>)
    ensures r.Ok? <==> c.trustedIssuers != [] && c.audience != "" && (c.hasResolver || c.bidirectionalMode.Off?)
  {
    if c.trustedIssuers == [] then Err(NoTrustedIssuer)
    else if c.audience == "" then Err(NoAudience)
    else if (c.bidirectionalMode.Strict? || c.bidirectionalMode.Warn?) && !c.hasResolver then Err(ResolverMissing)
    else Ok(())
  }
}
