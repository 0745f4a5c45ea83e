# A verified model of the Solid-OIDC token verifier

The repository is a Rust library with which a Solid resource server authenticates requests: it checks
access tokens (RFC 9068), DPoP proofs of possession (RFC 9449) and certificate bindings (RFC 8705),
remembers proofs so that none is used twice, fetches keys and WebID profiles through a guard against
server-side request forgery, and answers failures with a challenge. This project models that logic in
Dafny and proves what it is for. `dafny verify dfyconfig.toml` checks all of it.

## The parts

- **Replay protection.** `ReplayStore` has the mutex-guarded map as a class, with `Mark` (lazy pruning,
  capacity) and `Contains`, and shows that over every run the lazy store cannot be told from one that
  drops entries the instant they expire. `ReplayProtocol` is the state machine of many requests that
  interleave freely: the freshness check on truncated wall-clock seconds, then lock, clock sample and mark
  on a sub-second monotonic clock, with clock ticks in between. Its main result, `DoubleAcceptanceIff`, says
  for any time-to-live and any two check-to-mark delays whether some interleaving accepts one proof twice.
  From it follows that the configured time-to-live is the least safe one.
- **The address classifier.** `Nat64` has the two bit loops, the in-place masking and the extraction of an
  embedded IPv4 address, against the table of RFC 6052, section 2.2, for all addresses and all six prefix
  lengths. `Ssrf` has the classifiers, what `allow_loopback` widens, and what a policy of prefixes can and
  cannot change. `Bits` is the reading of words as bit strings.
- **The pipeline.** `Verifier.Verifier.Verify` runs the checks with their early returns and is shown to
  accept if and only if the declarative condition `Accepts` holds of the claims the issuer signed. `Jwt`
  has the JWS reading and both candidate-key loops, `Temporal` the 64-bit clock comparisons,
  `VerifierRuns` the replay theorem for the pipeline as a whole.
- **The guarded fetch and the key cache.** `SafeFetch` has the redirect loop against an arbitrary resolver
  and arbitrary servers, `JwksCache` discovery, key filtering and the cache under any interleaving, and
  `KeyLifetime` what the cache means for the tokens that are accepted.
- **The printers.** `Jwk` has the canonical thumbprint text (RFC 7638), `Challenge` the
  `WWW-Authenticate` header; both are read back, for arbitrary contents. `Text` is the escaping they share.

Libraries (base64, JSON, URLs, signatures, digests), resolver, servers and key sources are arbitrary
functions given as data, so every theorem holds whatever they answer. Clocks are readings given as
arguments. Rust objects with changing fields are classes, loops are loops, everything else is functions.

## What the code does not give

Each of these is a property one might expect; each is stated here as far as it goes, with the exact limit.

- *A proof is accepted at most once* holds for requests with equal delays between freshness check and mark, where
  the store fails closed. A later request that dawdles longer than an earlier one can be accepted with the same
  proof; the comment at `src/config.rs:130-149` counts no delay. `ReplayProtocol.DoubleAcceptanceIff` is the exact
  condition, for every configuration and any two delays.
- With `replay_fail_closed(false)` nothing prevents it: on a store kept full by others one proof is accepted twice
  without any delay, whatever the time-to-live and the capacity (`ReplayProtocol.TtlIsExact`). Only a proof that
  was recorded is protected then. The comment at `src/verifier.rs:582-583` says the configuration check forbids
  this; `src/config.rs:156-180` does not, and neither does `Config.Validate`.
- *At most once* also needs the token to be bound to a key. `src/verifier.rs:208-211` marks a presented proof even where
  it was not validated, and then it can be accepted twice exactly when the marks are the time-to-live apart or
  the store fails open (`ReplayProtocol.UnvalidatedAcceptedTwiceIff`).
- *A present `ath` is checked* holds of strings. With `allow_missing_ath` a number or any other value passes as a
  missing one does (`Verifier.NumberAthPasses`; exactly, `Verifier.AthAcceptedIff`).
- *A token with a key binding needs its proof* holds of a non-empty string `jkt` in an object `cnf`. Anything else
  under `jkt` leaves the token unbound (`Verifier.NumberJktIsUnbound`; exactly, `Verifier.KeyBindingIff` and
  `Verifier.UnboundTokenIff`), unlike a malformed `x5t#S256` in an object `cnf`, which never passes.
- *The thumbprint input is JSON* and *the challenge is a legal header* hold of texts without control characters,
  which neither printer escapes (`Jwk.CanonicalIsJsonIff`, `Challenge.WwwAuthenticate`).
- The comment at `src/replay.rs:78-79` says the verifier marks only after full validation; it marks every presented
  proof of an admissible request, as above. The comment at `src/replay.rs:63` says the in-memory store never
  errors; it does at capacity, exactly as `ReplayStore.InMemoryReplayStore.Mark` says.
- The freshness comparison on `i64` accepts an `iat` exactly 2^63 seconds before now
  (`Temporal.FreshnessMeansWindowIff`); that one value does not weaken `VerifierRuns.AcceptingAProofTwiceNeedsDelay`.
- A policy of prefixes is not independent of its order. It is exactly when no two different prefixes agree up
  to the shorter one's length while the longer one covers addresses that reach the policy
  (`Ssrf.PolicyOrderIff`): what can be read off the prefixes. Appending, in any case, only refuses more.
- The `algs` parameter of a challenge is printed unescaped and reads back exactly when it has no quote or
  backslash (`Challenge.AlgsReadBackIff`), as the fixed list has none.

## Model

| member | source | states |
|---|---|---|
| ReplayStore.InMemoryReplayStore.constructor | src/replay.rs:127-132 | A new store is empty and keeps the configured capacity. |
| ReplayStore.InMemoryReplayStore.Cap | src/replay.rs:134-138 | The capacity is the smaller of the 64-bit setting and what the platform counts. |
| ReplayStore.InMemoryReplayStore.PruneExpired | src/replay.rs:142-144 | The sweep over the entries keeps all that is or could still become observable: nothing live is lost at this or any later instant, and the map shrinks exactly if something had expired. |
| ReplayStore.InMemoryReplayStore.Mark | src/replay.rs:148-190 | The whole new state; fails exactly when the jti is not live, the ttl positive and the live entries fill the capacity; touches no live entry; never exceeds the capacity. |
| ReplayStore.InMemoryReplayStore.Contains | src/replay.rs:192-211 | Answers yes exactly when a mark with any ttl at that instant would be a replay, and changes nothing. |
| ReplayStore.LazyMarkIsEagerMark | src/replay.rs:140-188 | One mark answers, and leaves live entries, as the store that has dropped everything expired. |
| ReplayStore.LazyRefinesEager | src/replay.rs:142-211 | Under a monotone clock every run of marks and probes is answered as by that store: leftovers and sweeps are unobservable. |
| ReplayStore.BoundHolds | src/replay.rs:170-188 | No run takes the map above its capacity. |
| ReplayStore.Retained | src/replay.rs:148-190 | A recorded jti keeps its expiry until that instant, whatever else is asked of the store. |
| ReplayStore.Retention | src/replay.rs:149-187 | Two fresh answers for one jti are at least the first mark's ttl apart; within it every mark is a replay. |
| ReplayStore.ExactlyOneWinner | src/replay.rs:60-68 | Of racing marks of an unseen jti inside the winner's window exactly the first is fresh, if there is room. |
| ReplayStore.ReplayIff | src/replay.rs:60-68 | In every run a mark is answered as a replay if and only if an earlier fresh mark of that jti is still within its ttl: no repetition is missed and no first use refused as one. |
| ReplayStore.EntryHasMark | src/replay.rs:161-189 | Whatever a run leaves recorded was recorded by a fresh mark of that jti, and expires when that mark said. |
| ReplayStore.ProbesAreSilent | src/replay.rs:70-86 | Any number of probes anywhere in a run changes no mark's answer and not the map. |
| ReplayStore.ProbeForetellsMark | src/replay.rs:163-211 | At any point of any run a probe says yes exactly when a mark there would be a replay. |
| ReplayProtocol.ReachableInv | src/replay.rs:148-190 | In every reachable state sampled times follow lock order, the store is what the logged marks make of it, and its capacity holds. |
| ReplayProtocol.AcceptancesAreATtlApart | src/verifier.rs:563-588 | In every reachable state, after an acceptance of a proof that the store recorded, validated or not, every other was marked at least the ttl later. Where the store fails closed every acceptance is recorded. |
| ReplayProtocol.SecondAcceptanceNeedsDelay | src/verifier.rs:455-459 | For any ttl, and a first acceptance that was recorded or a store that fails closed, a second acceptance of a proof needs a delay longer by more than the ttl's surplus over the window's width. |
| ReplayProtocol.NoDoubleAcceptance | src/config.rs:128-152 | With the configured ttl, on every interleaving, a proof accepted twice had a strictly longer delay the second time, provided the first acceptance was recorded, as it is wherever the store fails closed. |
| ReplayProtocol.DoubleAcceptanceIff | src/config.rs:128-152 | For every configuration: some interleaving accepts one proof twice with given delays if and only if the checks fit into one window and, where the store fails closed, the ttl is below the window's width plus the second delay's excess and the store can record at all. Failing open, no ttl and no capacity prevents it. |
| ReplayProtocol.TtlIsExact | src/config.rs:136-152 | For every configuration: requests with equal delays are safe if and only if the store fails closed and the ttl is at least `2*(max_age+tol)+1` seconds, or it can never accept; one tick less, or failing open, is unsafe. |
| ReplayProtocol.EdgeProofStaysFresh | src/config.rs:136-145 | A proof dated to the edge of the window as a second begins stays acceptable for the whole configured ttl, to the last tick. |
| ReplayProtocol.UnvalidatedAcceptedTwiceIff | src/verifier.rs:208-211 | Over all runs, one proof that is not validated can be accepted twice with its marks a given time apart if and only if the store fails open, or that time is at least the ttl and the store can record at all. |
| Config.Validate | src/config.rs:156-180 | A configuration is valid exactly with a trusted issuer, an audience, and a resolver unless the bidirectional check is off. |
| Config.DefaultTtl | src/config.rs:417-434 | With the default tolerance of five seconds the window is 305 seconds to each side and the ttl 611 seconds. |
| Nat64.MaskSegments | src/ssrf.rs:104-119 | In place, for every length a byte holds, exactly the bits below the prefix are cleared. |
| Nat64.Masked | src/ssrf.rs:102-104 | The masked address has the top bits of the address and zeros below. |
| Nat64.MaskIsIdempotent | src/ssrf.rs:102-119 | Masking again changes nothing. |
| Nat64.MaskedEqualIff | src/ssrf.rs:104-119 | Masked addresses are equal exactly when the addresses agree on the prefix's bits. |
| Nat64.NspMatchesIff | src/ssrf.rs:58-100 | Prefixes are built for exactly six lengths, and match exactly the addresses that agree with them on their bits. |
| Nat64.NspEqualIff | src/ssrf.rs:44-51 | Two prefixes are equal exactly when lengths and top bits are. |
| Nat64.OverlapIff | src/ssrf.rs:189-195 | Two prefixes agree up to the shorter one's length if and only if some address falls under both. |
| Nat64.Assemble | src/ssrf.rs:126-133 | Shifting and or-ing the segments gives the number the 128 bits stand for. |
| Nat64.DecodeEmbeddedV4 | src/ssrf.rs:125-149 | The bit loop stays below bit 128, ends, and reads the four octets of the RFC's table, for all addresses and lengths. |
| Nat64.GatheredIsTable | src/ssrf.rs:121-124 | Thirty-two bits from the prefix on, without bits 64 to 71, are the octets of the table. |
| Nat64.DecodeOfEmbed | src/ssrf.rs:620-639 | Decoding an embedded IPv4 address gives it back, at every length. |
| Nat64.EmbedOfDecode | src/ssrf.rs:620-639 | Embedding what was decoded restores the address with the u-octet and the suffix zeroed. |
| Nat64.NspRoundTrip | src/ssrf.rs:94-100 | A prefix recognises every address built under it and reads back what was embedded. |
| Nat64.OctetsByShiftAndMask | src/ssrf.rs:395-400 | Shift and mask give the two octets of a segment. |
| Nat64.AppendKeepsDecoding | src/ssrf.rs:189-195 | The first match decides: appended prefixes are only asked where none before matched. |
| Nat64.OrderIsIrrelevant | src/ssrf.rs:189-195 | Prefixes that pairwise differ within the shorter length decode alike in any order. |
| Nat64.MatchDecides | src/ssrf.rs:189-195 | Among such prefixes the one that matches decides, wherever it is listed. |
| Ssrf.PublicIpv4Iff | src/ssrf.rs:245-287 | An IPv4 address is public exactly outside the table of special ranges, loopback as configured. |
| Ssrf.LoopbackV4Iff | src/ssrf.rs:227-233 | An IPv4 address is loopback exactly within 127/8. |
| Ssrf.ScopedPrefixes | src/ssrf.rs:289-345 | The mask tests recognise exactly fe80::/10, fc00::/7 and ff00::/8. |
| Ssrf.WellKnownIsNsp | src/ssrf.rs:385-404 | The special case for the well-known prefix is the general decoder under 64:ff9b::/96. |
| Ssrf.MappedStandsForV4 | src/ssrf.rs:298-304 | An address of eighty zero bits, sixteen ones and an IPv4 address gets that address's verdict under every flag and policy, and is loopback exactly if it is. |
| Ssrf.CompatibleStandsForV4 | src/ssrf.rs:289-318 | An address of ninety-six zero bits and an IPv4 address gets that address's verdict, but for `::1`, which is public exactly with `allow_loopback` and alone is loopback. |
| Ssrf.SixToFourStandsForV4 | src/ssrf.rs:334-345 | An address under 2002::/16 gets the verdict of the IPv4 address in its next thirty-two bits. |
| Ssrf.WellKnownStandsForV4 | src/ssrf.rs:385-404 | An address under 64:ff9b::/96 gets the verdict of the IPv4 address in its last thirty-two bits. |
| Ssrf.ScopedIsRefused | src/ssrf.rs:320-333 | Addresses under fe80::/10, fc00::/7 and ff00::/8 are refused under every flag and policy. |
| Ssrf.JudgedByEffectiveV4 | src/ssrf.rs:289-383 | An IPv6 address is judged by the IPv4 address behind it; without one only the scoped ranges are refused. |
| Ssrf.LoopbackWidening | src/ssrf.rs:198-225 | `allow_loopback` adds exactly ::1 and what stands for 127/8, and takes nothing away. |
| Ssrf.LoopbackNeedsPermission | src/ssrf.rs:227-243 | What the loopback test recognises is accepted exactly with `allow_loopback`. |
| Ssrf.AppendingOnlyRefuses | src/ssrf.rs:366-383 | What a longer policy accepts every policy it extends accepts, the strict one included. |
| Ssrf.DecidedByPolicy | src/ssrf.rs:289-383 | What the policy decodes decides exactly the addresses no earlier rule decides; on the others no policy makes a difference. |
| Ssrf.PrependingCanAccept | src/ssrf.rs:189-195 | Two prefixes in conflict at the head of a policy: exchanging them changes the verdict on some address, whatever follows. |
| Ssrf.FramingsDisagree | src/ssrf.rs:121-149 | For every prefix and any two lengths some address under it is acceptable as the one length reads it and refused as the other does. |
| Ssrf.ReachesPolicyIff | src/ssrf.rs:289-383 | Read off a prefix alone: whether any address under it is left to the policy. |
| Ssrf.PolicyOrderIff | src/ssrf.rs:189-195 | Every reordering of a policy keeps all verdicts if and only if no two different prefixes of it overlap where the longer one leaves addresses to the policy. |
| Ssrf.MatchDecidesVerdict | src/ssrf.rs:366-383 | In a policy without conflicts, any prefix that matches an address left to the policy gives the verdict, wherever it is listed and however often. |
| Ssrf.ConfiguredPrefixIsHonoured | src/ssrf.rs:366-383 | At every length and every position in a policy without conflicts, an address under a prefix is accepted exactly if the embedded IPv4 address is, unless an earlier rule decides, and then as by the strict policy. |
| Ssrf.LocalUsePrefixIsHonoured | src/ssrf.rs:62-65 | For the documented prefix 64:ff9b:1::/48 no earlier rule decides: the embedded IPv4 address always does. |
| Text.TwoPassesAreOne | src/error.rs:122-124 | Replacing backslashes and then quotes is one pass that escapes each of both. |
| Text.ScanEscaped | src/jwk.rs:165-171 | Quoted, an escaped text is read back and ends at its own closing quote, whatever follows. |
| Text.UnescapeInverts | src/error.rs:120-124 | Unescaping inverts escaping, for every text. |
| Text.EscapeInjective | src/jwk.rs:165-171 | Escaping is injective. |
| Text.EscapeKeepsAll | src/error.rs:122-124 | Escaping adds backslashes only: no other character is introduced or removed, control characters included. |
| Text.EqIgnoreAsciiCaseIff | src/jwt.rs:146-158 | Two texts are equal up to case exactly if they are equal but for the case of the letters A to Z. |
| Text.JoinSplits | src/error.rs:97-106 | Joined parts are told apart again by their separator, in their order, if none contains it. |
| Jwk.CanonicalReadsBack | src/jwk.rs:124-163 | The canonical text exists exactly for complete keys of the three types, and its type and required members can be read off it. |
| Jwk.CanonicalEqualIff | src/jwk.rs:121-163 | Canonical texts are equal exactly when type and required members are; other members never matter. |
| Jwk.CanonicalIsRequiredObject | src/jwk.rs:121-163 | The text is the JSON object of exactly the required members, in lexicographic order and without white space, that section 3.3 of RFC 7638 prescribes. |
| Jwk.RequiredListIsSorted | src/jwk.rs:121-163 | That order is the lexicographic one. |
| Jwk.CanonicalErrIff | src/jwk.rs:124-163 | Without a text, the first missing required member is named, or the type if it is none of the three. |
| Jwk.CanonicalIsJsonIff | src/jwk.rs:124-171 | The canonical text reads back under a reader that takes only JSON exactly when no required member holds a control character. |
| Jwk.ThumbprintNamesKey | src/jwk.rs:121-163 | Where the digest does not collide on them, thumbprints are equal exactly for equal required members. |
| Jwk.AlgorithmsIff | src/jwk.rs:18-72 | Exactly ten algorithms are permitted, and all are verifiable but ES512 without its path. |
| Jwk.IsPublicIff | src/jwk.rs:104-119 | A key is usable exactly if none of six private components is there and its type is not `oct` in any case of letters. |
| Challenge.WwwAuthenticate | src/error.rs:85-109 | The header reads back as scheme, error code, message, issuers and algorithms, whatever message and issuers contain; it is a legal field value exactly when none of them holds a control character other than the tab. |
| Challenge.FixedAlgsArePlain | src/jwk.rs:18-25 | The fixed algorithm list is plain, so every challenge the verifier builds reads back. |
| Challenge.AlgsReadBackIff | src/error.rs:105-107 | The unescaped `algs` value reads back exactly when it has nothing to escape. |
| Errors.CodesAndStatuses | src/error.rs:27-45 | The two error codes and the two statuses, and which error has which. |
| Jwt.SplitCompactIff | src/jwt.rs:24-34 | A token splits exactly into three non-empty dot-free parts joined by dots. |
| Jwt.PeekHeaderIff | src/jwt.rs:42-66 | The header read is exactly what the first part states: `alg`, `typ` if it is a string, `jwk` unless absent or null. |
| Jwt.PeekClaimsIff | src/jwt.rs:67-80 | The claims read are exactly those of the object the second part encodes. |
| Jwt.PeekedClaimIff | src/jwt.rs:67-80 | A claim is read exactly if the second part states it. |
| Jwt.PeekIssuerIff | src/jwt.rs:81-89 | The issuer read is exactly a non-empty string `iss` the token states. |
| Jwt.ProofHasAthIff | src/jwt.rs:90-99 | A proof has an `ath` exactly if it states a non-empty string. |
| Jwt.MapAlgorithmIff | src/jwt.rs:101-141 | The first back end takes exactly the permitted algorithms but ES512; the verifiable ones are these and, in the ES512 build, ES512. |
| Jwt.VerifySignature | src/jwt.rs:222-279 | Succeeds if and only if algorithm and type are accepted and some fit candidate key verifies; yields the payload; with a wanted type only tokens whose header states that type, up to case, succeed, and exactly for a wrong type under an accepted algorithm is the type given as the reason; otherwise the header check that failed, or the last key's reason. |
| Jwt.FirstBackEndIff | src/jwt.rs:160-207 | On the first back end a signature counts under exactly the public keys complete for their type that the library builds. |
| Jwt.P521BackEndIff | src/jwt.rs:309-421 | On the P-521 path under exactly the public P-521 points with 66-byte coordinates, a 132-byte signature over the first two parts. |
| Jwt.VerifyOverCandidates | src/jwt.rs:246-278 | The loop over keys succeeds exactly if some key verifies, with the same claims whichever it is; otherwise the last key's reason is given. |
| Jwt.VerifyEs512OverCandidates | src/jwt.rs:371-421 | The same for the P-521 path, where a signature of the wrong form or an unreadable payload is the reason before any key is looked at. |
| Jwt.OrderOfKeysIsIrrelevant | src/jwt.rs:215-279 | Whether some key vouches for a token, and for which claims, does not depend on the keys' order; the reason of a refusal may. |
| Jwt.OnlyPublicKeysCount | src/jwt.rs:160-171 | Symmetric and private keys never verify, on either path: removing them changes nothing. |
| Jwt.VerifyProofWithEmbeddedJwk | src/jwt.rs:281-305 | A proof verifies exactly under its own embedded key, which is public and asymmetric. |
| Temporal.FreshnessMeansWindowIff | src/verifier.rs:455-459 | On 64 bits the freshness comparison is the symmetric window, except for the one `iat` 2^63 seconds ago. |
| Temporal.TokenTimesMeanIff | src/verifier.rs:490-530 | On 64 bits the token's times compare as integers, the issue time exactly while the subtraction stays in range. |
| Verifier.CheckTemporal | src/verifier.rs:490-530 | Passes exactly for a token in its time; every failure is an invalid token. |
| Verifier.AudienceIff | src/verifier.rs:733-741 | The audience matches exactly if `aud` is it, or is a list that has it. |
| Verifier.CertBindingIff | src/verifier.rs:702-731 | A certificate binding is absent exactly without the member in an object `cnf`, and well formed exactly as a string that encodes 32 bytes. |
| Verifier.CheckAuthorizedParty | src/verifier.rs:546-559 | Passes exactly if no parties are configured or the token's `azp`, else its `client_id`, is one. |
| Verifier.ExtractWebId | src/verifier.rs:532-545 | Yields the configured claim, unchanged, exactly if it parses as an https URL without userinfo. |
| Web.ValidateWebIdClaim | src/webid.rs:58-75 | A WebID passes exactly if it is not empty, parses, has scheme https and carries no userinfo, and is returned unchanged. |
| Verifier.CheckBidirectional | src/verifier.rs:590-627 | Fails exactly in strict mode when the profile does not list the issuer or cannot be had. |
| Verifier.ValidStrictModeAsksProfile | src/verifier.rs:590-627 | In a valid configuration the check fails exactly in strict mode when the profile does not list the issuer: the missing-resolver branch never matters. |
| Verifier.ConstantTimeEq | src/verifier.rs:671-683 | The accumulating loop says yes exactly for equal byte strings. |
| Verifier.ValidateCertBinding | src/verifier.rs:321-342 | Passes exactly if a certificate was presented and its thumbprint has the expected bytes. |
| Verifier.ValidateAccessToken | src/verifier.rs:344-410 | Yields the signed claims exactly if the token is accepted under RFC 9068, with every failure an invalid token. |
| Verifier.ValidateDpopProof | src/verifier.rs:412-487 | Passes exactly for a self-signed proof for this request, token and key; an `ath` that is not a string may be tolerated as a missing one is, any string must be the digest. |
| Verifier.AthAcceptedIff | src/verifier.rs:461-475 | `ath` passes exactly as the token's digest or, where a missing one is allowed, as anything that is not a string. |
| Verifier.NumberAthPasses | src/verifier.rs:461-475 | A proof whose `ath` is a number passes exactly where a missing one is allowed. |
| Verifier.ValidateToken | src/verifier.rs:239-319 | Accepted token and proof of possession: a readable `jkt` needs its proof, a certificate itself, both need both, a malformed `x5t#S256` never passes; the failure asks for a proof exactly if the token was accepted and the proof it owes is missing or bad. |
| Verifier.BindingsAreEnforced | src/verifier.rs:691-731 | Possession implies that any `x5t#S256` member is a well-formed thumbprint of the presented certificate, and that any non-empty `jkt` has its proof. |
| Verifier.UnboundTokenIff | src/verifier.rs:263-303 | A token bound to nothing passes exactly under the bearer scheme where DPoP is not required. |
| Verifier.KeyBindingIff | src/verifier.rs:692-700 | Claims bind a token to a key exactly by an object `cnf` with a non-empty string `jkt`. |
| Verifier.NumberJktIsUnbound | src/verifier.rs:692-724 | A numeric `jkt` leaves a token unbound, so that it passes as a bearer token where DPoP is not required; a numeric `x5t#S256` never passes. |
| Verifier.PeekIsSigned | src/verifier.rs:660-669 | Once the signature holds, what was read of the unverified token is what was signed. |
| Verifier.ParseAuthorizationIff | src/verifier.rs:645-656 | Credentials are exactly a trimmed scheme, a space and a trimmed non-empty token, the scheme in lower case. |
| Verifier.NoCredentialsIff | src/verifier.rs:645-656 | There are none exactly if the header states none. |
| Verifier.ReplayJtiIff | src/verifier.rs:563-567 | The identifier consumed is exactly the non-empty string `jti` the proof's second part states. |
| Verifier.AdmissibleNeedsGate | src/verifier.rs:160-190 | The gate on unverified claims never stops a request the signed claims would admit. |
| Verifier.Verifier.constructor | src/verifier.rs:138-145 | The verifier keeps the configuration and the store it is given. |
| Verifier.Verifier.Create | src/verifier.rs:132-146 | A verifier is built exactly from a configuration with an issuer, an audience and, unless the bidirectional check is off, a resolver; any other is refused with its reason. |
| Verifier.Verifier.CheckReplay | src/verifier.rs:561-588 | The `jti` the proof states is marked, and nothing if it states none; passes exactly if fresh, or if the store fails and failing open is configured; the error says which. |
| Verifier.Verifier.Verify | src/verifier.rs:148-237 | Answers public exactly without credentials; otherwise accepts if and only if the acceptance condition holds of the presented claims, and yields them; the store is marked by exactly the admissible requests with a proof's jti; the status is 503 exactly when marking failed while failing closed, otherwise 401; the request is called malformed exactly when the scheme gate stopped it, and a proof is asked for exactly when one was owed and missing or bad, or not let by. |
| VerifierRuns.PassingReadingsAreClose | src/verifier.rs:455-459 | Two readings at which the 64-bit check passes for one `iat` are within twice the window, for every `iat`. |
| VerifierRuns.AcceptingAProofTwiceNeedsDelay | src/verifier.rs:148-237 | If the pipeline accepts two key-bound requests whose proofs state one `jti` and one `iat`, on one store, whatever else the store is asked, the later one had the strictly longer check-to-mark delay, provided the store fails closed or had recorded the earlier. |
| VerifierRuns.AcceptedIffUnseen | src/verifier.rs:206-217 | After any operations on the store, a request that only the replay check can still refuse is accepted if and only if no fresh mark of the `jti` its proof states is within its ttl and, where the store fails closed, the live entries leave room. |
| VerifierRuns.SecondUseAcceptedIff | src/verifier.rs:206-217 | With any operations before and in between, a request with a jti already marked is accepted, where there is room or the store fails open and nothing else objects, if and only if a full ttl has passed since its latest fresh mark. |
| SafeFetch.ClassifyResolvedAddress | src/webid.rs:166-184 | An address passes exactly if it is public under the policy and, for plain HTTP, loopback. |
| SafeFetch.ClassifyAll | src/net.rs:350-361 | All records pass or the hop is refused. |
| SafeFetch.PinHop | src/net.rs:327-368 | One hop's gates give exactly the guarded contact of the specification, or its error. |
| SafeFetch.Get | src/net.rs:323-408 | The loop gives the answer and makes the contacts of `Follow`, for every resolver and every server. |
| SafeFetch.GuardedContactSound | src/webid.rs:108-184 | Every contact is pinned to classified addresses only: the literal, or the resolver's answer for that hop. |
| SafeFetch.GuardedContactComplete | src/net.rs:327-368 | Nothing that passes the gates is refused. |
| SafeFetch.PortIff | src/net.rs:364-368 | The port is the URL's own, else 443 for https and 80 for http. |
| SafeFetch.EveryContactIsGuarded | src/net.rs:9-23 | Every contact of a whole fetch is guarded and pinned to the literal of its URL or to what the resolver answered at that very hop, and there are at most `max_redirects + 1`. |
| SafeFetch.FetchedBodyIsComplete | src/net.rs:450-523 | A returned body is all the last server sent, within the cap, under the URL it came from. |
| SafeFetch.FetchSucceedsIff | src/net.rs:323-408 | A fetch returns a response if and only if a chain of allowed redirects leads from its URL to a server that sends that whole body within the cap, announced or not, under that URL. |
| SafeFetch.EndlessRedirectsStop | src/net.rs:323-408 | Along any chain of redirects that uses up the allowance, the fetch ends as too many, after exactly `max_redirects + 1` contacts. |
| SafeFetch.TooManyRedirectsIff | src/net.rs:323-408 | A fetch is refused for too many redirects if and only if such a chain starts at its URL. |
| SafeFetch.ReadBoundedIff | src/net.rs:503-523 | For every cap, a body is handed out exactly if it arrived whole, within the cap and within what a `Vec` can hold. |
| JwksCache.ParseJwks | src/config.rs:369-398 | The loop gives the document's usable keys, or says what is wrong with it. |
| JwksCache.UsableKeyIff | src/config.rs:380-393 | An entry is kept, as read, exactly if it reads as a public asymmetric key. |
| JwksCache.KeysOfIff | src/config.rs:365-398 | Keys come exactly from a document with at most 64 entries, as the order-preserving filter of them, and not empty. |
| JwksCache.ParsedKeysAreServable | src/config.rs:365-398 | They are at least one, at most 64, asymmetric and public. |
| JwksCache.FetchDocument | src/config.rs:290-312 | A document is the body the guarded fetch brings back, and every contact made for it is guarded. |
| JwksCache.FetchKeys | src/config.rs:282-315 | Discovery yields exactly what the issuer publishes: a document naming that very issuer and the key set it points at, each had by its own guarded fetch; at most `2 * (max_redirects + 1)` contacts are made, all guarded. |
| JwksCache.NetworkJwksProvider.constructor | src/config.rs:272-280 | A new provider's cache is empty. |
| JwksCache.NetworkJwksProvider.KeysFor | src/config.rs:319-345 | A young entry is served, nothing changes and nobody is contacted; otherwise the fetch's keys are served and stored; a failed fetch serves nothing and changes nothing. |
| JwksCache.CacheIsLatestStore | src/config.rs:319-345 | After any interleaving the cache holds for each issuer exactly what was stored last for it. |
| JwksCache.LookUpIff | src/config.rs:319-345 | At any point of any interleaving a look-up yields exactly what the latest successful fetch for that issuer found, while it is younger than the time-to-live. |
| JwksCache.LookUpIsServable | src/config.rs:319-345 | Whatever a look-up yields is a non-empty set of at most 64 public asymmetric keys. |
| KeyLifetime.ServedIff | src/config.rs:319-345 | The keys a provider serves are exactly those published to one refresh: the latest stored less than the time-to-live ago, or, only for want of it, the current one. |
| KeyLifetime.AcceptedIffRecentlyPublished | src/verifier.rs:344-410 | Whatever the interleaving of refreshes, a token with acceptable content is accepted if and only if its issuer published a key that verifies it to that refresh; so a withdrawn key counts until the time-to-live is over or a later refresh is stored. |
| KeyLifetime.AcceptingKeyIsRecent | src/config.rs:319-345 | The key that verifies an accepted token is public and asymmetric, and was published at the look-up or stored less than the time-to-live before it. |

## Left out

- Cryptography, SHA-256, base64 and the JSON, URL and Turtle parsers: library code, present as arbitrary functions; `Jwk.ThumbprintNamesKey` takes collision-freeness as a hypothesis.
- `normalize_htu`, `join_well_known` and `canonicalise_profile_url` are fixed functions; `parse_oidc_issuers` is the resolver's arbitrary answer.
- Address literals are parsed values: the text form of an address, and `Nat64Nsp::parse` and `from_cidrs` on text, are not modelled.
- The DNS thread, the HTTP client, TLS, timeouts, proxies and the per-hop worker thread: a resolver answer and an exchange are arbitrary functions of the hop.
- Mutex poisoning, process restarts, jumps of the wall clock and a replay store shared between processes: the two clocks advance in lockstep and the store lives as long as the run.
- The remark that sweeps amortise to once per capacity inserts (`src/replay.rs:140-141`): the code does not establish it, since a sweep may free a single entry.
- `Instant` and `u64` overflow: instants, time-to-live and window are unbounded. The 64-bit comparisons of `Temporal` wrap around as in a release build, where a debug build panics, and the theorems about them keep the clock below 2^61 and the tolerance below 2^60 seconds.
- The wording of error messages: an error is its kind, its cause and its DPoP flag. `Challenge.WwwAuthenticate` takes the message as an arbitrary text.
- Verifier.ConstantTimeEq: only its result, not its timing.
- JwksCache.NetworkJwksProvider.KeysFor: runs its two critical sections in one call; that other calls come between them is the interleaving of `JwksCache.LookUpIff`.
- ReplayStore.InMemoryReplayStore.Mark: the lock is not in the class, where one call is one step; lock, sample and mark are separate steps of `ReplayProtocol`.
- `StaticJwksProvider`, builder setters, `Display`, the example programs: no property beyond their bodies.
