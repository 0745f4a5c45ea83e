/**
 The verification pipeline (src/verifier.rs): what a request with an access token must satisfy, as one
 condition over the claims its issuer signed (RFC 9068, RFC 9449, RFC 8705), and the sequence of checks
 with early returns that decides it.
 */
module Verifier {
  import opened Wrappers
  import opened Text
  import opened Json
  import opened Errors
  import opened Config
  import opened Jwk
  import opened Jwt
  import opened Web
  import opened Temporal
  import opened ReplayStore

  datatype AuthRequest = AuthRequest(
    authorization: Option<string>,
    dpop: Option<string>,
    verb: string,
    url: string,
    clientCertX5tS256: Option<string>)

  datatype X5tS256 = Thumbprint(t: string) | Malformed

  datatype VerifiedToken =
    | Public
    | Agent(
        webId: string,
        issuer: string,
        clientId: Option<string>,
        scopes: seq<string>,
        cnfJkt: Option<string>,
        cnfX5tS256: Option<X5tS256>,
        expiry: Option<int>)

  /** What the pipeline asks of libraries, of the key provider and of the profile resolver. */
  datatype Env = Env(
    jose: Jose,
    es512: bool,
    /** base64url of SHA-256 */
    digest: string -> string,
    bytes: string -> seq<bv8>,
    trim: string -> string,
    lowercase: string -> string,
    words: string -> seq<string>,
    parseUrl: string -> Option<Url>,
    normalizeHtu: string -> string,
    keysFor: string -> Option<seq<Key>>,
    resolveWebId: string -> Option<set<string>>)

  /** The readings of the clocks one request makes, in the order it makes them. */
  datatype Readings = Readings(tokenNow: I64, proofNow: I64, markNow: nat)

  datatype Parsed = Parsed(scheme: string, token: string)

  function ParseAuthorization(env: Env, header: Option<string>): Option<Parsed> {
    if header.None? then None
    else
      match SplitAt(env.trim(header.value), ' ')
      case None => None
      case Some((scheme, rest)) =>
        var token := env.trim(rest);
        if token == "" then None else Some(Parsed(env.lowercase(scheme), token))
  }

  /** The header, trimmed, is a scheme, a space and a token, which is what is left after trimming again. */
  ghost predicate StatesCredentials(env: Env, header: Option<string>, scheme: string, token: string) {
    header.Some? && exists front, rest: string ::
      && env.trim(header.value) == front + (" " + rest) && ' ' !in front
      && scheme == env.lowercase(front) && token == env.trim(rest) && token != ""
  }

  /** Credentials are read exactly as the header states them, the scheme in lower case; anything else is none. */
  lemma ParseAuthorizationIff(env: Env, header: Option<string>, scheme: string, token: string)
    ensures ParseAuthorization(env, header) == Some(Parsed(scheme, token)) <==>
                StatesCredentials(env, header, scheme, token)
  {
    if header.Some? {
      var trimmed := env.trim(header.value);
      SplitAtJoins(trimmed, ' ');
      forall front, rest: string | trimmed == front + (" " + rest) && ' ' !in front
        ensures SplitAt(trimmed, ' ') == Some((front, rest))
      {
        assert " " == [' '];
        SplitAtFirst(front, ' ', rest);
      }
      if ParseAuthorization(env, header) == Some(Parsed(scheme, token)) {
        var (front, rest) := SplitAt(trimmed, ' ').value;
        assert trimmed == front + (" " + rest);
      }
    }
  }

  /** A request is public exactly if its header states no credentials. */
  lemma NoCredentialsIff(env: Env, header: Option<string>)
    ensures ParseAuthorization(env, header).None? <==>
            forall scheme, token :: !StatesCredentials(env, header, scheme, token)
  {
    forall scheme, token
      ensures ParseAuthorization(env, header) == Some(Parsed(scheme, token)) <==>
                  StatesCredentials(env, header, scheme, token)
    {
      ParseAuthorizationIff(env, header, scheme, token);
    }
    if ParseAuthorization(env, header).Some? {
      var parsed := ParseAuthorization(env, header).value;
      assert StatesCredentials(env, header, parsed.scheme, parsed.token);
    }
  }

  function ExtractCnfJkt(claims: Object): Option<string> {
    match GetObject(claims, "cnf")
    case None => None
    case Some(cnf) =>
      if GetStr(cnf, "jkt").Some? && GetStr(cnf, "jkt").value != "" then GetStr(cnf, "jkt") else None
  }

  predicate IsValidX5tS256(jose: Jose, s: string) {
    jose.base64(s).Some? && |jose.base64(s).value| == 32
  }

  function ExtractCnfX5tS256(jose: Jose, claims: Object): Option<X5tS256> {
    match GetObject(claims, "cnf")
    case None => None
    case Some(cnf) =>
      if Get(cnf, "x5t#S256").None? then None
      else
        match GetStr(cnf, "x5t#S256")
        case Some(s) => if IsValidX5tS256(jose, s) then Some(Thumbprint(s)) else Some(Malformed)
        case None => Some(Malformed)
  }

  /** The unverified look at a bearer token that the scheme gate takes. */
  predicate TokenIsCertBound(jose: Jose, token: string) {
    match PeekClaims(jose, token)
    case None => false
    case Some(claims) => ExtractCnfX5tS256(jose, claims).Some? && ExtractCnfX5tS256(jose, claims).value.Thumbprint?
  }

  predicate AudienceMatches(claims: Object, audience: string) {
    match Get(claims, "aud")
    case Some(Str(s)) => s == audience
    case Some(Arr(items)) => exists i :: 0 <= i < |items| && items[i] == Str(audience)
    case _ => false
  }

  /** The certificate binding a `cnf` object states: none without the member, and only 32 bytes are well formed. */
  lemma CertBindingIff(jose: Jose, claims: Object)
    ensures ExtractCnfX5tS256(jose, claims) == None <==>
            forall cnf, v :: ("cnf", Obj(cnf)) in claims.Items ==> ("x5t#S256", v) !in cnf.Items
    ensures forall t :: ExtractCnfX5tS256(jose, claims) == Some(Thumbprint(t)) <==>
            && (exists cnf :: ("cnf", Obj(cnf)) in claims.Items && ("x5t#S256", Str(t)) in cnf.Items)
            && jose.base64(t).Some? && |jose.base64(t).value| == 32
  {
    if "cnf" in claims && claims["cnf"].Obj? {
      var cnf := claims["cnf"].members;
      assert ("cnf", Obj(cnf)) in claims.Items;
      if "x5t#S256" in cnf {
        assert ("x5t#S256", cnf["x5t#S256"]) in cnf.Items;
      }
    }
  }

  /** The audience is named by the claim itself or by one element of its list, and by nothing else. */
  lemma AudienceIff(claims: Object, audience: string)
    ensures AudienceMatches(claims, audience) <==>
            || ("aud", Str(audience)) in claims.Items
            || exists items :: ("aud", Arr(items)) in claims.Items && Str(audience) in items
  {
    if "aud" in claims && claims["aud"].Arr? {
      assert ("aud", Arr(claims["aud"].items)) in claims.Items;
    }
  }

  // ---------------------------------------------------------------------------------------------
  // What acceptance means
  // ---------------------------------------------------------------------------------------------

  predicate HasText(claims: Object, name: string) {
    GetStr(claims, name).Some? && GetStr(claims, name).value != ""
  }

  lemma HasTextIff(claims: Object, name: string)
    ensures HasText(claims, name) <==> exists s :: s != "" && (name, Str(s)) in claims.Items
  {
    if HasText(claims, name) {
      assert (name, Str(claims[name].s)) in claims.Items;
    }
  }

  /** Expiry and issue time are there and in order, and not-before is when it is there. */
  predicate TokenTimely(now: I64, toleranceSecs: nat, claims: Object) {
    && GetI64(claims, "exp").Some? && PassesExp(now, GetI64(claims, "exp").value, toleranceSecs)
    && (GetI64(claims, "nbf").Some? ==> PassesNbf(now, GetI64(claims, "nbf").value, toleranceSecs))
    && GetI64(claims, "iat").Some? && PassesIat(now, GetI64(claims, "iat").value, toleranceSecs)
  }

  /** Claims that are complete, name the issuer, are for this audience and in their time. */
  predicate ClaimsAccepted(c: VerifierConfig, issuer: string, now: I64, claims: Object) {
    && HasText(claims, "sub") && HasText(claims, "jti") && HasText(claims, "client_id")
    && GetStr(claims, "iss") == Some(issuer)
    && AudienceMatches(claims, c.audience)
    && TokenTimely(now, c.clockToleranceSecs, claims)
  }

  /** RFC 9068: a token signed by its issuer's keys, with claims to accept. */
  ghost predicate TokenAccepted(env: Env, c: VerifierConfig, token: string, issuer: string, now: I64, claims: Object) {
    && env.keysFor(issuer).Some?
    && SignedClaims(env.jose, env.es512, token, env.keysFor(issuer).value, Some("at+jwt")) == Some(claims)
    && ClaimsAccepted(c, issuer, now, claims)
  }

  /** An `ath` that reads as a string is the token's digest; one that does not may be tolerated as absent. */
  predicate AthAccepted(env: Env, c: VerifierConfig, proofClaims: Object, token: string) {
    match GetStr(proofClaims, "ath")
    case Some(a) => a == env.digest(token)
    case None => c.allowMissingAth
  }

  /** What `ath` must be: the digest, or, where a missing one is allowed, anything that is not a string. */
  lemma AthAcceptedIff(env: Env, c: VerifierConfig, proofClaims: Object, token: string)
    ensures AthAccepted(env, c, proofClaims, token) <==>
            || Get(proofClaims, "ath") == Some(Str(env.digest(token)))
            || (c.allowMissingAth && forall s :: Get(proofClaims, "ath") != Some(Str(s)))
  {
    if Get(proofClaims, "ath").Some? && proofClaims["ath"].Str? {
      assert Get(proofClaims, "ath") == Some(Str(proofClaims["ath"].s));
    }
  }

  /** So an `ath` that is there and is not a string passes as a missing one does. */
  lemma NumberAthPasses(env: Env, c: VerifierConfig, token: string, n: int)
    ensures AthAccepted(env, c, map["ath" := Integer(n)], token) <==> c.allowMissingAth
  {}

  /** RFC 9449, section 4.3: a self-signed proof for this request, this token and this key. */
  ghost predicate ProofAccepted(env: Env, c: VerifierConfig, req: AuthRequest, proof: string, token: string,
      jkt: string, now: I64) {
    && SelfSigned(env.jose, env.es512, proof, "dpop+jwt").Some?
    && var (claims, key) := SelfSigned(env.jose, env.es512, proof, "dpop+jwt").value;
    && EqIgnoreAsciiCase(if GetStr(claims, "htm").Some? then GetStr(claims, "htm").value else "", req.verb)
    && GetStr(claims, "htu").Some? && env.normalizeHtu(GetStr(claims, "htu").value) == env.normalizeHtu(req.url)
    && HasText(claims, "jti")
    && GetI64(claims, "iat").Some? && PassesFreshness(now, GetI64(claims, "iat").value, c.clockToleranceSecs)
    && AthAccepted(env, c, claims, token)
    && Jwk.Thumbprint(env.digest, key) == Ok(jkt)
  }

  /**
   Proof of possession, by how the signed claims bind the token. A key needs its proof, a certificate
   needs itself, both need both; a malformed certificate binding never passes. A token bound to no key
   may not come under the DPoP scheme, and, where DPoP is required, must be bound to a certificate.
   Where DPoP is required, a bearer token must in any case be bound to a certificate.
   */
  ghost predicate Possession(env: Env, c: VerifierConfig, req: AuthRequest, parsed: Parsed, now: I64, claims: Object) {
    var jkt := ExtractCnfJkt(claims);
    var x5t := ExtractCnfX5tS256(env.jose, claims);
    && x5t != Some(Malformed)
    && (jkt.Some? ==> req.dpop.Some? && ProofAccepted(env, c, req, req.dpop.value, parsed.token, jkt.value, now))
    && (x5t.Some? ==> req.clientCertX5tS256.Some? && env.bytes(req.clientCertX5tS256.value) == env.bytes(x5t.value.t))
    && (jkt.None? ==> parsed.scheme != "dpop")
    && (c.requireDpop && parsed.scheme == "bearer" ==> x5t.Some?)
  }

  /**
   What `cnf` says is enforced: any `x5t#S256` member, whatever its type, needs to be the thumbprint of
   the presented certificate, and any non-empty `jkt` needs its proof; no other condition replaces either.
   */
  lemma BindingsAreEnforced(env: Env, c: VerifierConfig, req: AuthRequest, parsed: Parsed, now: I64, claims: Object,
      cnf: Object)
    requires Get(claims, "cnf") == Some(Obj(cnf)) && Possession(env, c, req, parsed, now, claims)
    ensures "x5t#S256" in cnf ==>
              && cnf["x5t#S256"].Str?
              && var s := cnf["x5t#S256"].s;
              && env.jose.base64(s).Some? && |env.jose.base64(s).value| == 32
              && req.clientCertX5tS256.Some? && env.bytes(req.clientCertX5tS256.value) == env.bytes(s)
    ensures HasText(cnf, "jkt") ==>
              req.dpop.Some? && ProofAccepted(env, c, req, req.dpop.value, parsed.token, GetStr(cnf, "jkt").value, now)
  {}

  /** The only claims that bind a token to a key: `cnf` an object, and `jkt` in it a non-empty string. */
  lemma KeyBindingIff(claims: Object, jkt: string)
    ensures ExtractCnfJkt(claims) == Some(jkt) <==>
            && jkt != "" && Get(claims, "cnf").Some? && claims["cnf"].Obj?
            && Get(claims["cnf"].members, "jkt") == Some(Str(jkt))
  {}

  /** A token bound to nothing passes exactly as a bearer token where DPoP is not required. */
  lemma UnboundTokenIff(env: Env, c: VerifierConfig, req: AuthRequest, parsed: Parsed, now: I64, claims: Object)
    requires parsed.scheme == "bearer" || parsed.scheme == "dpop"
    requires GetObject(claims, "cnf").Some? ==>
               var cnf := GetObject(claims, "cnf").value; "x5t#S256" !in cnf && !HasText(cnf, "jkt")
    ensures Possession(env, c, req, parsed, now, claims) <==> parsed.scheme == "bearer" && !c.requireDpop
  {}

  /** So a `jkt` that is there and is not a string binds nothing, where a malformed `x5t#S256` never passes. */
  lemma NumberJktIsUnbound(env: Env, c: VerifierConfig, req: AuthRequest, parsed: Parsed, now: I64, n: int)
    requires parsed.scheme == "bearer" || parsed.scheme == "dpop"
    ensures
      var claims: Object := map["cnf" := Obj(map["jkt" := Integer(n)])];
      Possession(env, c, req, parsed, now, claims) <==> parsed.scheme == "bearer" && !c.requireDpop
    ensures
      var claims: Object := map["cnf" := Obj(map["x5t#S256" := Integer(n)])];
      !Possession(env, c, req, parsed, now, claims)
  {
    var bound: Object := map["jkt" := Integer(n)];
    UnboundTokenIff(env, c, req, parsed, now, map["cnf" := Obj(bound)]);
    var cert: Object := map["x5t#S256" := Integer(n)];
    if Possession(env, c, req, parsed, now, map["cnf" := Obj(cert)]) {
      BindingsAreEnforced(env, c, req, parsed, now, map["cnf" := Obj(cert)], cert);
      assert false;
    }
  }

  /**
   A proof is owed and is missing or fails: by a token bound to a key, by every request under the DPoP
   scheme, and, where DPoP is required, by a token not bound to a certificate. A malformed certificate
   binding is looked at first.
   */
  ghost predicate LacksProof(env: Env, c: VerifierConfig, req: AuthRequest, parsed: Parsed, now: I64, claims: Object) {
    var jkt := ExtractCnfJkt(claims);
    var x5t := ExtractCnfX5tS256(env.jose, claims);
    && x5t != Some(Malformed)
    && (jkt.Some? || parsed.scheme == "dpop" || (c.requireDpop && x5t.None?))
    && !(req.dpop.Some? && jkt.Some? && ProofAccepted(env, c, req, req.dpop.value, parsed.token, jkt.value, now))
  }

  predicate PartyAccepted(c: VerifierConfig, claims: Object) {
    var azp := if GetStr(claims, "azp").Some? then GetStr(claims, "azp") else GetStr(claims, "client_id");
    c.authorizedParties == [] || (azp.Some? && azp.value in c.authorizedParties)
  }

  /** The configured claim is an https URL that carries no credentials. */
  predicate WebIdAccepted(env: Env, c: VerifierConfig, claims: Object) {
    && HasText(claims, c.webidClaim)
    && var url := env.parseUrl(GetStr(claims, c.webidClaim).value);
    url.Some? && url.value.scheme == "https" && !url.value.HasUserinfo()
  }

  predicate Listed(env: Env, c: VerifierConfig, webId: string, issuer: string) {
    c.bidirectionalMode == Strict ==>
      c.hasResolver && env.resolveWebId(webId).Some? && issuer in env.resolveWebId(webId).value
  }

  /** The `jti` the replay gate consumes: read off the presented proof. */
  function ReplayJti(jose: Jose, proof: string): Option<Jti> {
    match PeekClaims(jose, proof)
    case None => None
    case Some(claims) => if HasText(claims, "jti") then GetStr(claims, "jti") else None
  }

  /** The proof's second part states a non-empty string `jti`. */
  ghost predicate StatesJti(jose: Jose, proof: string, jti: Jti) {
    jti != "" && ClaimsState(jose, proof, "jti", Str(jti))
  }

  /** The identifier that is consumed is the `jti` the proof states, and there is one whenever it states one. */
  lemma ReplayJtiIff(jose: Jose, proof: string, jti: Jti)
    ensures ReplayJti(jose, proof) == Some(jti) <==> StatesJti(jose, proof, jti)
  {
    PeekedClaimIff(jose, proof, "jti", Str(jti));
  }

  /** Everything that is asked before the replay store is. */
  ghost predicate Admissible(env: Env, c: VerifierConfig, req: AuthRequest, parsed: Parsed, t: Readings,
      claims: Object) {
    && (parsed.scheme == "bearer" || parsed.scheme == "dpop")
    && HasText(claims, "iss") && GetStr(claims, "iss").value in c.trustedIssuers
    && TokenAccepted(env, c, parsed.token, GetStr(claims, "iss").value, t.tokenNow, claims)
    && Possession(env, c, req, parsed, t.proofNow, claims)
    && WebIdAccepted(env, c, claims)
    && PartyAccepted(c, claims)
  }

  /** What the store would answer to this request's mark. */
  function MarkOf(c: VerifierConfig, entries: Entries, cap: nat, jti: Jti, t: Readings): (MarkOutcome, Entries) {
    LazyMark(entries, cap, jti, ReplayTtl(c.clockToleranceSecs), t.markNow)
  }

  /** A presented proof has a `jti` the store takes as new, or cannot take while failing open is configured. */
  predicate ReplayPassed(env: Env, c: VerifierConfig, req: AuthRequest, entries: Entries, cap: nat, t: Readings) {
    req.dpop.Some? ==>
      && ReplayJti(env.jose, req.dpop.value).Some?
      && var outcome := MarkOf(c, entries, cap, ReplayJti(env.jose, req.dpop.value).value, t).0;
      outcome == Ok(New) || (outcome.Err? && !c.replayFailClosed)
  }

  /** The whole acceptance condition. */
  ghost predicate Accepts(env: Env, c: VerifierConfig, req: AuthRequest, parsed: Parsed, entries: Entries, cap: nat,
      t: Readings, claims: Object) {
    && Admissible(env, c, req, parsed, t, claims)
    && ReplayPassed(env, c, req, entries, cap, t)
    && Listed(env, c, GetStr(claims, c.webidClaim).value, GetStr(claims, "iss").value)
  }

  /** What the caller learns of accepted claims. */
  function Credentials(env: Env, c: VerifierConfig, claims: Object): VerifiedToken
    requires HasText(claims, c.webidClaim) && HasText(claims, "iss")
  {
    Agent(
      GetStr(claims, c.webidClaim).value,
      GetStr(claims, "iss").value,
      GetStr(claims, "client_id"),
      if GetStr(claims, "scope").Some? then env.words(GetStr(claims, "scope").value) else [],
      ExtractCnfJkt(claims),
      ExtractCnfX5tS256(env.jose, claims),
      GetI64(claims, "exp"))
  }

  // ---------------------------------------------------------------------------------------------
  // The checks, in the order and with the early returns of the source
  // ---------------------------------------------------------------------------------------------

  function CheckTemporal(now: I64, toleranceSecs: nat, claims: Object): (r: Result<(), VerifyError>)
    ensures r.Ok? <==> TokenTimely(now, toleranceSecs, claims)
    ensures r.Err? ==> r.error.kind == InvalidToken && !r.error.dpop
  {
    match GetI64(claims, "exp")
    case None => Err(InvalidTokenError(NoExpiry))
    case Some(exp) =>
      if Wrap(now - Wrap(toleranceSecs)) > exp then Err(InvalidTokenError(Expired))
      else if GetI64(claims, "nbf").Some? && Wrap(now + Wrap(toleranceSecs)) < GetI64(claims, "nbf").value then
          Err(InvalidTokenError(NotYetValid))
      else
        match GetI64(claims, "iat")
        case None => Err(InvalidTokenError(NoIssuedAt))
        case Some(iat) => if Wrap(iat - Wrap(toleranceSecs)) > now then Err(InvalidTokenError(IssuedInFuture))
            else Ok(())
  }

  function CheckAuthorizedParty(c: VerifierConfig, claims: Object): (r: Result<(), VerifyError>)
    ensures r.Ok? <==> PartyAccepted(c, claims)
    ensures r.Err? ==> r.error.kind == InvalidToken && !r.error.dpop
  {
    if c.authorizedParties == [] then Ok(())
    else
      match (GetStr(claims, "azp"), GetStr(claims, "client_id"))
      case (Some(a), _) => if a in c.authorizedParties then Ok(()) else Err(InvalidTokenError(PartyNotAccepted))
      case (None, Some(a)) => if a in c.authorizedParties then Ok(()) else Err(InvalidTokenError(PartyNotAccepted))
      case (None, None) => Err(InvalidTokenError(PartyNotAccepted))
  }

  function ExtractWebId(env: Env, c: VerifierConfig, claims: Object): (r: Result<string, VerifyError>)
    ensures r.Ok? <==> WebIdAccepted(env, c, claims)
    ensures r.Ok? ==> Some(r.value) == GetStr(claims, c.webidClaim)
    ensures r.Err? ==> r.error.kind == InvalidToken && !r.error.dpop
  {
    match GetStr(claims, c.webidClaim)
    case None => Err(InvalidTokenError(NoWebId))
    case Some(s) =>
      if s == "" then Err(InvalidTokenError(NoWebId))
      else
        match ValidateWebIdClaim(env.parseUrl, s)
        case Ok(w) => Ok(w)
        case Err(reason) => Err(InvalidTokenError(reason))
  }

  function CheckBidirectional(env: Env, c: VerifierConfig, webId: string, issuer: string): (r: Result<(), VerifyError>)
    ensures r.Ok? <==> Listed(env, c, webId, issuer)
    ensures r.Err? ==> r.error.kind == InvalidToken && !r.error.dpop
  {
    if c.bidirectionalMode == Off then Ok(())
    else if !c.hasResolver then
      if c.bidirectionalMode == Strict then Err(InvalidTokenError(IssuerNotListed)) else Ok(())
    else
      var listed := match env.resolveWebId(webId) case Some(issuers) => issuer in issuers case None => false;
      if listed then Ok(())
      else if c.bidirectionalMode == Strict then Err(InvalidTokenError(IssuerNotListed))
      else Ok(())
  }

  /** In a valid configuration strict mode always has a resolver to ask, so it comes down to what the profile lists. */
  lemma ValidStrictModeAsksProfile(env: Env, c: VerifierConfig, webId: string, issuer: string)
    requires Validate(c).Ok?
    ensures CheckBidirectional(env, c, webId, issuer).Ok? <==>
            (c.bidirectionalMode == Strict ==> env.resolveWebId(webId).Some? && issuer in env.resolveWebId(webId).value)
  {}

  /** The comparison that looks at every byte. */
  method ConstantTimeEq(a: seq<bv8>, b: seq<bv8>) returns (equal: bool)
    ensures equal <==> a == b
  {
    if |a| != |b| {
      return false;
    }
    var diff: bv8 := 0;
    for i := 0 to |a|
      invariant diff == 0 <==> a[..i] == b[..i]
    {
      XorIsZeroIff(a[i], b[i], diff);
      assert a[..i + 1] == a[..i] + [a[i]] && b[..i + 1] == b[..i] + [b[i]];
      diff := diff | (a[i] ^ b[i]);
    }
    assert a[..|a|] == a && b[..|a|] == b;
    equal := diff == 0;
  }

  lemma XorIsZeroIff(x: bv8, y: bv8, diff: bv8)
    ensures diff | (x ^ y) == 0 <==> diff == 0 && x == y
  {}

  method ValidateCertBinding(env: Env, req: AuthRequest, expected: string) returns (r: Result<(), VerifyError>)
    ensures r.Ok? <==> req.clientCertX5tS256.Some? && env.bytes(req.clientCertX5tS256.value) == env.bytes(expected)
    ensures r.Err? ==> r.error.kind == InvalidToken && !r.error.dpop
  {
    match req.clientCertX5tS256 {
      case None =>
        r := Err(InvalidTokenError(NoClientCert));
      case Some(presented) =>
        var equal := ConstantTimeEq(env.bytes(presented), env.bytes(expected));
        r := if equal then Ok(()) else Err(InvalidTokenError(ClientCertMismatch));
    }
  }

  method ValidateAccessToken(env: Env, c: VerifierConfig, token: string, claimedIssuer: string, now: I64)
    returns (r: Result<Object, VerifyError>)
    ensures r.Ok? ==> TokenAccepted(env, c, token, claimedIssuer, now, r.value)
    ensures r.Err? ==> forall claims :: !TokenAccepted(env, c, token, claimedIssuer, now, claims)
    ensures r.Err? ==> r.error.kind == InvalidToken && !r.error.dpop
  {
    match PeekHeader(env.jose, token) {
      case Err(reason) => return Err(InvalidTokenError(reason));
      case Ok(header) =>
        if !AlgInPolicy(header.alg) {
          return Err(InvalidTokenError(AlgNotPermitted));
        }
        if !AlgIsVerifiable(header.alg, env.es512) {
          return Err(InvalidTokenError(AlgNotVerifiable));
        }
    }
    if env.keysFor(claimedIssuer).None? {
      return Err(InvalidTokenError(KeysUnavailable));
    }
    var verified := VerifySignature(env.jose, env.es512, token, env.keysFor(claimedIssuer).value, Some("at+jwt"));
    if verified.Err? {
      return Err(InvalidTokenError(TokenNotVerified));
    }
    var claims := verified.value;
    if !HasText(claims, "sub") || !HasText(claims, "jti") || !HasText(claims, "client_id") {
      return Err(InvalidTokenError(MissingClaim));
    }
    if GetStr(claims, "iss") != Some(claimedIssuer) {
      return Err(InvalidTokenError(IssuerMismatch));
    }
    if !AudienceMatches(claims, c.audience) {
      return Err(InvalidTokenError(AudienceMismatch));
    }
    match CheckTemporal(now, c.clockToleranceSecs, claims) {
      case Err(e) => return Err(e);
      case Ok(_) =>
    }
    r := Ok(claims);
  }

  method ValidateDpopProof(env: Env, c: VerifierConfig, req: AuthRequest, proof: string, token: string, jkt: string,
      requireAth: bool, now: I64)
    returns (r: Result<(), VerifyError>)
    requires requireAth == !(c.allowMissingAth && !ProofHasAth(env.jose, proof))
    ensures r.Ok? <==> ProofAccepted(env, c, req, proof, token, jkt, now)
    ensures r.Err? ==> r.error.kind == InvalidToken && r.error.dpop
  {
    var verified := VerifyProofWithEmbeddedJwk(env.jose, env.es512, proof, "dpop+jwt");
    if verified.Err? {
      return Err(InvalidTokenDpop(ProofNotVerified));
    }
    var (claims, key) := verified.value;
    var htm := if GetStr(claims, "htm").Some? then GetStr(claims, "htm").value else "";
    if !EqIgnoreAsciiCase(htm, req.verb) {
      return Err(InvalidTokenDpop(HtmMismatch));
    }
    if GetStr(claims, "htu").None? || env.normalizeHtu(GetStr(claims, "htu").value) != env.normalizeHtu(req.url) {
      return Err(InvalidTokenDpop(HtuMismatch));
    }
    if !HasText(claims, "jti") {
      return Err(InvalidTokenDpop(NoJti));
    }
    if GetI64(claims, "iat").None? {
      return Err(InvalidTokenDpop(NoProofIat));
    }
    var window := Wrap(FreshnessWindow(c.clockToleranceSecs));
    if Abs(Wrap(now - GetI64(claims, "iat").value)) > window {
      return Err(InvalidTokenDpop(StaleProof));
    }
    var proofAth := GetStr(claims, "ath");
    if requireAth {
      if proofAth.None? {
        return Err(InvalidTokenDpop(NoAth));
      }
      if proofAth.value != env.digest(token) {
        return Err(InvalidTokenDpop(AthMismatch));
      }
    } else if proofAth.Some? {
      if proofAth.value != env.digest(token) {
        return Err(InvalidTokenDpop(AthMismatch));
      }
    }
    match Jwk.Thumbprint(env.digest, key) {
      case Err(_) =>
        r := Err(InvalidTokenDpop(ProofKeyInvalid));
      case Ok(proofJkt) =>
        r := if proofJkt != jkt then Err(InvalidTokenDpop(ConfirmationMismatch)) else Ok(());
    }
  }

  /** Access token, then proof of possession; `SchemeGate` is what was checked before this is called. */
  method ValidateToken(env: Env, c: VerifierConfig, req: AuthRequest, parsed: Parsed, claimedIssuer: string,
      t: Readings)
    returns (r: Result<Object, VerifyError>)
    requires SchemeGate(env, c, parsed)
    ensures r.Ok? ==> TokenAccepted(env, c, parsed.token, claimedIssuer, t.tokenNow, r.value)
                      && Possession(env, c, req, parsed, t.proofNow, r.value)
                      && !LacksProof(env, c, req, parsed, t.proofNow, r.value)
    ensures r.Err? ==> forall claims ::
              !(TokenAccepted(env, c, parsed.token, claimedIssuer, t.tokenNow, claims) &&
                  Possession(env, c, req, parsed, t.proofNow, claims))
    ensures r.Err? ==> r.error.kind == InvalidToken
    ensures r.Err? ==> (r.error.dpop <==>
              TokenAccepted(env, c, parsed.token, claimedIssuer, t.tokenNow, PresentedClaims(env, parsed))
              && LacksProof(env, c, req, parsed, t.proofNow, PresentedClaims(env, parsed)))
  {
    forall claims | TokenAccepted(env, c, parsed.token, claimedIssuer, t.tokenNow, claims)
      ensures claims == PresentedClaims(env, parsed)
    {
      PeekIsSigned(env, c, parsed.token, claimedIssuer, t.tokenNow, claims);
    }
    hide TokenAccepted, ProofAccepted;
    var validated := ValidateAccessToken(env, c, parsed.token, claimedIssuer, t.tokenNow);
    if validated.Err? {
      return Err(validated.error);
    }
    var claims := validated.value;
    var cnfJkt := ExtractCnfJkt(claims);
    var cnfX5t := ExtractCnfX5tS256(env.jose, claims);
    if cnfX5t == Some(Malformed) {
      return Err(InvalidTokenError(CertBindingMalformed));
    }
    var isCertBound := cnfX5t.Some?;
    var mustDpop := cnfJkt.Some? || parsed.scheme == "dpop" || (c.requireDpop && !isCertBound);
    if mustDpop {
      if req.dpop.None? {
        return Err(InvalidTokenDpop(NoProof));
      }
      if cnfJkt.None? {
        return Err(InvalidTokenDpop(NotDpopBound));
      }
      var proof := req.dpop.value;
      var athCompat := c.allowMissingAth && !ProofHasAth(env.jose, proof);
      var proven := ValidateDpopProof(env, c, req, proof, parsed.token, cnfJkt.value, !athCompat, t.proofNow);
      if proven.Err? {
        return Err(proven.error);
      }
    }
    if isCertBound {
      var bound := ValidateCertBinding(env, req, cnfX5t.value.t);
      if bound.Err? {
        return Err(bound.error);
      }
    }
    r := Ok(claims);
  }

  /** A known scheme, and under required DPoP no bearer token but one that looks bound to a certificate. */
  predicate SchemeGate(env: Env, c: VerifierConfig, parsed: Parsed) {
    || parsed.scheme == "dpop"
    || (parsed.scheme == "bearer" && (c.requireDpop ==> TokenIsCertBound(env.jose, parsed.token)))
  }

  /** What is read of an unverified token is what its issuer signed, once the issuer did sign it. */
  lemma PeekIsSigned(env: Env, c: VerifierConfig, token: string, issuer: string, now: I64, claims: Object)
    requires TokenAccepted(env, c, token, issuer, now, claims)
    ensures PeekClaims(env.jose, token) == Some(claims)
    ensures GetStr(claims, "iss") == Some(issuer)
    ensures HasText(claims, "iss") ==> PeekIssuer(env.jose, token) == Ok(issuer)
    ensures TokenIsCertBound(env.jose, token) <==>
            ExtractCnfX5tS256(env.jose, claims).Some? && ExtractCnfX5tS256(env.jose, claims).value.Thumbprint?
  {}

  /** The claims on which a request stands or falls. */
  function PresentedClaims(env: Env, parsed: Parsed): Object {
    var claims := PeekClaims(env.jose, parsed.token);
    if claims.Some? then claims.value else map[]
  }

  /** Claims can be admitted for a token only if they are the ones it carries and the scheme gate lets it by. */
  lemma AdmissibleNeedsGate(env: Env, c: VerifierConfig, req: AuthRequest, parsed: Parsed, t: Readings, claims: Object)
    requires Admissible(env, c, req, parsed, t, claims)
    ensures PeekClaims(env.jose, parsed.token) == Some(claims) && claims == PresentedClaims(env, parsed)
    ensures PeekIssuer(env.jose, parsed.token) == Ok(GetStr(claims, "iss").value)
    ensures SchemeGate(env, c, parsed)
  {
    PeekIsSigned(env, c, parsed.token, GetStr(claims, "iss").value, t.tokenNow, claims);
  }

  class Verifier {
    const env: Env
    const config: VerifierConfig
    const replay: InMemoryReplayStore

    constructor (env: Env, config: VerifierConfig, replay: InMemoryReplayStore)
      ensures this.env == env && this.config == config && this.replay == replay
    {
      this.env := env;
      this.config := config;
      this.replay := replay;
    }

    /** `Verifier::new`: an invalid configuration is refused with the reason `Validate` gives. */
    static method Create(env: Env, config: VerifierConfig, replay: InMemoryReplayStore)
      returns (r: Result<Verifier, ConfigError>)
      requires replay.Valid()
      ensures r.Ok? <==>
              && config.trustedIssuers != [] && config.audience != ""
              && (config.hasResolver || config.bidirectionalMode == Off)
      ensures r.Err? ==> Validate(config) == Err(r.error)
      ensures r.Ok? ==> r.value.Valid() && r.value.env == env && r.value.config == config && r.value.replay == replay
    {
      match Validate(config) {
        case Err(e) =>
          r := Err(e);
        case Ok(_) =>
          var v := new Verifier(env, config, replay);
          r := Ok(v);
      }
    }

    /** What `Create` establishes and every call keeps. */
    predicate Valid()
      reads replay
    {
      Validate(config).Ok? && replay.Valid()
    }

    /**
     Is it for want of a good and fresh proof that this request fails? The gates passed and the token
     accepted, the proof it owes is missing or fails; or all is well and the store does not let it by.
     */
    ghost predicate AsksForProof(req: AuthRequest, parsed: Parsed, t: Readings, entries: Entries) {
      var claims := PresentedClaims(env, parsed);
      || (&& SchemeGate(env, config, parsed)
          && HasText(claims, "iss") && GetStr(claims, "iss").value in config.trustedIssuers
          && TokenAccepted(env, config, parsed.token, GetStr(claims, "iss").value, t.tokenNow, claims)
          && LacksProof(env, config, req, parsed, t.proofNow, claims))
      || (Admissible(env, config, req, parsed, t, claims) && !ReplayPassed(env, config, req, entries, replay.Cap(), t))
    }

    /** Does this request get as far as marking its proof? */
    ghost predicate Consults(req: AuthRequest, parsed: Parsed, t: Readings) {
      && Admissible(env, config, req, parsed, t, PresentedClaims(env, parsed))
      && req.dpop.Some? && ReplayJti(env.jose, req.dpop.value).Some?
    }

    /** Consumes the proof's `jti`: a repeated one is a replay, and a store that cannot answer fails as configured. */
    method CheckReplay(proof: string, t: Readings) returns (r: Result<(), VerifyError>)
      requires replay.Valid()
      modifies replay`entries
      ensures replay.Valid()
      ensures forall jti :: StatesJti(env.jose, proof, jti) ==>
                replay.entries == MarkOf(config, old(replay.entries), replay.Cap(), jti, t).1
      ensures (forall jti :: !StatesJti(env.jose, proof, jti)) ==> r.Err? && replay.entries == old(replay.entries)
      ensures r.Err? ==> r.error.dpop
      ensures ReplayJti(env.jose, proof).None? ==>
                r == Err(InvalidTokenDpop(NoJti)) && replay.entries == old(replay.entries)
      ensures ReplayJti(env.jose, proof).Some? ==>
                var (outcome, entries) := MarkOf(config, old(replay.entries), replay.Cap(),
                    ReplayJti(env.jose, proof).value, t);
                && replay.entries == entries
                && (r.Ok? <==> outcome == Ok(New) || (outcome.Err? && !config.replayFailClosed))
                && (r.Err? ==> r.error == if outcome.Ok? then InvalidTokenDpop(Replayed)
                    else VerifyError(ReplayStoreUnavailable, ReplayBackend, true))
    {
      forall jti
        ensures ReplayJti(env.jose, proof) == Some(jti) <==> StatesJti(env.jose, proof, jti)
      {
        ReplayJtiIff(env.jose, proof, jti);
      }
      hide StatesJti;
      match ReplayJti(env.jose, proof) {
        case None =>
          r := Err(InvalidTokenDpop(NoJti));
        case Some(jti) =>
          var outcome := replay.Mark(jti, ReplayTtl(config.clockToleranceSecs), t.markNow);
          match outcome {
            case Ok(New) =>
              r := Ok(());
            case Ok(Replay) =>
              r := Err(InvalidTokenDpop(Replayed));
            case Err(_) =>
              if config.replayFailClosed {
                r := Err(VerifyError(ReplayStoreUnavailable, ReplayBackend, true));
              } else {
                r := Ok(());
              }
          }
      }
    }

    /**
     Authenticates a request. Without credentials it is public. With them it is accepted if and only if
     the acceptance condition holds of the claims the token carries, and then it yields those claims;
     the store is marked exactly by the admissible requests that present a proof with a `jti`; a 503
     says exactly that the marking failed while failing closed is configured; and a request is called
     malformed exactly when the scheme gate stops it.
     */
    method Verify(req: AuthRequest, t: Readings) returns (r: Result<VerifiedToken, VerifyError>)
      requires Valid()
      modifies replay`entries
      ensures Valid()
      ensures r == Ok(Public) <==> forall scheme, token :: !StatesCredentials(env, req.authorization, scheme, token)
      ensures ParseAuthorization(env, req.authorization).None? ==>
                r == Ok(Public) && replay.entries == old(replay.entries)
      ensures ParseAuthorization(env, req.authorization).Some? ==>
                var parsed := ParseAuthorization(env, req.authorization).value;
                var claims := PresentedClaims(env, parsed);
                && (r.Ok? <==> Accepts(env, config, req, parsed, old(replay.entries), replay.Cap(), t, claims))
                && (r.Ok? ==> r.value == Credentials(env, config, claims))
      ensures ParseAuthorization(env, req.authorization).Some? ==>
                var parsed := ParseAuthorization(env, req.authorization).value;
                && (Consults(req, parsed, t) ==>
                      replay.entries == MarkOf(config, old(replay.entries), replay.Cap(),
                          ReplayJti(env.jose, req.dpop.value).value, t).1)
                && (!Consults(req, parsed, t) ==> replay.entries == old(replay.entries))
      ensures r.Err? ==>
                var parsed := ParseAuthorization(env, req.authorization).value;
                && (r.error.kind == ReplayStoreUnavailable <==>
                      Consults(req, parsed, t) && config.replayFailClosed
                      && MarkOf(config, old(replay.entries), replay.Cap(), ReplayJti(env.jose, req.dpop.value).value,
                          t).0.Err?)
                && (r.error.kind == InvalidRequest <==> !SchemeGate(env, config, parsed))
      ensures r.Err? ==>
                var parsed := ParseAuthorization(env, req.authorization).value;
                r.error.dpop <==> AsksForProof(req, parsed, t, old(replay.entries))
      ensures r.Err? ==> r.error.kind.Status() == if r.error.kind == ReplayStoreUnavailable then 503 else 401
    {
      NoCredentialsIff(env, req.authorization);
      hide StatesCredentials, StatesJti;
      hide LacksProof, TokenAccepted, Possession, WebIdAccepted, PartyAccepted, Listed, MarkOf, ParseAuthorization,
          PeekClaims;
      var parsed;
      match ParseAuthorization(env, req.authorization) {
        case None => return Ok(Public);
        case Some(p) => parsed := p;
      }
      ghost var presented := PresentedClaims(env, parsed);
      if Admissible(env, config, req, parsed, t, presented) {
        AdmissibleNeedsGate(env, config, req, parsed, t, presented);
      }
      if parsed.scheme == "bearer" {
        if config.requireDpop && !TokenIsCertBound(env.jose, parsed.token) {
          return Err(InvalidRequestError(BearerNotAccepted));
        }
      } else if parsed.scheme != "dpop" {
        return Err(InvalidRequestError(UnsupportedScheme));
      }
      var claimedIssuer;
      match PeekIssuer(env.jose, parsed.token) {
        case Err(reason) => return Err(InvalidTokenError(reason));
        case Ok(i) => claimedIssuer := i;
      }
      if claimedIssuer !in config.trustedIssuers {
        return Err(InvalidTokenError(UntrustedIssuer));
      }
      var validated := ValidateToken(env, config, req, parsed, claimedIssuer, t);
      if validated.Err? {
        return Err(validated.error);
      }
      var claims := validated.value;
      PeekIsSigned(env, config, parsed.token, claimedIssuer, t.tokenNow, claims);
      var webId := ExtractWebId(env, config, claims);
      if webId.Err? {
        return Err(webId.error);
      }
      var party := CheckAuthorizedParty(config, claims);
      if party.Err? {
        return Err(party.error);
      }
      if req.dpop.Some? {
        var marked := CheckReplay(req.dpop.value, t);
        if marked.Err? {
          return Err(marked.error);
        }
      }
      var issuer := if GetStr(claims, "iss").Some? then GetStr(claims, "iss").value else claimedIssuer;
      var listed := CheckBidirectional(env, config, webId.value, issuer);
      if listed.Err? {
        return Err(listed.error);
      }
      r := Ok(Agent(
        webId.value,
        issuer,
        GetStr(claims, "client_id"),
        if GetStr(claims, "scope").Some? then env.words(GetStr(claims, "scope").value) else [],
        ExtractCnfJkt(claims),
        ExtractCnfX5tS256(env.jose, claims),
        GetI64(claims, "exp")));
    }
  }
}
