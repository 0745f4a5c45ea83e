/**
 The verifier on top of the key cache: which of an issuer's keys, published when, a token is accepted by.
 It is also how long a key counts that the issuer has withdrawn.
 */
module KeyLifetime {
  import opened Wrappers
  import opened Json
  import opened Config
  import opened Jwk
  import opened Jwt
  import opened Temporal
  import opened JwksCache
  import V = Verifier

  /** A look-up of an issuer's keys, after any interleaving of other look-ups and refreshes. */
  datatype Lookup = Lookup(steps: seq<Step>, issuer: string, at: nat, cacheTtl: nat, now: Sources)

  /** What the provider serves: what is cached and young, and otherwise what the issuer publishes at that moment. */
  ghost function Served(l: Lookup): Option<seq<Key>> {
    var cached := LookUp(Run(l.steps), l.issuer, l.at, l.cacheTtl);
    if cached.Some? then cached else Published(l.now, l.issuer)
  }

  /** The k-th step is the issuer's latest successful refresh, and was stored less than the time-to-live ago. */
  ghost predicate IsYoungStore(l: Lookup, k: nat) {
    IsLatestStore(l.steps, l.issuer, k) && 0 < l.cacheTtl && l.at < l.steps[k].at + l.cacheTtl
  }

  /** The refresh whose keys are served: a young stored one, or for want of any the one of this moment. */
  ghost predicate IsSource(l: Lookup, src: Sources) {
    || (exists k: nat :: IsYoungStore(l, k) && l.steps[k].src == src)
    || (src == l.now && !exists k: nat :: IsYoungStore(l, k))
  }

  /** There is always exactly one such refresh, and what the issuer publishes to it is what is served. */
  lemma SourceServes(l: Lookup) returns (src: Sources)
    ensures IsSource(l, src) && Served(l) == Published(src, l.issuer)
    ensures forall other: Sources :: IsSource(l, other) ==> other == src
  {
    hide Publishes;
    var latest := CacheIsLatestStore(l.steps, l.issuer);
    forall k: nat | IsLatestStore(l.steps, l.issuer, k)
      ensures k == latest && l.issuer in Run(l.steps)
    {
    }
    src := if l.issuer in Run(l.steps) && IsYoungStore(l, latest) then l.steps[latest].src else l.now;
  }

  /** The keys served are exactly what the issuer publishes to that refresh. */
  lemma ServedIff(l: Lookup, keys: seq<Key>)
    ensures Served(l) == Some(keys) <==> exists src: Sources :: IsSource(l, src) && Publishes(src, l.issuer, keys)
  {
    hide Publishes, IsSource, Served;
    var src := SourceServes(l);
  }

  /** The issuer publishes, to this refresh, a key under which the token's signature holds. */
  ghost predicate IsVouchedFor(jose: Jose, token: string, src: Sources, issuer: string, key: Key) {
    && PeekHeader(jose, token).Ok? && KeyVerifies(jose, token, PeekHeader(jose, token).value.alg, key)
    && exists keys :: Publishes(src, issuer, keys) && key in keys
  }

  /** An acceptable header and payload, whoever signed them. */
  ghost predicate ContentAccepted(env: V.Env, c: VerifierConfig, token: string, issuer: string, now: I64,
      claims: Object) {
    && HeaderAccepted(env.jose, env.es512, token, Some("at+jwt")) && PeekClaims(env.jose, token) == Some(claims)
    && V.ClaimsAccepted(c, issuer, now, claims)
  }

  /**
   Whatever the interleaving, a token with acceptable content is accepted if and only if its issuer
   published a key that verifies it to the refresh the keys come from: one stored less than the
   time-to-live before the look-up, or, only where there is none, the current one. So a withdrawn key counts until
   its time-to-live is over or a later refresh is stored, and a new key does not before.
   */
  lemma AcceptedIffRecentlyPublished(env: V.Env, c: VerifierConfig, token: string, now: I64, claims: Object, l: Lookup)
    requires env.keysFor(l.issuer) == Served(l)
    ensures V.TokenAccepted(env, c, token, l.issuer, now, claims) <==>
            && ContentAccepted(env, c, token, l.issuer, now, claims)
            && exists src: Sources, key: Key :: IsSource(l, src) && IsVouchedFor(env.jose, token, src, l.issuer, key)
  {
    hide V.ClaimsAccepted, KeyVerifies, Publishes, IsSource, Served;
    if V.TokenAccepted(env, c, token, l.issuer, now, claims) {
      var keys := Served(l).value;
      ServedIff(l, keys);
      var src: Sources :| IsSource(l, src) && Publishes(src, l.issuer, keys);
      var key :| key in keys && KeyVerifies(env.jose, token, PeekHeader(env.jose, token).value.alg, key);
      assert IsVouchedFor(env.jose, token, src, l.issuer, key);
    }
    if src: Sources, key: Key :| IsSource(l, src) && IsVouchedFor(env.jose, token, src, l.issuer, key) {
      var keys :| Publishes(src, l.issuer, keys) && key in keys;
      ServedIff(l, keys);
    }
  }

  /**
   The verifying key is public and asymmetric, and was published less than the time-to-live before the look-
   up, or at it.
   */
  lemma AcceptingKeyIsRecent(env: V.Env, c: VerifierConfig, token: string, now: I64, claims: Object, l: Lookup)
    returns (key: Key, src: Sources)
    requires env.keysFor(l.issuer) == Served(l) && V.TokenAccepted(env, c, token, l.issuer, now, claims)
    ensures key.IsPublicAsymmetric() && IsVouchedFor(env.jose, token, src, l.issuer, key)
    ensures
      || src == l.now
      || exists k: nat ::
           k < |l.steps| && l.steps[k].Refresh? && l.steps[k].src == src && l.at < l.steps[k].at + l.cacheTtl
  {
    AcceptedIffRecentlyPublished(env, c, token, now, claims, l);
    key, src := FindKey(env, token, l);
    var keys :| Publishes(src, l.issuer, keys) && key in keys;
    PublishedIsServable(src, l.issuer, keys);
  }

  lemma FindKey(env: V.Env, token: string, l: Lookup) returns (key: Key, src: Sources)
    requires exists src: Sources, key: Key :: IsSource(l, src) && IsVouchedFor(env.jose, token, src, l.issuer, key)
    ensures IsSource(l, src) && IsVouchedFor(env.jose, token, src, l.issuer, key)
  {
    src, key :| IsSource(l, src) && IsVouchedFor(env.jose, token, src, l.issuer, key);
  }
}
