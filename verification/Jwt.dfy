/**
 Reading and verifying compact JWS tokens (src/jwt.rs). The libraries underneath (base64, JSON, the two
 signature back ends) are the fields of `Jose`: arbitrary total functions.
 */
module Jwt {
  import opened Wrappers
  import opened Text
  import opened Json
  import opened Errors
  import opened Jwk

  type Bytes = seq<nat>

  datatype Jose = Jose(
    /** base64url without padding */
    base64: string -> Option<Bytes>,
    json: Bytes -> Option<Value>,
    /** `serde_json::from_value::<Jwk>` */
    keyFromJson: Value -> Option<Key>,
    /** the first back end can build its key from these components */
    keyBuilds: Key -> bool,
    /** the first back end accepts the token's signature under this key and this one algorithm */
    signatureHolds: (string, Key, string) -> bool,
    /** the P-521 back end: a point on the curve, a parsed `r || s`, and a signature over the signing input */
    p521Point: (Bytes, Bytes) -> bool,
    p521Signature: Bytes -> bool,
    p521Holds: (string, Bytes, Bytes, Bytes) -> bool)

  datatype JoseHeader = JoseHeader(alg: string, typ: Option<string>, jwk: Option<Key>)

  /** The three segments of a compact JWS. */
  function SplitCompact(token: string): Option<(string, string, string)> {
    match SplitAt(token, '.')
    case None => None
    case Some((h, rest)) =>
      match SplitAt(rest, '.')
      case None => None
      case Some((p, s)) =>
        if h == "" || p == "" || s == "" || '.' in s then None else Some((h, p, s))
  }

  /** Three parts, none of them empty, joined by the only two dots. */
  predicate HasParts(token: string, h: string, p: string, s: string) {
    && token == h + (['.'] + (p + (['.'] + s)))
    && h != "" && p != "" && s != "" && '.' !in h && '.' !in p && '.' !in s
  }

  /** A token splits exactly into three non-empty dot-free parts, joined by dots. */
  lemma SplitCompactIff(token: string, h: string, p: string, s: string)
    ensures SplitCompact(token) == Some((h, p, s)) <==> HasParts(token, h, p, s)
  {
    SplitAtJoins(token, '.');
    if SplitAt(token, '.').Some? {
      SplitAtJoins(SplitAt(token, '.').value.1, '.');
    }
    if token == h + (['.'] + (p + (['.'] + s))) && '.' !in h && '.' !in p {
      SplitAtFirst(h, '.', p + (['.'] + s));
      SplitAtFirst(p, '.', s);
    }
  }

  function ParseSegment(jose: Jose, segment: string): Option<Value> {
    match jose.base64(segment)
    case None => None
    case Some(bytes) => jose.json(bytes)
  }

  function PeekHeader(jose: Jose, token: string): Result<JoseHeader, Reason> {
    match SplitCompact(token)
    case None => Err(MalformedToken)
    case Some((h, _, _)) =>
      match ParseSegment(jose, h)
      case None => Err(MalformedHeader)
      case Some(v) =>
        var o := if v.Obj? then v.members else map[];
        if GetStr(o, "alg").None? then Err(NoAlg)
        else if Get(o, "jwk").Some? && o["jwk"] != Null then
          match jose.keyFromJson(o["jwk"])
          case None => Err(BadEmbeddedKey)
          case Some(key) => Ok(JoseHeader(GetStr(o, "alg").value, GetStr(o, "typ"), Some(key)))
        else Ok(JoseHeader(GetStr(o, "alg").value, GetStr(o, "typ"), None))
  }

  /** The claims as written, signed or not. */
  function PeekClaims(jose: Jose, token: string): Option<Object> {
    match SplitCompact(token)
    case None => None
    case Some((_, p, _)) =>
      match ParseSegment(jose, p)
      case Some(Obj(claims)) => Some(claims)
      case _ => None
  }

  function PeekIssuer(jose: Jose, token: string): Result<string, Reason> {
    match PeekClaims(jose, token)
    case None => Err(MalformedToken)
    case Some(claims) =>
      if GetStr(claims, "iss").Some? && GetStr(claims, "iss").value != "" then Ok(GetStr(claims, "iss").value)
          else Err(NoIssuer)
  }

  function ProofHasAth(jose: Jose, proof: string): bool {
    match PeekClaims(jose, proof)
    case None => false
    case Some(claims) => GetStr(claims, "ath").Some? && GetStr(claims, "ath").value != ""
  }

  // ---------------------------------------------------------------------------------------------
  // What a token states
  // ---------------------------------------------------------------------------------------------

  /** The bytes a segment encodes are a JSON object with this member. */
  predicate SegmentStates(jose: Jose, segment: string, name: string, v: Value) {
    && jose.base64(segment).Some?
    && var doc := jose.json(jose.base64(segment).value);
    doc.Some? && doc.value.Obj? && (name, v) in doc.value.members.Items
  }

  /** The token's first part states this header parameter. */
  ghost predicate HeaderStates(jose: Jose, token: string, name: string, v: Value) {
    exists h, p, s :: HasParts(token, h, p, s) && SegmentStates(jose, h, name, v)
  }

  /** The token's second part states this claim. */
  ghost predicate ClaimsState(jose: Jose, token: string, name: string, v: Value) {
    exists h, p, s :: HasParts(token, h, p, s) && SegmentStates(jose, p, name, v)
  }

  lemma PartsAreUnique(token: string, h: string, p: string, s: string)
    requires HasParts(token, h, p, s)
    ensures SplitCompact(token) == Some((h, p, s))
  {
    SplitCompactIff(token, h, p, s);
  }

  /** The claims that are read off a token are those of the object its second part encodes. */
  lemma PeekClaimsIff(jose: Jose, token: string, claims: Object)
    ensures PeekClaims(jose, token) == Some(claims) <==>
            exists h, p, s ::
              HasParts(token, h, p, s) && jose.base64(p).Some? && jose.json(jose.base64(p).value) == Some(Obj(claims))
  {
    if SplitCompact(token).Some? {
      var (h, p, s) := SplitCompact(token).value;
      SplitCompactIff(token, h, p, s);
    }
    forall h, p, s | HasParts(token, h, p, s)
      ensures SplitCompact(token) == Some((h, p, s))
    {
      PartsAreUnique(token, h, p, s);
    }
  }

  lemma PeekedClaimIff(jose: Jose, token: string, name: string, v: Value)
    ensures ClaimsState(jose, token, name, v) <==>
            PeekClaims(jose, token).Some? && (name, v) in PeekClaims(jose, token).value.Items
  {
    if PeekClaims(jose, token).Some? {
      PeekClaimsIff(jose, token, PeekClaims(jose, token).value);
    }
    forall h, p, s | HasParts(token, h, p, s)
      ensures SplitCompact(token) == Some((h, p, s))
    {
      PartsAreUnique(token, h, p, s);
    }
  }

  /** The issuer is looked up exactly by a non-empty `iss` string the token states. */
  lemma PeekIssuerIff(jose: Jose, token: string, issuer: string)
    ensures PeekIssuer(jose, token) == Ok(issuer) <==> issuer != "" && ClaimsState(jose, token, "iss", Str(issuer))
  {
    PeekedClaimIff(jose, token, "iss", Str(issuer));
  }

  /** An `ath` counts as stated exactly when it is a non-empty string. */
  lemma ProofHasAthIff(jose: Jose, proof: string)
    ensures ProofHasAth(jose, proof) <==> exists a :: a != "" && ClaimsState(jose, proof, "ath", Str(a))
  {
    forall a
      ensures ClaimsState(jose, proof, "ath", Str(a)) <==>
              PeekClaims(jose, proof).Some? && ("ath", Str(a)) in PeekClaims(jose, proof).value.Items
    {
      PeekedClaimIff(jose, proof, "ath", Str(a));
    }
    if ProofHasAth(jose, proof) {
      var claims := PeekClaims(jose, proof).value;
      assert ("ath", Str(claims["ath"].s)) in claims.Items;
    }
  }

  /** A member `jwk` that is there and not null must be a key; without one there is none. */
  ghost predicate StatesJwk(jose: Jose, token: string, jwk: Option<Key>) {
    || (jwk.None? && forall v :: HeaderStates(jose, token, "jwk", v) ==> v == Null)
    || (jwk.Some? && exists v :: HeaderStates(jose, token, "jwk", v) && v != Null && jose.keyFromJson(v) == jwk)
  }

  ghost predicate StatesTyp(jose: Jose, token: string, typ: Option<string>) {
    forall t :: typ == Some(t) <==> HeaderStates(jose, token, "typ", Str(t))
  }

  /** The header that is read off a token is the one its first part states, and is read whenever there is one. */
  lemma PeekHeaderIff(jose: Jose, token: string, header: JoseHeader)
    ensures PeekHeader(jose, token) == Ok(header) <==>
            && HeaderStates(jose, token, "alg", Str(header.alg))
            && StatesTyp(jose, token, header.typ) && StatesJwk(jose, token, header.jwk)
  {
    forall h, p, s | HasParts(token, h, p, s)
      ensures SplitCompact(token) == Some((h, p, s))
    {
      PartsAreUnique(token, h, p, s);
    }
    if SplitCompact(token).Some? {
      var (h, p, s) := SplitCompact(token).value;
      SplitCompactIff(token, h, p, s);
      HeaderPartIff(jose, token, h, p, s, header);
    }
  }

  lemma HeaderPartIff(jose: Jose, token: string, h: string, p: string, s: string, header: JoseHeader)
    requires HasParts(token, h, p, s) && SplitCompact(token) == Some((h, p, s))
    ensures PeekHeader(jose, token) == Ok(header) <==>
            && HeaderStates(jose, token, "alg", Str(header.alg))
            && StatesTyp(jose, token, header.typ) && StatesJwk(jose, token, header.jwk)
  {
    forall name, v
      ensures HeaderStates(jose, token, name, v) <==> SegmentStates(jose, h, name, v)
    {
      forall h', p', s' | HasParts(token, h', p', s')
        ensures h' == h
      {
        PartsAreUnique(token, h', p', s');
      }
    }
    var doc := ParseSegment(jose, h);
    if doc.Some? && doc.value.Obj? {
      var o := doc.value.members;
      assert forall name, v :: SegmentStates(jose, h, name, v) <==> name in o && o[name] == v;
      HeaderObjectIff(jose, token, o, header);
    } else {
      assert forall name, v :: !SegmentStates(jose, h, name, v);
    }
  }

  lemma HeaderObjectIff(jose: Jose, token: string, o: Object, header: JoseHeader)
    requires forall name, v :: HeaderStates(jose, token, name, v) <==> name in o && o[name] == v
    requires SplitCompact(token).Some? && ParseSegment(jose, SplitCompact(token).value.0) == Some(Obj(o))
    ensures PeekHeader(jose, token) == Ok(header) <==>
            && HeaderStates(jose, token, "alg", Str(header.alg))
            && StatesTyp(jose, token, header.typ) && StatesJwk(jose, token, header.jwk)
  {
    hide HeaderStates, SplitCompact, ParseSegment;
    assert StatesTyp(jose, token, header.typ) <==> header.typ == GetStr(o, "typ") by {
      if StatesTyp(jose, token, header.typ) && "typ" in o && o["typ"].Str? {
        assert HeaderStates(jose, token, "typ", Str(o["typ"].s));
      }
    }
    if "jwk" in o {
      assert HeaderStates(jose, token, "jwk", o["jwk"]);
    }
  }

  /** The algorithms of the first back end. */
  function MapAlgorithm(alg: string, es512: bool): Result<string, Reason> {
    if !AlgInPolicy(alg) then Err(AlgNotPermitted)
    else if alg == "ES512" then Err(AlgNotVerifiable)
    else if !AlgIsVerifiable(alg, es512) then Err(AlgNotVerifiable)
    else Ok(alg)
  }

  /** Every permitted algorithm but ES512 is mapped, in either build; nothing outside the policy is. */
  lemma MapAlgorithmIff(alg: string, es512: bool)
    ensures MapAlgorithm(alg, es512).Ok? <==> AlgInPolicy(alg) && alg != "ES512"
    ensures AlgInPolicy(alg) && AlgIsVerifiable(alg, es512) <==>
            MapAlgorithm(alg, es512).Ok? || (es512 && alg == "ES512")
  {
    assert forall a :: a in SIGNING_ALGS ==> a == "ES512" || AlgIsVerifiable(a, es512);
    assert "ES512" == SIGNING_ALGS[2];
  }

  function EnforceTyp(header: JoseHeader, expectedTyp: Option<string>): Result<(), Reason> {
    if expectedTyp.None? then Ok(())
    else if header.typ.Some? && EqIgnoreAsciiCase(header.typ.value, expectedTyp.value) then Ok(())
    else Err(WrongTyp)
  }

  // ---------------------------------------------------------------------------------------------
  // Candidate keys
  // ---------------------------------------------------------------------------------------------

  function DecodingKey(jose: Jose, jwk: Key): Result<Key, Reason> {
    if jwk.IsSymmetric() then Err(SymmetricKey)
    else if jwk.HasPrivateMaterial() then Err(PrivateKey)
    else if jwk.kty == "EC" then
      if jwk.x.None? || jwk.y.None? || !jose.keyBuilds(jwk) then Err(UnusableKey) else Ok(jwk)
    else if jwk.kty == "RSA" then
      if jwk.n.None? || jwk.e.None? || !jose.keyBuilds(jwk) then Err(UnusableKey) else Ok(jwk)
    else if jwk.kty == "OKP" then
      if jwk.x.None? || !jose.keyBuilds(jwk) then Err(UnusableKey) else Ok(jwk)
    else Err(UnusableKey)
  }

  const P521_COORD_LEN: nat := 66

  datatype P521Key = P521Key(x: Bytes, y: Bytes)

  function P521KeyFrom(jose: Jose, jwk: Key): Result<P521Key, Reason> {
    if jwk.IsSymmetric() then Err(SymmetricKey)
    else if jwk.HasPrivateMaterial() then Err(PrivateKey)
    else if !EqIgnoreAsciiCase(jwk.kty, "EC") then Err(UnusableKey)
    else if jwk.crv != Some("P-521") then Err(UnusableKey)
    else if jwk.x.None? || jwk.y.None? then Err(UnusableKey)
    else
      match (jose.base64(jwk.x.value), jose.base64(jwk.y.value))
      case (Some(x), Some(y)) =>
        if |x| != P521_COORD_LEN || |y| != P521_COORD_LEN || !jose.p521Point(x, y) then Err(UnusableKey)
            else Ok(P521Key(x, y))
      case _ => Err(UnusableKey)
  }

  /** `decode`: the payload, provided the signature holds. */
  function DecodeWith(jose: Jose, token: string, key: Key, alg: string): Option<Object> {
    if jose.signatureHolds(token, key, alg) then PeekClaims(jose, token) else None
  }

  function SigningInput(h: string, p: string): string {
    h + (['.'] + p)
  }

  /** The signing input is the token up to its last dot. */
  lemma SigningInputIsFront(token: string, h: string, p: string, s: string)
    requires HasParts(token, h, p, s)
    ensures token == SigningInput(h, p) + ("." + s)
  {
    assert "." == ['.'];
  }

  // ---------------------------------------------------------------------------------------------
  // What verification means
  // ---------------------------------------------------------------------------------------------

  /** The key is fit for the algorithm's back end, and the token's signature holds under it. */
  ghost predicate KeyVerifies(jose: Jose, token: string, alg: string, jwk: Key) {
    if alg == "ES512" then
      && P521KeyFrom(jose, jwk).Ok? && SplitCompact(token).Some?
      && var (h, p, s) := SplitCompact(token).value;
      && jose.base64(s).Some? && |jose.base64(s).value| == 2 * P521_COORD_LEN &&
          jose.p521Signature(jose.base64(s).value)
      && jose.p521Holds(SigningInput(h, p), P521KeyFrom(jose, jwk).value.x, P521KeyFrom(jose, jwk).value.y,
          jose.base64(s).value)
    else
      DecodingKey(jose, jwk).Ok? && jose.signatureHolds(token, jwk, alg)
  }

  predicate IsComplete(k: Key) {
    || (k.kty == "EC" && k.x.Some? && k.y.Some?)
    || (k.kty == "RSA" && k.n.Some? && k.e.Some?)
    || (k.kty == "OKP" && k.x.Some?)
  }

  /** On the first back end a signature counts under exactly the public keys that are complete for their type. */
  lemma FirstBackEndIff(jose: Jose, token: string, alg: string, jwk: Key)
    requires alg != "ES512"
    ensures KeyVerifies(jose, token, alg, jwk) <==>
            && IsPublic(jwk) && jose.keyBuilds(jwk) && jose.signatureHolds(token, jwk, alg)
            && IsComplete(jwk)
  {
    IsPublicIff(jwk);
  }

  /** On the P-521 path, under exactly the public points of that curve, coordinates and signature of full length. */
  lemma P521BackEndIff(jose: Jose, token: string, jwk: Key)
    ensures KeyVerifies(jose, token, "ES512", jwk) <==>
            && IsPublic(jwk) && EqIgnoreAsciiCase(jwk.kty, "EC") && jwk.crv == Some("P-521")
            && exists h, p, s, x, y, signature :: VerifiesOnP521(jose, token, jwk, h, p, s, x, y, signature)
  {
    IsPublicIff(jwk);
    forall h, p, s | HasParts(token, h, p, s)
      ensures SplitCompact(token) == Some((h, p, s))
    {
      PartsAreUnique(token, h, p, s);
    }
    if KeyVerifies(jose, token, "ES512", jwk) {
      var (h, p, s) := SplitCompact(token).value;
      SplitCompactIff(token, h, p, s);
      var key := P521KeyFrom(jose, jwk).value;
      assert VerifiesOnP521(jose, token, jwk, h, p, s, key.x, key.y, jose.base64(s).value);
    }
  }

  predicate VerifiesOnP521(jose: Jose, token: string, jwk: Key, h: string, p: string, s: string,
                           x: Bytes, y: Bytes, signature: Bytes) {
    && HasParts(token, h, p, s)
    && jwk.x.Some? && jose.base64(jwk.x.value) == Some(x) && |x| == 66
    && jwk.y.Some? && jose.base64(jwk.y.value) == Some(y) && |y| == 66
    && jose.p521Point(x, y)
    && jose.base64(s) == Some(signature) && |signature| == 132 && jose.p521Signature(signature)
    && jose.p521Holds(h + (['.'] + p), x, y, signature)
  }

  /** A permitted, verifiable algorithm and the expected type. */
  ghost predicate HeaderAccepted(jose: Jose, es512: bool, token: string, expectedTyp: Option<string>) {
    && PeekHeader(jose, token).Ok?
    && AlgInPolicy(PeekHeader(jose, token).value.alg) && AlgIsVerifiable(PeekHeader(jose, token).value.alg, es512)
    && EnforceTyp(PeekHeader(jose, token).value, expectedTyp).Ok?
  }

  /** The claims a set of keys vouches for: the payload, if the header is acceptable and some key verifies. */
  ghost function SignedClaims(jose: Jose, es512: bool, token: string, keys: seq<Key>,
      expectedTyp: Option<string>): Option<Object> {
    if
      && HeaderAccepted(jose, es512, token, expectedTyp)
      && exists k :: k in keys && KeyVerifies(jose, token, PeekHeader(jose, token).value.alg, k)
    then PeekClaims(jose, token)
    else None
  }

  /** Which of several keys verified, and in which order they were listed, is without influence. */
  lemma OrderOfKeysIsIrrelevant(jose: Jose, es512: bool, token: string, keys: seq<Key>, keys': seq<Key>,
      expectedTyp: Option<string>)
    requires multiset(keys) == multiset(keys')
    ensures SignedClaims(jose, es512, token, keys, expectedTyp) == SignedClaims(jose, es512, token, keys', expectedTyp)
  {
    assert forall k :: k in keys <==> k in multiset(keys);
    assert forall k :: k in keys' <==> k in multiset(keys');
  }

  function PublicKeys(keys: seq<Key>): seq<Key> {
    if keys == [] then [] else (if keys[0].IsPublicAsymmetric() then [keys[0]] else []) + PublicKeys(keys[1..])
  }

  lemma {:induction false} InPublicKeys(keys: seq<Key>, k: Key)
    ensures k in PublicKeys(keys) <==> k in keys && k.IsPublicAsymmetric()
  {
    if keys == [] {
    } else {
      InPublicKeys(keys[1..], k);
      assert k in keys <==> k == keys[0] || k in keys[1..];
    }
  }

  /** Symmetric keys and keys with private material never count: striking them out changes nothing. */
  lemma OnlyPublicKeysCount(jose: Jose, es512: bool, token: string, keys: seq<Key>, expectedTyp: Option<string>)
    ensures SignedClaims(jose, es512, token, PublicKeys(keys), expectedTyp) ==
                SignedClaims(jose, es512, token, keys, expectedTyp)
  {
    forall k
      ensures k in PublicKeys(keys) <==> k in keys && k.IsPublicAsymmetric()
    {
      InPublicKeys(keys, k);
    }
  }

  // ---------------------------------------------------------------------------------------------
  // The verifying loops
  // ---------------------------------------------------------------------------------------------

  /** The reason the last of a list of refused keys was refused for. */
  function LastReason(jose: Jose, alg: string, keys: seq<Key>): Reason
    requires keys != []
  {
    var last := keys[|keys| - 1];
    if alg == "ES512" then (if P521KeyFrom(jose, last).Err? then P521KeyFrom(jose, last).error else BadSignature)
    else if DecodingKey(jose, last).Err? then DecodingKey(jose, last).error else BadSignature
  }

  predicate IsP521Signature(jose: Jose, s: string) {
    jose.base64(s).Some? && |jose.base64(s).value| == 2 * P521_COORD_LEN && jose.p521Signature(jose.base64(s).value)
  }

  /**
   Why no candidate verified: on the P-521 path a token without a usable signature or payload is refused
   before any key is looked at.
   */
  function CandidatesRefused(jose: Jose, token: string, keys: seq<Key>, alg: string): Reason {
    if keys == [] then NoKey
    else if alg == "ES512" && SplitCompact(token).None? then MalformedToken
    else if alg == "ES512" && !IsP521Signature(jose, SplitCompact(token).value.2) then BadSignature
    else if alg == "ES512" && PeekClaims(jose, token).None? then MalformedToken
    else LastReason(jose, alg, keys)
  }

  /** Why a token is refused: its header's algorithm, then its type, then its keys. */
  function Refusal(jose: Jose, es512: bool, token: string, keys: seq<Key>, expectedTyp: Option<string>): Reason {
    match PeekHeader(jose, token)
    case Err(e) => e
    case Ok(header) =>
      if !AlgInPolicy(header.alg) then AlgNotPermitted
      else if !AlgIsVerifiable(header.alg, es512) then AlgNotVerifiable
      else if EnforceTyp(header, expectedTyp).Err? then WrongTyp
      else CandidatesRefused(jose, token, keys, header.alg)
  }

  /** The header has a `typ` that is a string and equals the one wanted, up to the case of letters. */
  ghost predicate StatesTypLike(jose: Jose, token: string, want: string) {
    exists typ: string ::
      HeaderStates(jose, token, "typ", Str(typ)) && |typ| == |want| && forall i :: 0 <= i < |typ| ==>
          SameLetter(typ[i], want[i])
  }

  lemma TypIff(jose: Jose, token: string, expectedTyp: Option<string>)
    ensures PeekHeader(jose, token).Ok? ==>
              (EnforceTyp(PeekHeader(jose, token).value, expectedTyp).Ok? <==>
               (expectedTyp.Some? ==> StatesTypLike(jose, token, expectedTyp.value)))
  {
    if PeekHeader(jose, token).Ok? && expectedTyp.Some? {
      var header := PeekHeader(jose, token).value;
      PeekHeaderIff(jose, token, header);
      if header.typ.Some? {
        EqIgnoreAsciiCaseIff(header.typ.value, expectedTyp.value);
      }
    }
  }

  /**
   A token is refused for its type exactly if only that is wrong with its header, and with another type never
   accepted.
   */
  lemma WrongTypIff(jose: Jose, es512: bool, token: string, keys: seq<Key>, expectedTyp: Option<string>)
    ensures Refusal(jose, es512, token, keys, expectedTyp) == WrongTyp <==>
            && expectedTyp.Some? && !StatesTypLike(jose, token, expectedTyp.value)
            && PeekHeader(jose, token).Ok? && AlgInPolicy(PeekHeader(jose, token).value.alg)
            && AlgIsVerifiable(PeekHeader(jose, token).value.alg, es512)
    ensures SignedClaims(jose, es512, token, keys, expectedTyp).Some? && expectedTyp.Some? ==>
              StatesTypLike(jose, token, expectedTyp.value)
  {
    TypIff(jose, token, expectedTyp);
    hide StatesTypLike;
  }

  /** Tries one key after the other; the first that verifies wins, and a refusal gives the last key's reason. */
  method VerifySignature(jose: Jose, es512: bool, token: string, keys: seq<Key>, expectedTyp: Option<string>)
    returns (r: Result<Object, Reason>)
    ensures r.Ok? <==> SignedClaims(jose, es512, token, keys, expectedTyp).Some?
    ensures r.Ok? ==> Some(r.value) == SignedClaims(jose, es512, token, keys, expectedTyp)
    ensures r.Err? ==> r.error == Refusal(jose, es512, token, keys, expectedTyp)
    ensures r.Ok? && expectedTyp.Some? ==> StatesTypLike(jose, token, expectedTyp.value)
    ensures r == Err(WrongTyp) <==>
            && expectedTyp.Some? && !StatesTypLike(jose, token, expectedTyp.value)
            && PeekHeader(jose, token).Ok? && AlgInPolicy(PeekHeader(jose, token).value.alg)
            && AlgIsVerifiable(PeekHeader(jose, token).value.alg, es512)
  {
    WrongTypIff(jose, es512, token, keys, expectedTyp);
    hide StatesTypLike, CandidatesRefused, KeyVerifies, PeekClaims;
    var header;
    match PeekHeader(jose, token) {
      case Err(e) => return Err(e);
      case Ok(h) => header := h;
    }
    MapAlgorithmIff(header.alg, es512);
    if es512 && header.alg == "ES512" {
      if EnforceTyp(header, expectedTyp).Err? {
        return Err(EnforceTyp(header, expectedTyp).error);
      }
      r := VerifyEs512OverCandidates(jose, token, keys);
      return;
    }
    var alg;
    match MapAlgorithm(header.alg, es512) {
      case Err(e) => return Err(e);
      case Ok(a) => alg := a;
    }
    if EnforceTyp(header, expectedTyp).Err? {
      return Err(EnforceTyp(header, expectedTyp).error);
    }
    r := VerifyOverCandidates(jose, token, keys, alg);
  }

  /** The loop of the first back end. */
  method VerifyOverCandidates(jose: Jose, token: string, keys: seq<Key>, alg: string)
    returns (r: Result<Object, Reason>)
    requires alg != "ES512"
    ensures r.Ok? <==> PeekClaims(jose, token).Some? && exists k :: k in keys && KeyVerifies(jose, token, alg, k)
    ensures r.Ok? ==> Some(r.value) == PeekClaims(jose, token)
    ensures r.Err? ==> r.error == CandidatesRefused(jose, token, keys, alg)
  {
    if keys == [] {
      return Err(NoKey);
    }
    var lastErr := BadSignature;
    for i := 0 to |keys|
      invariant PeekClaims(jose, token).Some? ==> forall j :: 0 <= j < i ==> !KeyVerifies(jose, token, alg, keys[j])
      invariant i > 0 ==> lastErr == LastReason(jose, alg, keys[..i])
    {
      match DecodingKey(jose, keys[i]) {
        case Err(e) =>
          lastErr := e;
        case Ok(key) =>
          match DecodeWith(jose, token, key, alg) {
            case Some(claims) =>
              assert KeyVerifies(jose, token, alg, keys[i]);
              return Ok(claims);
            case None =>
              lastErr := BadSignature;
          }
      }
    }
    assert keys[..|keys|] == keys;
    r := Err(lastErr);
  }

  /** The P-521 path: signature and payload are looked at once, then the keys in turn. */
  method VerifyEs512OverCandidates(jose: Jose, token: string, keys: seq<Key>) returns (r: Result<Object, Reason>)
    ensures r.Ok? <==> PeekClaims(jose, token).Some? && exists k :: k in keys && KeyVerifies(jose, token, "ES512", k)
    ensures r.Ok? ==> Some(r.value) == PeekClaims(jose, token)
    ensures r.Err? ==> r.error == CandidatesRefused(jose, token, keys, "ES512")
  {
    hide P521KeyFrom, DecodingKey, PeekClaims;
    if keys == [] {
      return Err(NoKey);
    }
    var h, p, s;
    match SplitCompact(token) {
      case None => return Err(MalformedToken);
      case Some(parts) => h, p, s := parts.0, parts.1, parts.2;
    }
    var signature;
    match jose.base64(s) {
      case None => return Err(BadSignature);
      case Some(bytes) => signature := bytes;
    }
    if |signature| != 2 * P521_COORD_LEN || !jose.p521Signature(signature) {
      return Err(BadSignature);
    }
    var claims;
    match PeekClaims(jose, token) {
      case None => return Err(MalformedToken);
      case Some(c) => claims := c;
    }
    var lastErr := BadSignature;
    for i := 0 to |keys|
      invariant forall j :: 0 <= j < i ==> !KeyVerifies(jose, token, "ES512", keys[j])
      invariant i > 0 ==> lastErr == LastReason(jose, "ES512", keys[..i])
    {
      match P521KeyFrom(jose, keys[i]) {
        case Err(e) =>
          lastErr := e;
        case Ok(key) =>
          if jose.p521Holds(SigningInput(h, p), key.x, key.y, signature) {
            assert KeyVerifies(jose, token, "ES512", keys[i]);
            return Ok(claims);
          }
          lastErr := BadSignature;
      }
    }
    assert keys[..|keys|] == keys;
    r := Err(lastErr);
  }

  // ---------------------------------------------------------------------------------------------
  // Self-signed proofs
  // ---------------------------------------------------------------------------------------------

  /** The claims and the embedded key of a proof that its own public key signed. */
  ghost function SelfSigned(jose: Jose, es512: bool, proof: string, expectedTyp: string): Option<(Object, Key)> {
    if PeekHeader(jose, proof).Ok? && PeekHeader(jose, proof).value.jwk.Some? then
      var key := PeekHeader(jose, proof).value.jwk.value;
      match SignedClaims(jose, es512, proof, [key], Some(expectedTyp))
      case Some(claims) => Some((claims, key))
      case None => None
    else None
  }

  lemma OnlyKeyMustBePublic(jose: Jose, es512: bool, token: string, key: Key, expectedTyp: Option<string>)
    ensures SignedClaims(jose, es512, token, [key], expectedTyp).Some? ==> key.IsPublicAsymmetric()
  {}

  method VerifyProofWithEmbeddedJwk(jose: Jose, es512: bool, proof: string, expectedTyp: string)
    returns (r: Result<(Object, Key), Reason>)
    ensures r.Ok? <==> SelfSigned(jose, es512, proof, expectedTyp).Some?
    ensures r.Ok? ==> Some(r.value) == SelfSigned(jose, es512, proof, expectedTyp) && r.value.1.IsPublicAsymmetric()
  {
    var key: Key;
    match PeekHeader(jose, proof) {
      case Err(e) => return Err(e);
      case Ok(h) =>
        if h.jwk.None? {
          return Err(BadEmbeddedKey);
        }
        key := h.jwk.value;
    }
    OnlyKeyMustBePublic(jose, es512, proof, key, Some(expectedTyp));
    if key.HasPrivateMaterial() {
      return Err(PrivateKey);
    }
    if key.IsSymmetric() {
      return Err(SymmetricKey);
    }
    hide StatesTypLike, Refusal, SignedClaims;
    var claims := VerifySignature(jose, es512, proof, [key], Some(expectedTyp));
    match claims {
      case Err(e) => r := Err(e);
      case Ok(c) => r := Ok((c, key));
    }
  }
}
