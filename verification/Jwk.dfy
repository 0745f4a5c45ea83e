/** JSON Web Keys (src/jwk.rs): the algorithm allowlist and the canonical text a thumbprint is taken of. */
module Jwk {
  import opened Wrappers
  import opened Text

  /** A key as deserialised; a private component marks a private key by being present at all. */
  datatype Key = Key(
    kty: string,
    crv: Option<string>, x: Option<string>, y: Option<string>,
    n: Option<string>, e: Option<string>,
    d: Option<string>, p: Option<string>, q: Option<string>, dp: Option<string>, dq: Option<string>, qi: Option<string>,
    alg: Option<string>, use: Option<string>, kid: Option<string>)
  {
    predicate HasPrivateMaterial() {
      d.Some? || p.Some? || q.Some? || dp.Some? || dq.Some? || qi.Some?
    }

    predicate IsSymmetric() {
      EqIgnoreAsciiCase(kty, "oct")
    }

    /** May this key ever verify a signature? */
    predicate IsPublicAsymmetric() {
      !IsSymmetric() && !HasPrivateMaterial()
    }
  }

  /** No private component of any kind, and not the symmetric type in any case of its letters. */
  predicate IsPublic(k: Key) {
    && k.d == None && k.p == None && k.q == None && k.dp == None && k.dq == None && k.qi == None
    && !(|k.kty| == 3 && SameLetter(k.kty[0], 'o') && SameLetter(k.kty[1], 'c') && SameLetter(k.kty[2], 't'))
  }

  lemma IsPublicIff(k: Key)
    ensures k.IsPublicAsymmetric() <==> IsPublic(k)
  {
    EqIgnoreAsciiCaseIff(k.kty, "oct");
    assert "oct"[0] == 'o' && "oct"[1] == 'c' && "oct"[2] == 't';
  }

  const SIGNING_ALGS: seq<string> :=
    ["ES256", "ES384", "ES512", "PS256", "PS384", "PS512", "RS256", "RS384", "RS512", "EdDSA"]

  predicate AlgInPolicy(alg: string) {
    alg in SIGNING_ALGS
  }

  /** `es512` says whether the crate was built with its P-521 path. */
  predicate AlgIsVerifiable(alg: string, es512: bool) {
    || alg == "ES256" || alg == "ES384" || alg == "PS256" || alg == "PS384" || alg == "PS512"
    || alg == "RS256" || alg == "RS384" || alg == "RS512" || alg == "EdDSA"
    || (es512 && alg == "ES512")
  }

  /** The ten algorithms of the policy, none of them symmetric; a build without the P-521 path cannot verify ES512. */
  lemma AlgorithmsIff(alg: string, es512: bool)
    ensures AlgInPolicy(alg) <==>
            alg in {"ES256", "ES384", "ES512", "PS256", "PS384", "PS512", "RS256", "RS384", "RS512", "EdDSA"}
    ensures AlgIsVerifiable(alg, es512) <==> AlgInPolicy(alg) && (alg == "ES512" ==> es512)
  {
    assert forall i :: 0 <= i < |SIGNING_ALGS| ==> AlgIsVerifiable(SIGNING_ALGS[i], true);
    assert SIGNING_ALGS[0] == "ES256" && SIGNING_ALGS[1] == "ES384" && SIGNING_ALGS[2] == "ES512";
    assert SIGNING_ALGS[3] == "PS256" && SIGNING_ALGS[4] == "PS384" && SIGNING_ALGS[5] == "PS512";
    assert SIGNING_ALGS[6] == "RS256" && SIGNING_ALGS[7] == "RS384" && SIGNING_ALGS[8] == "RS512";
    assert SIGNING_ALGS[9] == "EdDSA";
  }

  datatype JwkError = MissingMember(name: string) | UnsupportedKty(kty: string)

  /**
   The canonical text: required members, sorted, no white space. It is the JSON of section 3.3 of
   RFC 7638 where `CanonicalIsJsonIff` says so, for control characters are printed as they are.
   */
  function Canonical(k: Key): Result<string, JwkError> {
    if k.kty == "EC" then
      if k.crv.None? then Err(MissingMember("crv"))
      else if k.x.None? then Err(MissingMember("x"))
      else if k.y.None? then Err(MissingMember("y"))
      else Ok(EcText(k.crv.value, k.x.value, k.y.value))
    else if k.kty == "RSA" then
      if k.e.None? then Err(MissingMember("e"))
      else if k.n.None? then Err(MissingMember("n"))
      else Ok(RsaText(k.e.value, k.n.value))
    else if k.kty == "OKP" then
      if k.crv.None? then Err(MissingMember("crv"))
      else if k.x.None? then Err(MissingMember("x"))
      else Ok(OkpText(k.crv.value, k.x.value))
    else Err(UnsupportedKty(k.kty))
  }

  /** The required members other than the type, in the order in which they are asked for. */
  function Asked(k: Key): Option<seq<(string, Option<string>)>> {
    if k.kty == "EC" then Some([("crv", k.crv), ("x", k.x), ("y", k.y)])
    else if k.kty == "RSA" then Some([("e", k.e), ("n", k.n)])
    else if k.kty == "OKP" then Some([("crv", k.crv), ("x", k.x)])
    else None
  }

  /** Without a canonical text, the first required member that is missing is named, or else the type. */
  lemma CanonicalErrIff(k: Key)
    ensures Canonical(k) == Err(UnsupportedKty(k.kty)) <==> Asked(k) == None
    ensures forall name :: Canonical(k) == Err(MissingMember(name)) <==>
              && Asked(k).Some?
              && exists i :: 0 <= i < |Asked(k).value| && Asked(k).value[i] == (name, None)
                             && forall j :: 0 <= j < i ==> Asked(k).value[j].1.Some?
  {
    if Canonical(k).Err? && Asked(k).Some? {
      var i := if Asked(k).value[0].1.None? then 0 else if Asked(k).value[1].1.None? then 1 else 2;
      assert Asked(k).value[i] == (Canonical(k).error.name, None);
    }
  }

  const CRV: string := "{\"crv\":\""
  const EC_X: string := ",\"kty\":\"EC\",\"x\":\""
  const OKP_X: string := ",\"kty\":\"OKP\",\"x\":\""
  const Y: string := ",\"y\":\""
  const E: string := "{\"e\":\""
  const RSA_N: string := ",\"kty\":\"RSA\",\"n\":\""

  function EcText(crv: string, x: string, y: string): string {
    CRV + (Escape(crv) + ("\"" + (EC_X + (Escape(x) + ("\"" + (Y + (Escape(y) + ("\"" + "}"))))))))
  }

  function RsaText(e: string, n: string): string {
    E + (Escape(e) + ("\"" + (RSA_N + (Escape(n) + ("\"" + "}")))))
  }

  function OkpText(crv: string, x: string): string {
    CRV + (Escape(crv) + ("\"" + (OKP_X + (Escape(x) + ("\"" + "}")))))
  }

  // ---------------------------------------------------------------------------------------------
  // Reading it back
  // ---------------------------------------------------------------------------------------------

  /** The members section 3.2 of RFC 7638 requires, which is all of a key that a thumbprint stands for. */
  datatype RequiredMembers =
    | EcMembers(crv: string, x: string, y: string)
    | RsaMembers(e: string, n: string)
    | OkpMembers(crv: string, x: string)

  function Required(k: Key): Option<RequiredMembers> {
    if k.kty == "EC" && k.crv.Some? && k.x.Some? && k.y.Some? then Some(EcMembers(k.crv.value, k.x.value, k.y.value))
    else if k.kty == "RSA" && k.e.Some? && k.n.Some? then Some(RsaMembers(k.e.value, k.n.value))
    else if k.kty == "OKP" && k.crv.Some? && k.x.Some? then Some(OkpMembers(k.crv.value, k.x.value))
    else None
  }

  /** A fixed beginning, then a quoted value: the value and what follows it. */
  function ReadField(s: string, literal: string): Option<(string, string)> {
    match Expect(s, literal)
    case None => None
    case Some(rest) => ScanQuoted(rest)
  }

  function ReadOkp(crv: string, s: string): Option<RequiredMembers> {
    match ReadField(s, OKP_X)
    case None => None
    case Some((x, rest)) => if rest == "}" then Some(OkpMembers(crv, x)) else None
  }

  function ReadEc(crv: string, s: string): Option<RequiredMembers> {
    match ReadField(s, EC_X)
    case None => None
    case Some((x, rest)) =>
      match ReadField(rest, Y)
      case None => None
      case Some((y, rest)) => if rest == "}" then Some(EcMembers(crv, x, y)) else None
  }

  function ReadRsa(s: string): Option<RequiredMembers> {
    match ReadField(s, E)
    case None => None
    case Some((e, rest)) =>
      match ReadField(rest, RSA_N)
      case None => None
      case Some((n, rest)) => if rest == "}" then Some(RsaMembers(e, n)) else None
  }

  /** A reader of canonical texts. */
  function ReadCanonical(s: string): Option<RequiredMembers> {
    match ReadField(s, CRV)
    case Some((crv, rest)) => if ReadEc(crv, rest).Some? then ReadEc(crv, rest) else ReadOkp(crv, rest)
    case None => ReadRsa(s)
  }

  lemma FieldReads(literal: string, value: string, rest: string)
    ensures ReadField(literal + (Escape(value) + ("\"" + rest)), literal) == Some((value, rest))
  {
    ExpectFinds(literal, Escape(value) + ("\"" + rest));
    ScanEscaped(value, rest);
  }

  lemma Distinguished(literal: string, other: string, rest: string, i: nat)
    requires i < |literal| && i < |other| && literal[i] != other[i]
    ensures ReadField(other + rest, literal).None?
  {
    assert (other + rest)[i] == other[i];
  }

  lemma EcReads(crv: string, x: string, y: string)
    ensures ReadCanonical(EcText(crv, x, y)) == Some(EcMembers(crv, x, y))
  {
    var afterX := Y + (Escape(y) + ("\"" + "}"));
    var afterCrv := EC_X + (Escape(x) + ("\"" + afterX));
    FieldReads(CRV, crv, afterCrv);
    FieldReads(EC_X, x, afterX);
    FieldReads(Y, y, "}");
  }

  lemma OkpReads(crv: string, x: string)
    ensures ReadCanonical(OkpText(crv, x)) == Some(OkpMembers(crv, x))
  {
    var afterCrv := OKP_X + (Escape(x) + ("\"" + "}"));
    FieldReads(CRV, crv, afterCrv);
    FieldReads(OKP_X, x, "}");
    assert EC_X[8] == 'E' && OKP_X[8] == 'O';
    Distinguished(EC_X, OKP_X, Escape(x) + ("\"" + "}"), 8);
  }

  lemma RsaReads(e: string, n: string)
    ensures ReadCanonical(RsaText(e, n)) == Some(RsaMembers(e, n))
  {
    var afterE := RSA_N + (Escape(n) + ("\"" + "}"));
    FieldReads(E, e, afterE);
    FieldReads(RSA_N, n, "}");
    assert CRV[2] == 'c' && E[2] == 'e';
    Distinguished(CRV, E, Escape(e) + ("\"" + afterE), 2);
  }

  /** The canonical text exists exactly for complete keys of the three types, and can be read back. */
  lemma CanonicalReadsBack(k: Key)
    ensures Canonical(k).Ok? <==> Required(k).Some?
    ensures Canonical(k).Ok? ==> ReadCanonical(Canonical(k).value) == Required(k)
  {
    match Required(k)
    case Some(EcMembers(crv, x, y)) => EcReads(crv, x, y);
    case Some(RsaMembers(e, n)) => RsaReads(e, n);
    case Some(OkpMembers(crv, x)) => OkpReads(crv, x);
    case None =>
  }

  /** A reader that takes nothing but JSON: control characters are refused. */
  function ReadCanonicalJson(s: string): Option<RequiredMembers> {
    if AllAre(s, IsJsonChar) then ReadCanonical(s) else None
  }

  predicate MembersAre(m: RequiredMembers, ok: char -> bool) {
    match m
    case EcMembers(crv, x, y) => AllAre(crv, ok) && AllAre(x, ok) && AllAre(y, ok)
    case RsaMembers(e, n) => AllAre(e, ok) && AllAre(n, ok)
    case OkpMembers(crv, x) => AllAre(crv, ok) && AllAre(x, ok)
  }

  lemma FieldIsJson(literal: string, value: string, rest: string)
    requires AllAre(literal, IsJsonChar)
    ensures AllAre(literal + (Escape(value) + ("\"" + rest)), IsJsonChar) <==>
            AllAre(value, IsJsonChar) && AllAre(rest, IsJsonChar)
  {
    AllAppend(literal, Escape(value) + ("\"" + rest), IsJsonChar);
    AllAppend(Escape(value), "\"" + rest, IsJsonChar);
    AllAppend("\"", rest, IsJsonChar);
    EscapeKeepsAll(value, IsJsonChar);
  }

  lemma LiteralsAreJson()
    ensures AllAre(CRV, IsJsonChar) && AllAre(EC_X, IsJsonChar) && AllAre(OKP_X, IsJsonChar)
    ensures AllAre(Y, IsJsonChar) && AllAre(E, IsJsonChar) && AllAre(RSA_N, IsJsonChar) && AllAre("}", IsJsonChar)
  {}

  lemma TextIsJsonIff(m: RequiredMembers)
    ensures AllAre(MembersText(m), IsJsonChar) <==> MembersAre(m, IsJsonChar)
  {
    LiteralsAreJson();
    hide AllAre, Escape;
    match m
    case EcMembers(crv, x, y) =>
      var afterX := Y + (Escape(y) + ("\"" + "}"));
      FieldIsJson(Y, y, "}");
      FieldIsJson(EC_X, x, afterX);
      FieldIsJson(CRV, crv, EC_X + (Escape(x) + ("\"" + afterX)));
    case RsaMembers(e, n) =>
      FieldIsJson(RSA_N, n, "}");
      FieldIsJson(E, e, RSA_N + (Escape(n) + ("\"" + "}")));
    case OkpMembers(crv, x) =>
      FieldIsJson(OKP_X, x, "}");
      FieldIsJson(CRV, crv, OKP_X + (Escape(x) + ("\"" + "}")));
  }

  /** The canonical text of given members. */
  function MembersText(m: RequiredMembers): string {
    match m
    case EcMembers(crv, x, y) => EcText(crv, x, y)
    case RsaMembers(e, n) => RsaText(e, n)
    case OkpMembers(crv, x) => OkpText(crv, x)
  }

  // ---------------------------------------------------------------------------------------------
  // What RFC 7638 prescribes
  // ---------------------------------------------------------------------------------------------

  function Concat(parts: seq<string>): string {
    if parts == [] then "" else parts[0] + Concat(parts[1..])
  }

  lemma {:induction false} ConcatAppend(a: seq<string>, b: seq<string>)
    ensures Concat(a + b) == Concat(a) + Concat(b)
  {
    if a == [] {
      assert a + b == b;
    } else {
      ConcatAppend(a[1..], b);
      assert (a + b)[1..] == a[1..] + b;
    }
  }

  /** `"name":"value"` */
  function JsonMember(name: string, value: string): seq<string> {
    ["\"", name, "\":\"", Escape(value), "\""]
  }

  function JsonMembers(members: seq<(string, string)>): seq<string> {
    if members == [] then []
    else
      JsonMember(members[0].0, members[0].1) + (if |members| == 1 then [] else [","] + JsonMembers(members[1..]))
  }

  /** A JSON object of string members, in the order given and without white space. */
  function JsonObject(members: seq<(string, string)>): string {
    Concat(["{"] + JsonMembers(members) + ["}"])
  }

  /** Section 3.2 of RFC 7638, with section 2 of RFC 8037 for OKP: the required members, the key type among them. */
  function RequiredList(m: RequiredMembers): seq<(string, string)> {
    match m
    case EcMembers(crv, x, y) => [("crv", crv), ("kty", "EC"), ("x", x), ("y", y)]
    case RsaMembers(e, n) => [("e", e), ("kty", "RSA"), ("n", n)]
    case OkpMembers(crv, x) => [("crv", crv), ("kty", "OKP"), ("x", x)]
  }

  /** The members come in the lexicographic order of their names, which their first letters already settle. */
  lemma RequiredListIsSorted(m: RequiredMembers)
    ensures forall i, k :: 0 <= i < k < |RequiredList(m)| ==>
                RequiredList(m)[i].0[..1][0] < RequiredList(m)[k].0[..1][0]
  {}

  /** The fixed beginnings, piece by piece. */
  lemma BeginningsAre()
    ensures Concat(["{", "\"", "crv", "\":\""]) == CRV
    ensures Concat(["{", "\"", "e", "\":\""]) == E
    ensures Concat([",", "\"", "y", "\":\""]) == Y
  {
    assert Concat(["\":\""]) == "\":\"";
    assert ["crv", "\":\""][1..] == ["e", "\":\""][1..] == ["y", "\":\""][1..] == ["\":\""];
    assert Concat(["crv", "\":\""]) == "crv\":\"" && Concat(["e", "\":\""]) == "e\":\"" && Concat(["y", "\":\""]) ==
        "y\":\"";
    assert ["\"", "crv", "\":\""][1..] == ["crv", "\":\""] && ["\"", "e", "\":\""][1..] == ["e", "\":\""];
    assert ["\"", "y", "\":\""][1..] == ["y", "\":\""];
    assert ["{", "\"", "crv", "\":\""][1..] == ["\"", "crv", "\":\""];
    assert ["{", "\"", "e", "\":\""][1..] == ["\"", "e", "\":\""];
    assert [",", "\"", "y", "\":\""][1..] == ["\"", "y", "\":\""];
  }

  /** The key type, which stands between two other members, and the beginning of the one after it. */
  function KtyPieces(kty: string, next: string): seq<string> {
    [",", "\"", "kty", "\":\"", kty, "\"", ",", "\"", next, "\":\""]
  }

  lemma MiddleIs(kty: string, next: string)
    ensures Concat(KtyPieces(kty, next)) == ",\"kty\":\"" + kty + "\",\"" + next + "\":\""
  {
    var a, b := [",", "\"", "kty", "\":\""], [kty, "\"", ",", "\"", next, "\":\""];
    assert KtyPieces(kty, next) == a + b;
    ConcatAppend(a, b);
    assert Concat(a) == ",\"kty\":\"" by {
      assert a[1..] == ["\"", "kty", "\":\""] && a[2..] == ["kty", "\":\""] && a[3..] == ["\":\""];
      assert Concat(a[3..]) == "\":\"" && Concat(a[2..]) == "kty\":\"" && Concat(a[1..]) == "\"kty\":\"";
    }
    var c, d := ["\"", ",", "\""], [next, "\":\""];
    assert b == [kty] + (c + d);
    ConcatAppend([kty], c + d);
    ConcatAppend(c, d);
    assert Concat(c) == "\",\"" by {
      assert c[1..] == [",", "\""] && c[2..] == ["\""];
      assert Concat(c[2..]) == "\"" && Concat(c[1..]) == ",\"";
    }
    assert Concat(d) == next + "\":\"" by {
      assert d[1..] == ["\":\""] && Concat(d[1..]) == "\":\"";
    }
  }

  lemma MiddlesAre()
    ensures Concat(KtyPieces("EC", "x")) == EC_X && Concat(KtyPieces("OKP", "x")) == OKP_X
    ensures Concat(KtyPieces("RSA", "n")) == RSA_N
  {
    hide Concat, KtyPieces;
    MiddleIs("EC", "x");
    MiddleIs("OKP", "x");
    MiddleIs("RSA", "n");
  }

  lemma KtysAreUnescaped()
    ensures Escape("EC") == "EC" && Escape("OKP") == "OKP" && Escape("RSA") == "RSA"
  {
    TwoPassesAreOne("EC");
    TwoPassesAreOne("OKP");
    TwoPassesAreOne("RSA");
  }

  /** A value and its closing quote between what comes before and after. */
  lemma ConcatAround(front: seq<string>, value: string, rest: seq<string>)
    ensures Concat(front + ([value, "\""] + rest)) == Concat(front) + (value + ("\"" + Concat(rest)))
  {
    ConcatAppend(front, [value, "\""] + rest);
    assert ([value, "\""] + rest)[1..] == ["\""] + rest && (["\""] + rest)[1..] == rest;
  }

  lemma MembersStep(members: seq<(string, string)>)
    requires |members| > 1
    ensures JsonMembers(members) == JsonMember(members[0].0, members[0].1) + ([","] + JsonMembers(members[1..]))
  {}

  /** The pieces of an object of four members. */
  lemma FourMembers(a: (string, string), b: (string, string), c: (string, string), d: (string, string))
    ensures JsonMembers([a, b, c, d]) ==
            JsonMember(a.0, a.1) + ([","] +
                (JsonMember(b.0, b.1) + ([","] + (JsonMember(c.0, c.1) + ([","] + JsonMember(d.0, d.1))))))
  {
    MembersStep([a, b, c, d]);
    assert [a, b, c, d][1..] == [b, c, d];
    ThreeMembers(b, c, d);
  }

  lemma ThreeMembers(a: (string, string), b: (string, string), c: (string, string))
    ensures JsonMembers([a, b, c]) == JsonMember(a.0, a.1) +
                ([","] + (JsonMember(b.0, b.1) + ([","] + JsonMember(c.0, c.1))))
  {
    MembersStep([a, b, c]);
    assert [a, b, c][1..] == [b, c];
    MembersStep([b, c]);
    assert [b, c][1..] == [c];
    assert JsonMembers([c]) == JsonMember(c.0, c.1);
  }

  lemma RegroupThree(open: string, close: string, q: string, colon: string, comma: string,
                     n1: string, v1: string, n2: string, v2: string, n3: string, v3: string)
    ensures [open] + ([q, n1, colon, v1, q] +
                ([comma] + ([q, n2, colon, v2, q] + ([comma] + [q, n3, colon, v3, q])))) + [close] ==
            [open, q, n1, colon] + ([v1, q] + ([comma, q, n2, colon, v2, q, comma, q, n3, colon] + ([v3, q] + [close])))
  {}

  lemma RegroupFour(open: string, close: string, q: string, colon: string, comma: string,
                    n1: string, v1: string, n2: string, v2: string, n3: string, v3: string, n4: string, v4: string)
    ensures [open] + ([q, n1, colon, v1, q] + ([comma] + ([q, n2, colon, v2, q]
            + ([comma] + ([q, n3, colon, v3, q] + ([comma] + [q, n4, colon, v4, q])))))) + [close] ==
            [open, q, n1, colon] + ([v1, q] + ([comma, q, n2, colon, v2, q, comma, q, n3, colon]
            + ([v3, q] + ([comma, q, n4, colon] + ([v4, q] + [close])))))
  {}

  /** An object of three members, the second being the key type. */
  lemma ObjectOfThree(n1: string, v1: string, kty: string, n3: string, v3: string)
    requires Escape(kty) == kty
    ensures JsonObject([(n1, v1), ("kty", kty), (n3, v3)]) ==
            Concat(["{", "\"", n1, "\":\""])
            + (Escape(v1) + ("\"" + (Concat(KtyPieces(kty, n3)) + (Escape(v3) + ("\"" + Concat(["}"]))))))
  {
    ThreeMembers((n1, v1), ("kty", kty), (n3, v3));
    RegroupThree("{", "}", "\"", "\":\"", ",", n1, Escape(v1), "kty", kty, n3, Escape(v3));
    ConcatAround(["{", "\"", n1, "\":\""], Escape(v1), KtyPieces(kty, n3) + ([Escape(v3), "\""] + ["}"]));
    ConcatAround(KtyPieces(kty, n3), Escape(v3), ["}"]);
    hide Concat, Escape;
  }

  lemma ObjectOfFour(n1: string, v1: string, kty: string, n3: string, v3: string, n4: string, v4: string)
    requires Escape(kty) == kty
    ensures JsonObject([(n1, v1), ("kty", kty), (n3, v3), (n4, v4)]) ==
            Concat(["{", "\"", n1, "\":\""])
            + (Escape(v1) + ("\"" + (Concat(KtyPieces(kty, n3))
            + (Escape(v3) + ("\"" + (Concat([",", "\"", n4, "\":\""]) + (Escape(v4) + ("\"" + Concat(["}"])))))))))
  {
    FourMembers((n1, v1), ("kty", kty), (n3, v3), (n4, v4));
    RegroupFour("{", "}", "\"", "\":\"", ",", n1, Escape(v1), "kty", kty, n3, Escape(v3), n4, Escape(v4));
    var afterThird := [",", "\"", n4, "\":\""] + ([Escape(v4), "\""] + ["}"]);
    ConcatAround(["{", "\"", n1, "\":\""], Escape(v1), KtyPieces(kty, n3) + ([Escape(v3), "\""] + afterThird));
    ConcatAround(KtyPieces(kty, n3), Escape(v3), afterThird);
    ConcatAround([",", "\"", n4, "\":\""], Escape(v4), ["}"]);
    hide Concat, Escape;
  }

  lemma TextIsObject(m: RequiredMembers)
    ensures MembersText(m) == JsonObject(RequiredList(m))
  {
    BeginningsAre();
    MiddlesAre();
    KtysAreUnescaped();
    assert Concat(["}"]) == "}";
    hide Concat, Escape, KtyPieces, JsonObject;
    match m
    case EcMembers(crv, x, y) => ObjectOfFour("crv", crv, "EC", "x", x, "y", y);
    case RsaMembers(e, n) => ObjectOfThree("e", e, "RSA", "n", n);
    case OkpMembers(crv, x) => ObjectOfThree("crv", crv, "OKP", "x", x);
  }

  /** The canonical text of section 3.3 of RFC 7638 is that object, with nothing else in it. */
  lemma CanonicalIsRequiredObject(k: Key)
    requires Canonical(k).Ok?
    ensures Canonical(k).value == JsonObject(RequiredList(Required(k).value))
  {
    CanonicalReadsBack(k);
    TextIsObject(Required(k).value);
  }

  /** The canonical text is JSON, and reads back as such, exactly when no required member holds a control character. */
  lemma CanonicalIsJsonIff(k: Key)
    requires Canonical(k).Ok?
    ensures ReadCanonicalJson(Canonical(k).value) == if MembersAre(Required(k).value, IsJsonChar) then Required(k)
                else None
  {
    CanonicalReadsBack(k);
    TextIsJsonIff(Required(k).value);
    assert Canonical(k).value == MembersText(Required(k).value);
    hide ReadCanonical, MembersAre, AllAre, Escape;
  }

  /**
   Equal canonical texts mean equal key types and equal required members, whatever the members
   contain; and nothing else about the keys matters.
   */
  lemma CanonicalEqualIff(k: Key, k': Key)
    requires Canonical(k).Ok? && Canonical(k').Ok?
    ensures Canonical(k) == Canonical(k') <==> Required(k) == Required(k')
    ensures Canonical(k) == Canonical(k') ==> k.kty == k'.kty
  {
    CanonicalReadsBack(k);
    CanonicalReadsBack(k');
  }

  /** The thumbprint: a digest of the canonical text. */
  function Thumbprint(digest: string -> string, k: Key): Result<string, JwkError> {
    match Canonical(k)
    case Ok(text) => Ok(digest(text))
    case Err(e) => Err(e)
  }

  /** Where the digest does not collide, a thumbprint names one public key. */
  lemma ThumbprintNamesKey(digest: string -> string, k: Key, k': Key)
    requires Canonical(k).Ok? && Canonical(k').Ok?
    requires digest(Canonical(k).value) == digest(Canonical(k').value) ==> Canonical(k) == Canonical(k')
    ensures Thumbprint(digest, k) == Thumbprint(digest, k') <==> Required(k) == Required(k')
  {
    CanonicalEqualIff(k, k');
  }
}
