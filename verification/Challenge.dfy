/** The `WWW-Authenticate` challenge (src/error.rs), and a reader of challenges to hold it to. */
module Challenge {
  import opened Wrappers
  import opened Text
  import opened Errors
  import Jwk

  type Params = seq<(string, string)>

  datatype Header = Header(scheme: string, params: Params)

  /** `name="..."`, what is inside being already escaped or, for `algs`, taken as it is. */
  function Param(name: string, quoted: string): string {
    name + ("=\"" + (quoted + ("\"" + "")))
  }

  // ---------------------------------------------------------------------------------------------
  // A reader of challenges
  // ---------------------------------------------------------------------------------------------

  /** One parameter: a name, the equals sign, a quoted string. */
  function ReadParam(s: string): Option<((string, string), string)> {
    match SplitAt(s, '=')
    case None => None
    case Some((name, rest)) =>
      if rest == "" || rest[0] != '"' then None
      else
        match ScanQuoted(rest[1..])
        case None => None
        case Some((value, rest)) => Some(((name, value), rest))
  }

  /** Parameters separated by a comma and a space. */
  function ReadParams(s: string): Option<Params>
    decreases |s|
  {
    match ReadParam(s)
    case None => None
    case Some((p, rest)) =>
      if rest == "" then Some([p])
      else if |rest| >= |s| || Expect(rest, ", ").None? then None
      else
        match ReadParams(Expect(rest, ", ").value)
        case None => None
        case Some(ps) => Some([p] + ps)
  }

  function ReadHeader(s: string): Option<Header> {
    match SplitAt(s, ' ')
    case None => None
    case Some((scheme, rest)) =>
      match ReadParams(rest)
      case None => None
      case Some(params) => Some(Header(scheme, params))
  }

  /** A reader that takes nothing but a field value: control characters other than the tab are refused. */
  function ReadFieldValue(s: string): Option<Header> {
    if AllAre(s, IsFieldChar) then ReadHeader(s) else None
  }

  // ---------------------------------------------------------------------------------------------

  /** A parameter whose quoted content reads as `value` is read back, whatever follows it. */
  lemma ParamReads(name: string, quoted: string, value: string, rest: string)
    requires '=' !in name
    requires ScanQuoted(quoted + ("\"" + rest)) == Some((value, rest))
    ensures ReadParam(Param(name, quoted) + rest) == Some(((name, value), rest))
  {
    var inner := quoted + ("\"" + rest);
    assert Param(name, quoted) + rest == name + (['='] + (['"'] + inner));
    SplitAtFirst(name, '=', ['"'] + inner);
    assert (['"'] + inner)[1..] == inner;
  }

  /** Quoted, `quoted` reads as `value`, whatever comes after the closing quote. */
  ghost predicate ReadsAs(quoted: string, value: string) {
    forall rest: string :: ScanQuoted(quoted + ("\"" + rest)) == Some((value, rest))
  }

  lemma EscapedReads(value: string)
    ensures ReadsAs(Escape(value), value)
  {
    forall rest: string
      ensures ScanQuoted(Escape(value) + ("\"" + rest)) == Some((value, rest))
    {
      ScanEscaped(value, rest);
    }
  }

  lemma PlainReads(value: string)
    requires IsPlain(value)
    ensures ReadsAs(value, value)
  {
    forall rest: string
      ensures ScanQuoted(value + ("\"" + rest)) == Some((value, rest))
    {
      ScanPlainIff(value, rest);
    }
  }

  /** Parameter by parameter, a printed list reads back as the names with their values. */
  lemma {:induction false} ParamsRead(texts: seq<string>, quoted: seq<string>, meant: Params)
    requires |texts| == |quoted| == |meant| > 0
    requires forall i :: 0 <= i < |meant| ==>
      '=' !in meant[i].0 && texts[i] == Param(meant[i].0, quoted[i]) && ReadsAs(quoted[i], meant[i].1)
    ensures ReadParams(Join(texts, ", ")) == Some(meant)
  {
    var (name, value) := meant[0];
    if |meant| == 1 {
      ParamReads(name, quoted[0], value, "");
      assert Param(name, quoted[0]) + "" == Param(name, quoted[0]);
      assert meant == [(name, value)];
    } else {
      ParamsRead(texts[1..], quoted[1..], meant[1..]);
      var others := Join(texts[1..], ", ");
      ParamReads(name, quoted[0], value, ", " + others);
      ExpectFinds(", ", others);
      assert Join(texts, ", ") == texts[0] + (", " + others);
      assert meant == [(name, value)] + meant[1..];
    }
  }

  const NAMES: seq<string> := ["error", "error_description", "scope", "issuer", "algs"]

  /** What a challenge is meant to say. */
  function Meant(kind: ErrorKind, message: string, issuers: string, algs: Option<string>): Params {
    [("error", kind.Code()), ("error_description", message), ("scope", "webid"), ("issuer", issuers)]
    + (if algs.Some? then [("algs", algs.value)] else [])
  }

  lemma MeantNamesAndCode(kind: ErrorKind, message: string, issuers: string, algs: Option<string>)
    ensures forall i :: 0 <= i < |Meant(kind, message, issuers, algs)| ==>
                '=' !in Meant(kind, message, issuers, algs)[i].0
    ensures IsPlain(kind.Code()) && IsPlain("webid")
  {}

  lemma ParamIsFieldIff(name: string, quoted: string)
    requires AllAre(name, IsFieldChar)
    ensures AllAre(Param(name, quoted), IsFieldChar) <==> AllAre(quoted, IsFieldChar)
  {
    AllAppend(name, "=\"" + (quoted + ("\"" + "")), IsFieldChar);
    AllAppend("=\"", quoted + ("\"" + ""), IsFieldChar);
    AllAppend(quoted, "\"" + "", IsFieldChar);
    AllAppend("\"", "", IsFieldChar);
  }

  /** The printed header is a field value exactly when its parameters' quoted contents are. */
  lemma HeaderIsFieldIff(scheme: string, names: seq<string>, quoted: seq<string>, texts: seq<string>)
    requires |names| == |quoted| == |texts| && AllAre(scheme, IsFieldChar)
    requires forall i :: 0 <= i < |texts| ==> AllAre(names[i], IsFieldChar) && texts[i] == Param(names[i], quoted[i])
    ensures AllAre(scheme + (" " + Join(texts, ", ")), IsFieldChar) <==>
            forall i :: 0 <= i < |quoted| ==> AllAre(quoted[i], IsFieldChar)
  {
    AllAppend(scheme, " " + Join(texts, ", "), IsFieldChar);
    AllAppend(" ", Join(texts, ", "), IsFieldChar);
    JoinAll(texts, ", ", IsFieldChar);
    forall i | 0 <= i < |texts|
      ensures AllAre(texts[i], IsFieldChar) <==> AllAre(quoted[i], IsFieldChar)
    {
      ParamIsFieldIff(names[i], quoted[i]);
    }
  }

  lemma FixedTextsAreField(kind: ErrorKind)
    ensures AllAre(kind.Code(), IsFieldChar) && AllAre("webid", IsFieldChar)
    ensures AllAre("DPoP", IsFieldChar) && AllAre("Bearer", IsFieldChar)
    ensures forall i :: 0 <= i < 5 ==> AllAre(NAMES[i], IsFieldChar)
  {}

  /** Of a challenge's quoted contents, only message, issuers and algorithms are not fixed texts. */
  lemma ChallengeIsField(scheme: string, dpop: bool, quoted: seq<string>, texts: seq<string>)
    requires |quoted| == |texts| == if dpop then 5 else 4
    requires AllAre(scheme, IsFieldChar) && AllAre(quoted[0], IsFieldChar) && AllAre(quoted[2], IsFieldChar)
    requires forall i :: 0 <= i < |texts| ==> AllAre(NAMES[i], IsFieldChar) && texts[i] == Param(NAMES[i], quoted[i])
    ensures AllAre(scheme + (" " + Join(texts, ", ")), IsFieldChar) <==>
            AllAre(quoted[1], IsFieldChar) && AllAre(quoted[3], IsFieldChar) &&
                (dpop ==> AllAre(quoted[4], IsFieldChar))
  {
    assert |NAMES| == 5;
    hide *;
    HeaderIsFieldIff(scheme, NAMES[..|texts|], quoted, texts);
  }

  lemma LegibleIff(kind: ErrorKind, message: string, issuers: string, algs: string,
                   scheme: string, dpop: bool, quoted: seq<string>, texts: seq<string>)
    requires scheme == if dpop then "DPoP" else "Bearer"
    requires quoted == [kind.Code(), Escape(message), "webid", Escape(issuers)] + (if dpop then [algs] else [])
    requires |texts| == |quoted| && forall i :: 0 <= i < |texts| ==> texts[i] == Param(NAMES[i], quoted[i])
    ensures AllAre(scheme + (" " + Join(texts, ", ")), IsFieldChar) <==>
            AllAre(message, IsFieldChar) && AllAre(issuers, IsFieldChar) && (dpop ==> AllAre(algs, IsFieldChar))
  {
    FixedTextsAreField(kind);
    EscapeKeepsAll(message, IsFieldChar);
    EscapeKeepsAll(issuers, IsFieldChar);
    hide *;
    ChallengeIsField(scheme, dpop, quoted, texts);
  }

  /**
   Builds the challenge. Whatever the message and the issuers contain, the header reads back as the
   scheme, the error code, the message, the issuers joined by spaces and, for DPoP, the algorithms;
   the algorithms are printed unescaped, so they must be plain, as the fixed list is. The header is a
   legal field value exactly when none of these texts holds a control character other than the tab.
   */
  method WwwAuthenticate(kind: ErrorKind, message: string, dpopError: bool,
                         trustedIssuers: seq<string>, dpopAlgs: seq<string>, requireDpop: bool) returns (header: string)
    ensures
      var dpop := dpopError || requireDpop;
      var algs := Join(dpopAlgs, " ");
      (dpop ==> IsPlain(algs)) ==>
      ReadHeader(header) == Some(Header(
        if dpop then "DPoP" else "Bearer",
        Meant(kind, message, Join(trustedIssuers, " "), if dpop then Some(algs) else None)))
    ensures
      var dpop := dpopError || requireDpop;
      var legible := AllAre(message, IsFieldChar) && AllAre(Join(trustedIssuers, " "), IsFieldChar)
                     && (dpop ==> AllAre(Join(dpopAlgs, " "), IsFieldChar));
      ReadFieldValue(header) == if legible then ReadHeader(header) else None
  {
    var dpop := dpopError || requireDpop;
    var scheme := if dpop then "DPoP" else "Bearer";
    var issuers := Join(trustedIssuers, " ");
    var params := [
      Param("error", kind.Code()),
      Param("error_description", Escape(message)),
      Param("scope", "webid"),
      Param("issuer", Escape(issuers))];
    ghost var quoted := [kind.Code(), Escape(message), "webid", Escape(issuers)];
    if dpop {
      params := params + [Param("algs", Join(dpopAlgs, " "))];
      quoted := quoted + [Join(dpopAlgs, " ")];
    }
    header := scheme + (" " + Join(params, ", "));
    LegibleIff(kind, message, issuers, Join(dpopAlgs, " "), scheme, dpop, quoted, params);
    if dpop ==> IsPlain(Join(dpopAlgs, " ")) {
      ghost var algs := if dpop then Some(Join(dpopAlgs, " ")) else None;
      assert ReadParams(Join(params, ", ")) == Some(Meant(kind, message, issuers, algs)) by {
        MeantNamesAndCode(kind, message, issuers, algs);
        PlainReads(kind.Code());
        EscapedReads(message);
        PlainReads("webid");
        EscapedReads(issuers);
        if dpop {
          PlainReads(Join(dpopAlgs, " "));
        }
        ParamsRead(params, quoted, Meant(kind, message, issuers, algs));
      }
      HeaderReads(scheme, Join(params, ", "));
    }
  }

  /** The scheme ends at the first space, and the parameters follow it. */
  lemma HeaderReads(scheme: string, params: string)
    requires ' ' !in scheme && ReadParams(params).Some?
    ensures ReadHeader(scheme + (" " + params)) == Some(Header(scheme, ReadParams(params).value))
  {
    SplitAtFirst(scheme, ' ', params);
    assert scheme + (" " + params) == scheme + ([' '] + params);
  }

  lemma {:induction false} JoinPlain(parts: seq<string>, separator: string)
    requires IsPlain(separator) && forall i :: 0 <= i < |parts| ==> IsPlain(parts[i])
    ensures IsPlain(Join(parts, separator))
  {
    if |parts| <= 1 {
    } else {
      JoinPlain(parts[1..], separator);
    }
  }

  /** The fixed algorithm list needs no escaping, so every challenge the verifier builds reads back. */
  lemma FixedAlgsArePlain()
    ensures IsPlain(Join(Jwk.SIGNING_ALGS, " "))
  {
    JoinPlain(Jwk.SIGNING_ALGS, " ");
  }

  /** The printed `algs` value is read back as it was exactly when it is plain; escaping is missed otherwise. */
  lemma AlgsReadBackIff(algs: string)
    ensures ReadParams(Param("algs", algs)) == Some([("algs", algs)]) <==> IsPlain(algs)
  {
    ScanPlainIff(algs, "");
    if IsPlain(algs) {
      ParamReads("algs", algs, algs, "");
      assert Param("algs", algs) + "" == Param("algs", algs);
    } else {
      var inner := algs + ("\"" + "");
      assert Param("algs", algs) == "algs" + (['='] + (['"'] + inner));
      SplitAtFirst("algs", '=', ['"'] + inner);
      assert (['"'] + inner)[1..] == inner;
    }
  }
}
