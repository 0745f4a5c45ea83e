/**
 The guarded fetch (src/net.rs, with the gates of src/webid.rs): every hop of a redirect chain is gated,
 resolved, classified and pinned anew. Resolver and servers are arbitrary and may answer differently at
 every hop.
 */
module SafeFetch {
  import opened Wrappers
  import opened Nat64
  import opened Ssrf
  import opened Web

  type Body = seq<nat>

  const U64_MAX: nat := 0xFFFF_FFFF_FFFF_FFFF

  /** `isize::MAX`: no `Vec` of bytes is longer. */
  const VEC_MAX: nat := 0x7FFF_FFFF_FFFF_FFFF

  datatype Config = Config(allowLoopback: bool, maxBodyBytes: nat, maxRedirects: nat, nat64: Policy)

  /** What a body stream yields before it ends or breaks off. */
  datatype Stream = Stream(bytes: Body, broken: bool)

  datatype Response =
    | NoResponse
    | Redirection(location: Option<string>)
    | Failure
    | Success(contentLength: Option<nat>, stream: Stream)

  /** A connection made: the URL asked for, the addresses it was pinned to, the port. */
  datatype Contact = Contact(url: Url, pinned: seq<IpAddr>, port: nat)

  datatype Net = Net(
    parse: string -> Option<Url>,
    /** a `Location` against the URL it came from */
    join: (Url, string) -> Option<string>,
    resolve: (nat, string) -> Option<seq<IpAddr>>,
    exchange: (nat, Contact) -> Response)

  datatype FetchError = MalformedUrl | SchemeRefused | UserinfoRefused | AddressRefused | NoHost | NotResolved | NoPort
    | ExchangeFailed | NoLocation | BadLocation | BodyTooLarge | BodyBroken | TooManyRedirects

  datatype SafeResponse = SafeResponse(body: Body, finalUrl: string)

  datatype HopOutcome = Redirect(location: string) | Complete(body: Body)

  // ---------------------------------------------------------------------------------------------
  // Gates
  // ---------------------------------------------------------------------------------------------

  /** One resolved address, or the literal in the URL, against the policy. */
  function ClassifyResolvedAddress(ip: IpAddr, url: Url, c: Config): (r: Result<(), FetchError>)
    ensures r.Ok? <==>
      && (url.scheme == "http" && c.allowLoopback ==> IsLoopbackAddress(Some(ip)))
      && IsPublicAddress(Some(ip), c.allowLoopback, c.nat64)
  {
    if url.scheme == "http" && c.allowLoopback && !IsLoopbackAddress(Some(ip)) then Err(AddressRefused)
    else if !IsPublicAddress(Some(ip), c.allowLoopback, c.nat64) then Err(AddressRefused)
    else Ok(())
  }

  /** What can be said of a URL before anything is resolved. */
  function StaticGate(net: Net, c: Config, raw: string): Result<(), FetchError> {
    match net.parse(raw)
    case None => Err(MalformedUrl)
    case Some(url) =>
      if url.scheme != "https" && url.scheme != "http" then Err(SchemeRefused)
      else if url.scheme == "http" && !c.allowLoopback then Err(SchemeRefused)
      else if url.HasUserinfo() then Err(UserinfoRefused)
      else if url.host.Some? && url.host.value.Literal? then ClassifyResolvedAddress(url.host.value.ip, url, c)
      else Ok(())
  }

  function PortOrKnownDefault(url: Url): Option<nat> {
    if url.port.Some? then url.port
    else if url.scheme == "https" then Some(443)
    else if url.scheme == "http" then Some(80)
    else None
  }

  /** The port that is contacted: the one the URL names, else that of its scheme. */
  lemma PortIff(url: Url, port: nat)
    ensures PortOrKnownDefault(url) == Some(port) <==>
            || url.port == Some(port)
            || (url.port == None && ((url.scheme == "https" && port == 443) || (url.scheme == "http" && port == 80)))
  {
    assert |"https"| != |"http"|;
  }

  /**
   `Read::take(limit)` and `read_to_end`, one byte past the cap so that an excess shows. What is longer
   than a `Vec` can get fails as a read does.
   */
  function ReadBounded(s: Stream, max: nat): Result<Body, FetchError> {
    var limit := if max < U64_MAX then max + 1 else U64_MAX;
    var taken := if |s.bytes| <= limit then s.bytes else s.bytes[..limit];
    if |taken| > VEC_MAX then Err(BodyBroken)
    else if |s.bytes| < limit && s.broken then Err(BodyBroken)
    else if |taken| > max then Err(BodyTooLarge)
    else Ok(taken)
  }

  /**
   A body is handed out exactly when it arrived whole, within the cap and within what memory can hold, for
   every cap.
   */
  lemma ReadBoundedIff(s: Stream, max: nat, body: Body)
    ensures ReadBounded(s, max) == Ok(body) <==>
            !s.broken && |s.bytes| <= max && |s.bytes| <= 0x7FFF_FFFF_FFFF_FFFF && body == s.bytes
  {}

  function RunHop(r: Response, max: nat): Result<HopOutcome, FetchError> {
    match r
    case NoResponse => Err(ExchangeFailed)
    case Redirection(None) => Err(NoLocation)
    case Redirection(Some(location)) => Ok(Redirect(location))
    case Failure => Err(ExchangeFailed)
    case Success(contentLength, stream) =>
      if contentLength.Some? && contentLength.value > max then Err(BodyTooLarge)
      else
        match ReadBounded(stream, max)
        case Err(e) => Err(e)
        case Ok(body) => Ok(Complete(body))
  }

  // ---------------------------------------------------------------------------------------------
  // The specification: one guarded contact, then whatever the answer leads to
  // ---------------------------------------------------------------------------------------------

  /**
   The contact a hop may make: a gated URL with the addresses that stand for its host, every one of them
   classified.
   */
  function GuardedContact(net: Net, c: Config, hop: nat, raw: string): Result<Contact, FetchError> {
    match StaticGate(net, c, raw)
    case Err(e) => Err(e)
    case Ok(_) =>
      var url := net.parse(raw).value;
      match url.host
      case None => Err(NoHost)
      case Some(Literal(ip)) =>
        if PortOrKnownDefault(url).None? then Err(NoPort) else Ok(Contact(url, [ip], PortOrKnownDefault(url).value))
      case Some(Name(name)) =>
        var records := net.resolve(hop, name);
        if records.None? || records.value == [] then Err(NotResolved)
        else if exists i :: 0 <= i < |records.value| && ClassifyResolvedAddress(records.value[i], url, c).Err? then
            Err(AddressRefused)
        else if PortOrKnownDefault(url).None? then Err(NoPort)
        else Ok(Contact(url, records.value, PortOrKnownDefault(url).value))
  }

  /** The answer of a fetch that is at `hop` of its allowance, and the contacts it makes on the way. */
  function Follow(net: Net, c: Config, hop: nat, raw: string): (Result<SafeResponse, FetchError>, seq<Contact>)
    decreases c.maxRedirects + 1 - hop
  {
    if hop > c.maxRedirects then (Err(TooManyRedirects), [])
    else
      match GuardedContact(net, c, hop, raw)
      case Err(e) => (Err(e), [])
      case Ok(contact) =>
        match RunHop(net.exchange(hop, contact), c.maxBodyBytes)
        case Err(e) => (Err(e), [contact])
        case Ok(Complete(body)) => (Ok(SafeResponse(body, contact.url.text)), [contact])
        case Ok(Redirect(location)) =>
          match net.join(contact.url, location)
          case None => (Err(BadLocation), [contact])
          case Some(next) =>
            var (r, contacts) := Follow(net, c, hop + 1, next);
            (r, [contact] + contacts)
  }

  // ---------------------------------------------------------------------------------------------
  // The loop
  // ---------------------------------------------------------------------------------------------

  /** One address that does not pass refuses them all. */
  method ClassifyAll(records: seq<IpAddr>, url: Url, c: Config) returns (r: Result<(), FetchError>)
    ensures r.Ok? <==> forall i :: 0 <= i < |records| ==> ClassifyResolvedAddress(records[i], url, c).Ok?
    ensures r.Err? ==> r.error == AddressRefused
  {
    for i := 0 to |records|
      invariant forall j :: 0 <= j < i ==> ClassifyResolvedAddress(records[j], url, c).Ok?
    {
      var classified := ClassifyResolvedAddress(records[i], url, c);
      if classified.Err? {
        return classified;
      }
    }
    r := Ok(());
  }

  /** One hop's gates: the URL, the resolution of its host, every resolved address, the port. */
  method PinHop(net: Net, c: Config, hop: nat, current: string) returns (r: Result<Contact, FetchError>)
    ensures r == GuardedContact(net, c, hop, current)
  {
    var gate := StaticGate(net, c, current);
    if gate.Err? {
      return Err(gate.error);
    }
    var parsed := net.parse(current).value;
    if parsed.host.None? {
      return Err(NoHost);
    }
    var pinned: seq<IpAddr>;
    match parsed.host.value {
      case Literal(ip) =>
        pinned := [ip];
      case Name(name) =>
        var records := net.resolve(hop, name);
        if records.None? {
          return Err(NotResolved);
        }
        if records.value == [] {
          return Err(NotResolved);
        }
        var classified := ClassifyAll(records.value, parsed, c);
        if classified.Err? {
          return Err(classified.error);
        }
        pinned := records.value;
    }
    var port := PortOrKnownDefault(parsed);
    if port.None? {
      return Err(NoPort);
    }
    r := Ok(Contact(parsed, pinned, port.value));
  }

  /** The hop loop with its early exits does what `Follow` says, for every resolver and every server. */
  method Get(net: Net, c: Config, url: string) returns (r: Result<SafeResponse, FetchError>, contacts: seq<Contact>)
    ensures (r, contacts) == Follow(net, c, 0, url)
  {
    var current := url;
    contacts := [];
    assert [] + Follow(net, c, 0, url).1 == Follow(net, c, 0, url).1;
    for hop := 0 to c.maxRedirects + 1
      invariant
        var rest := Follow(net, c, hop, current);
        Follow(net, c, 0, url) == (rest.0, contacts + rest.1)
    {
      assert contacts + [] == contacts;
      var guarded := PinHop(net, c, hop, current);
      if guarded.Err? {
        return Err(guarded.error), contacts;
      }
      var contact := guarded.value;
      ghost var before := contacts;
      contacts := contacts + [contact];
      var outcome := RunHop(net.exchange(hop, contact), c.maxBodyBytes);
      match outcome {
        case Err(e) =>
          return Err(e), contacts;
        case Ok(Redirect(location)) =>
          match net.join(contact.url, location) {
            case None =>
              return Err(BadLocation), contacts;
            case Some(next) =>
              ghost var rest := Follow(net, c, hop + 1, next).1;
              assert before + ([contact] + rest) == contacts + rest;
              current := next;
          }
        case Ok(Complete(body)) =>
          return Ok(SafeResponse(body, contact.url.text)), contacts;
      }
    }
    r := Err(TooManyRedirects);
    assert contacts + [] == contacts;
  }

  // ---------------------------------------------------------------------------------------------
  // What the specification guarantees
  // ---------------------------------------------------------------------------------------------

  /** Nothing but classified addresses, no credentials, and plain HTTP only to loopback where that is allowed. */
  ghost predicate IsGuarded(c: Config, contact: Contact) {
    && contact.pinned != []
    && contact.url.username == "" && contact.url.password == None
    && (contact.url.scheme == "https" || (contact.url.scheme == "http" && c.allowLoopback))
    && (forall i :: 0 <= i < |contact.pinned| ==>
          && IsPublicAddress(Some(contact.pinned[i]), c.allowLoopback, c.nat64)
          && (contact.url.scheme == "http" ==> IsLoopbackAddress(Some(contact.pinned[i]))))
    && (contact.url.host.Some? && contact.url.host.value.Literal? ==> contact.pinned == [contact.url.host.value.ip])
  }

  /** The contact of a hop is guarded, and pinned to just the literal or the answer of the resolver. */
  lemma GuardedContactSound(net: Net, c: Config, hop: nat, raw: string)
    requires GuardedContact(net, c, hop, raw).Ok?
    ensures
      var contact := GuardedContact(net, c, hop, raw).value;
      && IsGuarded(c, contact) && net.parse(raw) == Some(contact.url) && contact.url.host.Some?
      && IsPinnedAt(net, hop, contact)
  {}

  /** Nothing guarded is refused: a URL and addresses that pass are contacted, on the URL's port. */
  lemma GuardedContactComplete(net: Net, c: Config, hop: nat, raw: string, url: Url, pinned: seq<IpAddr>, port: nat)
    requires IsGuarded(c, Contact(url, pinned, port)) && net.parse(raw) == Some(url) && url.host.Some?
    requires url.host.value.Name? ==> net.resolve(hop, url.host.value.name) == Some(pinned)
    requires PortOrKnownDefault(url) == Some(port)
    ensures GuardedContact(net, c, hop, raw) == Ok(Contact(url, pinned, port))
  {
    assert IsPublicAddress(Some(pinned[0]), c.allowLoopback, c.nat64);
  }

  /** What a hop may be pinned to: the literal in its URL, or the answer the resolver gave at that hop. */
  ghost predicate IsPinnedAt(net: Net, hop: nat, contact: Contact) {
    contact.url.host.Some? &&
    match contact.url.host.value
    case Literal(ip) => contact.pinned == [ip]
    case Name(name) => net.resolve(hop, name) == Some(contact.pinned)
  }

  /**
   Every contact of a fetch is guarded and pinned to its own hop's addresses, and there are at most one
   more of them than redirects allowed, one per hop.
   */
  lemma {:induction false} EveryContactIsGuarded(net: Net, c: Config, hop: nat, raw: string)
    requires hop <= c.maxRedirects + 1
    ensures
      var contacts := Follow(net, c, hop, raw).1;
      && |contacts| <= c.maxRedirects + 1 - hop
      && forall i :: 0 <= i < |contacts| ==> IsGuarded(c, contacts[i]) && IsPinnedAt(net, hop + i, contacts[i])
    decreases c.maxRedirects + 1 - hop
  {
    hide IsGuarded, GuardedContact, ReadBounded;
    if hop <= c.maxRedirects && GuardedContact(net, c, hop, raw).Ok? {
      GuardedContactSound(net, c, hop, raw);
      var contact := GuardedContact(net, c, hop, raw).value;
      var outcome := RunHop(net.exchange(hop, contact), c.maxBodyBytes);
      if outcome.Ok? && outcome.value.Redirect? && net.join(contact.url, outcome.value.location).Some? {
        var next := net.join(contact.url, outcome.value.location).value;
        EveryContactIsGuarded(net, c, hop + 1, next);
        var rest := Follow(net, c, hop + 1, next).1;
        forall i | 0 <= i < |rest|
          ensures IsPinnedAt(net, hop + (i + 1), rest[i])
        {
          assert IsPinnedAt(net, (hop + 1) + i, rest[i]);
        }
      }
    }
  }

  /** A fetched body is the whole of what the last server contacted sent, within the cap, under that contact's URL. */
  lemma {:induction false} FetchedBodyIsComplete(net: Net, c: Config, hop: nat, raw: string)
    requires hop <= c.maxRedirects + 1
    ensures
      var (r, contacts) := Follow(net, c, hop, raw);
      r.Ok? ==>
        && contacts != []
        && var last := contacts[|contacts| - 1];
        && var answer := net.exchange(hop + |contacts| - 1, last);
        && r.value.finalUrl == last.url.text
        && answer.Success? && !answer.stream.broken && r.value.body == answer.stream.bytes &&
            |r.value.body| <= c.maxBodyBytes
    decreases c.maxRedirects + 1 - hop
  {
    hide GuardedContact;
    if hop <= c.maxRedirects && GuardedContact(net, c, hop, raw).Ok? {
      var contact := GuardedContact(net, c, hop, raw).value;
      var outcome := RunHop(net.exchange(hop, contact), c.maxBodyBytes);
      if outcome.Ok? && outcome.value.Redirect? && net.join(contact.url, outcome.value.location).Some? {
        FetchedBodyIsComplete(net, c, hop + 1, net.join(contact.url, outcome.value.location).value);
      }
    }
  }

  /** The hop's server sends this body, whole, within the cap, and announces no more than the cap, if anything. */
  ghost predicate Delivers(net: Net, c: Config, hop: nat, url: string, response: SafeResponse) {
    && GuardedContact(net, c, hop, url).Ok?
    && var contact := GuardedContact(net, c, hop, url).value;
    && var answer := net.exchange(hop, contact);
    && answer.Success? && !answer.stream.broken &&
        (answer.contentLength.Some? ==> answer.contentLength.value <= c.maxBodyBytes)
    && |answer.stream.bytes| <= c.maxBodyBytes && |answer.stream.bytes| <= 0x7FFF_FFFF_FFFF_FFFF
    && response.body == answer.stream.bytes && response.finalUrl == contact.url.text
  }

  /** URLs each leading to the next, within the allowance, the last of them delivering. */
  ghost predicate DeliversAlong(net: Net, c: Config, hop: nat, urls: seq<string>, response: SafeResponse) {
    && 1 <= |urls| <= c.maxRedirects + 1 - hop
    && (forall i :: 0 <= i < |urls| - 1 ==> LeadsTo(net, c, hop + i, urls[i], urls[i + 1]))
    && Delivers(net, c, hop + |urls| - 1, urls[|urls| - 1], response)
  }

  /** One hop that delivers ends the fetch with what it delivers. */
  lemma DeliveryEnds(net: Net, c: Config, hop: nat, url: string, response: SafeResponse)
    requires hop <= c.maxRedirects && Delivers(net, c, hop, url, response)
    ensures Follow(net, c, hop, url).0 == Ok(response)
  {
    hide GuardedContact;
  }

  /** One hop that leads on leaves the fetch to the next. */
  lemma LeadingContinues(net: Net, c: Config, hop: nat, url: string, next: string)
    requires hop <= c.maxRedirects && LeadsTo(net, c, hop, url, next)
    ensures Follow(net, c, hop, url).0 == Follow(net, c, hop + 1, next).0
  {
    hide GuardedContact, ReadBounded;
  }

  lemma {:induction false} DeliveryIsFetched(net: Net, c: Config, hop: nat, urls: seq<string>, response: SafeResponse)
    requires hop <= c.maxRedirects && DeliversAlong(net, c, hop, urls, response)
    ensures Follow(net, c, hop, urls[0]).0 == Ok(response)
    decreases |urls|
  {
    hide Follow, LeadsTo, Delivers;
    if |urls| == 1 {
      DeliveryEnds(net, c, hop, urls[0], response);
    } else {
      assert LeadsTo(net, c, hop + 0, urls[0], urls[1]);
      LeadingContinues(net, c, hop, urls[0], urls[1]);
      forall i | 0 <= i < |urls| - 2
        ensures LeadsTo(net, c, (hop + 1) + i, urls[1..][i], urls[1..][i + 1])
      {
        assert LeadsTo(net, c, hop + (i + 1), urls[i + 1], urls[i + 2]);
      }
      DeliveryIsFetched(net, c, hop + 1, urls[1..], response);
    }
  }

  /** A successful hop either delivered or led on. */
  lemma SuccessStep(net: Net, c: Config, hop: nat, url: string)
    requires hop <= c.maxRedirects && Follow(net, c, hop, url).0.Ok?
    ensures
      || Delivers(net, c, hop, url, Follow(net, c, hop, url).0.value)
      || exists next :: LeadsTo(net, c, hop, url, next) && Follow(net, c, hop, url).0 == Follow(net, c, hop + 1, next).0
  {
    hide GuardedContact;
    var contact := GuardedContact(net, c, hop, url).value;
    var answer := net.exchange(hop, contact);
    if answer.Redirection? {
      assert LeadsTo(net, c, hop, url, net.join(contact.url, answer.location.value).value);
    } else {
      ReadBoundedIff(answer.stream, c.maxBodyBytes, Follow(net, c, hop, url).0.value.body);
    }
  }

  lemma {:induction false} FetchedIsDelivered(net: Net, c: Config, hop: nat, raw: string) returns (urls: seq<string>)
    requires hop <= c.maxRedirects + 1 && Follow(net, c, hop, raw).0.Ok?
    ensures DeliversAlong(net, c, hop, urls, Follow(net, c, hop, raw).0.value) && urls[0] == raw
    decreases c.maxRedirects + 1 - hop
  {
    SuccessStep(net, c, hop, raw);
    var response := Follow(net, c, hop, raw).0.value;
    if Delivers(net, c, hop, raw, response) {
      urls := [raw];
    } else {
      var next :| LeadsTo(net, c, hop, raw, next) && Follow(net, c, hop, raw).0 == Follow(net, c, hop + 1, next).0;
      hide Follow, LeadsTo, Delivers, DeliversAlong;
      var rest := FetchedIsDelivered(net, c, hop + 1, next);
      urls := [raw] + rest;
      LeadsAlong(net, c, hop, raw, rest, response);
    }
  }

  lemma LeadsAlong(net: Net, c: Config, hop: nat, raw: string, rest: seq<string>, response: SafeResponse)
    requires hop <= c.maxRedirects && DeliversAlong(net, c, hop + 1, rest, response) &&
                LeadsTo(net, c, hop, raw, rest[0])
    ensures DeliversAlong(net, c, hop, [raw] + rest, response)
  {
    hide LeadsTo, Delivers;
    var urls := [raw] + rest;
    forall i | 0 <= i < |urls| - 1
      ensures LeadsTo(net, c, hop + i, urls[i], urls[i + 1])
    {
      if i > 0 {
        assert LeadsTo(net, c, (hop + 1) + (i - 1), rest[i - 1], rest[i]);
      }
    }
  }

  /**
   Exactly when a fetch succeeds, and with what: some chain of at most as many redirects as are allowed
   leads from its URL to one whose server sends a whole body within the cap, and that body is returned
   under that URL. It does not matter whether the server announced a length.
   */
  lemma FetchSucceedsIff(net: Net, c: Config, raw: string, response: SafeResponse)
    ensures Follow(net, c, 0, raw).0 == Ok(response) <==>
            exists urls: seq<string> :: DeliversAlong(net, c, 0, urls, response) && urls[0] == raw
  {
    if Follow(net, c, 0, raw).0 == Ok(response) {
      var urls := FetchedIsDelivered(net, c, 0, raw);
    }
    forall urls: seq<string> | DeliversAlong(net, c, 0, urls, response) && urls[0] == raw
      ensures Follow(net, c, 0, raw).0 == Ok(response)
    {
      DeliveryIsFetched(net, c, 0, urls, response);
    }
  }

  /** A hop that leads on: its URL passes the gates, its server redirects, and the redirect gives the next URL. */
  ghost predicate LeadsTo(net: Net, c: Config, hop: nat, url: string, next: string) {
    && GuardedContact(net, c, hop, url).Ok?
    && var contact := GuardedContact(net, c, hop, url).value;
    && net.exchange(hop, contact).Redirection? && net.exchange(hop, contact).location.Some?
    && net.join(contact.url, net.exchange(hop, contact).location.value) == Some(next)
  }

  /** A chain of URLs, each leading to the next, from one hop on to the last that is allowed. */
  ghost predicate UsesUpRedirects(net: Net, c: Config, hop: nat, urls: seq<string>)
    requires hop <= c.maxRedirects + 1
  {
    |urls| == c.maxRedirects + 2 - hop && forall i :: 0 <= i < |urls| - 1 ==>
        LeadsTo(net, c, hop + i, urls[i], urls[i + 1])
  }

  /** A chain of redirects that never ends is given up after one contact more than redirects are allowed. */
  lemma {:induction false} EndlessRedirectsStop(net: Net, c: Config, hop: nat, urls: seq<string>)
    requires hop <= c.maxRedirects + 1 && UsesUpRedirects(net, c, hop, urls)
    ensures Follow(net, c, hop, urls[0]).0 == Err(TooManyRedirects)
    ensures |Follow(net, c, hop, urls[0]).1| == c.maxRedirects + 1 - hop
    decreases c.maxRedirects + 1 - hop
  {
    if hop > c.maxRedirects {
    } else {
      assert LeadsTo(net, c, hop + 0, urls[0], urls[1]);
      forall i | 0 <= i < |urls| - 2
        ensures LeadsTo(net, c, (hop + 1) + i, urls[1..][i], urls[1..][i + 1])
      {
        assert LeadsTo(net, c, hop + (i + 1), urls[i + 1], urls[i + 2]);
      }
      EndlessRedirectsStop(net, c, hop + 1, urls[1..]);
    }
  }

  /** And nothing else is reported as too many redirects. */
  lemma {:induction false} TooManyRedirectsMeansChain(net: Net, c: Config, hop: nat, raw: string)
    returns (urls: seq<string>)
    requires hop <= c.maxRedirects + 1 && Follow(net, c, hop, raw).0 == Err(TooManyRedirects)
    ensures UsesUpRedirects(net, c, hop, urls) && urls[0] == raw
    decreases c.maxRedirects + 1 - hop
  {
    if hop > c.maxRedirects {
      urls := [raw];
    } else {
      var contact := GuardedContact(net, c, hop, raw).value;
      var next := net.join(contact.url, net.exchange(hop, contact).location.value).value;
      var rest := TooManyRedirectsMeansChain(net, c, hop + 1, next);
      urls := [raw] + rest;
      assert LeadsTo(net, c, hop, urls[0], urls[1]);
      forall i | 0 <= i < |urls| - 1
        ensures LeadsTo(net, c, hop + i, urls[i], urls[i + 1])
      {
        if i > 0 {
          assert LeadsTo(net, c, (hop + 1) + (i - 1), rest[i - 1], rest[i]);
        }
      }
    }
  }

  /** A fetch fails for too many redirects if and only if a chain of redirects uses them all up. */
  lemma TooManyRedirectsIff(net: Net, c: Config, raw: string)
    ensures Follow(net, c, 0, raw).0 == Err(TooManyRedirects) <==>
            exists urls: seq<string> :: UsesUpRedirects(net, c, 0, urls) && urls[0] == raw
  {
    if Follow(net, c, 0, raw).0 == Err(TooManyRedirects) {
      var urls := TooManyRedirectsMeansChain(net, c, 0, raw);
    }
    forall urls: seq<string> | UsesUpRedirects(net, c, 0, urls) && urls[0] == raw
      ensures Follow(net, c, 0, raw).0 == Err(TooManyRedirects)
    {
      EndlessRedirectsStop(net, c, 0, urls);
    }
  }
}
