/**
 The network key provider (src/config.rs): discovery, the filtering of a fetched key set, and a cache
 that many requests consult and refresh in any order. Looking an issuer up and storing its keys are two
 separate critical sections, so they are two separate steps here.
 */
module JwksCache {
  import opened Wrappers
  import opened Json
  import opened Jwk
  import Fetch = SafeFetch

  datatype JwksError =
    | InvalidIssuer | DiscoveryFailed | NotJson | IssuerMismatch | NoJwksUri | FetchFailed
    | NoKeysArray | TooManyKeys | NoUsableKeys

  type Bytes = Fetch.Body

  /**
   The libraries and the network as they answer during one refresh. Its two fetches meet resolvers and
   servers each in a state of their own.
   */
  datatype Sources = Sources(
    wellKnown: string -> Option<string>,
    discovery: Fetch.Net,
    keySet: Fetch.Net,
    fetchConfig: Fetch.Config,
    json: Bytes -> Option<Value>,
    keyFromJson: Value -> Option<Key>)

  const MAX_KEYS: nat := 64

  // ---------------------------------------------------------------------------------------------
  // Filtering a key set
  // ---------------------------------------------------------------------------------------------

  /** The key an entry of a set contributes, if it is one of the public keys. */
  function UsableKey(src: Sources, entry: Value): Option<Key> {
    match src.keyFromJson(entry)
    case None => None
    case Some(key) => if key.IsSymmetric() || key.HasPrivateMaterial() then None else Some(key)
  }

  /** An entry is kept, as it was read, exactly if it reads as a key that is public and asymmetric. */
  lemma UsableKeyIff(src: Sources, entry: Value, key: Key)
    ensures UsableKey(src, entry) == Some(key) <==> src.keyFromJson(entry) == Some(key) && IsPublic(key)
  {
    IsPublicIff(key);
  }

  function UsableKeys(src: Sources, entries: seq<Value>): seq<Key> {
    if entries == [] then []
    else
      var last := UsableKey(src, entries[|entries| - 1]);
      UsableKeys(src, entries[..|entries| - 1]) + (if last.Some? then [last.value] else [])
  }

  /** The key set of a document: the entries under `keys`, filtered. */
  function KeysOf(src: Sources, body: Bytes): Result<seq<Key>, JwksError> {
    match src.json(body)
    case None => Err(NotJson)
    case Some(doc) =>
      if !doc.Obj? || Get(doc.members, "keys").None? || !doc.members["keys"].Arr? then Err(NoKeysArray)
      else if |doc.members["keys"].items| > MAX_KEYS then Err(TooManyKeys)
      else if UsableKeys(src, doc.members["keys"].items) == [] then Err(NoUsableKeys)
      else Ok(UsableKeys(src, doc.members["keys"].items))
  }

  /** Parses a key set, skipping unusable entries rather than failing on them. */
  method ParseJwks(src: Sources, body: Bytes) returns (r: Result<seq<Key>, JwksError>)
    ensures r == KeysOf(src, body)
  {
    var entries: seq<Value>;
    match src.json(body) {
      case None => return Err(NotJson);
      case Some(doc) =>
        if !doc.Obj? || Get(doc.members, "keys").None? || !doc.members["keys"].Arr? {
          return Err(NoKeysArray);
        }
        entries := doc.members["keys"].items;
    }
    if |entries| > MAX_KEYS {
      return Err(TooManyKeys);
    }
    var keys: seq<Key> := [];
    for i := 0 to |entries|
      invariant keys == UsableKeys(src, entries[..i])
    {
      assert entries[..i + 1][..i] == entries[..i];
      match src.keyFromJson(entries[i]) {
        case None =>
        case Some(key) =>
          if key.IsSymmetric() || key.HasPrivateMaterial() {
            continue;
          }
          keys := keys + [key];
      }
    }
    assert entries[..|entries|] == entries;
    r := if keys == [] then Err(NoUsableKeys) else Ok(keys);
  }

  /** Where in the document the keys came from: each from its own entry, in document order, none passed over. */
  ghost predicate IsFilterOf(src: Sources, entries: seq<Value>, keys: seq<Key>, at: seq<nat>) {
    && |at| == |keys|
    && (forall i :: 0 <= i < |at| ==> at[i] < |entries| && UsableKey(src, entries[at[i]]) == Some(keys[i]))
    && (forall i, k :: 0 <= i < k < |at| ==> at[i] < at[k])
    && (forall e :: 0 <= e < |entries| && UsableKey(src, entries[e]).Some? ==> e in at)
  }

  lemma {:induction false} UsableKeysFilter(src: Sources, entries: seq<Value>) returns (at: seq<nat>)
    ensures IsFilterOf(src, entries, UsableKeys(src, entries), at)
  {
    if entries == [] {
      at := [];
    } else {
      var n := |entries| - 1;
      var before := UsableKeysFilter(src, entries[..n]);
      at := FilterExtends(src, entries, UsableKeys(src, entries[..n]), before);
    }
  }

  lemma FilterExtends(src: Sources, entries: seq<Value>, keys: seq<Key>, before: seq<nat>) returns (at: seq<nat>)
    requires entries != [] && IsFilterOf(src, entries[..|entries| - 1], keys, before)
    ensures
      var last := UsableKey(src, entries[|entries| - 1]);
      IsFilterOf(src, entries, keys + (if last.Some? then [last.value] else []), at)
  {
    var n := |entries| - 1;
    var front := entries[..n];
    assert forall e :: 0 <= e < n ==> front[e] == entries[e];
    if UsableKey(src, entries[n]).None? {
      at := before;
      assert keys + [] == keys;
    } else {
      at := before + [n];
      assert at[|before|] == n;
      assert forall e :: e in before ==> e in at;
    }
  }

  /** There is only one such filtering. */
  lemma {:induction false} FilterIsUnique(src: Sources, entries: seq<Value>, keys: seq<Key>, at: seq<nat>)
    requires IsFilterOf(src, entries, keys, at)
    ensures keys == UsableKeys(src, entries)
  {
    if entries == [] {
    } else {
      var n := |entries| - 1;
      assert forall e :: 0 <= e < n ==> entries[..n][e] == entries[e];
      if UsableKey(src, entries[n]).Some? {
        var m := |at| - 1;
        LastIsKept(src, entries, keys, at);
        FilterIsUnique(src, entries[..n], keys[..m], at[..m]);
      } else {
        FilterIsUnique(src, entries[..n], keys, at);
      }
    }
  }

  /** A usable last entry is what the last key comes from, and the keys before it filter the entries before it. */
  lemma LastIsKept(src: Sources, entries: seq<Value>, keys: seq<Key>, at: seq<nat>)
    requires entries != [] && IsFilterOf(src, entries, keys, at) && UsableKey(src, entries[|entries| - 1]).Some?
    ensures
      var n, m := |entries| - 1, |at| - 1;
      m >= 0 && at[m] == n && IsFilterOf(src, entries[..n], keys[..m], at[..m])
  {
    var n, m := |entries| - 1, |at| - 1;
    assert n in at;
    var i :| 0 <= i < |at| && at[i] == n;
    var last := at[m];
    assert last < |entries|;
    if i < m {
      assert false;
    }
    assert forall e :: 0 <= e < n ==> entries[..n][e] == entries[e];
    forall e | 0 <= e < n && UsableKey(src, entries[..n][e]).Some?
      ensures e in at[..m]
    {
      assert e in at;
      var k :| 0 <= k < |at| && at[k] == e;
      assert at[..m][k] == e;
    }
  }

  /**
   The keys a document gives: a parsed object with at most 64 entries under `keys`, at least one of them
   usable, gives its usable keys, each once per entry and in document order, and nothing else does.
   */
  lemma KeysOfIff(src: Sources, body: Bytes, keys: seq<Key>)
    ensures KeysOf(src, body) == Ok(keys) <==>
              exists doc: Object, entries: seq<Value>, at: seq<nat> ::
                && src.json(body) == Some(Obj(doc)) && Get(doc, "keys") == Some(Arr(entries))
                && |entries| <= 64 && keys != [] && IsFilterOf(src, entries, keys, at)
  {
    if KeysOf(src, body) == Ok(keys) {
      var doc := src.json(body).value.members;
      var at := UsableKeysFilter(src, doc["keys"].items);
      assert src.json(body) == Some(Obj(doc)) && Get(doc, "keys") == Some(Arr(doc["keys"].items))
             && IsFilterOf(src, doc["keys"].items, keys, at);
    }
    forall doc: Object, entries: seq<Value>, at: seq<nat> |
      src.json(body) == Some(Obj(doc)) && Get(doc, "keys") == Some(Arr(entries)) && IsFilterOf(src, entries, keys, at)
      ensures keys == UsableKeys(src, entries)
    {
      FilterIsUnique(src, entries, keys, at);
    }
  }

  /** A provider's answers: some keys, not too many, none of them symmetric or private. */
  predicate IsServable(keys: seq<Key>) {
    0 < |keys| <= 64 && forall i :: 0 <= i < |keys| ==> keys[i].IsPublicAsymmetric()
  }

  /** Whatever a document holds, the keys taken from it are servable and an order-preserving filter of its entries. */
  lemma ParsedKeysAreServable(src: Sources, body: Bytes)
    requires KeysOf(src, body).Ok?
    ensures IsServable(KeysOf(src, body).value)
    ensures
      var entries := src.json(body).value.members["keys"].items;
      exists at :: IsFilterOf(src, entries, KeysOf(src, body).value, at)
  {
    var entries := src.json(body).value.members["keys"].items;
    var at := UsableKeysFilter(src, entries);
    AscendingFits(at, |entries|);
  }

  /** Ascending positions below n are at most n. */
  lemma {:induction false} AscendingFits(at: seq<nat>, n: nat)
    requires forall i :: 0 <= i < |at| ==> at[i] < n
    requires forall i, k :: 0 <= i < k < |at| ==> at[i] < at[k]
    ensures |at| <= n
  {
    if at == [] {
    } else {
      AscendingFits(at[..|at| - 1], at[|at| - 1]);
    }
  }

  /** The body a guarded fetch brings back. */
  function Fetched(src: Sources, net: Fetch.Net, url: string): Option<Bytes> {
    match Fetch.Follow(net, src.fetchConfig, 0, url).0
    case Ok(response) => Some(response.body)
    case Err(_) => None
  }

  /** The document that discovery finds for an issuer. */
  ghost predicate Discovers(src: Sources, issuer: string, doc: Object) {
    && src.wellKnown(issuer).Some?
    && var body := Fetched(src, src.discovery, src.wellKnown(issuer).value);
    body.Some? && src.json(body.value) == Some(Obj(doc))
  }

  /**
   What an issuer publishes: its discovery document names that very issuer, and points at a key set
   from which these keys are taken.
   */
  ghost predicate Publishes(src: Sources, issuer: string, keys: seq<Key>) {
    exists doc: Object, uri: string ::
      && Discovers(src, issuer, doc)
      && GetStr(doc, "issuer") == Some(issuer)
      && GetStr(doc, "jwks_uri") == Some(uri)
      && Fetched(src, src.keySet, uri).Some?
      && KeysOf(src, Fetched(src, src.keySet, uri).value) == Ok(keys)
  }

  /** The keys an issuer publishes, when it publishes any. */
  ghost function Published(src: Sources, issuer: string): (r: Option<seq<Key>>)
    ensures forall keys :: r == Some(keys) <==> Publishes(src, issuer, keys)
  {
    if exists keys :: Publishes(src, issuer, keys) then
      var keys :| Publishes(src, issuer, keys);
      Some(keys)
    else None
  }

  /** Few and guarded: what may be contacted on behalf of one refresh. */
  ghost predicate AreRefreshContacts(src: Sources, contacts: seq<Fetch.Contact>) {
    && |contacts| <= 2 * (src.fetchConfig.maxRedirects + 1)
    && forall i :: 0 <= i < |contacts| ==> Fetch.IsGuarded(src.fetchConfig, contacts[i])
  }

  /** One guarded fetch of a document. */
  method FetchDocument(src: Sources, net: Fetch.Net, url: string)
    returns (r: Option<Bytes>, contacts: seq<Fetch.Contact>)
    ensures r == Fetched(src, net, url)
    ensures |contacts| <= src.fetchConfig.maxRedirects + 1
    ensures forall i :: 0 <= i < |contacts| ==> Fetch.IsGuarded(src.fetchConfig, contacts[i])
  {
    var response;
    response, contacts := Fetch.Get(net, src.fetchConfig, url);
    Fetch.EveryContactIsGuarded(net, src.fetchConfig, 0, url);
    r := match response case Ok(ok) => Some(ok.body) case Err(_) => None;
  }

  /** Discovery for one issuer, then its key set, both through the guarded fetch. */
  method FetchKeys(src: Sources, issuer: string) returns (r: Result<seq<Key>, JwksError>, contacts: seq<Fetch.Contact>)
    ensures forall keys :: r == Ok(keys) <==> Publishes(src, issuer, keys)
    ensures r.Ok? ==> IsServable(r.value)
    ensures AreRefreshContacts(src, contacts)
  {
    hide Fetched, Fetch.IsGuarded, KeysOf;
    contacts := [];
    var discoveryUrl := src.wellKnown(issuer);
    if discoveryUrl.None? {
      return Err(InvalidIssuer), contacts;
    }
    var disc;
    disc, contacts := FetchDocument(src, src.discovery, discoveryUrl.value);
    if disc.None? {
      return Err(DiscoveryFailed), contacts;
    }
    var parsed := src.json(disc.value);
    if parsed.None? {
      return Err(NotJson), contacts;
    }
    var doc := if parsed.value.Obj? then parsed.value.members else map[];
    if GetStr(doc, "issuer") != Some(issuer) {
      return Err(IssuerMismatch), contacts;
    }
    var uri := GetStr(doc, "jwks_uri");
    if uri.None? {
      return Err(NoJwksUri), contacts;
    }
    var resp, more := FetchDocument(src, src.keySet, uri.value);
    contacts := contacts + more;
    if resp.None? {
      return Err(FetchFailed), contacts;
    }
    r := ParseJwks(src, resp.value);
    assert Discovers(src, issuer, doc);
    if r.Ok? {
      assert Publishes(src, issuer, r.value);
      ParsedKeysAreServable(src, resp.value);
    }
  }

  // ---------------------------------------------------------------------------------------------
  // The cache
  // ---------------------------------------------------------------------------------------------

  datatype Cached = Cached(keys: seq<Key>, at: nat)

  type Cache = map<string, Cached>

  /** `elapsed() < cache_ttl`; a stamp from a later reading has no time elapsed. */
  predicate IsFresh(e: Cached, now: nat, ttl: nat) {
    (if now >= e.at then now - e.at else 0) < ttl
  }

  function LookUp(cache: Cache, issuer: string, now: nat, ttl: nat): Option<seq<Key>> {
    if issuer in cache && IsFresh(cache[issuer], now, ttl) then Some(cache[issuer].keys) else None
  }

  class NetworkJwksProvider {
    var cache: Cache
    const cacheTtl: nat

    constructor (cacheTtl: nat)
      ensures cache == map[] && this.cacheTtl == cacheTtl
    {
      cache := map[];
      this.cacheTtl := cacheTtl;
    }

    /**
     Serves from the cache while the entry is young, and otherwise fetches and stores. `lookedUpAt` and
     `storedAt` are the clock readings of the two critical sections. A failed fetch serves nothing and
     leaves the cache as it was, stale entry included. Serving from the cache contacts nobody.
     */
    method KeysFor(issuer: string, src: Sources, lookedUpAt: nat, storedAt: nat)
      returns (r: Result<seq<Key>, JwksError>, contacts: seq<Fetch.Contact>)
      requires forall i :: i in cache ==> IsServable(cache[i].keys)
      modifies this`cache
      ensures forall i :: i in cache ==> IsServable(cache[i].keys)
      ensures r.Ok? ==> IsServable(r.value)
      ensures
        var hit := LookUp(old(cache), issuer, lookedUpAt, cacheTtl);
        if hit.Some? then r == Ok(hit.value) && cache == old(cache) && contacts == []
        else
          && AreRefreshContacts(src, contacts)
          && (forall keys :: r == Ok(keys) <==> Publishes(src, issuer, keys))
          && cache == Apply(old(cache), Refresh(issuer, src, storedAt))
    {
      if issuer in cache {
        if IsFresh(cache[issuer], lookedUpAt, cacheTtl) {
          return Ok(cache[issuer].keys), [];
        }
      }
      r, contacts := FetchKeys(src, issuer);
      if r.Ok? {
        cache := cache[issuer := Cached(r.value, storedAt)];
      }
    }
  }

  // ---------------------------------------------------------------------------------------------
  // Any interleaving
  // ---------------------------------------------------------------------------------------------

  /** One critical section: a look-up, or a fetch that ends in storing what the issuer publishes, if anything. */
  datatype Step = Consult(issuer: string, now: nat) | Refresh(issuer: string, src: Sources, at: nat)

  ghost predicate Stores(step: Step, issuer: string) {
    step.Refresh? && step.issuer == issuer && Published(step.src, issuer).Some?
  }

  ghost function Apply(cache: Cache, step: Step): Cache {
    if Stores(step, step.issuer) then cache[step.issuer := Cached(Published(step.src, step.issuer).value, step.at)]
    else cache
  }

  ghost function Run(steps: seq<Step>): Cache {
    if steps == [] then map[] else Apply(Run(steps[..|steps| - 1]), steps[|steps| - 1])
  }

  /** The k-th step is the latest that stored keys for an issuer. */
  ghost predicate IsLatestStore(steps: seq<Step>, issuer: string, k: nat) {
    && k < |steps| && Stores(steps[k], issuer)
    && forall i :: k < i < |steps| ==> !Stores(steps[i], issuer)
  }

  /** A step that stores nothing for an issuer leaves its latest store what it was. */
  lemma OtherStepKeepsLatest(steps: seq<Step>, issuer: string, k: nat)
    requires steps != [] && !Stores(steps[|steps| - 1], issuer)
    ensures IsLatestStore(steps, issuer, k) <==> IsLatestStore(steps[..|steps| - 1], issuer, k)
  {
    hide Stores;
    var before := steps[..|steps| - 1];
    assert forall i :: 0 <= i < |before| ==> before[i] == steps[i];
  }

  /** The cache holds, for each issuer, exactly what was stored for it last. */
  lemma {:induction false} CacheIsLatestStore(steps: seq<Step>, issuer: string) returns (k: nat)
    ensures issuer in Run(steps) ==> IsLatestStore(steps, issuer, k)
                                     && Run(steps)[issuer] == Cached(Published(steps[k].src, issuer).value, steps[k].at)
    ensures issuer !in Run(steps) ==> !exists i: nat :: IsLatestStore(steps, issuer, i)
  {
    k := 0;
    if steps == [] {
    } else {
      var n := |steps| - 1;
      if Stores(steps[n], issuer) {
        k := n;
      } else {
        k := CacheIsLatestStore(steps[..n], issuer);
        forall i: nat
          ensures IsLatestStore(steps, issuer, i) <==> IsLatestStore(steps[..n], issuer, i)
        {
          OtherStepKeepsLatest(steps, issuer, i);
        }
      }
    }
  }

  /**
   Agreement: at any point of any interleaving, a look-up yields keys if and only if the latest
   successful fetch for that very issuer is younger than the time-to-live, and then it yields what that
   fetch found. A failed fetch never shows.
   */
  lemma LookUpIff(steps: seq<Step>, issuer: string, now: nat, ttl: nat, keys: seq<Key>)
    ensures LookUp(Run(steps), issuer, now, ttl) == Some(keys) <==>
              exists k: nat ::
                && IsLatestStore(steps, issuer, k)
                && Publishes(steps[k].src, issuer, keys)
                && 0 < ttl && now < steps[k].at + ttl
  {
    hide Publishes;
    var latest := CacheIsLatestStore(steps, issuer);
    assert issuer in Run(steps) ==> forall k: nat :: IsLatestStore(steps, issuer, k) ==> k == latest;
  }

  /** Whatever a look-up yields at any point of any interleaving, it is servable. */
  lemma LookUpIsServable(steps: seq<Step>, issuer: string, now: nat, ttl: nat)
    requires LookUp(Run(steps), issuer, now, ttl).Some?
    ensures IsServable(LookUp(Run(steps), issuer, now, ttl).value)
  {
    var keys := LookUp(Run(steps), issuer, now, ttl).value;
    LookUpIff(steps, issuer, now, ttl, keys);
    var k: nat :| IsLatestStore(steps, issuer, k) && Publishes(steps[k].src, issuer, keys);
    PublishedIsServable(steps[k].src, issuer, keys);
  }

  lemma PublishedIsServable(src: Sources, issuer: string, keys: seq<Key>)
    requires Publishes(src, issuer, keys)
    ensures IsServable(keys)
  {
    var doc: Object, uri: string :|
      && Discovers(src, issuer, doc) && GetStr(doc, "jwks_uri") == Some(uri) && Fetched(src, src.keySet, uri).Some?
      && KeysOf(src, Fetched(src, src.keySet, uri).value) == Ok(keys);
    ParsedKeysAreServable(src, Fetched(src, src.keySet, uri).value);
  }
}
