/** The paste lifecycle of `src/kv.rs`: building a `NewPaste`, checking its
    TTL, deriving the stored record, writing it under the id's simple key,
    and reading it back from an id string. */
module Kv {
  import opened Outcomes
  import opened Uuid
  import opened Chrono
  import opened Records
  import opened PasteJson
  import opened KvStore

  datatype KvError =
    | JsError(js: JsValue)
    | NotFound
    | SerdeJsonError(json: JsonError)
    | UnsupportedTtl(ttl: Uint32)
    | ExpReflectFailed
    | UuidError

  /** The smallest `expirationTtl` the KV store accepts, in seconds. */
  const MinTtl: nat := 60

  /** What a successful `put` returns: the record written and its path. */
  datatype Created = Created(stored: StoredPaste, path: string)

  /** The namespace after a `put`, and what the `put` returned. */
  datatype PutReply = PutReply(ns: Namespace, result: Result<Created, KvError>)

  predicate TtlAccepted(ttl: Option<Uint32>) {
    ttl.None? || ttl.value >= MinTtl
  }

  // ---------------------------------------------------------------- creation

  /** `NewPaste::new`, with the freshly generated v4 id passed in. Nothing is
      checked here: a TTL below the minimum is only refused by `Put`. */
  function New(id: Uuid, title: Option<string>, content: string, author: Option<string>,
               unlisted: bool, ttl: Option<Uint32>): (np: NewPaste)
    ensures np.id == id && np.title == title && np.content == content
    ensures np.author == author && np.unlisted == unlisted && np.ttl == ttl
  {
    NewPaste(id, title, content, author, unlisted, ttl)
  }

  /** `NewPaste::simple_id_string`: the storage key, 32 lowercase hex digits
      that parse back to the paste's id. */
  function SimpleIdString(np: NewPaste): (s: string)
    ensures |s| == 32 && IsLowerHex(s)
    ensures ParseStr(s) == Some(np.id)
  {
    ParseEncodeLower(np.id);
    EncodeLower(np.id)
  }

  /** The store-level options `put` builds from the requested TTL. */
  function ExpirationOptions(ttl: Option<Uint32>): (r: Result<PutOptions, KvError>)
    ensures r.Ok? <==> TtlAccepted(ttl)
    ensures r.Ok? ==> r.value.expirationTtl == ttl
    ensures r.Err? ==> r.error == UnsupportedTtl(ttl.value)
  {
    match ttl
    case Some(t) => if t < MinTtl then Err(UnsupportedTtl(t)) else Ok(PutOptions(Some(t)))
    case None => Ok(PutOptions(None))
  }

  /** `NewPaste::prepare`, with `Utc::now()` passed in as `now`. */
  function Prepare(np: NewPaste, now: Instant): (p: StoredPaste)
    ensures p.title == np.title && p.content == np.content
    ensures p.author == np.author && p.unlisted == np.unlisted
    ensures np.ttl.None? ==> p.exp.None?
    ensures np.ttl.Some? ==> (p.exp.Some? <==> now + np.ttl.value <= MaxInstant)
    ensures p.exp.Some? ==> np.ttl.Some? && p.exp.value == now + np.ttl.value
  {
    var exp := match np.ttl
      case Some(ttl) => CheckedAddSeconds(now, ttl)
      case None => None;
    StoredPaste(np.title, np.content, np.author, np.unlisted, exp)
  }

  /** `NewPaste::put`: check the TTL, prepare the record, write its JSON
      under the simple id key, and return the record with its path. */
  function Put(np: NewPaste, now: Instant, ns: Namespace, t: Transport): (r: PutReply)
    ensures r.result.Ok? <==> TtlAccepted(np.ttl) && t.Resolves?
    ensures r.result.Err? ==> r.ns == ns
    ensures !TtlAccepted(np.ttl) ==> r.result == Err(UnsupportedTtl(np.ttl.value))
    ensures TtlAccepted(np.ttl) && t.Rejects? ==> r.result == Err(JsError(t.error))
    ensures r.result.Ok? ==>
      var key := SimpleIdString(np);
      var stored := r.result.value.stored;
      && stored == Prepare(np, now)
      && r.result.value.path == "/paste/" + key
      && r.ns.entries == ns.entries[key := Entry(Encode(stored), np.ttl)]
  {
    match ExpirationOptions(np.ttl)
    case Err(e) => PutReply(ns, Err(e))
    case Ok(opts) =>
      var stored := Prepare(np, now);
      var json := Encode(stored);
      var key := EncodeLower(np.id);
      match NsPut(ns, key, json, opts, t)
      case Err(js) => PutReply(ns, Err(JsError(js)))
      case Ok(ns') => PutReply(ns', Ok(Created(stored, "/paste/" + key)))
  }

  // ------------------------------------------------------------------ lookup

  /** `StoredPaste::get_from_exact_key`. */
  function GetFromExactKey(key: string, ns: Namespace, t: Transport)
    : (r: Result<Option<StoredPaste>, KvError>)
    ensures t.Rejects? ==> r == Err(JsError(t.error))
    ensures t.Resolves? && key !in ns.entries ==> r == Ok(None)
    ensures t.Resolves? && key in ns.entries && IsJsonNull(ns.entries[key].value) ==> r == Ok(None)
    ensures t.Resolves? && key in ns.entries && !IsJsonNull(ns.entries[key].value) ==>
      match Decode(ns.entries[key].value)
      case Ok(p) => r == Ok(Some(p))
      case Err(e) => r == Err(SerdeJsonError(e))
  {
    match NsGet(ns, key, t)
    case Err(js) => Err(JsError(js))
    case Ok(None) => Ok(None)
    case Ok(Some(text)) =>
      match Decode(text)
      case Ok(p) => Ok(Some(p))
      case Err(e) => Err(SerdeJsonError(e))
  }

  /** `StoredPaste::get`: look the id up under its simple lowercase key. */
  function Get(u: Uuid, ns: Namespace, t: Transport): (r: Result<Option<StoredPaste>, KvError>)
    ensures t.Resolves? && EncodeLower(u) !in ns.entries ==> r == Ok(None)
    ensures r == GetFromExactKey(EncodeLower(u), ns, t)
  {
    GetFromExactKey(EncodeLower(u), ns, t)
  }

  /** `StoredPaste::get_from_uuid_str`: a string that is not a UUID cannot
      name a paste, so the store is not consulted for it. */
  function GetFromUuidStr(s: string, ns: Namespace, t: Transport)
    : (r: Result<Option<StoredPaste>, KvError>)
    ensures ParseStr(s).None? ==> r == Ok(None)
    ensures ParseStr(s).Some? ==> r == GetFromExactKey(EncodeLower(ParseStr(s).value), ns, t)
  {
    match ParseStr(s)
    case Some(u) => Get(u, ns, t)
    case None => Ok(None)
  }

  // --------------------------------------------------------------- lifecycle

  /** Construction accepts any TTL; one below the minimum is refused by the
      later `put`, with the namespace untouched. */
  lemma NewThenPutShortTtl(id: Uuid, title: Option<string>, content: string,
                           author: Option<string>, unlisted: bool, ttl: Uint32,
                           now: Instant, ns: Namespace, t: Transport)
    requires ttl < MinTtl
    ensures New(id, title, content, author, unlisted, Some(ttl)).ttl == Some(ttl)
    ensures Put(New(id, title, content, author, unlisted, Some(ttl)), now, ns, t)
            == PutReply(ns, Err(UnsupportedTtl(ttl)))
  {
  }

  /** The store-level expiry and the record's `exp` after a successful put. */
  lemma PutExpiry(np: NewPaste, now: Instant, ns: Namespace, t: Transport)
    requires Put(np, now, ns, t).result.Ok?
    ensures var key := SimpleIdString(np);
      var r := Put(np, now, ns, t);
      var exp := r.result.value.stored.exp;
      && key in r.ns.entries
      && r.ns.entries[key].expirationTtl == np.ttl
      && (np.ttl.None? ==> exp.None?)
      && (np.ttl.Some? ==> np.ttl.value >= MinTtl)
      && (np.ttl.Some? ==> (exp.Some? <==> now + np.ttl.value <= MaxInstant))
      && (exp.Some? ==> exp.value == now + np.ttl.value && exp.value > now)
  {
  }

  /** The record written carries the request's fields unchanged, so its
      display title is the requested one or the default. */
  lemma PutKeepsFields(np: NewPaste, now: Instant, ns: Namespace, t: Transport)
    requires Put(np, now, ns, t).result.Ok?
    ensures var p := Put(np, now, ns, t).result.value.stored;
      && p.title == np.title && p.content == np.content
      && p.author == np.author && p.unlisted == np.unlisted
      && GetTitle(p) == (if np.title.Some? then np.title.value else UntitledPaste)
  {
  }

  /** After a successful put, looking the paste up by the path's id segment,
      or by the id's hyphenated form, yields the record that was returned. */
  lemma GetAfterPut(np: NewPaste, now: Instant, ns: Namespace)
    requires Put(np, now, ns, Resolves).result.Ok?
    ensures var r := Put(np, now, ns, Resolves);
      var stored := r.result.value.stored;
      && r.result.value.path == "/paste/" + SimpleIdString(np)
      && GetFromUuidStr(SimpleIdString(np), r.ns, Resolves) == Ok(Some(stored))
      && GetFromUuidStr(EncodeHyphenated(np.id), r.ns, Resolves) == Ok(Some(stored))
  {
    var r := Put(np, now, ns, Resolves);
    var key := SimpleIdString(np);
    ParseEncodeLower(np.id);
    ParseEncodeHyphenated(np.id);
    DecodeEncode(r.result.value.stored);
    assert r.ns.entries[key].value == Encode(r.result.value.stored);
    NotJsonNull(Encode(r.result.value.stored));
  }

  /** A put changes no other paste: lookups of every other id answer as
      before. */
  lemma PutKeepsOtherPastes(np: NewPaste, now: Instant, ns: Namespace, t: Transport,
                            u: Uuid, t': Transport)
    requires u != np.id
    ensures Get(u, Put(np, now, ns, t).ns, t') == Get(u, ns, t')
  {
    EncodeLowerInjective(u, np.id);
  }

  /** Lookup never reports `NotFound` (a missing key is `Ok(None)`); its only
      failures are the store call failing and the stored text not decoding. */
  lemma LookupErrors(s: string, ns: Namespace, t: Transport)
    ensures var r := GetFromUuidStr(s, ns, t);
      r.Err? ==> r.error.JsError? || r.error.SerdeJsonError?
  {
  }

  /** `put` fails only for a TTL below the minimum or a failed store call. */
  lemma PutErrors(np: NewPaste, now: Instant, ns: Namespace, t: Transport)
    ensures var r := Put(np, now, ns, t).result;
      r.Err? ==> r.error.UnsupportedTtl? || r.error.JsError?
  {
  }

  /** An id string that does not parse gets `Ok(None)` whatever the store
      holds and even when every store call would fail. */
  lemma UnparsedIdIgnoresStore(s: string, ns: Namespace, ns': Namespace, t': Transport)
    requires ParseStr(s).None?
    ensures GetFromUuidStr(s, ns', t') == GetFromUuidStr(s, ns, Resolves) == Ok(None)
  {
  }
}
