/** The Workers KV namespace bound as `PasteNs`, as synchronous operations
    on a map from key to stored text. `Transport` stands for how the foreign
    promise settles: resolved, or rejected with a JavaScript value. */
module KvStore {
  import opened Outcomes
  import opened Records

  /** A thrown JavaScript value; only its identity matters here. */
  datatype JsValue = JsValue(repr: string)

  /** The options object passed to `PasteNs.put`: `{ expirationTtl: n }`
      or the empty object `{}`. */
  datatype PutOptions = PutOptions(expirationTtl: Option<Uint32>)

  datatype Entry = Entry(value: string, expirationTtl: Option<Uint32>)

  datatype Namespace = Namespace(entries: map<string, Entry>)

  datatype Transport = Resolves | Rejects(error: JsValue)

  /** The whitespace `JSON.parse` skips around a value. */
  predicate IsJsonSpace(c: char) {
    c == ' ' || c == '\t' || c == '\n' || c == '\r'
  }

  /** `s` without its leading JSON whitespace. */
  function TrimStart(s: string): (r: string)
    ensures |r| <= |s| && r == s[|s| - |r|..]
    ensures forall k :: 0 <= k < |s| - |r| ==> IsJsonSpace(s[k])
    ensures r == [] || !IsJsonSpace(r[0])
  {
    if |s| > 0 && IsJsonSpace(s[0]) then TrimStart(s[1..]) else s
  }

  /** `s` without its trailing JSON whitespace. */
  function TrimEnd(s: string): (r: string)
    ensures |r| <= |s| && r == s[..|r|]
    ensures forall k :: |r| <= k < |s| ==> IsJsonSpace(s[k])
    ensures r == [] || !IsJsonSpace(r[|r| - 1])
  {
    if |s| > 0 && IsJsonSpace(s[|s| - 1]) then TrimEnd(s[..|s| - 1]) else s
  }

  /** The stored text parses to the JSON value `null`. */
  predicate IsJsonNull(s: string) {
    TrimEnd(TrimStart(s)) == "null"
  }

  /** A text that starts with anything but whitespace or `n` is not `null`. */
  lemma NotJsonNull(s: string)
    requires |s| > 0 && !IsJsonSpace(s[0]) && s[0] != 'n'
    ensures !IsJsonNull(s)
  {
    assert TrimStart(s) == s;
    var b := TrimEnd(s);
    assert |b| > 0 ==> b[0] == s[0];
  }

  /** `PasteNs.get(key, "json")`: the stored text parsed as JSON, with
      JavaScript `null` (here `None`) for a missing key and for a text that
      is the JSON literal `null`. */
  function NsGet(ns: Namespace, key: string, t: Transport): (r: Result<Option<string>, JsValue>)
    ensures t.Rejects? ==> r == Err(t.error)
    ensures t.Resolves? ==> r.Ok?
    ensures r.Ok? ==> (r.value.None? <==> key !in ns.entries || IsJsonNull(ns.entries[key].value))
    ensures t.Resolves? && key in ns.entries && !IsJsonNull(ns.entries[key].value) ==>
      r.value == Some(ns.entries[key].value)
  {
    match t
    case Rejects(e) => Err(e)
    case Resolves =>
      if key in ns.entries && !IsJsonNull(ns.entries[key].value)
      then Ok(Some(ns.entries[key].value))
      else Ok(None)
  }

  /** `PasteNs.put(key, val, opts)`: a resolved put replaces the one entry
      under `key`; a rejected one leaves the namespace as it was. */
  function NsPut(ns: Namespace, key: string, val: string, opts: PutOptions, t: Transport)
    : (r: Result<Namespace, JsValue>)
    ensures t.Rejects? ==> r == Err(t.error)
    ensures t.Resolves? ==> r.Ok?
    ensures r.Ok? ==> key in r.value.entries && r.value.entries[key] == Entry(val, opts.expirationTtl)
    ensures r.Ok? ==> r.value.entries.Keys == ns.entries.Keys + {key}
    ensures r.Ok? ==> forall k :: k in ns.entries && k != key ==> r.value.entries[k] == ns.entries[k]
  {
    match t
    case Rejects(e) => Err(e)
    case Resolves => Ok(Namespace(ns.entries[key := Entry(val, opts.expirationTtl)]))
  }
}
