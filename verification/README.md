# Paste lifecycle of pasta, modelled in Dafny

pasta is a small pastebin that runs as a Cloudflare Worker. Its paste
lifecycle lives in `src/kv.rs`, and this project models that part. A
`NewPaste` is built from the submitted fields and a fresh v4 UUID.
`NewPaste::put` refuses a time to live below 60 seconds before it writes
anything. Otherwise `prepare` derives the absolute expiration as now + ttl,
which becomes "never" when the sum overflows. `put` then writes the record's
JSON text under the id's 32-digit lowercase key in the KV namespace and
returns the record with the path `/paste/<key>`. Lookup goes through
`get_from_uuid_str`. A string that is not a UUID gives "no paste" without a
store call. Otherwise a missing key gives `Ok(None)` and a present value
gives the decoded record.

Modules (one file each):

- `Outcomes` (`outcomes.dfy`): `Option` and `Result`, which work with `:-`.
- `Uuid` (`uuid.dfy`): a UUID as 16 bytes. It has the lowercase simple
  encoding used as the storage key and the hyphenated encoding. It also
  models `Uuid::parse_str`, which accepts three forms: 32 hex digits, the
  8-4-4-4-12 hyphenated form, and `urn:uuid:` followed by the hyphenated
  form, with hex digits of either case. Proved: the key parses back to its
  id, the key is injective, and a lowercase 32-digit string that parses is
  itself the key.
- `Chrono` (`chrono.dfy`): instants as whole seconds, bounded by chrono 0.4's
  representable range. It gives `checked_add_signed` for a non-negative
  number of seconds.
- `Records` (`records.dfy`): `StoredPaste`, `NewPaste` and `get_title`.
- `PasteJson` (`pastejson.dfy`): a stand-in for the serde_json text of a
  `StoredPaste`. It is a compact object with the fields in declaration order
  and absent `Option` fields omitted. It comes with a decoder and a proof
  that decoding undoes encoding.
- `KvStore` (`kvstore.dfy`): the `PasteNs` namespace as a map from key to an
  entry. An entry holds the text and the `expirationTtl` it was written with.
  A foreign call's promise is a `Transport` parameter, which either resolves
  or rejects with a JavaScript value.
- `Kv` (`kv.dfy`): `KvError`, `NewPaste::{new, put, prepare,
  simple_id_string}`, `StoredPaste::{get, get_from_uuid_str,
  get_from_exact_key}`, and lemmas that relate creation to lookup.

Inputs that come from outside the code become parameters:

- the v4 id produced by `Uuid::new_v4` (to `Kv.New`);
- `Utc::now()` (to `Kv.Prepare` and `Kv.Put`);
- the KV namespace's contents;
- how each KV promise settles.

Some behaviour of `src/kv.rs` is easy to misread, and the model keeps it as
the code has it:

- Lookup accepts more than the 32-digit key. `Uuid::parse_str` also accepts
  the hyphenated and `urn:uuid:` forms, in either case, and all of them reach
  the same lowercase key.
- Only `put` rejects a TTL below 60. `NewPaste::new` and `prepare` accept any
  TTL, and `prepare` computes `now + ttl` for it.
- `put` passes the requested `ttl` straight through as `expirationTtl`. So
  when `exp` overflows to "never", the store still expires the entry after
  `ttl` seconds.
- A stored text that is the JSON literal `null` reads as "no paste", the same
  as a missing key, because the lookup checks `is_null` on the parsed value.

## Model

| member | source | states |
|---|---|---|
| `Records.GetTitle` | src/kv.rs:79-86 | the display title is the stored title when present and "Untitled paste" otherwise |
| `Uuid.EncodeLower` | src/kv.rs:89-90 | the simple lowercase encoding of an id is 32 characters, each a digit or a-f |
| `Uuid.ParseStr` | src/kv.rs:99 | `Uuid::parse_str` succeeds exactly on the three well-formed shapes: 32 hex digits, the 8-4-4-4-12 hyphenated form, or `urn:uuid:` and the hyphenated form, hex digits in either case; so only lengths 32, 36 and 45 parse |
| `Uuid.ParseEncodeLower` | src/kv.rs:88-103 | parsing an id's storage key gives back that id |
| `Uuid.ParseEncodeHyphenated` | src/kv.rs:99-100 | the hyphenated form of an id also parses to that id, so it reaches the same key |
| `Uuid.EncodeLowerInjective` | src/kv.rs:183-188 | two ids have the same storage key if and only if they are the same id |
| `Uuid.ParsedSimpleIsKey` | src/kv.rs:88-103 | a 32-digit lowercase string that parses is exactly the storage key of the parsed id |
| `Chrono.CheckedAddSeconds` | src/kv.rs:210-215 | adding a TTL to now succeeds exactly when the sum stays within the last representable instant, and then it is the exact sum |
| `PasteJson.Encode` | src/kv.rs:182 | the serialized text is an object that opens with `{` and closes with `}`, starts with the title field exactly when the paste has a title and otherwise with the content field, and ends with the unlisted flag followed by the exp field only when `exp` is present |
| `PasteJson.Decode` | src/kv.rs:118 | a text that decodes is exactly the serialized text of the paste it decodes to |
| `PasteJson.DecodeAcceptsExactlyEncodings` | src/kv.rs:118 | decoding a text gives a paste if and only if the text is that paste's serialized text |
| `PasteJson.DecodeEncode` | src/kv.rs:62-76 | decoding the serialized text of any stored paste, with or without its optional fields, gives back that paste |
| `PasteJson.EncodeOmitsAbsent` | src/kv.rs:62-76 | a paste without title, author and exp is written with only its content and unlisted fields, with no null entries |
| `KvStore.NsGet` | src/kv.rs:16 | assumed behaviour of the namespace get with the `"json"` read type: a rejected promise is an error; the result is null exactly when the key is missing or its text is the JSON literal `null` (whitespace around it allowed); any other present key yields its stored text |
| `KvStore.NotJsonNull` | src/kv.rs:110 | a text that begins with a character other than whitespace or `n`, such as a serialized object, is never read as null |
| `KvStore.NsPut` | src/kv.rs:19 | assumed behaviour of the namespace put: a resolved put sets exactly the given key to the text and its options and keeps every other entry, and a rejected put is an error |
| `Kv.New` | src/kv.rs:144-154 | construction never fails and keeps id, title, content, author, unlisted and ttl exactly as given, including a TTL below 60 |
| `Kv.SimpleIdString` | src/kv.rs:202-205 | the id string is 32 lowercase hex digits and parses back to the paste's id |
| `Kv.ExpirationOptions` | src/kv.rs:157-177 | a TTL below 60 is refused with `UnsupportedTtl(ttl)`; otherwise the store options carry exactly the requested TTL, or no expiry when none was requested |
| `Kv.Prepare` | src/kv.rs:207-226 | title, content, author and unlisted are copied; with no TTL `exp` is absent; with a TTL `exp` is `now + ttl` when that is representable and absent when the addition overflows |
| `Kv.Put` | src/kv.rs:156-199 | put succeeds if and only if the TTL is absent or at least 60 and the store call resolves; on any error the namespace is unchanged; a short TTL gives `UnsupportedTtl(ttl)` and a rejected store call gives `JsError`; on success exactly the simple-id key is set to the returned record's JSON and the requested TTL, and the path is "/paste/" followed by that key |
| `Kv.GetFromExactKey` | src/kv.rs:105-124 | a rejected store call is `JsError`; a missing key and a stored JSON `null` are both `Ok(None)`; any other present value is `Ok(Some(decoded))`, or `SerdeJsonError` when it does not decode |
| `Kv.Get` | src/kv.rs:88-92 | lookup by id reads the id's simple lowercase key; an id never written gives `Ok(None)` |
| `Kv.GetFromUuidStr` | src/kv.rs:94-103 | a string that does not parse gives `Ok(None)`; a parsed id is looked up under its simple lowercase key |
| `Kv.NewThenPutShortTtl` | src/kv.rs:144-159 | a paste built with a TTL below 60 is accepted by `new`, and its `put` fails with `UnsupportedTtl(ttl)` and leaves the namespace as it was |
| `Kv.PutExpiry` | src/kv.rs:156-218 | after a successful put the store entry's expiry equals the requested TTL (none when none was requested), and a present `exp` is now + ttl, strictly later than now |
| `Kv.PutKeepsFields` | src/kv.rs:219-225 | the record a successful put returns has the request's title, content, author and unlisted flag, and its display title is the requested title or the default |
| `Kv.GetAfterPut` | src/kv.rs:179-198 | after a successful put, looking up the returned path's id segment, or the id's hyphenated form, yields exactly the returned record |
| `Kv.PutKeepsOtherPastes` | src/kv.rs:183-188 | a put, whether it succeeds or fails, leaves the lookup of every other id unchanged |
| `Kv.LookupErrors` | src/kv.rs:105-124 | lookup never reports `NotFound`; its only errors are `JsError` and `SerdeJsonError` |
| `Kv.PutErrors` | src/kv.rs:156-199 | put's only errors are `UnsupportedTtl` and `JsError` |
| `Kv.UnparsedIdIgnoresStore` | src/kv.rs:99-102 | an id string that does not parse gives `Ok(None)` for every namespace, even when every store call would fail, so the store is never consulted |

## Left out

- `PasteNs` bindings, `JsFuture` awaiting and `console.log` (src/kv.rs:11-26): these are foreign asynchronous calls. They are modelled as synchronous functions on a map, and a `Transport` parameter says whether the promise resolves. The model assumes that a rejected put writes nothing. `PasteNs::delete` is never called by the modelled code.
- `js_sys::Reflect::set` and `KvError::ExpReflectFailed` (src/kv.rs:162-172): this is foreign object construction. The options object is an abstract `PutOptions(Option<ttl>)`, and the variant exists but is never produced.
- `KvError::NotFound` and `KvError::UuidError` exist as variants. No modelled function produces them.
- The store's own expiry of entries over time is not modelled. The model records only the `expirationTtl` that each entry was written with.
- `Uuid::new_v4` (src/kv.rs:152): it draws random numbers, so the id is a parameter and its version and variant bits are not constrained.
- `Uuid.ParseStr`: this models the uuid 0.8 grammar (simple, hyphenated, `urn:uuid:`). The crate's code is not part of this model. Its error kinds are collapsed into `None`, because `get_from_uuid_str` discards the error.
- `PasteJson.Decode`: it accepts only the exact text that `Encode` writes, so it is stricter than serde_json. serde_json also accepts other field orders, whitespace between tokens, `null` for an absent option, unknown fields, other escape spellings and `-0`. None of these appear in text this code writes.
- `PasteJson.Encode`: `exp` is written as decimal seconds since the epoch, not as chrono's RFC 3339 text. Only `"`, `\`, newline, carriage return and tab are escaped. Every other character, including backspace, form feed and the other control characters, is written raw, whereas serde_json writes `\b`, `\f` and `\u00XX` escapes for them. These are simplifications of library code.
- `PasteJson.Encode`: `serde_json::to_string` at src/kv.rs:182 returns a `Result`. It cannot fail for this record, which holds only strings, a flag and a timestamp, so the model's encoding is total and `Kv.Put` has no `SerdeJsonError` path.
- `Kv.GetFromExactKey`: the namespace's `"json"` read type parses the value on the JavaScript side. A value that is not valid JSON would therefore reject the promise (`JsError`). The model reports it as `SerdeJsonError`.
- `Chrono.CheckedAddSeconds`: `Utc::now()` has sub-second precision. The model drops it. This does not change whether the addition overflows.
- `StoredPaste::render_html` and src/templates.rs: these are HTML presentation through maud.
- src/lib.rs: this is an earlier snapshot with its own binding, renderer and get. It has no logic independent of src/kv.rs.
- worker/worker.js: this is JavaScript runtime glue.
- Request routing and form handling are outside `src/kv.rs`, so they are not part of this model.
