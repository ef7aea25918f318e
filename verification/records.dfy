/** The two paste records of `src/kv.rs`: `StoredPaste`, the value kept in
    the KV namespace, and `NewPaste`, a creation request that has not been
    written yet. */
module Records {
  import opened Outcomes
  import opened Uuid
  import opened Chrono

  /** Rust's `u32`. */
  type Uint32 = x: int | 0 <= x < 0x1_0000_0000

  datatype StoredPaste = StoredPaste(
    title: Option<string>,
    content: string,
    author: Option<string>,
    unlisted: bool,
    exp: Option<Instant>)

  /** `ttl` is the requested time to live in seconds; `None` never expires. */
  datatype NewPaste = NewPaste(
    id: Uuid,
    title: Option<string>,
    content: string,
    author: Option<string>,
    unlisted: bool,
    ttl: Option<Uint32>)

  const UntitledPaste: string := "Untitled paste"

  /** `StoredPaste::get_title`: the display title, defaulting when absent. */
  function GetTitle(p: StoredPaste): (t: string)
    ensures p.title.Some? ==> t == p.title.value
    ensures p.title.None? ==> t == "Untitled paste"
  {
    match p.title
    case Some(s) => s
    case None => UntitledPaste
  }
}
