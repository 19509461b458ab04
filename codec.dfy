/**
 * The attributes an editorial metadata term keeps in its description field.
 *
 * The term store offers one free-text description per term; the plugin packs
 * the real description together with the position, the type and the post-meta
 * key into it. How that text is laid out belongs to a helper that is not part
 * of this model, so the stored value is an abstract `Blob`: either something
 * `Encode` produced, or plain text written by someone else.
 */
module Codec {
  import opened Wrappers

  /** A term's position: `Unset` stands for PHP `false`/`null`. */
  datatype Position = Unset | At(n: int)

  /** PHP truthiness of a position: set and non-zero. */
  predicate Truthy(p: Position) {
    p.At? && p.n != 0
  }

  /** PHP `(int)` of a position: `false` reads as 0. */
  function PositionNumber(p: Position): int {
    if p.At? then p.n else 0
  }

  /** The attributes packed into the description field. */
  datatype Attrs = Attrs(description: string, position: Position, metaType: string, metaKey: Option<string>)

  /** What the store holds in a term's description field. */
  datatype Blob = Encoded(attrs: Attrs) | Plain(text: string)

  function Encode(a: Attrs): (b: Blob)
    ensures Decode(b) == Some(a)
  {
    Encoded(a)
  }

  /** Decoding never fails: text that carries no attributes decodes to `None`. */
  function Decode(b: Blob): (r: Option<Attrs>)
    ensures r.None? <==> b.Plain?
  {
    match b
    case Encoded(a) => Some(a)
    case Plain(_) => None
  }
}
