/**
 Shared vocabulary of the model: optional values, bytes and the symbolic
 URL that playlist entries resolve to.
 */
module Basics {

  datatype Option<+T> = None | Some(value: T) {
    function GetOr(default: T): T {
      match this
      case Some(v) => v
      case None => default
    }
  }

  /** An unsigned 8-bit value. */
  newtype Byte = x: int | 0 <= x < 256
  type Bytes = seq<Byte>

  /** `base.deletingLastPathComponent().appendingPathComponent(path)`, kept
      symbolic: the model never inspects URLs, it only tracks which line of
      which manifest a location was resolved from. */
  datatype Url = Resolved(base: Url, path: string) | Remote(address: string)

  function Resolve(base: Url, path: string): (u: Url)
    ensures u.Resolved? && u.path == path && u.base == base
  {
    Resolved(base, path)
  }

  /** Half-open integer range `lower..<upper` (Swift's `Range<Int64>`). */
  datatype ByteRange = ByteRange(lower: int, upper: int) {
    function Length(): int { upper - lower }
  }

  function Max(a: int, b: int): int { if a < b then b else a }
  function Min(a: int, b: int): int { if a < b then a else b }
}
