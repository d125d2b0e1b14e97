/** Bytes, the machine-width bound on match counts, and the output framing
    shared by the four record algorithms. */
module Bytes {

  /** One byte of a record, a pattern or the output stream. */
  type byte = b: int | 0 <= b < 0x100

  /** `usize::MAX` on a 64-bit target. */
  const USIZE_MAX: int := 0xFFFF_FFFF_FFFF_FFFF

  type usize = n: int | 0 <= n <= USIZE_MAX

  datatype Option<+T> = None | Some(value: T) {
    /** The wrapped value, or `default` when there is none (`unwrap_or`). */
    function GetOr(default: T): T {
      match this
      case Some(v) => v
      case None => default
    }
  }

  function Min(a: int, b: int): int {
    if a <= b then a else b
  }

  /** The platform the binary was compiled for; it fixes the record terminator. */
  datatype Platform = Unix | Windows

  /** The record terminator written after a record's output: "\n", or "\r\n" on Windows. */
  function Newline(p: Platform): (nl: seq<byte>)
    ensures |nl| > 0 && nl[|nl| - 1] == 10
    ensures |nl| == 2 <==> p == Windows
  {
    match p
    case Unix => [10]
    case Windows => [13, 10]
  }

  /** What is written for a buffer that is flushed only when it holds something:
      the bytes followed by one terminator, or nothing at all. */
  function LineIfNonEmpty(bytes: seq<byte>, nl: seq<byte>): seq<byte> {
    if bytes == [] then [] else bytes + nl
  }

  /** Every chunk followed by one terminator. */
  function Lines(chunks: seq<seq<byte>>, nl: seq<byte>): seq<byte> {
    if chunks == [] then [] else Lines(chunks[..|chunks| - 1], nl) + chunks[|chunks| - 1] + nl
  }

  /** `k` copies of `x`, back to back. */
  function Repeat(x: seq<byte>, k: nat): seq<byte> {
    if k == 0 then [] else x + Repeat(x, k - 1)
  }

  /** How a run over the record stream ends, with the bytes it wrote to the
      output stream before it ended. */
  datatype Outcome =
    | Completed(written: seq<byte>)
    | Panicked(written: seq<byte>)
    | InvalidPattern

  /** Regrouping appends, stated once so that loops appending to the output
      stream need not rediscover it. */
  lemma AppendPair<T>(w: seq<T>, a: seq<T>, b: seq<T>)
    ensures w + (a + b) == w + a + b
  {
  }

  lemma AppendTwo<T>(w: seq<T>, a: seq<T>, b: seq<T>, x: seq<T>)
    ensures w + (a + b + x) == w + a + b + x
  {
  }
}
