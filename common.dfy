/** Definitions shared by every part of the model. */
module Common {

  /** An unsigned 8-bit value, as the sources' `unsigned char`. */
  newtype byte = x: int | 0 <= x < 256

  /** A possibly missing value: `None` stands for a C NULL pointer. */
  datatype Option<T> = None | Some(value: T)

  /** Error codes of libavcodec's `AVERROR(e)` family (`-errno` on Linux). */
  const AVERROR_NOMEM: int := -12
  const AVERROR_INVALIDDATA: int := -22

  /** Highest score a demuxer's probe can return. */
  const AVPROBE_SCORE_MAX: int := 100

  /** Concatenation regroups freely. */
  lemma SeqAssoc<T>(a: seq<T>, b: seq<T>, c: seq<T>)
    ensures a + (b + c) == (a + b) + c
  {
  }
}
