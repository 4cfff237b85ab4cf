/** Shared vocabulary: optional values, bytes, and small sequence facts. */
module Common {

  datatype Option<+T> = None | Some(value: T)

  /** A `uint8_t`. */
  type byte = x: int | 0 <= x < 256

  function Min(a: int, b: int): int {
    if a < b then a else b
  }

  function Max(a: int, b: int): int {
    if a < b then b else a
  }

  /** Concatenation of a list of chunks, in order. */
  function Flatten<T>(chunks: seq<seq<T>>): seq<T> {
    if chunks == [] then [] else Flatten(chunks[..|chunks| - 1]) + chunks[|chunks| - 1]
  }

  lemma FlattenSnoc<T>(chunks: seq<seq<T>>, last: seq<T>)
    ensures Flatten(chunks + [last]) == Flatten(chunks) + last
  {
    assert (chunks + [last])[..|chunks|] == chunks;
  }

  lemma FlattenAfter<T>(head: seq<T>, chunks: seq<seq<T>>, last: seq<T>)
    ensures head + Flatten(chunks + [last]) == head + Flatten(chunks) + last
  {
    FlattenSnoc(chunks, last);
    assert head + (Flatten(chunks) + last) == head + Flatten(chunks) + last;
  }
}
