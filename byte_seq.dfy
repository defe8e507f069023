/** Bytes and byte strings, and the concatenation of a sequence of byte strings. */
module ByteSeq {

  newtype byte = x: int | 0 <= x < 256

  type Bytes = seq<byte>

  /** The byte strings of `parts`, written one after another. */
  function Concat(parts: seq<Bytes>): Bytes
  {
    if parts == [] then [] else Concat(parts[..|parts| - 1]) + parts[|parts| - 1]
  }

  /** Writing one more part appends exactly that part. */
  lemma ConcatSnoc(parts: seq<Bytes>, last: Bytes)
    ensures Concat(parts + [last]) == Concat(parts) + last
  {
    assert (parts + [last])[..|parts|] == parts;
  }
}
