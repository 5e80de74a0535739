/** Buffers that callers hand in. */
module Buffers {
  import opened Core

  /** Copies into the caller's buffer, as `copy_from_slice` and `read_at` do. */
  method CopyInto(buffer: array<byte>, at: nat, data: bytes)
    requires at + |data| <= buffer.Length
    modifies buffer
    ensures buffer[..] == old(buffer[..at]) + data + old(buffer[at + |data|..])
  {
    ghost var before := buffer[..];
    for i := 0 to |data|
      invariant buffer[..at + i] == before[..at] + data[..i]
      invariant buffer[at + i..] == before[at + i..]
    {
      buffer[at + i] := data[i];
      assert buffer[..at + i + 1] == buffer[..at + i] + [data[i]];
    }
    assert buffer[..] == buffer[..at + |data|] + buffer[at + |data|..];
  }
}
