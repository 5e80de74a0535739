/** Shared vocabulary: results, bytes, little-endian fields and byte-range updates. */
module Core {

  datatype Option<+T> = None | Some(value: T)

  datatype Result<+T, +E> = Ok(value: T) | Err(error: E)

  /** A list followed by the one still to come, if it comes. */
  function Appended<T, E>(front: seq<T>, r: Result<seq<T>, E>): Result<seq<T>, E> {
    if r.Ok? then Ok(front + r.value) else r
  }

  newtype byte = x: int | 0 <= x < 0x100

  type bytes = seq<byte>

  const U16_LIMIT := 0x1_0000
  const U32_LIMIT := 0x1_0000_0000
  const U64_LIMIT := 0x1_0000_0000_0000_0000

  function Min(a: int, b: int): int {
    if a <= b then a else b
  }

  function Max(a: int, b: int): int {
    if a <= b then b else a
  }

  predicate IsZero(block: bytes) {
    forall i :: 0 <= i < |block| ==> block[i] == 0
  }

  /** Rust's `div_ceil` on unsigned operands. */
  function DivCeil(a: nat, b: nat): nat
    requires b > 0
  {
    (a + b - 1) / b
  }

  function Zeros(n: nat): (z: bytes)
    ensures |z| == n
    ensures forall i :: 0 <= i < n ==> z[i] == 0
  {
    seq(n, _ => 0)
  }

  /** `u16::to_le_bytes`; callers write a truncating cast as `% U16_LIMIT`. */
  function Le16(v: nat): (b: bytes)
    requires v < U16_LIMIT
    ensures |b| == 2
  {
    [(v % 0x100) as byte, (v / 0x100) as byte]
  }

  function Le32(v: nat): (b: bytes)
    requires v < U32_LIMIT
    ensures |b| == 4
  {
    Le16(v % U16_LIMIT) + Le16(v / U16_LIMIT)
  }

  function Le64(v: nat): (b: bytes)
    requires v < U64_LIMIT
    ensures |b| == 8
  {
    Le32(v % U32_LIMIT) + Le32(v / U32_LIMIT)
  }

  function Get16(data: bytes, offset: nat): (v: nat)
    requires offset + 2 <= |data|
    ensures v < U16_LIMIT
  {
    data[offset] as int + 0x100 * (data[offset + 1] as int)
  }

  function Get32(data: bytes, offset: nat): (v: nat)
    requires offset + 4 <= |data|
    ensures v < U32_LIMIT
  {
    Get16(data, offset) + U16_LIMIT * Get16(data, offset + 2)
  }

  function Get64(data: bytes, offset: nat): (v: nat)
    requires offset + 8 <= |data|
    ensures v < U64_LIMIT
  {
    Get32(data, offset) + U32_LIMIT * Get32(data, offset + 4)
  }

  /** `Image::read_at` on a raw image: in range or nothing. */
  function Slice(image: bytes, offset: nat, n: nat): (r: Option<bytes>)
    ensures r.Some? ==> |r.value| == n
  {
    if offset + n <= |image| then Some(image[offset..offset + n]) else None
  }

  /** `data` carries `part` at `offset`. */
  predicate HasAt(data: bytes, offset: nat, part: bytes) {
    offset + |part| <= |data| && data[offset..offset + |part|] == part
  }

  /** A part of a part is found at the sum of the offsets. */
  lemma {:induction false} HasAtPart(data: bytes, offset: nat, whole: bytes, inner: nat, part: bytes)
    requires HasAt(data, offset, whole) && HasAt(whole, inner, part)
    ensures HasAt(data, offset + inner, part)
  {
    forall i | 0 <= i < |part|
      ensures data[offset + inner + i] == part[i]
    {
      assert part[i] == whole[inner..inner + |part|][i] == whole[inner + i];
      assert whole[inner + i] == data[offset..offset + |whole|][inner + i];
    }
  }

  lemma {:induction false} Read16(data: bytes, offset: nat, v: nat)
    requires v < U16_LIMIT && HasAt(data, offset, Le16(v))
    ensures Get16(data, offset) == v
  {
    assert data[offset] == data[offset..offset + 2][0];
    assert data[offset + 1] == data[offset..offset + 2][1];
  }

  lemma {:induction false} Read32(data: bytes, offset: nat, v: nat)
    requires v < U32_LIMIT && HasAt(data, offset, Le32(v))
    ensures Get32(data, offset) == v
  {
    var lo, hi := Le16(v % U16_LIMIT), Le16(v / U16_LIMIT);
    HasAtPart(data, offset, lo + hi, 0, lo);
    HasAtPart(data, offset, lo + hi, 2, hi);
    Read16(data, offset, v % U16_LIMIT);
    Read16(data, offset + 2, v / U16_LIMIT);
  }

  lemma {:induction false} Read64(data: bytes, offset: nat, v: nat)
    requires v < U64_LIMIT && HasAt(data, offset, Le64(v))
    ensures Get64(data, offset) == v
  {
    var lo, hi := Le32(v % U32_LIMIT), Le32(v / U32_LIMIT);
    HasAtPart(data, offset, lo + hi, 0, lo);
    HasAtPart(data, offset, lo + hi, 4, hi);
    hide Get32;
    Read32(data, offset, v % U32_LIMIT);
    Read32(data, offset + 4, v / U32_LIMIT);
  }
}
