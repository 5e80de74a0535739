/** Bits of a byte block, set one at a time with a read-modify-write of one byte. */
module Bitmaps {
  import opened Core
  import opened Arith
  import opened OutFile
  import opened Spans

  /** Bit `k` of a number. */
  predicate Bit(v: nat, k: nat) {
    if k == 0 then v % 2 == 1 else Bit(v / 2, k - 1)
  }

  /** `v | 1 << k`. */
  function WithBit(v: nat, k: nat): nat {
    if k == 0 then v / 2 * 2 + 1 else WithBit(v / 2, k - 1) * 2 + v % 2
  }

  function Pow2(n: nat): (p: nat)
    ensures p > 0
  {
    if n == 0 then 1 else 2 * Pow2(n - 1)
  }

  lemma {:induction false} BitIs(v: nat, k: nat)
    ensures Bit(v, k) <==> v / Pow2(k) % 2 == 1
    decreases k
  {
    if k > 0 {
      BitIs(v / 2, k - 1);
      DivTwice(v, Pow2(k - 1));
    }
  }

  lemma {:induction false} DivTwice(v: nat, m: nat)
    requires m > 0
    ensures v / 2 / m == v / (2 * m)
  {
    var h, q, r := v / 2, v / 2 / m, v / 2 % m;
    assert v == 2 * h + v % 2 && h == q * m + r;
    assert v == q * (2 * m) + (2 * r + v % 2);
    DivUnique(v, q, 2 * r + v % 2, 2 * m);
  }

  lemma {:induction false} WithBitBits(v: nat, k: nat, j: nat)
    ensures Bit(WithBit(v, k), j) == (j == k || Bit(v, j))
  {
    if k > 0 && j > 0 {
      WithBitBits(v / 2, k - 1, j - 1);
    }
  }

  lemma {:induction false} WithBitBound(v: nat, k: nat, n: nat)
    requires k < n && v < Pow2(n)
    ensures WithBit(v, k) < Pow2(n)
  {
    if k > 0 {
      WithBitBound(v / 2, k - 1, n - 1);
    }
  }

  lemma {:induction false} ByteIsPow2()
    ensures Pow2(8) == 0x100
  {
    assert Pow2(3) == 8;
    assert Pow2(6) == 64;
  }

  function ByteWithBit(b: byte, k: nat): byte
    requires k < 8
  {
    ByteIsPow2();
    WithBitBound(b as int, k, 8);
    WithBit(b as int, k) as byte
  }

  /** Bit `i` of a block. */
  predicate BitAt(block: bytes, i: nat)
    requires i < 8 * |block|
  {
    Bit(block[i / 8] as int, i % 8)
  }

  function SetBitIn(block: bytes, i: nat): (r: bytes)
    requires i < 8 * |block|
    ensures |r| == |block|
  {
    block[i / 8 := ByteWithBit(block[i / 8], i % 8)]
  }

  lemma {:induction false} SetBitBits(block: bytes, i: nat, j: nat)
    requires i < 8 * |block| && j < 8 * |block|
    ensures BitAt(SetBitIn(block, i), j) == (j == i || BitAt(block, j))
  {
    hide Bit, WithBit;
    if i / 8 == j / 8 {
      WithBitBits(block[i / 8] as int, i % 8, j % 8);
    }
  }

  /** The bits of the block are exactly those in `marked`. */
  ghost predicate Marks(block: bytes, marked: set<nat>) {
    forall i: nat :: i < 8 * |block| ==> (BitAt(block, i) <==> i in marked)
  }

  lemma {:induction false} ZeroBits(k: nat)
    ensures !Bit(0, k)
  {
    if k > 0 {
      ZeroBits(k - 1);
    }
  }

  lemma {:induction false} NothingSet(n: nat)
    ensures Marks(Zeros(n), {})
  {
    var block := Zeros(n);
    forall i: nat | i < 8 * n
      ensures !BitAt(block, i)
    {
      assert block[i / 8] == 0;
      ZeroBits(i % 8);
    }
  }

  lemma {:induction false} MarksMore(block: bytes, marked: set<nat>, i: nat)
    requires Marks(block, marked) && i < 8 * |block|
    ensures Marks(SetBitIn(block, i), marked + {i})
  {
    hide BitAt, SetBitIn;
    forall j: nat | j < 8 * |block|
      ensures BitAt(SetBitIn(block, i), j) <==> j in marked + {i}
    {
      SetBitBits(block, i, j);
    }
  }

  lemma {:induction false} SetAsOverwrite(block: bytes, i: nat)
    requires i < 8 * |block|
    ensures Overwrite(block, i / 8, [ByteWithBit(block[i / 8], i % 8)]) == SetBitIn(block, i)
  {
    hide ByteWithBit;
  }

  /** `or_byte` of one bit, in the bitmap of `len` bytes at `base`. */
  method OrBit(image: File, base: nat, len: nat, i: nat, ghost marked: set<nat>)
    requires base + len <= |image.content| && i < 8 * len && Marks(Region(image.content, base, len), marked)
    modifies image
    ensures OnlyRegion(old(image.content), image.content, base, len)
    ensures Marks(Region(image.content, base, len), marked + {i})
  {
    hide Marks, ByteWithBit, SetBitIn, Overwrite;
    ghost var block := Region(image.content, base, len);
    var current := image.content[base + i / 8];
    assert current == block[i / 8];
    SetAsOverwrite(block, i);
    MarksMore(block, marked, i);
    OverwriteInRegion(image.content, base, len, i / 8, [ByteWithBit(current, i % 8)]);
    image.WriteAt(base + i / 8, [ByteWithBit(current, i % 8)]);
  }

  /** Clear bits among the first `n`. */
  function ClearBits(block: bytes, n: nat): nat
    requires n <= 8 * |block|
  {
    if n == 0 then 0 else ClearBits(block, n - 1) + if BitAt(block, n - 1) then 0 else 1
  }
}
