/** A seekable output file: writing past the end zero-fills the gap. */
module OutFile {
  import opened Core

  /** File content after `data` is written at `offset`. */
  function Overwrite(content: bytes, offset: nat, data: bytes): (r: bytes)
    ensures |r| == if data == [] then |content| else Max(|content|, offset + |data|)
  {
    if data == [] then content
    else
      var base := content + Zeros(Max(0, offset + |data| - |content|));
      base[..offset] + data + base[offset + |data|..]
  }

  /** Byte of a file, zero past its end. */
  function ByteAt(content: bytes, i: nat): byte {
    if i < |content| then content[i] else 0
  }

  /** `n` bytes of a zero-extended file from `offset` on. */
  function Window(content: bytes, offset: nat, n: nat): (r: bytes)
    ensures |r| == n
  {
    seq(n, k requires 0 <= k < n => ByteAt(content, offset + k))
  }

  /** Reading in pieces gives the same bytes. */
  lemma {:induction false} WindowJoins(content: bytes, offset: nat, n: nat, m: nat)
    ensures Window(content, offset, n) + Window(content, offset + n, m) == Window(content, offset, n + m)
  {
    var both := Window(content, offset, n) + Window(content, offset + n, m);
    forall k | 0 <= k < n + m
      ensures both[k] == Window(content, offset, n + m)[k]
    {
      if k >= n {
        assert both[k] == Window(content, offset + n, m)[k - n] == ByteAt(content, offset + n + (k - n));
      }
    }
  }

  lemma {:induction false} OverwriteAt(content: bytes, offset: nat, data: bytes)
    ensures forall i: nat ::
              ByteAt(Overwrite(content, offset, data), i)
              == (if offset <= i < offset + |data| then data[i - offset] else ByteAt(content, i))
  {
  }

  /** Bytes carried by a file elsewhere survive a write. */
  lemma {:induction false} OverwriteKeeps(content: bytes, offset: nat, data: bytes, at: nat, part: bytes)
    requires HasAt(content, at, part)
    requires at + |part| <= offset || offset + |data| <= at
    ensures HasAt(Overwrite(content, offset, data), at, part)
  {
    var after := Overwrite(content, offset, data);
    forall i | 0 <= i < |part|
      ensures after[at + i] == part[i]
    {
      assert part[i] == content[at..at + |part|][i];
    }
  }

  /** Nothing was written yet, or `part` lies at `offset`. */
  predicate Carries(content: bytes, offset: nat, part: bytes) {
    part == [] || HasAt(content, offset, part)
  }

  lemma {:induction false} CarriesElsewhere(content: bytes, offset: nat, data: bytes, at: nat, part: bytes)
    requires Carries(content, at, part)
    requires at + |part| <= offset || offset + |data| <= at
    ensures Carries(Overwrite(content, offset, data), at, part)
  {
    if part != [] {
      OverwriteKeeps(content, offset, data, at, part);
    }
  }

  /** Writing `data` right behind `part` leaves both behind each other. */
  lemma {:induction false} CarriesMore(content: bytes, offset: nat, part: bytes, data: bytes)
    requires Carries(content, offset, part)
    ensures Carries(Overwrite(content, offset + |part|, data), offset, part + data)
  {
    var after := Overwrite(content, offset + |part|, data);
    if data == [] {
      assert part + data == part;
    } else {
      forall i | 0 <= i < |part|
        ensures after[offset + i] == part[i]
      {
        assert part[i] == content[offset..offset + |part|][i];
      }
      assert after[offset..offset + |part| + |data|] == part + data;
    }
  }

  /** Two writes behind each other are one. */
  lemma {:induction false} OverwriteTwice(content: bytes, offset: nat, first: bytes, second: bytes)
    requires second != []
    ensures Overwrite(Overwrite(content, offset, first), offset + |first|, second)
         == Overwrite(content, offset, first + second)
  {
    hide Overwrite;
    var twice := Overwrite(Overwrite(content, offset, first), offset + |first|, second);
    var once := Overwrite(content, offset, first + second);
    OverwriteAt(content, offset, first);
    OverwriteAt(Overwrite(content, offset, first), offset + |first|, second);
    OverwriteAt(content, offset, first + second);
    forall i | 0 <= i < |once|
      ensures once[i] == twice[i]
    {
      assert once[i] == ByteAt(once, i) && twice[i] == ByteAt(twice, i);
    }
  }

  /** A file cut, or extended by zeros, to `n` bytes. */
  function Resized(content: bytes, n: nat): (r: bytes)
    ensures |r| == n
  {
    if n <= |content| then content[..n] else content + Zeros(n - |content|)
  }

  lemma {:induction false} ResizedKeeps(content: bytes, n: nat, at: nat, part: bytes)
    requires HasAt(content, at, part) && at + |part| <= n
    ensures HasAt(Resized(content, n), at, part)
  {
    var after := Resized(content, n);
    forall i | 0 <= i < |part|
      ensures after[at + i] == part[i]
    {
      assert part[i] == content[at..at + |part|][i];
    }
  }

  class File {
    var content: bytes

    constructor (initial: bytes)
      ensures content == initial
    {
      content := initial;
    }

    method WriteAt(offset: nat, data: bytes)
      modifies this
      ensures content == Overwrite(old(content), offset, data)
    {
      content := Overwrite(content, offset, data);
    }

    method SetLen(n: nat)
      modifies this
      ensures content == Resized(old(content), n)
    {
      content := Resized(content, n);
    }
  }
}
