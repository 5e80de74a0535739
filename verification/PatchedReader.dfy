/** Reading an image through a list of patches and an appended tail, without materialising the patched image. */
module PatchedReader {
  import opened Core
  import opened Arith
  import opened OutFile
  import opened Buffers

  /** Bytes that replace those at `at`. */
  datatype Patch = Patch(at: nat, data: bytes)

  /** The base image cut to its original size, with the first `n` patches applied in order. */
  function Patched(base: bytes, patches: seq<Patch>, n: nat): bytes
    requires n <= |patches|
  {
    if n == 0 then base else Overwrite(Patched(base, patches, n - 1), patches[n - 1].at, patches[n - 1].data)
  }

  class PatchedReader {
    const source: bytes
    const originalSize: nat
    const patches: seq<Patch>
    const tailAt: nat
    const tail: bytes

    /** What there is of the base image. */
    function Base(): bytes {
      source[..Min(originalSize, |source|)]
    }

    /** The image the reader stands for. */
    ghost function Image(): bytes {
      Overwrite(Patched(Base(), patches, |patches|), tailAt, tail)
    }

    /** A window can be read unless it needs base bytes the source does not have. */
    predicate CanRead(offset: nat, n: nat) {
      offset < originalSize ==> Min(originalSize, offset + n) <= |source|
    }

    constructor (source: bytes, originalSize: nat, patches: seq<Patch>, tailAt: nat, tail: bytes)
      ensures this.source == source && this.originalSize == originalSize && this.patches == patches
      ensures this.tailAt == tailAt && this.tail == tail
    {
      this.source, this.originalSize, this.patches, this.tailAt, this.tail := source, originalSize, patches, tailAt, tail;
    }

    /** The part of the output in front of the original end, and zeros behind it. */
    method ReadBase(offset: nat, output: array<byte>) returns (ok: bool)
      modifies output
      ensures ok == CanRead(offset, output.Length)
      ensures ok ==> output[..] == Window(Base(), offset, output.Length)
    {
      if offset < originalSize {
        var n := Min(originalSize - offset, output.Length);
        var read := Slice(source, offset, n);
        if read.None? {
          return false;
        }
        CopyInto(output, 0, read.value);
        forall i | n <= i < output.Length {
          output[i] := 0;
        }
      } else {
        forall i | 0 <= i < output.Length {
          output[i] := 0;
        }
      }
      assert forall i :: 0 <= i < output.Length ==> output[i] == ByteAt(Base(), offset + i);
      return true;
    }

    /** The overlap of one patch with the output window. */
    method ApplyPatch(offset: nat, output: array<byte>, at: nat, data: bytes, ghost content: bytes)
      requires output[..] == Window(content, offset, output.Length)
      modifies output
      ensures output[..] == Window(Overwrite(content, at, data), offset, output.Length)
    {
      var end := offset + output.Length;
      ghost var before := output[..];
      OverwriteAt(content, at, data);
      if end > at && offset < at + |data| {
        var outStart := Max(at - offset, 0);
        var dataStart := Max(offset - at, 0);
        var n := Min(|data| - dataStart, output.Length - outStart);
        CopyInto(output, outStart, data[dataStart..dataStart + n]);
      }
      WindowPatched(content, offset, at, data, before, output[..]);
    }

    /** `read_at`: the window of the patched image, whatever its position and size. */
    method ReadAt(offset: nat, output: array<byte>) returns (ok: bool)
      modifies output
      ensures ok == CanRead(offset, output.Length)
      ensures ok ==> output[..] == Window(Image(), offset, output.Length)
    {
      hide Window, Overwrite;
      ok := ReadBase(offset, output);
      if !ok {
        return;
      }
      for i := 0 to |patches|
        invariant output[..] == Window(Patched(Base(), patches, i), offset, output.Length)
      {
        ApplyPatch(offset, output, patches[i].at, patches[i].data, Patched(Base(), patches, i));
      }
      ApplyPatch(offset, output, tailAt, tail, Patched(Base(), patches, |patches|));
    }

    /** `write_patched_image`: the whole image block by block. */
    method WriteImage(totalSize: nat, blockSize: nat) returns (written: bytes)
      requires blockSize > 0 && originalSize <= |source|
      ensures written == Window(Image(), 0, DivCeil(totalSize, blockSize) * blockSize)
    {
      hide Window, DivCeil;
      written := [];
      var buffer := new byte[blockSize];
      NothingRead(Image());
      var blocks := DivCeil(totalSize, blockSize);
      for i := 0 to blocks
        invariant written == Window(Image(), 0, i * blockSize)
      {
        var ok := ReadAt(i * blockSize, buffer);
        WindowJoins(Image(), 0, i * blockSize, blockSize);
        MulDistributes(i, 1, blockSize);
        written := written + buffer[..];
      }
    }
  }

  lemma {:induction false} NothingRead(content: bytes)
    ensures Window(content, 0, 0) == []
  {
  }

  /** Copying the overlap is patching the window. */
  lemma {:induction false} WindowPatched(content: bytes, offset: nat, at: nat, data: bytes, before: bytes, after: bytes)
    requires before == Window(content, offset, |before|) && |after| == |before|
    requires forall i :: 0 <= i < |after| ==>
               after[i] == if at <= offset + i < at + |data| then data[offset + i - at] else before[i]
    ensures after == Window(Overwrite(content, at, data), offset, |after|)
  {
    OverwriteAt(content, at, data);
    hide Overwrite;
    var wanted := Window(Overwrite(content, at, data), offset, |after|);
    forall i | 0 <= i < |after|
      ensures after[i] == wanted[i]
    {
      assert before[i] == ByteAt(content, offset + i);
      assert wanted[i] == ByteAt(Overwrite(content, at, data), offset + i);
    }
  }
}
