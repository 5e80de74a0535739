/** Writes that stay inside stretches of an image, and what they leave alone. */
module Spans {
  import opened Core
  import opened OutFile

  // ---- One region ----------------------------------------------------------------------------------------

  function Region(content: bytes, base: nat, len: nat): (r: bytes)
    requires base + len <= |content|
    ensures |r| == len
  {
    content[base..base + len]
  }

  /** Nothing outside `[base, base + len)` changed. */
  predicate OnlyRegion(before: bytes, after: bytes, base: nat, len: nat) {
    |after| == |before| && base + len <= |before|
    && after[..base] == before[..base] && after[base + len..] == before[base + len..]
  }

  lemma {:induction false} OverwriteInRegion(content: bytes, base: nat, len: nat, offset: nat, data: bytes)
    requires base + len <= |content| && offset + |data| <= len
    ensures OnlyRegion(content, Overwrite(content, base + offset, data), base, len)
    ensures Region(Overwrite(content, base + offset, data), base, len) == Overwrite(Region(content, base, len), offset, data)
  {
    hide Overwrite;
    var after := Overwrite(content, base + offset, data);
    var node := Overwrite(Region(content, base, len), offset, data);
    OverwriteAt(content, base + offset, data);
    OverwriteAt(Region(content, base, len), offset, data);
    forall i | 0 <= i < |content|
      ensures after[i] == if base <= i < base + len then node[i - base] else content[i]
    {
      assert after[i] == ByteAt(after, i);
      if base <= i < base + len {
        assert node[i - base] == ByteAt(node, i - base);
      }
    }
  }

  lemma {:induction false} OnlyRegionTwice(a: bytes, b: bytes, c: bytes, base: nat, len: nat)
    requires OnlyRegion(a, b, base, len) && OnlyRegion(b, c, base, len)
    ensures OnlyRegion(a, c, base, len)
  {
  }

  /** A change inside a part of a region, seen from the region. */
  lemma {:induction false} RegionInRegion(before: bytes, after: bytes, base: nat, len: nat, inner: nat, n: nat)
    requires base + len <= |before| && inner + n <= len && OnlyRegion(before, after, base + inner, n)
    ensures OnlyRegion(before, after, base, len)
    ensures OnlyRegion(Region(before, base, len), Region(after, base, len), inner, n)
    ensures Region(Region(after, base, len), inner, n) == Region(after, base + inner, n)
  {
    var from, end := base + inner, base + inner + n;
    forall i | 0 <= i < |before| && (i < from || end <= i)
      ensures after[i] == before[i]
    {
      if i < from {
        assert after[i] == after[..from][i] == before[..from][i];
      } else {
        assert after[i] == after[end..][i - end] == before[end..][i - end];
      }
    }
    var earlier, later := Region(before, base, len), Region(after, base, len);
    assert earlier[..inner] == before[base..from] == after[base..from] == later[..inner];
    assert earlier[inner + n..] == before[end..base + len] == after[end..base + len] == later[inner + n..];
    assert later[inner..inner + n] == after[from..end];
    assert after[..base] == before[..base] && after[base + len..] == before[base + len..];
  }

  lemma {:induction false} OnlyRegionLength(before: bytes, after: bytes, base: nat, len: nat)
    requires OnlyRegion(before, after, base, len)
    ensures |after| == |before|
  {
  }

  lemma {:induction false} OutsideRegion(before: bytes, after: bytes, base: nat, len: nat, at: nat, n: nat)
    requires OnlyRegion(before, after, base, len) && at + n <= |before|
    requires at + n <= base || base + len <= at
    ensures Region(after, at, n) == Region(before, at, n)
  {
    forall k | at <= k < at + n
      ensures after[k] == before[k]
    {
      if k < base {
        assert after[k] == after[..base][k] == before[..base][k];
      } else {
        assert after[k] == after[base + len..][k - (base + len)] == before[base + len..][k - (base + len)];
      }
    }
  }

  // ---- Many spans ----------------------------------------------------------------------------------------

  /** A stretch of image bytes. */
  datatype Span = Span(from: nat, until: nat)

  predicate InSpans(i: nat, spans: seq<Span>) {
    exists k :: 0 <= k < |spans| && spans[k].from <= i < spans[k].until
  }

  /** Bytes outside `spans` are as before. */
  ghost predicate OnlyWithin(before: bytes, after: bytes, spans: seq<Span>) {
    |after| == |before| && forall i :: 0 <= i < |before| && !InSpans(i, spans) ==> after[i] == before[i]
  }

  predicate SpansApart(s: Span, t: Span) {
    s.until <= t.from || t.until <= s.from
  }

  predicate Apart(a: seq<Span>, b: seq<Span>) {
    forall i, j :: 0 <= i < |a| && 0 <= j < |b| ==> SpansApart(a[i], b[j])
  }

  /** `s` lies inside one of `spans`. */
  predicate Inside(s: Span, spans: seq<Span>) {
    exists k :: 0 <= k < |spans| && spans[k].from <= s.from && s.until <= spans[k].until
  }

  lemma {:induction false} InsideOne(s: Span, spans: seq<Span>, k: nat)
    requires k < |spans| && spans[k].from <= s.from && s.until <= spans[k].until
    ensures Inside(s, spans)
  {
  }

  lemma {:induction false} WithinTwice(before: bytes, now: bytes, after: bytes, spans: seq<Span>)
    requires OnlyWithin(before, now, spans) && OnlyWithin(now, after, spans)
    ensures OnlyWithin(before, after, spans)
  {
    hide InSpans;
  }

  lemma {:induction false} WithinWider(before: bytes, after: bytes, spans: seq<Span>, all: seq<Span>)
    requires OnlyWithin(before, after, spans)
    requires forall i :: 0 <= i < |spans| ==> Inside(spans[i], all)
    ensures OnlyWithin(before, after, all)
  {
    forall i | 0 <= i < |before| && !InSpans(i, all)
      ensures after[i] == before[i]
    {
      assert !InSpans(i, spans);
    }
  }

  lemma {:induction false} RegionWithin(before: bytes, after: bytes, base: nat, len: nat, spans: seq<Span>)
    requires OnlyRegion(before, after, base, len) && Inside(Span(base, base + len), spans)
    ensures OnlyWithin(before, after, spans)
  {
    forall i | 0 <= i < |before| && !InSpans(i, spans)
      ensures after[i] == before[i]
    {
      if i < base {
        assert after[i] == after[..base][i] == before[..base][i];
      } else if base + len <= i {
        assert after[i] == after[base + len..][i - (base + len)] == before[base + len..][i - (base + len)];
      }
    }
  }

  lemma {:induction false} WriteWithin(content: bytes, at: nat, data: bytes, spans: seq<Span>)
    requires at + |data| <= |content| && (data != [] ==> Inside(Span(at, at + |data|), spans))
    ensures OnlyWithin(content, Overwrite(content, at, data), spans)
  {
    OverwriteAt(content, at, data);
    var after := Overwrite(content, at, data);
    forall i | 0 <= i < |content| && !InSpans(i, spans)
      ensures after[i] == content[i]
    {
      assert after[i] == ByteAt(after, i);
    }
  }

  /** What lies apart from the written spans is still there. */
  lemma {:induction false} RegionKept(before: bytes, after: bytes, spans: seq<Span>, base: nat, len: nat)
    requires OnlyWithin(before, after, spans) && base + len <= |before|
    requires forall k :: 0 <= k < |spans| ==> SpansApart(Span(base, base + len), spans[k])
    ensures Region(after, base, len) == Region(before, base, len)
  {
    forall i | base <= i < base + len
      ensures after[i] == before[i]
    {
      assert forall k :: 0 <= k < |spans| ==> SpansApart(Span(base, base + len), spans[k]);
      assert !InSpans(i, spans);
    }
  }
}
