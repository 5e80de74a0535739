/**
 The LZ4 block decoder of the EROFS reader, against the block format itself: a block is a list of
 sequences (literals, then a back-reference) closed by a run of literals.
 */
module Lz4 {
  import opened Core

  datatype Lz4Error =
    | TruncatedToken
    | TruncatedLiteralLength
    | InvalidLiterals
    | TruncatedOffset
    | InvalidMatchOffset
    | TruncatedMatchLength

  // ---- The format ------------------------------------------------------------------------------

  datatype Sequence = Sequence(literals: bytes, offset: nat, matchLength: nat)

  datatype Block = Block(sequences: seq<Sequence>, last: bytes)

  /** Bytes after a nibble of 15: 255 as often as it fits, then the remainder. */
  function LengthTail(n: nat): (t: bytes)
    ensures |t| > 0
  {
    if n < 255 then [n as byte] else [255] + LengthTail(n - 255)
  }

  function LengthField(n: nat): bytes {
    if n < 15 then [] else LengthTail(n - 15)
  }

  function Token(literalLength: nat, matchExtra: nat): byte {
    (Min(literalLength, 15) * 16 + Min(matchExtra, 15)) as byte
  }

  function SequenceBytes(s: Sequence): bytes
    requires s.matchLength >= 4 && s.offset < U16_LIMIT
  {
    [Token(|s.literals|, s.matchLength - 4)] + LengthField(|s.literals|) + s.literals
      + Le16(s.offset) + LengthField(s.matchLength - 4)
  }

  function LastBytes(literals: bytes): bytes {
    [Token(|literals|, 0)] + LengthField(|literals|) + literals
  }

  /** Sequences of the block format that make sense after `output` has been produced. */
  predicate ValidAfter(output: bytes, b: Block)
    decreases |b.sequences|
  {
    b.sequences == [] ||
    var s := b.sequences[0];
    && s.matchLength >= 4
    && 1 <= s.offset < U16_LIMIT
    && s.offset <= |output| + |s.literals|
    && ValidAfter(Expand(output, s), Block(b.sequences[1..], b.last))
  }

  function Serialize(output: bytes, b: Block): bytes
    requires ValidAfter(output, b)
    decreases |b.sequences|
  {
    if b.sequences == [] then LastBytes(b.last)
    else
      var s := b.sequences[0];
      SequenceBytes(s) + Serialize(Expand(output, s), Block(b.sequences[1..], b.last))
  }

  /** Appends `n` bytes, each repeating the byte `offset` positions before it. */
  function CopyMatch(output: bytes, offset: nat, n: nat): (r: bytes)
    requires 1 <= offset <= |output|
    ensures |r| == |output| + n
    decreases n
  {
    if n == 0 then output else CopyMatch(output + [output[|output| - offset]], offset, n - 1)
  }

  function Expand(output: bytes, s: Sequence): (r: bytes) {
    if 1 <= s.offset <= |output| + |s.literals|
    then CopyMatch(output + s.literals, s.offset, s.matchLength)
    else output + s.literals
  }

  /** The plain bytes a block stands for, appended to `output`. */
  function Expansion(output: bytes, b: Block): bytes
    decreases |b.sequences|
  {
    if b.sequences == [] then output + b.last
    else Expansion(Expand(output, b.sequences[0]), Block(b.sequences[1..], b.last))
  }

  /** An overlapping copy is exactly the periodic continuation of what precedes it. */
  lemma {:induction false} CopyMatchIsPeriodic(output: bytes, offset: nat, n: nat)
    requires 1 <= offset <= |output|
    ensures var r := CopyMatch(output, offset, n);
            && r[..|output|] == output
            && forall i :: |output| <= i < |r| ==> r[i] == r[i - offset]
    decreases n
  {
    if n > 0 {
      var longer := output + [output[|output| - offset]];
      CopyMatchIsPeriodic(longer, offset, n - 1);
      var r := CopyMatch(longer, offset, n - 1);
      assert r[..|longer|][..|output|] == r[..|output|];
      assert r[|output|] == longer[|output|] == output[|output| - offset] == r[|output| - offset];
    }
  }

  // ---- The decoder, as a function of its input -------------------------------------------------

  /** Sums length bytes up to and including the first that is not 255. */
  function ReadTail(input: bytes, cursor: nat, length: nat): (r: Option<(nat, nat)>)
    ensures r.Some? ==> cursor < r.value.1 <= |input|
    decreases |input| - cursor
  {
    if cursor >= |input| then None
    else if input[cursor] == 255 then ReadTail(input, cursor + 1, length + 255)
    else Some((length + input[cursor] as int, cursor + 1))
  }

  function ReadLength(input: bytes, cursor: nat, nibble: nat): (r: Option<(nat, nat)>)
    ensures r.Some? ==> cursor <= r.value.1 && (cursor <= |input| ==> r.value.1 <= |input|)
  {
    if nibble == 15 then ReadTail(input, cursor, 15) else Some((nibble, cursor))
  }

  /** Literal run after the token at `cursor - 1`: the grown output and the next cursor. */
  function DecodeLiterals(input: bytes, cursor: nat, nibble: nat, output: bytes, size: nat)
    : (r: Result<(bytes, nat), Lz4Error>)
    requires cursor <= |input| && |output| <= size
    ensures r.Ok? ==> cursor <= r.value.1 <= |input| && |output| <= |r.value.0| <= size
  {
    match ReadLength(input, cursor, nibble)
    case None => Err(TruncatedLiteralLength)
    case Some((length, at)) =>
      if at + length > |input| || |output| + length > size then Err(InvalidLiterals)
      else Ok((output + input[at..at + length], at + length))
  }

  /** Back-reference at `cursor`, clipped to the declared output size. */
  function DecodeMatch(input: bytes, cursor: nat, nibble: nat, output: bytes, size: nat)
    : (r: Result<(bytes, nat), Lz4Error>)
    requires cursor <= |input| && |output| <= size
    ensures r.Ok? ==> cursor < r.value.1 <= |input| && |r.value.0| <= size
  {
    if cursor + 1 >= |input| then Err(TruncatedOffset)
    else
      var offset := Get16(input, cursor);
      if offset == 0 || offset > |output| then Err(InvalidMatchOffset)
      else
        match ReadLength(input, cursor + 2, nibble)
        case None => Err(TruncatedMatchLength)
        case Some((extra, at)) =>
          Ok((CopyMatch(output, offset, Min(extra + 4, size - |output|)), at))
  }

  function DecodeFrom(input: bytes, cursor: nat, output: bytes, size: nat): (r: Result<bytes, Lz4Error>)
    requires cursor <= |input| && |output| <= size
    ensures r.Ok? ==> |r.value| == size
    decreases |input| - cursor
  {
    if |output| == size then Ok(output)
    else if cursor >= |input| then Err(TruncatedToken)
    else
      var token := input[cursor] as int;
      match DecodeLiterals(input, cursor + 1, token / 16, output, size)
      case Err(e) => Err(e)
      case Ok((grown, at)) =>
        if |grown| == size then Ok(grown)
        else
          match DecodeMatch(input, at, token % 16, grown, size)
          case Err(e) => Err(e)
          case Ok((longer, next)) => DecodeFrom(input, next, longer, size)
  }

  function Decode(input: bytes, size: nat): (r: Result<bytes, Lz4Error>)
    ensures r.Ok? ==> |r.value| == size
  {
    DecodeFrom(input, 0, [], size)
  }

  // ---- The decoder, as it runs -----------------------------------------------------------------

  method ReadLengthBytes(input: bytes, start: nat, nibble: nat) returns (r: Option<(nat, nat)>)
    ensures r == ReadLength(input, start, nibble)
  {
    var length: nat, cursor: nat := nibble, start;
    if nibble == 15 {
      while true
        invariant ReadTail(input, start, 15) == ReadTail(input, cursor, length)
        decreases |input| - cursor
      {
        if cursor >= |input| {
          return None;
        }
        var value := input[cursor] as int;
        cursor := cursor + 1;
        length := length + value;
        if value != 255 {
          break;
        }
      }
    }
    return Some((length, cursor));
  }

  method CopyOverlapping(start: bytes, offset: nat, matchLength: nat) returns (output: bytes)
    requires 1 <= offset <= |start|
    ensures output == CopyMatch(start, offset, matchLength)
  {
    output := start;
    var matchStart := |output| - offset;
    for index := 0 to matchLength
      invariant |output| == |start| + index
      invariant CopyMatch(start, offset, matchLength) == CopyMatch(output, offset, matchLength - index)
    {
      output := output + [output[matchStart + index]];
    }
  }

  method Lz4Decode(input: bytes, size: nat) returns (r: Result<bytes, Lz4Error>)
    ensures r == Decode(input, size)
  {
    hide ReadLength, Get16, CopyMatch;
    var output: bytes := [];
    var cursor := 0;
    while |output| < size
      invariant cursor <= |input| && |output| <= size
      invariant Decode(input, size) == DecodeFrom(input, cursor, output, size)
      decreases |input| - cursor
    {
      if cursor >= |input| {
        return Err(TruncatedToken);
      }
      var token := input[cursor] as int;
      var literal := ReadLengthBytes(input, cursor + 1, token / 16);
      if literal.None? {
        return Err(TruncatedLiteralLength);
      }
      var (literalLength, literalStart) := literal.value;
      if literalStart + literalLength > |input| || |output| + literalLength > size {
        return Err(InvalidLiterals);
      }
      output := output + input[literalStart..literalStart + literalLength];
      cursor := literalStart + literalLength;
      if |output| == size {
        break;
      }
      if cursor + 1 >= |input| {
        return Err(TruncatedOffset);
      }
      var offset := Get16(input, cursor);
      cursor := cursor + 2;
      if offset == 0 || offset > |output| {
        return Err(InvalidMatchOffset);
      }
      var extra := ReadLengthBytes(input, cursor, token % 16);
      if extra.None? {
        return Err(TruncatedMatchLength);
      }
      var (matchExtra, next) := extra.value;
      var matchLength := matchExtra + 4;
      if |output| + matchLength > size {
        matchLength := size - |output|;
      }
      cursor := next;
      output := CopyOverlapping(output, offset, matchLength);
    }
    return Ok(output);
  }

  // ---- Decoding undoes serialising ---------------------------------------------------------------

  lemma {:induction false} ReadTailOfField(input: bytes, cursor: nat, length: nat, n: nat)
    requires HasAt(input, cursor, LengthTail(n))
    ensures ReadTail(input, cursor, length) == Some((length + n, cursor + |LengthTail(n)|))
    decreases n
  {
    var tail := LengthTail(n);
    assert input[cursor] == input[cursor..cursor + |tail|][0] == tail[0];
    if n >= 255 {
      HasAtPart(input, cursor, tail, 1, LengthTail(n - 255));
      ReadTailOfField(input, cursor + 1, length + 255, n - 255);
    }
  }

  lemma {:induction false} ReadLengthOfField(input: bytes, cursor: nat, n: nat)
    requires HasAt(input, cursor, LengthField(n))
    ensures ReadLength(input, cursor, Min(n, 15)) == Some((n, cursor + |LengthField(n)|))
  {
    if n >= 15 {
      ReadTailOfField(input, cursor, 15, n - 15);
    }
  }

  lemma {:induction false} DecodeLiteralsOfRun(input: bytes, cursor: nat, literals: bytes, output: bytes, size: nat)
    requires HasAt(input, cursor, LengthField(|literals|) + literals)
    requires |output| + |literals| <= size
    ensures DecodeLiterals(input, cursor, Min(|literals|, 15), output, size)
         == Ok((output + literals, cursor + |LengthField(|literals|)| + |literals|))
  {
    var field := LengthField(|literals|);
    HasAtPart(input, cursor, field + literals, 0, field);
    HasAtPart(input, cursor, field + literals, |field|, literals);
    ReadLengthOfField(input, cursor, |literals|);
  }

  lemma {:induction false} DecodeMatchStep(input: bytes, cursor: nat, nibble: nat, output: bytes, size: nat, extra: nat, next: nat)
    requires cursor + 2 <= |input| && |output| + extra + 4 <= size
    requires 1 <= Get16(input, cursor) <= |output|
    requires ReadLength(input, cursor + 2, nibble) == Some((extra, next))
    ensures DecodeMatch(input, cursor, nibble, output, size)
         == Ok((CopyMatch(output, Get16(input, cursor), extra + 4), next))
  {
    hide ReadLength, Get16, CopyMatch;
  }

  lemma {:induction false} DecodeMatchOfSequence(input: bytes, cursor: nat, s: Sequence, output: bytes, size: nat)
    requires s.matchLength >= 4 && 1 <= s.offset < U16_LIMIT && s.offset <= |output|
    requires HasAt(input, cursor, Le16(s.offset) + LengthField(s.matchLength - 4))
    requires |output| + s.matchLength <= size
    ensures DecodeMatch(input, cursor, Min(s.matchLength - 4, 15), output, size)
         == Ok((CopyMatch(output, s.offset, s.matchLength), cursor + 2 + |LengthField(s.matchLength - 4)|))
  {
    hide ReadLength, LengthField, Get16, CopyMatch, DecodeMatch;
    var extra := s.matchLength - 4;
    var field := LengthField(extra);
    assert Get16(input, cursor) == s.offset by {
      HasAtPart(input, cursor, Le16(s.offset) + field, 0, Le16(s.offset));
      Read16(input, cursor, s.offset);
    }
    assert ReadLength(input, cursor + 2, Min(extra, 15)) == Some((extra, cursor + 2 + |field|)) by {
      HasAtPart(input, cursor, Le16(s.offset) + field, 2, field);
      ReadLengthOfField(input, cursor + 2, extra);
    }
    DecodeMatchStep(input, cursor, Min(extra, 15), output, size, extra, cursor + 2 + |field|);
  }

  lemma {:induction false} DecodeFromStep(input: bytes, cursor: nat, output: bytes, size: nat, grown: bytes, at: nat, longer: bytes, next: nat)
    requires cursor < |input| && |output| <= size
    requires DecodeLiterals(input, cursor + 1, input[cursor] as int / 16, output, size) == Ok((grown, at))
    requires |grown| < size
    requires DecodeMatch(input, at, input[cursor] as int % 16, grown, size) == Ok((longer, next))
    ensures DecodeFrom(input, cursor, output, size) == DecodeFrom(input, next, longer, size)
  {
    hide DecodeLiterals, DecodeMatch;
  }

  lemma {:induction false} ExpansionGrows(output: bytes, b: Block)
    requires ValidAfter(output, b)
    ensures |Expansion(output, b)| >= |output| + |b.last|
    ensures b.sequences != [] ==>
              |Expansion(output, b)| >= |output| + |b.sequences[0].literals| + b.sequences[0].matchLength
    decreases |b.sequences|
  {
    if b.sequences != [] {
      ExpansionGrows(Expand(output, b.sequences[0]), Block(b.sequences[1..], b.last));
    }
  }

  function SequenceLength(s: Sequence): nat
    requires s.matchLength >= 4
  {
    3 + |LengthField(|s.literals|)| + |s.literals| + |LengthField(s.matchLength - 4)|
  }

  /** Where the parts of a sequence lie. */
  lemma {:induction false} SplitSequence(input: bytes, cursor: nat, s: Sequence)
    requires s.matchLength >= 4 && s.offset < U16_LIMIT
    requires HasAt(input, cursor, SequenceBytes(s))
    ensures cursor < |input|
    ensures input[cursor] as int / 16 == Min(|s.literals|, 15) && input[cursor] as int % 16 == Min(s.matchLength - 4, 15)
    ensures HasAt(input, cursor + 1, LengthField(|s.literals|) + s.literals)
    ensures HasAt(input, cursor + 1 + |LengthField(|s.literals|)| + |s.literals|, Le16(s.offset) + LengthField(s.matchLength - 4))
  {
    hide LengthField, Le16;
    var token, run := Token(|s.literals|, s.matchLength - 4), LengthField(|s.literals|) + s.literals;
    var back := Le16(s.offset) + LengthField(s.matchLength - 4);
    var whole := [token] + run + back;
    assert SequenceBytes(s) == whole;
    assert input[cursor] == input[cursor..cursor + |whole|][0] == token;
    HasAtPart(input, cursor, whole, 1, run);
    HasAtPart(input, cursor, whole, 1 + |run|, back);
  }

  lemma {:induction false} DecodeSequence(input: bytes, cursor: nat, s: Sequence, output: bytes, size: nat)
    requires s.matchLength >= 4 && 1 <= s.offset < U16_LIMIT && s.offset <= |output| + |s.literals|
    requires HasAt(input, cursor, SequenceBytes(s))
    requires |output| + |s.literals| + s.matchLength <= size
    ensures cursor + SequenceLength(s) <= |input|
    ensures DecodeFrom(input, cursor, output, size) == DecodeFrom(input, cursor + SequenceLength(s), Expand(output, s), size)
  {
    hide LengthField, Le16, CopyMatch, SequenceBytes, DecodeFrom, DecodeLiterals, DecodeMatch, HasAt;
    var at := cursor + 1 + |LengthField(|s.literals|)| + |s.literals|;
    SplitSequence(input, cursor, s);
    DecodeLiteralsOfRun(input, cursor + 1, s.literals, output, size);
    DecodeMatchOfSequence(input, at, s, output + s.literals, size);
    DecodeFromStep(input, cursor, output, size, output + s.literals, at, Expand(output, s), cursor + SequenceLength(s));
  }

  lemma {:induction false} DecodeFirstSequence(input: bytes, cursor: nat, output: bytes, b: Block, size: nat)
    requires ValidAfter(output, b) && b.sequences != []
    requires HasAt(input, cursor, Serialize(output, b))
    requires |output| + |b.sequences[0].literals| + b.sequences[0].matchLength <= size
    ensures var s, next := b.sequences[0], cursor + SequenceLength(b.sequences[0]);
            && next <= |input|
            && HasAt(input, next, Serialize(Expand(output, s), Block(b.sequences[1..], b.last)))
            && DecodeFrom(input, cursor, output, size) == DecodeFrom(input, next, Expand(output, s), size)
  {
    hide LengthField, Le16, CopyMatch, DecodeFrom, Expand;
    var s := b.sequences[0];
    var first, rest := SequenceBytes(s), Serialize(Expand(output, s), Block(b.sequences[1..], b.last));
    HasAtPart(input, cursor, first + rest, 0, first);
    HasAtPart(input, cursor, first + rest, |first|, rest);
    DecodeSequence(input, cursor, s, output, size);
  }

  lemma {:induction false} DecodeFromEnds(input: bytes, cursor: nat, output: bytes, grown: bytes, at: nat)
    requires cursor < |input| && |output| < |grown|
    requires DecodeLiterals(input, cursor + 1, input[cursor] as int / 16, output, |grown|) == Ok((grown, at))
    ensures DecodeFrom(input, cursor, output, |grown|) == Ok(grown)
  {
    hide DecodeLiterals, DecodeMatch;
  }

  lemma {:induction false} SplitLast(input: bytes, cursor: nat, last: bytes)
    requires HasAt(input, cursor, LastBytes(last))
    ensures cursor < |input| && input[cursor] as int / 16 == Min(|last|, 15)
    ensures HasAt(input, cursor + 1, LengthField(|last|) + last)
  {
    hide LengthField;
    var run := LengthField(|last|) + last;
    assert LastBytes(last) == [Token(|last|, 0)] + run;
    assert input[cursor] == input[cursor..cursor + 1 + |run|][0];
    HasAtPart(input, cursor, [Token(|last|, 0)] + run, 1, run);
  }

  lemma {:induction false} DecodeLastRun(input: bytes, cursor: nat, output: bytes, last: bytes)
    requires HasAt(input, cursor, LastBytes(last))
    ensures DecodeFrom(input, cursor, output, |output + last|) == Ok(output + last)
  {
    hide LengthField, LastBytes, DecodeLiterals, DecodeMatch, HasAt;
    if last == [] {
      assert output + last == output;
    } else {
      SplitLast(input, cursor, last);
      DecodeLiteralsOfRun(input, cursor + 1, last, output, |output + last|);
      DecodeFromEnds(input, cursor, output, output + last, cursor + 1 + |LengthField(|last|)| + |last|);
    }
  }

  lemma {:induction false} DecodeFromUndoesSerialize(input: bytes, cursor: nat, output: bytes, b: Block)
    requires ValidAfter(output, b)
    requires HasAt(input, cursor, Serialize(output, b))
    ensures |output| <= |Expansion(output, b)|
    ensures DecodeFrom(input, cursor, output, |Expansion(output, b)|) == Ok(Expansion(output, b))
    decreases |b.sequences|
  {
    hide LengthField, LastBytes, Le16, CopyMatch, DecodeFrom, DecodeLiterals, DecodeMatch, HasAt;
    ExpansionGrows(output, b);
    if b.sequences == [] {
      DecodeLastRun(input, cursor, output, b.last);
    } else {
      DecodeFirstSequence(input, cursor, output, b, |Expansion(output, b)|);
      var next := cursor + SequenceLength(b.sequences[0]);
      DecodeFromUndoesSerialize(input, next, Expand(output, b.sequences[0]), Block(b.sequences[1..], b.last));
    }
  }

  /** Every well-formed block decodes to what it stands for. */
  lemma {:induction false} DecodeUndoesSerialize(b: Block)
    requires ValidAfter([], b)
    ensures Decode(Serialize([], b), |Expansion([], b)|) == Ok(Expansion([], b))
  {
    var input := Serialize([], b);
    assert input[0..|input|] == input;
    DecodeFromUndoesSerialize(input, 0, [], b);
  }

  // ---- Bytes after an accepted block are never looked at ---------------------------------------

  lemma {:induction false} ReadTailIgnoresPadding(input: bytes, pad: bytes, cursor: nat, length: nat)
    requires ReadTail(input, cursor, length).Some?
    ensures ReadTail(input + pad, cursor, length) == ReadTail(input, cursor, length)
    decreases |input| - cursor
  {
    if input[cursor] == 255 {
      ReadTailIgnoresPadding(input, pad, cursor + 1, length + 255);
    }
  }

  lemma {:induction false} ReadLengthIgnoresPadding(input: bytes, pad: bytes, cursor: nat, nibble: nat)
    requires ReadLength(input, cursor, nibble).Some?
    ensures ReadLength(input + pad, cursor, nibble) == ReadLength(input, cursor, nibble)
  {
    if nibble == 15 {
      ReadTailIgnoresPadding(input, pad, cursor, 15);
    }
  }

  lemma {:induction false} DecodeLiteralsIgnoresPadding(input: bytes, pad: bytes, cursor: nat, nibble: nat, output: bytes, size: nat)
    requires cursor <= |input| && |output| <= size
    requires DecodeLiterals(input, cursor, nibble, output, size).Ok?
    ensures DecodeLiterals(input + pad, cursor, nibble, output, size) == DecodeLiterals(input, cursor, nibble, output, size)
  {
    hide ReadLength;
    ReadLengthIgnoresPadding(input, pad, cursor, nibble);
    var (length, at) := ReadLength(input, cursor, nibble).value;
    assert (input + pad)[at..at + length] == input[at..at + length];
  }

  lemma {:induction false} DecodeMatchIgnoresPadding(input: bytes, pad: bytes, cursor: nat, nibble: nat, output: bytes, size: nat)
    requires cursor <= |input| && |output| <= size
    requires DecodeMatch(input, cursor, nibble, output, size).Ok?
    ensures DecodeMatch(input + pad, cursor, nibble, output, size) == DecodeMatch(input, cursor, nibble, output, size)
  {
    hide ReadLength, CopyMatch;
    ReadLengthIgnoresPadding(input, pad, cursor + 2, nibble);
    assert Get16(input + pad, cursor) == Get16(input, cursor);
  }

  lemma {:induction false} DecodeFromIgnoresPadding(input: bytes, pad: bytes, cursor: nat, output: bytes, size: nat)
    requires cursor <= |input| && |output| <= size
    requires DecodeFrom(input, cursor, output, size).Ok?
    ensures DecodeFrom(input + pad, cursor, output, size) == DecodeFrom(input, cursor, output, size)
    decreases |input| - cursor
  {
    if |output| != size {
      hide DecodeLiterals, DecodeMatch;
      var token := input[cursor] as int;
      DecodeLiteralsIgnoresPadding(input, pad, cursor + 1, token / 16, output, size);
      var (grown, at) := DecodeLiterals(input, cursor + 1, token / 16, output, size).value;
      if |grown| != size {
        DecodeMatchIgnoresPadding(input, pad, at, token % 16, grown, size);
        var (longer, next) := DecodeMatch(input, at, token % 16, grown, size).value;
        DecodeFromIgnoresPadding(input, pad, next, longer, size);
      }
    }
  }

  /** The zero padding of a payload block does not change what it decodes to. */
  lemma {:induction false} DecodeIgnoresPadding(input: bytes, pad: bytes, size: nat)
    requires Decode(input, size).Ok?
    ensures Decode(input + pad, size) == Decode(input, size)
  {
    DecodeFromIgnoresPadding(input, pad, 0, [], size);
  }
}
