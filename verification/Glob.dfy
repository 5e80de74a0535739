/** Name patterns with `*` and `?`: a loop that remembers only the last star, against the meaning of the pattern. */
module Glob {
  import opened Core

  const STAR: byte := 42
  const ANY: byte := 63

  /** The meaning: `?` stands for one byte, `*` for any number of bytes, everything else for itself. */
  predicate Matches(name: bytes, pattern: bytes)
    decreases |pattern|, |name|
  {
    if pattern == [] then name == []
    else if pattern[0] == STAR then Matches(name, pattern[1..]) || (name != [] && Matches(name[1..], pattern))
    else name != [] && Fits(name[0], pattern[0]) && Matches(name[1..], pattern[1..])
  }

  /** A single pattern byte accepts a name byte. */
  predicate Fits(c: byte, p: byte) {
    p == ANY || p == c
  }

  // ---- The loop --------------------------------------------------------------------------------------------

  /** Where the loop stands: positions in name and pattern, the last star and where its match begins. */
  datatype State = State(n: nat, p: nat, star: Option<nat>, from: nat)

  predicate StateFits(name: bytes, pattern: bytes, s: State) {
    && s.n <= |name| && s.p <= |pattern| && s.from <= s.n
    && (s.star.Some? ==> s.star.value < s.p)
  }

  /** One round; `None` when the loop gives up. */
  function Step(name: bytes, pattern: bytes, s: State): (r: Option<State>)
    requires StateFits(name, pattern, s) && s.n < |name|
    ensures r.Some? ==> StateFits(name, pattern, r.value)
  {
    if s.p < |pattern| && Fits(name[s.n], pattern[s.p]) then Some(s.(n := s.n + 1, p := s.p + 1))
    else if s.p < |pattern| && pattern[s.p] == STAR then Some(State(s.n, s.p + 1, Some(s.p), s.n))
    else if s.star.Some? then Some(State(s.from + 1, s.star.value + 1, s.star, s.from + 1))
    else None
  }

  function StarRank(pattern: bytes, s: State): nat
    requires s.p <= |pattern| && (s.star.Some? ==> s.star.value < s.p)
  {
    if s.star.Some? then |pattern| - s.star.value else |pattern| + 1
  }

  /** What the loop answers from state `s` on. */
  predicate Run(name: bytes, pattern: bytes, s: State)
    requires StateFits(name, pattern, s)
    decreases StarRank(pattern, s), |name| - s.from, |name| - s.n
  {
    if s.n == |name| then OnlyStars(pattern[s.p..])
    else
      match Step(name, pattern, s)
      case None => false
      case Some(next) => Run(name, pattern, next)
  }

  predicate OnlyStars(pattern: bytes) {
    forall i :: 0 <= i < |pattern| ==> pattern[i] == STAR
  }

  const START := State(0, 0, None, 0)

  /** `matches_pattern`. */
  method MatchesPattern(name: bytes, pattern: bytes) returns (r: bool)
    ensures r == Run(name, pattern, START)
    ensures STAR !in name ==> r == Matches(name, pattern)
  {
    hide OnlyStars;
    var s := START;
    while s.n < |name|
      invariant StateFits(name, pattern, s) && Run(name, pattern, s) == Run(name, pattern, START)
      decreases StarRank(pattern, s), |name| - s.from, |name| - s.n
    {
      var next := Step(name, pattern, s);
      if next.None? {
        StartRight(name, pattern);
        return false;
      }
      s := next.value;
    }
    var p := s.p;
    StartRight(name, pattern);
    StarsBetween(pattern, s.p, p);
    while p < |pattern| && pattern[p] == STAR
      invariant s.p <= p <= |pattern| && OnlyStars(pattern[s.p..p])
    {
      StarsBetween(pattern, s.p, p + 1);
      p := p + 1;
    }
    StarsToTheEnd(pattern, s.p, p);
    return p == |pattern|;
  }

  lemma {:induction false} StarsBetween(pattern: bytes, from: nat, until: nat)
    requires from <= until <= |pattern|
    requires from < until ==> OnlyStars(pattern[from..until - 1]) && pattern[until - 1] == STAR
    ensures OnlyStars(pattern[from..until])
  {
    if from < until {
      assert pattern[from..until] == pattern[from..until - 1] + [pattern[until - 1]];
    }
  }

  lemma {:induction false} StarsToTheEnd(pattern: bytes, from: nat, p: nat)
    requires from <= p <= |pattern| && OnlyStars(pattern[from..p]) && (p == |pattern| || pattern[p] != STAR)
    ensures OnlyStars(pattern[from..]) <==> p == |pattern|
  {
    if p < |pattern| {
      assert pattern[from..][p - from] == pattern[p];
    } else {
      assert pattern[from..] == pattern[from..p];
    }
  }

  // ---- Why one star is enough ------------------------------------------------------------------------------

  /** `segment` fits the beginning of `name` byte by byte. */
  predicate FitsAll(name: bytes, segment: bytes) {
    |segment| <= |name| && forall i :: 0 <= i < |segment| ==> Fits(name[i], segment[i])
  }

  /** Without a star, a segment consumes exactly its length. */
  lemma {:induction false} SegmentConsumes(name: bytes, segment: bytes, rest: bytes)
    requires STAR !in segment
    ensures Matches(name, segment + rest) <==> FitsAll(name, segment) && Matches(name[|segment|..], rest)
    decreases |segment|
  {
    if segment == [] {
      assert segment + rest == rest && name[0..] == name;
    } else {
      var pattern := segment + rest;
      assert pattern[0] == segment[0] && segment[0] in segment;
      assert pattern[1..] == segment[1..] + rest;
      if name != [] {
        SegmentConsumes(name[1..], segment[1..], rest);
        if |segment| <= |name| {
          assert name[1..][|segment| - 1..] == name[|segment|..];
        }
        FitsAllStep(name, segment);
      }
    }
  }

  lemma {:induction false} FitsAllStep(name: bytes, segment: bytes)
    requires name != [] && segment != []
    ensures FitsAll(name, segment) <==> Fits(name[0], segment[0]) && FitsAll(name[1..], segment[1..])
  {
    if Fits(name[0], segment[0]) && FitsAll(name[1..], segment[1..]) {
      forall i | 0 <= i < |segment|
        ensures Fits(name[i], segment[i])
      {
        if i > 0 {
          assert segment[1..][i - 1] == segment[i] && name[1..][i - 1] == name[i];
        }
      }
    }
    if FitsAll(name, segment) {
      forall i | 0 <= i < |segment[1..]|
        ensures Fits(name[1..][i], segment[1..][i])
      {
        assert Fits(name[i + 1], segment[i + 1]);
      }
    }
  }

  /** A star absorbs whatever comes first. */
  lemma {:induction false} StarAbsorbs(name: bytes, rest: bytes, k: nat)
    requires k <= |name| && Matches(name[k..], [STAR] + rest)
    ensures Matches(name, [STAR] + rest)
    decreases k
  {
    if k == 0 {
      assert name[0..] == name;
    } else {
      assert name[1..][k - 1..] == name[k..];
      StarAbsorbs(name[1..], rest, k - 1);
    }
  }

  /** What a star matches begins somewhere. */
  lemma {:induction false} StarBegins(name: bytes, rest: bytes)
    ensures Matches(name, [STAR] + rest) <==> exists k :: 0 <= k <= |name| && Matches(name[k..], rest)
    decreases |name|
  {
    var pattern := [STAR] + rest;
    assert pattern[1..] == rest && name[0..] == name;
    if name != [] {
      StarBegins(name[1..], rest);
      if Matches(name[1..], pattern) {
        var k :| 0 <= k <= |name[1..]| && Matches(name[1..][k..], rest);
        assert name[1..][k..] == name[k + 1..];
      }
      if k :| 0 < k <= |name| && Matches(name[k..], rest) {
        assert name[1..][k - 1..] == name[k..];
      }
    }
  }

  /** Between two stars the earliest place where the segment fits is as good as any. */
  lemma {:induction false} EarliestFit(name: bytes, segment: bytes, rest: bytes)
    requires STAR !in segment && FitsAll(name, segment)
    ensures Matches(name, [STAR] + (segment + ([STAR] + rest))) <==> Matches(name[|segment|..], [STAR] + rest)
  {
    var tail := [STAR] + rest;
    StarBegins(name, segment + tail);
    if Matches(name, [STAR] + (segment + tail)) {
      var k :| 0 <= k <= |name| && Matches(name[k..], segment + tail);
      SegmentConsumes(name[k..], segment, tail);
      assert name[k..][|segment|..] == name[|segment|..][k..];
      StarAbsorbs(name[|segment|..], rest, k);
    }
    if Matches(name[|segment|..], tail) {
      SegmentConsumes(name, segment, tail);
      assert name[0..] == name;
    }
  }

  /** A star whose segment fits but leaves the wrong rest must begin later. */
  lemma {:induction false} StarMovesOn(name: bytes, segment: bytes, rest: bytes)
    requires STAR !in segment && FitsAll(name, segment) && !Matches(name[|segment|..], rest)
    ensures Matches(name, [STAR] + (segment + rest)) <==> name != [] && Matches(name[1..], [STAR] + (segment + rest))
  {
    SegmentConsumes(name, segment, rest);
    assert ([STAR] + (segment + rest))[1..] == segment + rest;
  }

  /** When the segment reaches the end of the name, the star cannot begin later. */
  lemma {:induction false} StarAtTheEnd(name: bytes, segment: bytes, rest: bytes)
    requires STAR !in segment && FitsAll(name, segment) && |segment| == |name|
    ensures Matches(name, [STAR] + (segment + rest)) <==> Matches([], rest)
  {
    StarBegins(name, segment + rest);
    SegmentConsumes(name, segment, rest);
    assert name[|segment|..] == [] && name[0..] == name;
    if Matches(name, [STAR] + (segment + rest)) {
      var k :| 0 <= k <= |name| && Matches(name[k..], segment + rest);
      SegmentConsumes(name[k..], segment, rest);
      assert name[k..][|segment|..] == [];
    }
  }

  // ---- The loop is right on names without stars ------------------------------------------------------------

  /** The pattern since the last star fits the name since where its match begins. */
  predicate InSegment(name: bytes, pattern: bytes, s: State)
    requires StateFits(name, pattern, s)
  {
    s.star.Some? ==>
      var segment := pattern[s.star.value + 1..s.p];
      && pattern[s.star.value] == STAR && STAR !in segment
      && |segment| == s.n - s.from && FitsAll(name[s.from..], segment)
  }

  /** The question the loop has left. */
  predicate Left(name: bytes, pattern: bytes, s: State)
    requires StateFits(name, pattern, s)
  {
    if s.star.Some? then Matches(name[s.from..], pattern[s.star.value..]) else Matches(name[s.n..], pattern[s.p..])
  }

  lemma {:induction false} SplitAtStar(pattern: bytes, star: nat, p: nat)
    requires star < p <= |pattern| && pattern[star] == STAR
    ensures pattern[star..] == [STAR] + (pattern[star + 1..p] + pattern[p..])
  {
  }

  lemma {:induction false} OnlyStarsMatchNothing(pattern: bytes)
    ensures Matches([], pattern) <==> OnlyStars(pattern)
    decreases |pattern|
  {
    if pattern != [] {
      OnlyStarsMatchNothing(pattern[1..]);
      if OnlyStars(pattern[1..]) && pattern[0] == STAR {
        assert forall i :: 1 <= i < |pattern| ==> pattern[i] == pattern[1..][i - 1];
      }
    }
  }

  lemma {:induction false} TakeByte(name: bytes, pattern: bytes, s: State)
    requires StateFits(name, pattern, s) && InSegment(name, pattern, s) && STAR !in name
    requires s.n < |name| && s.p < |pattern| && Fits(name[s.n], pattern[s.p])
    ensures var next := s.(n := s.n + 1, p := s.p + 1);
            InSegment(name, pattern, next) && Left(name, pattern, next) == Left(name, pattern, s)
  {
    assert name[s.n] in name && pattern[s.p] != STAR;
    if s.star.Some? {
      var segment := pattern[s.star.value + 1..s.p];
      var longer := pattern[s.star.value + 1..s.p + 1];
      assert longer == segment + [pattern[s.p]];
      assert name[s.from..][s.n - s.from] == name[s.n];
    } else {
      assert name[s.n..][1..] == name[s.n + 1..] && pattern[s.p..][1..] == pattern[s.p + 1..];
    }
  }

  lemma {:induction false} NewStar(name: bytes, pattern: bytes, s: State)
    requires StateFits(name, pattern, s) && InSegment(name, pattern, s)
    requires s.p < |pattern| && pattern[s.p] == STAR
    ensures var next := State(s.n, s.p + 1, Some(s.p), s.n);
            InSegment(name, pattern, next) && Left(name, pattern, next) == Left(name, pattern, s)
  {
    if s.star.Some? {
      var segment := pattern[s.star.value + 1..s.p];
      SplitAtStar(pattern, s.star.value, s.p);
      SplitAtStar(pattern, s.p, s.p + 1);
      assert pattern[s.p..] == [STAR] + pattern[s.p + 1..];
      EarliestFit(name[s.from..], segment, pattern[s.p + 1..]);
      assert name[s.from..][|segment|..] == name[s.n..];
    }
  }

  lemma {:induction false} Backtrack(name: bytes, pattern: bytes, s: State)
    requires StateFits(name, pattern, s) && InSegment(name, pattern, s) && s.star.Some? && s.n < |name|
    requires s.p < |pattern| ==> !Fits(name[s.n], pattern[s.p]) && pattern[s.p] != STAR
    ensures var next := State(s.from + 1, s.star.value + 1, s.star, s.from + 1);
            InSegment(name, pattern, next) && Left(name, pattern, next) == Left(name, pattern, s)
  {
    var segment := pattern[s.star.value + 1..s.p];
    SplitAtStar(pattern, s.star.value, s.p);
    assert name[s.from..][|segment|..] == name[s.n..];
    assert s.p < |pattern| ==> pattern[s.p..][0] == pattern[s.p] && name[s.n..][0] == name[s.n];
    StarMovesOn(name[s.from..], segment, pattern[s.p..]);
    assert name[s.from..][1..] == name[s.from + 1..];
  }

  lemma {:induction false} GiveUp(name: bytes, pattern: bytes, s: State)
    requires StateFits(name, pattern, s) && s.star.None? && s.n < |name|
    requires s.p < |pattern| ==> !Fits(name[s.n], pattern[s.p]) && pattern[s.p] != STAR
    ensures !Left(name, pattern, s)
  {
    assert s.p < |pattern| ==> pattern[s.p..][0] == pattern[s.p] && name[s.n..][0] == name[s.n];
  }

  lemma {:induction false} NameDone(name: bytes, pattern: bytes, s: State)
    requires StateFits(name, pattern, s) && InSegment(name, pattern, s) && s.n == |name|
    ensures Left(name, pattern, s) == OnlyStars(pattern[s.p..])
  {
    OnlyStarsMatchNothing(pattern[s.p..]);
    if s.star.Some? {
      SplitAtStar(pattern, s.star.value, s.p);
      StarAtTheEnd(name[s.from..], pattern[s.star.value + 1..s.p], pattern[s.p..]);
    } else {
      assert name[s.n..] == [];
    }
  }

  lemma {:induction false} RunIsLeft(name: bytes, pattern: bytes, s: State)
    requires StateFits(name, pattern, s) && InSegment(name, pattern, s) && STAR !in name
    ensures Run(name, pattern, s) == Left(name, pattern, s)
    decreases StarRank(pattern, s), |name| - s.from, |name| - s.n
  {
    hide Left, InSegment, OnlyStars, Fits;
    if s.n == |name| {
      NameDone(name, pattern, s);
    } else if s.p < |pattern| && Fits(name[s.n], pattern[s.p]) {
      TakeByte(name, pattern, s);
      RunIsLeft(name, pattern, Step(name, pattern, s).value);
    } else if s.p < |pattern| && pattern[s.p] == STAR {
      NewStar(name, pattern, s);
      RunIsLeft(name, pattern, Step(name, pattern, s).value);
    } else if s.star.Some? {
      Backtrack(name, pattern, s);
      RunIsLeft(name, pattern, Step(name, pattern, s).value);
    } else {
      GiveUp(name, pattern, s);
    }
  }

  lemma {:induction false} StartRight(name: bytes, pattern: bytes)
    ensures STAR !in name ==> Run(name, pattern, START) == Matches(name, pattern)
  {
    if STAR !in name {
      RunIsLeft(name, pattern, START);
      assert name[0..] == name && pattern[0..] == pattern;
    }
  }

  // ---- And only on those -----------------------------------------------------------------------------------

  function Anys(n: nat): (r: bytes)
    ensures |r| == n && forall i :: 0 <= i < n ==> r[i] == ANY
  {
    seq(n, _ => ANY)
  }

  /** A pattern on which a name with its first star at `k` goes wrong: the star is taken for a plain byte. */
  function Misread(name: bytes, k: nat): bytes
    requires k < |name|
  {
    Anys(k) + [STAR] + Anys(|name| - k)
  }

  lemma {:induction false} AnysMatch(name: bytes)
    ensures Matches(name, Anys(|name|))
    decreases |name|
  {
    if name != [] {
      AnysMatch(name[1..]);
      assert Anys(|name|)[1..] == Anys(|name| - 1);
    }
  }

  lemma {:induction false} MisreadMatches(name: bytes, k: nat)
    requires k < |name|
    ensures Matches(name, Misread(name, k))
  {
    var tail := [STAR] + Anys(|name| - k);
    AnysMatch(name[k..]);
    StarBegins(name[k..], Anys(|name| - k));
    assert name[k..][0..] == name[k..];
    SegmentConsumes(name, Anys(k), tail);
    assert Misread(name, k) == Anys(k) + tail;
  }

  lemma {:induction false} MisreadRuns(name: bytes, k: nat, i: nat)
    requires k < |name| && name[k] == STAR && i <= |name|
    ensures !Run(name, Misread(name, k), State(i, i, None, 0))
    decreases |name| - i
  {
    var pattern := Misread(name, k);
    assert |pattern| == |name| + 1;
    if i == |name| {
      assert pattern[i..][0] == ANY;
    } else {
      assert pattern[i] == if i == k then STAR else ANY;
      MisreadRuns(name, k, i + 1);
    }
  }

  /** The loop means what the pattern means, for every pattern, exactly on the names without a star. */
  lemma {:induction false} RightIff(name: bytes)
    ensures (forall pattern: bytes :: Run(name, pattern, START) == Matches(name, pattern)) <==> STAR !in name
  {
    if STAR in name {
      var k :| 0 <= k < |name| && name[k] == STAR;
      MisreadMatches(name, k);
      MisreadRuns(name, k, 0);
      assert Run(name, Misread(name, k), START) != Matches(name, Misread(name, k));
    } else {
      forall pattern: bytes
        ensures Run(name, pattern, START) == Matches(name, pattern)
      {
        StartRight(name, pattern);
      }
    }
  }
}
