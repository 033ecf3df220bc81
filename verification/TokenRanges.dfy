/** Ranges on the token ring (lib/token.js). Tokens of any partitioner are totally ordered and countable, so they stand
    as real numbers here; min is the partitioner's minimum token. */
module TokenRanges {
  import opened Bytes

  /** Start-exclusive, end-inclusive. */
  datatype TokenRange = TokenRange(start: real, end: real)

  function Compare(a: real, b: real): int {
    if a < b then -1 else if a > b then 1 else 0
  }

  predicate IsEmpty(r: TokenRange, min: real) {
    r.start == r.end && r.start != min
  }

  predicate IsWrappedAround(r: TokenRange, min: real) {
    Compare(r.start, r.end) > 0 && r.end != min
  }

  function Unwrap(r: TokenRange, min: real): seq<TokenRange> {
    if IsWrappedAround(r, min) then [TokenRange(r.start, min), TokenRange(min, r.end)] else [r]
  }

  predicate Contains(r: TokenRange, t: real, min: real) {
    if IsEmpty(r, min) then false
    else if r.end == min then
      if r.start == min then true else if t == min then true else Compare(t, r.start) > 0
    else
      var isAfterStart, isBeforeEnd := Compare(t, r.start) > 0, Compare(t, r.end) <= 0;
      if IsWrappedAround(r, min) then isAfterStart || isBeforeEnd else isAfterStart && isBeforeEnd
  }

  // ---------------------------------------------------------------- the ring

  /** Going round the ring from just after s, x is met no later than y; s itself is met last. */
  ghost predicate NoLater(s: real, x: real, y: real) {
    (x > s && y <= s) || ((x > s <==> y > s) && x <= y)
  }

  /** The tokens met from the start on, up to the end; equal ends are the whole ring at the minimum, else nothing. */
  ghost predicate Member(r: TokenRange, t: real, min: real) {
    if r.start == r.end then r.start == min else NoLater(r.start, t, r.end)
  }

  ghost predicate OnRing(r: TokenRange, min: real) {
    r.start >= min && r.end >= min
  }

  /** contains is membership on the ring. */
  lemma {:induction false} ContainsIsMember(r: TokenRange, t: real, min: real)
    requires OnRing(r, min) && t >= min
    ensures Contains(r, t, min) <==> Member(r, t, min)
  {
  }

  /** unwrap gives ranges that do not wrap, each token of the range in exactly one of them and no other token. */
  lemma {:induction false} UnwrapPartitions(r: TokenRange, min: real)
    requires OnRing(r, min)
    ensures forall i :: 0 <= i < |Unwrap(r, min)| ==> !IsWrappedAround(Unwrap(r, min)[i], min)
    ensures Partition(Unwrap(r, min), r, min)
  {
    var rs := Unwrap(r, min);
    forall t | t >= min
      ensures Count(rs, t, min) == if Member(r, t, min) then 1 else 0
    {
      if IsWrappedAround(r, min) {
        assert rs[1..] == [rs[1]] && [rs[1]][1..] == [];
        assert Count([rs[1]], t, min) == if Member(rs[1], t, min) then 1 else 0;
      } else {
        assert rs[1..] == [];
      }
    }
  }

  // ---------------------------------------------------------------- splitting

  /** How many of the ranges hold the token. */
  ghost function Count(rs: seq<TokenRange>, t: real, min: real): nat {
    if rs == [] then 0 else (if Member(rs[0], t, min) then 1 else 0) + Count(rs[1..], t, min)
  }

  ghost predicate Partition(rs: seq<TokenRange>, r: TokenRange, min: real) {
    forall t :: t >= min ==> Count(rs, t, min) == if Member(r, t, min) then 1 else 0
  }

  function Chain(start: real, points: seq<real>, end: real): (rs: seq<TokenRange>)
    ensures |rs| == |points| + 1
    decreases |points|
  {
    if points == [] then [TokenRange(start, end)]
    else [TokenRange(start, points[0])] + Chain(points[0], points[1..], end)
  }

  /** The points come in ring order from the start and not after the end. */
  ghost predicate InOrder(s: real, points: seq<real>, end: real, min: real)
    decreases |points|
  {
    if points == [] then true
    else points[0] >= min && NoLater(s, points[0], if |points| == 1 then end else points[1]) && InOrder(s, points[1..],
        end, min)
  }

  lemma {:induction false} InOrderLast(s: real, points: seq<real>, end: real, min: real)
    requires InOrder(s, points, end, min) && points != []
    decreases |points|
    ensures NoLater(s, points[0], end) && points[0] >= min
  {
    if |points| > 1 {
      assert points[1..][0] == points[1];
      InOrderLast(s, points[1..], end, min);
    }
  }

  /** A link of the chain behind the first holds the tokens between its ends. */
  lemma {:induction false} Link(s: real, a: real, b: real, t: real, min: real)
    requires s >= min && a >= min && b >= min && t >= min && NoLater(s, a, b) && a != s && !(a == b == min)
    ensures Member(TokenRange(a, b), t, min) <==> !NoLater(s, t, a) && NoLater(s, t, b)
  {
  }

  lemma {:induction false} SecondLink(start: real, points: seq<real>, end: real)
    requires points != []
    ensures Chain(start, points, end)[1] == TokenRange(points[0], if |points| == 1 then end else points[1])
  {
    assert Chain(start, points, end)[1..] == Chain(points[0], points[1..], end);
  }

  /** No link goes from the minimum to the minimum, which would be the whole ring. */
  ghost predicate NoFullLink(rs: seq<TokenRange>, min: real) {
    forall i :: 0 <= i < |rs| ==> !(rs[i].start == min && rs[i].end == min)
  }

  lemma {:induction false} ChainCount(s: real, a: real, points: seq<real>, end: real, t: real, min: real)
    requires s >= min && a >= min && end >= min && t >= min && a != s && InOrder(s, points, end, min)
    requires NoLater(s, a, if points == [] then end else points[0]) && NoFullLink(Chain(a, points, end), min)
    requires s == end ==> s == min
    ensures Count(Chain(a, points, end), t, min) == if !NoLater(s, t, a) && NoLater(s, t, end) then 1 else 0
    decreases |points|
  {
    var rs := Chain(a, points, end);
    assert !(rs[0].start == min && rs[0].end == min);
    if points == [] {
      assert rs[1..] == [];
      Link(s, a, end, t, min);
    } else {
      var p := points[0];
      InOrderLast(s, points, end, min);
      Link(s, a, p, t, min);
      assert rs[1..] == Chain(p, points[1..], end);
      SecondLink(a, points, end);
      assert !(rs[1].start == min && rs[1].end == min);
      if p != s {
        assert |points| > 1 ==> points[1..][0] == points[1];
        assert forall i :: 0 <= i < |rs[1..]| ==> rs[1..][i] == rs[i + 1];
        ChainCount(s, p, points[1..], end, t, min);
      } else {
        assert false;
      }
    }
  }

  /** Split points in ring order partition the range exactly when no link is the whole ring, or there are none. */
  lemma {:induction false} SplitPartitions(r: TokenRange, points: seq<real>, min: real)
    requires OnRing(r, min) && !IsEmpty(r, min) && InOrder(r.start, points, r.end, min)
    ensures Partition(Chain(r.start, points, r.end), r, min)
      <==> points == [] || NoFullLink(Chain(r.start, points, r.end), min)
  {
    var rs, s := Chain(r.start, points, r.end), r.start;
    if points == [] {
      assert rs == [r] && rs[1..] == [];
      assert forall t :: Count(rs, t, min) == if Member(r, t, min) then 1 else 0;
    } else if NoFullLink(rs, min) {
      forall t | t >= min
        ensures Count(rs, t, min) == if Member(r, t, min) then 1 else 0
      {
        SplitCount(r, points, t, min);
      }
    } else {
      var j :| 0 <= j < |rs| && rs[j].start == min && rs[j].end == min;
      PointsOnRing(s, points, r.end, min);
      FullLinkBreaks(r, points, j, min);
    }
  }

  /** The whole ring split at the minimum token: both links are the whole ring again. */
  lemma {:induction false} SplitAtTheMinimum()
    ensures !Partition(Chain(0.0, [0.0], 0.0), TokenRange(0.0, 0.0), 0.0)
  {
    var rs := Chain(0.0, [0.0], 0.0);
    assert [0.0][1..] == [] && rs[0] == TokenRange(0.0, 0.0);
    SplitPartitions(TokenRange(0.0, 0.0), [0.0], 0.0);
  }

  lemma {:induction false} SplitCount(r: TokenRange, points: seq<real>, t: real, min: real)
    requires OnRing(r, min) && !IsEmpty(r, min) && points != [] && InOrder(r.start, points, r.end, min) && t >= min
    requires NoFullLink(Chain(r.start, points, r.end), min)
    ensures Count(Chain(r.start, points, r.end), t, min) == if Member(r, t, min) then 1 else 0
  {
    var rs, s, p := Chain(r.start, points, r.end), r.start, points[0];
    InOrderLast(s, points, r.end, min);
    assert !(rs[0].start == min && rs[0].end == min);
    assert rs[1..] == Chain(p, points[1..], r.end);
    assert |points| > 1 ==> points[1..][0] == points[1];
    assert forall i :: 0 <= i < |rs[1..]| ==> rs[1..][i] == rs[i + 1];
    ChainCount(s, p, points[1..], r.end, t, min);
  }

  lemma {:induction false} TwoHold(rs: seq<TokenRange>, i: nat, j: nat, t: real, min: real)
    requires i < j < |rs| && Member(rs[i], t, min) && Member(rs[j], t, min)
    ensures Count(rs, t, min) >= 2
  {
    if i > 0 {
      assert rs[1..][i - 1] == rs[i] && rs[1..][j - 1] == rs[j];
      TwoHold(rs[1..], i - 1, j - 1, t, min);
    } else {
      assert rs[1..][j - 1] == rs[j];
      OneHolds(rs[1..], j - 1, t, min);
    }
  }

  lemma {:induction false} OneHolds(rs: seq<TokenRange>, j: nat, t: real, min: real)
    requires j < |rs| && Member(rs[j], t, min)
    ensures Count(rs, t, min) >= 1
  {
    if j > 0 {
      assert rs[1..][j - 1] == rs[j];
      OneHolds(rs[1..], j - 1, t, min);
    }
  }

  lemma {:induction false} ChainLinks(start: real, points: seq<real>, end: real, i: nat)
    requires i < |points|
    ensures var rs := Chain(start, points, end); rs[i].end == points[i] == rs[i + 1].start && rs[0].start == start
    decreases |points|
  {
    var rs := Chain(start, points, end);
    assert rs[1..] == Chain(points[0], points[1..], end);
    assert rs[1]
      == rs[1..][0] && rs[1..][0].start == points[0] by { if |points| > 1 { ChainLinks(points[0], points[1..], end,
          0); } }
    if i > 0 {
      ChainLinks(points[0], points[1..], end, i - 1);
      assert rs[i] == rs[1..][i - 1] && rs[i + 1] == rs[1..][i];
    }
  }

  /** A link over the whole ring beside another link is no partition. */
  lemma {:induction false} FullLinkBreaks(r: TokenRange, points: seq<real>, j: nat, min: real)
    requires OnRing(r, min) && !IsEmpty(r, min) && points != []
    requires j < |points| + 1 && Chain(r.start, points, r.end)[j] == TokenRange(min, min)
    requires forall i :: 0 <= i < |points| ==> points[i] >= min
    ensures !Partition(Chain(r.start, points, r.end), r, min)
  {
    var rs := Chain(r.start, points, r.end);
    if r.start != r.end {
      OneHolds(rs, j, r.start, min);
      assert !Member(r, r.start, min);
    } else if j < |points| {
      ChainLinks(r.start, points, r.end, j);
      var t := rs[j + 1].end;
      LinkEnds(r.start, points, r.end, j + 1, min);
      TwoHold(rs, j, j + 1, t, min);
    } else {
      ChainLinks(r.start, points, r.end, j - 1);
      TwoHold(rs, j - 1, j, min, min);
    }
  }

  lemma {:induction false} LinkEnds(start: real, points: seq<real>, end: real, i: nat, min: real)
    requires i <= |points| && end >= min && forall k :: 0 <= k < |points| ==> points[k] >= min
    ensures Chain(start, points, end)[i].end >= min
  {
    if i < |points| {
      ChainLinks(start, points, end, i);
    } else {
      ChainEnd(start, points, end);
    }
  }

  lemma {:induction false} ChainEnd(start: real, points: seq<real>, end: real)
    ensures Chain(start, points, end)[|points|].end == end
    decreases |points|
  {
    if points != [] {
      ChainEnd(points[0], points[1..], end);
    }
  }

  lemma {:induction false} PointsOnRing(s: real, points: seq<real>, end: real, min: real)
    requires InOrder(s, points, end, min)
    ensures forall i :: 0 <= i < |points| ==> points[i] >= min
    decreases |points|
  {
    if points != [] {
      PointsOnRing(s, points[1..], end, min);
      assert points == [points[0]] + points[1..];
    }
  }

  /** splitEvenly with the split points of the tokenizer; it rejects a split count below one and an empty range. */
  method SplitEvenly(r: TokenRange, numberOfSplits: int, splitPoints: seq<real>,
                     min: real) returns (result: Result<seq<TokenRange>>)
    ensures result == if numberOfSplits < 1 || IsEmpty(r, min) then Err else Ok(Chain(r.start, splitPoints, r.end))
  {
    if numberOfSplits < 1 {
      return Err;
    }
    if IsEmpty(r, min) {
      return Err;
    }
    var tokenRanges := [];
    var splitStart := r.start;
    assert splitPoints[0..] == splitPoints;
    for splitIndex := 0 to |splitPoints|
      invariant tokenRanges + Chain(splitStart, splitPoints[splitIndex..], r.end) == Chain(r.start, splitPoints, r.end)
    {
      var splitEnd := splitPoints[splitIndex];
      assert splitPoints[splitIndex..][0] == splitEnd;
      assert splitPoints[splitIndex..][1..] == splitPoints[splitIndex + 1..];
      tokenRanges := tokenRanges + [TokenRange(splitStart, splitEnd)];
      splitStart := splitEnd;
    }
    assert splitPoints[|splitPoints|..] == [];
    tokenRanges := tokenRanges + [TokenRange(splitStart, r.end)];
    return Ok(tokenRanges);
  }
}
