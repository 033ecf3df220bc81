/** When toString compresses a true run of zeros, said of the address alone: of the lengths and places of its runs of
    zero groups. */
module InetRuns {
  import opened Bytes
  import opened Inet
  import opened InetRoundTrip
  import opened InetAddresses

  /** The length of the run of zeros that starts at p. */
  function RunLength(z: seq<bool>, p: nat): nat
    decreases |z| - p
  {
    if p < |z| && z[p] then 1 + RunLength(z, p + 1) else 0
  }

  /** The length of the run of zeros that ends just before k. */
  function EndingAt(z: seq<bool>, k: nat): nat
    requires k <= |z|
  {
    if k > 0 && z[k - 1] then 1 + EndingAt(z, k - 1) else 0
  }

  /** The longest run of zeros before k. */
  function LongestBefore(z: seq<bool>, k: nat): nat
    requires k <= |z|
  {
    if k == 0 then 0
    else if EndingAt(z, k) > LongestBefore(z, k - 1) then EndingAt(z, k) else LongestBefore(z, k - 1)
  }

  /** The start, from k on, of the first run that is not longer than all runs before it; the end when there is none. */
  function FirstShort(z: seq<bool>, k: nat): (s: nat)
    requires k <= |z|
    ensures k <= s <= |z|
    decreases |z| - k
  {
    if k == |z| then k
    else if z[k] && (k == 0 || !z[k - 1]) && RunLength(z, k) <= LongestBefore(z, k) then k
    else FirstShort(z, k + 1)
  }

  /** The last place where the scan compares a run: the end if the last group is zero, else the last group. */
  function LastCheck(z: seq<bool>): nat
    requires z != []
  {
    if z[|z| - 1] then |z| else |z| - 1
  }

  /** Every run is longer than those before it; or the first that is not stands so close to the end that it never looks
      longer; or, for the one pattern 0:x:0:x:x:0:0:0, a later run overtakes it. */
  predicate RunsCompress(z: seq<bool>)
    requires |z| == 8
  {
    var s := FirstShort(z, 0);
    || s == 8
    || LastCheck(z) - s <= LongestBefore(z, s)
    || z == [true, false, true, false, false, true, true, true]
  }

  // ---------------------------------------------------------------- runs

  lemma {:induction false} EndingMeans(z: seq<bool>, k: nat)
    requires k <= |z|
    ensures var c := EndingAt(z, k);
      c <= k && (forall i :: k - c <= i < k ==> z[i]) && (k - c == 0 || !z[k - c - 1])
  {
    if k > 0 && z[k - 1] {
      EndingMeans(z, k - 1);
    }
  }

  /** A stretch of zeros from the start of a run on. */
  ghost predicate Stretch(z: seq<bool>, p: nat, k: nat) {
    p <= k <= |z| && (forall i :: p <= i < k ==> z[i]) && (p == 0 || !z[p - 1])
  }

  lemma {:induction false} StretchEnds(z: seq<bool>, p: nat, k: nat)
    requires Stretch(z, p, k)
    ensures EndingAt(z, k) == k - p
    ensures LongestBefore(z, k) == if k - p > LongestBefore(z, p) then k - p else LongestBefore(z, p)
    decreases k
  {
    if k > p {
      StretchEnds(z, p, k - 1);
    }
  }

  lemma {:induction false} StretchLength(z: seq<bool>, p: nat, k: nat)
    requires Stretch(z, p, k) && (k == |z| || !z[k])
    ensures RunLength(z, p) == k - p
    decreases k - p
  {
    if p < k {
      TailLength(z, p + 1, k);
    }
  }

  lemma {:induction false} TailLength(z: seq<bool>, p: nat, k: nat)
    requires p <= k <= |z| && (forall i :: p <= i < k ==> z[i]) && (k == |z| || !z[k])
    ensures RunLength(z, p) == k - p
    decreases k - p
  {
    if p < k {
      TailLength(z, p + 1, k);
    }
  }

  lemma {:induction false} LengthMeans(z: seq<bool>, p: nat)
    requires p <= |z|
    ensures p + RunLength(z, p) <= |z| && (p + RunLength(z, p) < |z| ==> !z[p + RunLength(z, p)])
    decreases |z| - p
  {
    if p < |z| && z[p] {
      LengthMeans(z, p + 1);
    }
  }

  /** A run before the first short one is longer than all runs before it. */
  lemma {:induction false} NotShort(z: seq<bool>, j: nat, p: nat)
    requires j <= p < |z| && FirstShort(z, j) > p && z[p] && (p == 0 || !z[p - 1])
    ensures RunLength(z, p) > LongestBefore(z, p)
    decreases p - j
  {
    if j < p {
      NotShort(z, j + 1, p);
    }
  }

  lemma {:induction false} ShortMeans(z: seq<bool>, j: nat)
    requires j <= |z| && FirstShort(z, j) < |z|
    ensures var s := FirstShort(z, j); z[s] && (s == 0 || !z[s - 1]) && RunLength(z, s) <= LongestBefore(z, s)
    decreases |z| - j
  {
    if !(z[j] && (j == 0 || !z[j - 1]) && RunLength(z, j) <= LongestBefore(z, j)) {
      ShortMeans(z, j + 1);
    }
  }

  /** A run of that length fits before k, and with another run following it a gap too. */
  lemma {:induction false} LongestFits(z: seq<bool>, k: nat)
    requires k <= |z|
    ensures LongestBefore(z, k) <= k
    ensures k > 0 && !z[k - 1] ==> LongestBefore(z, k) <= k - 1
  {
    EndingMeans(z, k);
    if k > 0 {
      LongestFits(z, k - 1);
    }
  }

  // ---------------------------------------------------------------- the scan before the first short run

  ghost predicate ZerosIn(z: seq<bool>, sp: Scan) {
    forall k :: 0 <= k < |z| && sp.longest <= k < sp.longest + sp.length ==> z[k]
  }

  /** The open run is the current one, and the span the longest run before it. */
  ghost predicate OnTrack(z: seq<bool>, k: nat, st: Scan)
    requires k <= |z|
  {
    var c := EndingAt(z, k);
    && c <= k && st.start == (if c == 0 then -1 else k - c) && st.length == LongestBefore(z, k - c)
    && InRange(st, |z|) && ZerosIn(z, st)
  }

  /** Closing a run that is longer than all before it. */
  lemma {:induction false} Closes(z: seq<bool>, k: nat, p: nat, st: Scan)
    requires Stretch(z, p, k) && p < k && (k == |z| || !z[k]) && FirstShort(z, 0) > p
    requires st.start == p && st.length == LongestBefore(z, p)
    ensures Check(st, k) == Scan(-1, p, k - p) && ZerosIn(z, Check(st, k)) && InRange(Check(st, k), |z|)
    ensures LongestBefore(z, k) == k - p
  {
    StretchLength(z, p, k);
    NotShort(z, 0, p);
    StretchEnds(z, p, k);
  }

  lemma {:induction false} TrackNext(z: seq<bool>, k: nat, st: Scan)
    requires k + 1 < |z| && k < FirstShort(z, 0) && OnTrack(z, k, st)
    ensures OnTrack(z, k + 1, Visit(z[k], k, false, st))
  {
    EndingMeans(z, k);
    var c := EndingAt(z, k);
    if z[k] {
      StretchEnds(z, k - c, k + 1);
    } else if c > 0 {
      Closes(z, k, k - c, st);
    }
  }

  /** Without a short run the last comparison leaves a true run. */
  lemma {:induction false} TrackEnds(z: seq<bool>, k: nat, st: Scan)
    requires k + 1 == |z| && FirstShort(z, 0) == |z| && OnTrack(z, k, st)
    ensures ZerosIn(z, Visit(z[k], k, true, st))
  {
    EndingMeans(z, k);
    var c := EndingAt(z, k);
    if z[k] {
      Closes(z, |z|, k - c, st.(start := k - c));
    } else if c > 0 {
      Closes(z, k, k - c, st);
    }
  }

  /** The scan stays on track up to the first short run, or the last group. */
  lemma {:induction false} Track(z: seq<bool>, k: nat, st: Scan, end: nat) returns (r: Scan)
    requires k <= end < |z| && end <= FirstShort(z, 0) && OnTrack(z, k, st)
    ensures OnTrack(z, end, r) && r.start <= end && ScanFrom(z, k, st) == ScanFrom(z, end, r)
    decreases end - k
  {
    if k == end {
      r := st;
    } else {
      TrackNext(z, k, st);
      hide OnTrack;
      ScanStep(z, k, st);
      r := Track(z, k + 1, Visit(z[k], k, false, st), end);
    }
  }

  // ---------------------------------------------------------------- the scan behind the first short run

  /** The short run stays open while no stretch from its start looks longer than the span. */
  lemma {:induction false} StuckEnds(z: seq<bool>, k: nat, st: Scan)
    requires z != [] && 0 <= st.start < k <= |z| && LastCheck(z) - st.start <= st.length
    ensures ScanFrom(z, k, st) == st
    decreases |z| - k
  {
    if k < |z| {
      ScanStep(z, k, st);
      assert Visit(z[k], k, k + 1 == |z|, st) == st;
      StuckEnds(z, k + 1, st);
    }
  }

  /** Where it does look longer: at the first group that is not zero and lies beyond, or at the end. */
  lemma {:induction false} Breaks(z: seq<bool>, k: nat, st: Scan) returns (i: nat)
    requires 0 <= st.start < k < |z| && LastCheck(z) - st.start > st.length
    requires forall j :: st.start < j < k && !z[j] ==> j - st.start <= st.length
    ensures k <= i <= |z| && i - st.start > st.length && (i < |z| ==> !z[i])
    ensures forall j :: st.start < j < i && !z[j] ==> j - st.start <= st.length
    ensures var after := Scan(-1, st.start, i - st.start);
      ScanFrom(z, k, st) == if i < |z| then ScanFrom(z, i + 1, after) else after
    decreases |z| - k
  {
    ScanStep(z, k, st);
    if !z[k] && k - st.start > st.length {
      i := k;
    } else if k + 1 == |z| {
      i := |z|;
      ScanEnd(z, Scan(-1, st.start, i - st.start));
    } else {
      i := Breaks(z, k + 1, st);
    }
  }

  lemma {:induction false} ScanEnd(z: seq<bool>, st: Scan)
    requires st.start <= |z|
    ensures ScanFrom(z, |z|, st) == st
  {
  }

  /** Too few groups are left for a longer run. */
  lemma {:induction false} NothingLonger(z: seq<bool>, from: nat, k: nat, st: Scan)
    requires from <= k <= |z| && (st.start == -1 || from <= st.start <= k) && |z| - from <= st.length
    ensures var r := ScanFrom(z, k, st); r.longest == st.longest && r.length == st.length
    decreases |z| - k
  {
    if k < |z| {
      ScanStep(z, k, st);
      NothingLonger(z, from, k + 1, Visit(z[k], k, k + 1 == |z|, st));
    }
  }

  /** Three groups behind a span of two: it is overtaken exactly when the first and the last of them are zero. */
  lemma {:induction false} LastThree(z: seq<bool>, longest: int)
    requires |z| == 8
    ensures var r := ScanFrom(z, 5, Scan(-1, longest, 2));
      if z[5] && z[7] then r.longest == 5 && r.length == 3 else r.longest == longest && r.length == 2
  {
    var s5 := Scan(-1, longest, 2);
    var s6 := Visit(z[5], 5, false, s5);
    var s7 := Visit(z[6], 6, false, s6);
    ScanStep(z, 5, s5);
    ScanStep(z, 6, s6);
    ScanStep(z, 7, s7);
    ScanEnd(z, Visit(z[7], 7, true, s7));
    hide ScanFrom;
  }

  // ---------------------------------------------------------------- exactly when

  /** A short run that comes to look longer leaves a false span, except in the one pattern. */
  lemma {:induction false} FalseSpan(z: seq<bool>, s: nat, st: Scan)
    requires |z| == 8 && s == FirstShort(z, 0) < 8 && st.start == s && st.length == LongestBefore(z, s)
    requires LastCheck(z) - s > LongestBefore(z, s)
    ensures ZerosIn(z, ScanFrom(z, s + 1, st)) <==> z == [true, false, true, false, false, true, true, true]
  {
    ShortMeans(z, 0);
    LengthMeans(z, s);
    LongestFits(z, s);
    var m, longest := RunLength(z, s), LongestBefore(z, s);
    assert m >= 1 && s >= 2 && s + m < 8 && !z[s + m];
    var i := Breaks(z, s + 1, st);
    var after := Scan(-1, s, i - s);
    hide FirstShort, RunLength, ScanFrom;
    if i == 8 {
      assert !z[s + m] && s + m < i;
    } else if 8 - (i + 1) <= i - s {
      NothingLonger(z, i + 1, i + 1, after);
    } else {
      assert s == 2 && longest == 1 && i == 4;
      LastThree(z, 2);
      FirstTwo(z);
    }
  }

  lemma {:induction false} FirstTwo(z: seq<bool>)
    requires |z| >= 2
    ensures LongestBefore(z, 2) == 1 && !z[1] <==> z[0] && !z[1]
  {
    assert EndingAt(z, 1) == (if z[0] then 1 else 0);
    assert LongestBefore(z, 1) == EndingAt(z, 1);
  }

  /** The span of the scan is a true run exactly under the condition on the runs. */
  lemma {:induction false} SpanExactly(z: seq<bool>)
    requires |z| == 8
    ensures ZerosIn(z, ScanFrom(z, 0, Scan(-1, -1, 0))) <==> RunsCompress(z)
  {
    var s, st := FirstShort(z, 0), Scan(-1, -1, 0);
    assert OnTrack(z, 0, st);
    if s == 8 {
      var r := Track(z, 0, st, 7);
      TrackEnds(z, 7, r);
      ScanStep(z, 7, r);
      ScanEnd(z, Visit(z[7], 7, true, r));
    } else {
      var r := Track(z, 0, st, s);
      ShortRunOpens(z, r);
      var open := r.(start := s);
      hide ScanFrom, OnTrack;
      if LastCheck(z) - s <= LongestBefore(z, s) {
        StuckEnds(z, s + 1, open);
      } else {
        FalseSpan(z, s, open);
      }
    }
  }

  lemma {:induction false} ShortRunOpens(z: seq<bool>, r: Scan)
    requires FirstShort(z, 0) < |z| && OnTrack(z, FirstShort(z, 0), r)
    ensures var s := FirstShort(z, 0); var open := r.(start := s);
      ScanFrom(z, s, r) == ScanFrom(z, s + 1, open) && open.length == LongestBefore(z, s) && ZerosIn(z, open)
  {
    var s := FirstShort(z, 0);
    ShortMeans(z, 0);
    assert EndingAt(z, s) == 0;
    ScanStep(z, s, r);
    if s + 1 == |z| {
      assert RunLength(z, s) >= 1;
    }
  }

  /** fromString undoes toString exactly under the condition on the runs of zero groups. */
  lemma {:induction false} RoundTripByRuns(a: seq<byte>, stale: seq<byte>)
    requires |a| == 16 && |stale| == 16
    ensures FromText(AddressText(a), stale) == Ok(a) <==> RunsCompress(ZeroGroups(Groups(a)))
  {
    RoundTripExactly(a, stale);
    SpanExactly(ZeroGroups(Groups(a)));
    hide FromText, AddressText, ScanFrom, RunsCompress;
  }
}
