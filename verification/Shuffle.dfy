/** utils.shuffleArray (lib/utils.js): the random draws are a parameter. */
module Shuffling {

  method Swap<H(==)>(a: array<H>, i: nat, j: nat)
    requires i < a.Length && j < a.Length
    modifies a
    ensures a[..] == old(a[..])[i := old(a[j])][j := old(a[i])]
    ensures multiset(a[..]) == multiset(old(a[..]))
  {
    var temp := a[i];
    a[i] := a[j];
    a[j] := temp;
    assert a[..] == old(a[..])[i := old(a[j])][j := old(a[i])];
  }

  function Swapped<H>(s: seq<H>, i: nat, j: nat): (r: seq<H>)
    requires i < |s| && j < |s|
    ensures |r| == |s|
  {
    s[i := s[j]][j := s[i]]
  }

  /** Draws for the positions of a sequence, each at most its position. */
  predicate IsDraws(draws: seq<nat>) {
    forall i :: 0 <= i < |draws| ==> draws[i] <= i
  }

  /** Every position from the last drawn one down changes places with the one that was drawn for it. */
  function Shuffled<H>(s: seq<H>, draws: seq<nat>): (r: seq<H>)
    requires |draws| <= |s| && IsDraws(draws)
    ensures |r| == |s|
    decreases |draws|
  {
    if |draws| <= 1 then s
    else
      var i := |draws| - 1;
      Shuffled(Swapped(s, i, draws[i]), draws[..i])
  }

  /** Fisher-Yates with the given draws. */
  method ShuffleArray<H(==)>(arr: array<H>, draws: seq<nat>)
    requires |draws| == arr.Length && IsDraws(draws)
    modifies arr
    ensures arr[..] == Shuffled(old(arr[..]), draws)
    ensures multiset(arr[..]) == multiset(old(arr[..]))
  {
    var i := arr.Length - 1;
    ghost var result := Shuffled(arr[..], draws);
    assert draws[..|draws|] == draws;
    while i > 0
      invariant -1 <= i < arr.Length && multiset(arr[..]) == multiset(old(arr[..]))
      invariant IsDraws(draws[..i + 1]) && Shuffled(arr[..], draws[..i + 1]) == result
    {
      ghost var before := arr[..];
      ShuffledOnce(before, draws, i);
      Swap(arr, i, draws[i]);
      i := i - 1;
    }
  }

  lemma {:induction false} ShuffledOnce<H>(s: seq<H>, draws: seq<nat>, i: nat)
    requires 0 < i < |draws| <= |s| && IsDraws(draws)
    ensures IsDraws(draws[..i + 1]) && IsDraws(draws[..i])
    ensures Shuffled(s, draws[..i + 1]) == Shuffled(Swapped(s, i, draws[i]), draws[..i])
  {
    var d := draws[..i + 1];
    assert d[i] == draws[i] && d[..i] == draws[..i];
  }

  lemma {:induction false} SwappedPermutes<H>(s: seq<H>, i: nat, j: nat)
    requires i < |s| && j < |s|
    ensures multiset(Swapped(s, i, j)) == multiset(s)
  {
    var r := Swapped(s, i, j);
    assert multiset(s[i := s[j]]) == multiset(s) - multiset{s[i]} + multiset{s[j]};
  }

  /** Positions beyond the draws stay as they are. */
  lemma {:induction false} ShuffledBeyond<H>(s: seq<H>, draws: seq<nat>, k: nat)
    requires |draws| <= |s| && IsDraws(draws) && |draws| <= k < |s|
    ensures Shuffled(s, draws)[k] == s[k]
    decreases |draws|
  {
    if |draws| > 1 {
      var i := |draws| - 1;
      ShuffledBeyond(Swapped(s, i, draws[i]), draws[..i], k);
    }
  }

  ghost predicate AllDiffer<H(!new)>(s: seq<H>) {
    forall i, j :: 0 <= i < j < |s| ==> s[i] != s[j]
  }

  /** Different draws shuffle different hosts differently. */
  lemma {:induction false} DrawsDiffer<H(!new)>(s: seq<H>, c: seq<nat>, d: seq<nat>)
    requires AllDiffer(s) && |c| == |d| <= |s| && IsDraws(c) && IsDraws(d) && Shuffled(s, c) == Shuffled(s, d)
    ensures c == d
    decreases |c|
  {
    if |c| > 1 {
      var i := |c| - 1;
      ShuffledBeyond(Swapped(s, i, c[i]), c[..i], i);
      ShuffledBeyond(Swapped(s, i, d[i]), d[..i], i);
      assert s[c[i]] == s[d[i]];
      assert c[i] == d[i];
      DrawsDiffer(Swapped(s, i, c[i]), c[..i], d[..i]);
      assert c == c[..i] + [c[i]] && d == d[..i] + [d[i]];
    } else if |c| == 1 {
      assert c[0] == 0 && d[0] == 0;
    }
  }

  /** Every order of the hosts is the result of some draws: with equally likely draws, every order is equally
      likely. */
  lemma {:induction false} EveryOrder<H>(s: seq<H>, t: seq<H>) returns (draws: seq<nat>)
    requires multiset(s) == multiset(t)
    ensures |draws| == |s| && IsDraws(draws) && Shuffled(s, draws) == t
  {
    assert |multiset(s)| == |s| && |multiset(t)| == |t|;
    assert s[..|s|] == s && t[..|s|] == t;
    draws := OrderFrom(s, t, |s|);
  }

  lemma {:induction false} OrderFrom<H>(s: seq<H>, t: seq<H>, n: nat) returns (draws: seq<nat>)
    requires n <= |s| == |t| && s[n..] == t[n..] && multiset(s[..n]) == multiset(t[..n])
    ensures |draws| == n && IsDraws(draws) && Shuffled(s, draws) == t
    decreases n
  {
    if n == 0 {
      draws := [];
      assert s == s[0..] && t == t[0..];
    } else if n == 1 {
      draws := [0];
      assert s[..1] == [s[0]] && t[..1] == [t[0]];
      assert t[0] in multiset(t[..1]);
      assert s[0] == t[0];
      assert s == s[..1] + s[1..] && t == t[..1] + t[1..];
    } else {
      var i := n - 1;
      assert t[..n][i] == t[i] && t[i] in multiset(t[..n]);
      var d :| 0 <= d < n && s[..n][d] == t[i];
      var u := Swapped(s, i, d);
      Settled(s, t, n, d);
      hide Swapped;
      var rest := OrderFrom(u, t, i);
      draws := rest + [d];
      assert draws[..i] == rest && draws[i] == d;
    }
  }

  /** Bringing the wanted host to position n - 1 leaves the rest to be ordered. */
  lemma {:induction false} Settled<H>(s: seq<H>, t: seq<H>, n: nat, d: nat)
    requires 0 < n <= |s| == |t| && s[n..] == t[n..] && multiset(s[..n]) == multiset(t[..n])
    requires d < n && s[d] == t[n - 1]
    ensures var u := Swapped(s, n - 1, d); u[n - 1..] == t[n - 1..] && multiset(u[..n - 1]) == multiset(t[..n - 1])
  {
    var u, front := Swapped(s, n - 1, d), Swapped(s[..n], n - 1, d);
    SwappedParts(s, n, d);
    SwappedPermutes(s[..n], n - 1, d);
    hide Swapped;
    SameFronts(front, t[..n]);
    Fronts(u, n);
    Fronts(t, n);
  }

  /** Sequences with the same elements and the same last one have the same elements before it. */
  lemma {:induction false} SameFronts<H>(a: seq<H>, b: seq<H>)
    requires |a| == |b| > 0 && multiset(a) == multiset(b) && a[|a| - 1] == b[|b| - 1]
    ensures multiset(a[..|a| - 1]) == multiset(b[..|b| - 1])
  {
    LastOut(a);
    LastOut(b);
  }

  lemma {:induction false} Fronts<H>(s: seq<H>, n: nat)
    requires 0 < n <= |s|
    ensures s[..n][..n - 1] == s[..n - 1] && s[..n][n - 1] == s[n - 1] && s[n - 1..] == [s[n - 1]] + s[n..]
  {
  }

  lemma {:induction false} SwappedParts<H>(s: seq<H>, n: nat, d: nat)
    requires 0 < n <= |s| && d < n
    ensures var u := Swapped(s, n - 1, d); u[..n] == Swapped(s[..n], n - 1, d) && u[n..] == s[n..] && u[n - 1] == s[d]
  {
  }

  lemma {:induction false} LastOut<H>(s: seq<H>)
    requires s != []
    ensures multiset(s[..|s| - 1]) == multiset(s) - multiset{s[|s| - 1]}
  {
    assert s == s[..|s| - 1] + [s[|s| - 1]];
  }
}
