/** In-place reordering of replicas: #sendUnhealthyToTheBack of lib/policies/load-balancing.js. */
module HostOrder {
  import opened Shuffling

  function CountBad<H>(s: seq<H>, healthy: H -> bool): nat {
    if s == [] then 0 else CountBad(s[..|s| - 1], healthy) + if healthy(s[|s| - 1]) then 0 else 1
  }

  lemma {:induction false} CountBadSplit<H>(a: seq<H>, b: seq<H>, healthy: H -> bool)
    ensures CountBad(a + b, healthy) == CountBad(a, healthy) + CountBad(b, healthy)
  {
    if b == [] {
      assert a + b == a;
    } else {
      assert (a + b)[..|a + b| - 1] == a + b[..|b| - 1];
      CountBadSplit(a, b[..|b| - 1], healthy);
    }
  }

  ghost function Without<H>(s: seq<H>, k: nat): seq<H>
    requires k < |s|
  {
    s[..k] + s[k + 1..]
  }

  lemma {:induction false} WithoutOne<H>(s: seq<H>, k: nat)
    requires k < |s|
    ensures multiset(Without(s, k)) == multiset(s) - multiset{s[k]}
  {
    assert s == s[..k] + ([s[k]] + s[k + 1..]);
    assert multiset(s) == multiset(s[..k]) + multiset{s[k]} + multiset(s[k + 1..]);
  }

  lemma {:induction false} CountBadWithout<H>(s: seq<H>, k: nat, healthy: H -> bool)
    requires k < |s|
    ensures CountBad(s, healthy) == CountBad(Without(s, k), healthy) + if healthy(s[k]) then 0 else 1
  {
    var x := s[k];
    assert s == s[..k] + ([x] + s[k + 1..]);
    CountBadSplit(s[..k], [x] + s[k + 1..], healthy);
    CountBadSplit([x], s[k + 1..], healthy);
    CountBadSplit(s[..k], s[k + 1..], healthy);
    assert [x][..0] == [];
    assert CountBad([x], healthy) == if healthy(x) then 0 else 1;
    hide CountBad;
  }

  /** The count does not depend on the order. */
  lemma {:induction false} CountBadPermuted<H>(s: seq<H>, t: seq<H>, healthy: H -> bool)
    requires multiset(s) == multiset(t)
    ensures CountBad(s, healthy) == CountBad(t, healthy)
    decreases |s|
  {
    if s == [] {
      assert |multiset(t)| == 0;
    } else {
      hide CountBad, Without;
      assert s[0] in multiset(s);
      var k :| 0 <= k < |t| && t[k] == s[0];
      WithoutOne(s, 0);
      WithoutOne(t, k);
      CountBadWithout(s, 0, healthy);
      CountBadWithout(t, k, healthy);
      WithoutSize(s, 0);
      CountBadPermuted(Without(s, 0), Without(t, k), healthy);
    }
  }

  lemma {:induction false} WithoutSize<H>(s: seq<H>, k: nat)
    requires k < |s|
    ensures |Without(s, k)| == |s| - 1
  {
  }

  lemma {:induction false} NoneBad<H>(s: seq<H>, healthy: H -> bool)
    requires CountBad(s, healthy) == 0
    ensures forall i :: 0 <= i < |s| ==> healthy(s[i])
  {
    if s != [] {
      NoneBad(s[..|s| - 1], healthy);
    }
  }

  /** The last u hosts are unhealthy, the others healthy. */
  ghost predicate UnhealthyLast<H>(s: seq<H>, healthy: H -> bool, u: nat) {
    u <= |s| && (forall i :: 0 <= i < |s| - u ==> healthy(s[i])) && (forall i :: |s| - u <= i < |s| ==> !healthy(s[i]))
  }

  /** The replicas behind position i are in order, with c unhealthy ones found. */
  ghost predicate Sorting<H>(s: seq<H>, healthy: H -> bool, i: int, c: nat, u: nat) {
    && -1 <= i < |s| && i + 1 + c <= |s| && c <= u && CountBad(s[..i + 1], healthy) == u - c
    && (forall k :: i < k < |s| - c ==> healthy(s[k])) && (forall k :: |s| - c <= k < |s| ==> !healthy(s[k]))
  }

  lemma {:induction false} Step<H>(s: seq<H>, healthy: H -> bool, i: int, c: nat, u: nat)
    requires Sorting(s, healthy, i, c, u) && i >= 0
    ensures healthy(s[i]) ==> Sorting(s, healthy, i - 1, c, u)
    ensures !healthy(s[i]) ==>
      var t := |s| - 1 - c; t >= i && Sorting(s[t := s[i]][i := s[t]], healthy, i - 1, c + 1, u)
  {
    assert s[..i + 1][..i] == s[..i];
    if !healthy(s[i]) {
      var t := |s| - 1 - c;
      var r := s[t := s[i]][i := s[t]];
      assert r[..i] == s[..i];
    }
  }

  lemma {:induction false} SwapSelf<H>(s: seq<H>, i: nat)
    requires i < |s|
    ensures s[i := s[i]][i := s[i]] == s
  {
  }

  lemma {:induction false} SortingStart<H>(s: seq<H>, healthy: H -> bool)
    ensures Sorting(s, healthy, |s| - 1, 0, CountBad(s, healthy))
  {
    assert s[..|s|] == s;
  }

  lemma {:induction false} Sorted<H>(s: seq<H>, healthy: H -> bool, i: int, c: nat, u: nat)
    requires Sorting(s, healthy, i, c, u) && (i < 0 || c >= u)
    ensures UnhealthyLast(s, healthy, u)
  {
    NoneBad(s[..i + 1], healthy);
    assert forall k :: 0 <= k <= i ==> s[..i + 1][k] == s[k];
    assert i < 0 ==> s[..i + 1] == [];
  }

  method MoveTo<H(==)>(replicas: array<H>, targetIndex: nat, i: nat)
    requires i < replicas.Length && targetIndex < replicas.Length
    modifies replicas
    ensures replicas[..] == old(replicas[..])[targetIndex := old(replicas[..])[i]][i := old(replicas[..])[targetIndex]]
    ensures multiset(replicas[..]) == multiset(old(replicas[..]))
  {
    if targetIndex != i {
      Swap(replicas, targetIndex, i);
    } else {
      SwapSelf(replicas[..], i);
    }
  }

  /** With the number of unhealthy replicas given, they all end up at the back. */
  method SendUnhealthyToTheBack<H(==)>(replicas: array<H>, unhealthyReplicas: nat, healthy: H -> bool)
    requires unhealthyReplicas == CountBad(replicas[..], healthy)
    modifies replicas
    ensures multiset(replicas[..]) == multiset(old(replicas[..]))
    ensures UnhealthyLast(replicas[..], healthy, unhealthyReplicas)
  {
    hide Sorting, CountBad, UnhealthyLast;
    var counter := 0;
    var i := replicas.Length - 1;
    SortingStart(replicas[..], healthy);
    while i >= 0 && counter < unhealthyReplicas
      invariant -1 <= i < replicas.Length && i + 1 + counter <= replicas.Length
      invariant multiset(replicas[..]) == multiset(old(replicas[..]))
      invariant Sorting(replicas[..], healthy, i, counter, unhealthyReplicas)
    {
      var host := replicas[i];
      Step(replicas[..], healthy, i, counter, unhealthyReplicas);
      if !healthy(host) {
        MoveTo(replicas, replicas.Length - 1 - counter, i);
        counter := counter + 1;
      }
      i := i - 1;
    }
    Sorted(replicas[..], healthy, i, counter, unhealthyReplicas);
  }
}
