/** Round robin over runs: which hosts come first in plan after plan of the default policy. */
module RoundRobin {
  import opened Bytes
  import opened Arithmetic
  import opened LoadBalancing

  /** One more than the largest value of the counter. */
  const TURN: int := 0x7fffffff

  /** The counter after some plans. */
  function IndexAfter(index: nat, plans: nat): nat {
    if plans == 0 then index else NextIndex(IndexAfter(index, plans - 1))
  }

  lemma {:induction false} IndexAfterIs(index: nat, plans: nat)
    requires index < TURN && plans <= TURN
    ensures IndexAfter(index, plans) == if index + plans < TURN then index + plans else index + plans - TURN
    decreases plans
  {
    if plans > 0 {
      IndexAfterIs(index, plans - 1);
    }
  }

  /** The hosts that come first in a run of plans. */
  ghost predicate AreFirsts<H(!new)>(firsts: seq<H>, local: seq<H>, index: nat) {
    local != [] && forall i :: 0 <= i < |firsts| ==> firsts[i] == local[IndexAfter(index, i) % |local|]
  }

  /** A run of plans without replicas, on hosts that stay the same and up. */
  method Plans<H(==, !new)>(p: Policy<H>, n: nat, v: View<H>, sendBack: bool) returns (firsts: seq<H>)
    requires p.Valid() && Filter(p.hosts, p.accepts) != []
    requires forall h :: h in Filter(p.hosts, p.accepts) ==> v.isUp(h)
    modifies p
    ensures p.Valid() && p.hosts == old(p.hosts)
    ensures |firsts| == n && AreFirsts(firsts, Filter(p.hosts, p.accepts), old(p.index))
    ensures p.index == IndexAfter(old(p.index), n)
  {
    hide Filter;
    ghost var local := Filter(p.hosts, p.accepts);
    firsts := [];
    for i := 0 to n
      invariant p.Valid() && p.hosts == old(p.hosts)
      invariant |firsts| == i && AreFirsts(firsts, local, old(p.index)) && p.index == IndexAfter(old(p.index), i)
    {
      ghost var index := p.index;
      var plan := p.NewQueryPlan(None, None, v, [], sendBack);
      WholeRing(local, index, v);
      assert plan[0..] == plan;
      AroundAt(local, index, 0);
      firsts := firsts + [plan[0]];
    }
  }

  /** When every local host is up, the local part of a plan without replicas is the whole ring. */
  lemma {:induction false} WholeRing<H(!new)>(local: seq<H>, index: nat, v: View<H>)
    requires forall h :: h in local ==> v.isUp(h)
    ensures LocalPart(local, index, [], v) == Around(local, index)
  {
    AroundKeeps(local, index);
    FilterAll(Around(local, index), NotYielded([], v));
  }

  lemma {:induction false} FilterAll<H(!new)>(s: seq<H>, keep: H -> bool)
    requires forall h :: h in s ==> keep(h)
    ensures Filter(s, keep) == s
  {
    if s != [] {
      FilterAll(s[1..], keep);
      assert s[0] in s;
    }
  }

  /** Each local host comes first exactly once. */
  ghost predicate EachOnce<H(!new)>(firsts: seq<H>, local: seq<H>) {
    && (forall h :: h in local <==> h in firsts)
    && (forall i, j :: 0 <= i < j < |firsts| ==> firsts[i] != firsts[j])
  }

  /** Of as many plans in a row as there are local hosts, each host comes first exactly once if and only if the
      counter does not start again between them, or starts again where it would have gone on anyway. */
  lemma {:induction false} EachFirstOnceExactly<H(!new)>(firsts: seq<H>, local: seq<H>, index: nat)
    requires AreFirsts(firsts, local, index) && Distinct(local) && index < TURN && |firsts| == |local| <= TURN
    ensures EachOnce(firsts, local) <==> index + |local| <= TURN || TURN % |local| == 0
  {
    var n := |local|;
    if index + n <= TURN || TURN % n == 0 {
      forall i | 0 <= i < n
        ensures firsts[i] == Around(local, index)[i]
      {
        SamePlace(index, i, n);
        AroundAt(local, index, i);
      }
      assert firsts == Around(local, index);
      AroundKeeps(local, index);
    } else {
      var i, j := Collision(index, n);
      assert firsts[i] == firsts[j];
    }
  }

  lemma {:induction false} SamePlace(index: nat, i: nat, n: nat)
    requires i < n && index < TURN && n <= TURN && (index + n <= TURN || TURN % n == 0)
    ensures IndexAfter(index, i) % n == (i + index) % n
  {
    IndexAfterIs(index, i);
    if index + i >= TURN {
      Wraps(index + i - TURN, n);
    }
  }

  lemma {:induction false} Wraps(k: nat, n: nat)
    requires n > 0 && TURN % n == 0
    ensures k % n == (k + TURN) % n
  {
    var q := TURN / n;
    assert TURN == n * q;
    Spread(n, k / n, q);
    Unique(n, (k + TURN) / n, (k + TURN) % n, k / n + q, k % n);
  }

  /** Two plans of a run that start at the same place. */
  lemma {:induction false} Collision(index: nat, n: nat) returns (i: nat, j: nat)
    requires 0 < n <= TURN && index < TURN && index + n > TURN && TURN % n != 0
    ensures i < j < n && IndexAfter(index, i) % n == IndexAfter(index, j) % n
  {
    var after, k := index + n - TURN, TURN % n;
    var before := n - after;
    // Places before the counter starts again are k - before up to k - 1 around the ring, then 0 up to after - 1.
    if k <= after {
      i, j := before - 1, before + k - 1;
      Below(TURN - 1, k - 1, n, TURN / n);
    } else if k <= before {
      i, j := before - k, before;
      Below(TURN - k, 0, n, TURN / n);
    } else {
      i, j := 0, before + (k - before);
      Below(index, k - before, n, TURN / n);
    }
    IndexAfterIs(index, i);
    IndexAfterIs(index, j);
  }

  lemma {:induction false} Below(x: nat, r: nat, n: nat, q: nat)
    requires r < n && x == n * q + r
    ensures x % n == r && r % n == r
  {
    Unique(n, x / n, x % n, q, r);
  }
}
