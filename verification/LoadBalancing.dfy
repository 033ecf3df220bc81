/** The query plan of the legacy default load-balancing policy (lib/policies/load-balancing.js). */
module LoadBalancing {
  import opened Bytes
  import opened Arithmetic
  import opened HostOrder
  import opened Shuffling

  const MIN_SAFE_INTEGER: int := -9007199254740991

  /** What the policy asks of hosts while it makes a plan. */
  datatype View<!H(!new)> = View(
    isUp: H -> bool, healthy: H -> bool, inFlight: H -> int,
    newlyUpSince: H -> Option<int>)

  ghost predicate Distinct<H(!new)>(s: seq<H>) {
    forall i, j :: 0 <= i < j < |s| ==> s[i] != s[j]
  }

  function Filter<H(!new)>(s: seq<H>, keep: H -> bool): (r: seq<H>)
    ensures forall h :: h in r <==> h in s && keep(h)
  {
    if s == [] then [] else (if keep(s[0]) then [s[0]] else []) + Filter(s[1..], keep)
  }

  lemma {:induction false} FilterDistinct<H(!new)>(s: seq<H>, keep: H -> bool)
    requires Distinct(s)
    ensures Distinct(Filter(s, keep))
  {
    if s != [] {
      FilterDistinct(s[1..], keep);
      assert s[0] !in s[1..];
    }
  }

  lemma {:induction false} FilterNext<H(!new)>(s: seq<H>, i: nat, keep: H -> bool)
    requires i < |s|
    ensures Filter(s[..i + 1], keep) == Filter(s[..i], keep) + if keep(s[i]) then [s[i]] else []
  {
    if i == 0 {
      assert s[..1][1..] == [] && s[..0] == [];
    } else {
      assert s[..i + 1][1..] == s[1..][..i] && s[..i][1..] == s[1..][..i - 1];
      FilterNext(s[1..], i - 1, keep);
    }
  }

  /** The hosts from a start on, once around. */
  function Around<H(!new)>(hosts: seq<H>, start: nat): (r: seq<H>)
    ensures |r| == |hosts|
  {
    if hosts == [] then [] else
      var k := start % |hosts|;
      hosts[k..] + hosts[..k]
  }

  lemma {:induction false} AroundAt<H(!new)>(hosts: seq<H>, start: nat, i: nat)
    requires i < |hosts|
    ensures Around(hosts, start)[i] == hosts[(i + start) % |hosts|]
  {
    AroundFrom(i, start, |hosts|);
  }

  lemma {:induction false} AroundKeeps<H(!new)>(hosts: seq<H>, start: nat)
    ensures forall h :: h in Around(hosts, start) <==> h in hosts
    ensures Distinct(hosts) ==> Distinct(Around(hosts, start))
  {
    if hosts != [] {
      var k := start % |hosts|;
      assert hosts == hosts[..k] + hosts[k..];
    }
  }

  // ---------------------------------------------------------------- the reordering of replicas

  /** Whether the unhealthy replicas are sent to the back. */
  ghost predicate MajorityHealthy<H(!new)>(replicas: seq<H>, v: View<H>) {
    var u := CountBad(replicas, v.healthy);
    |replicas| >= 3 && 0 < u < |replicas| / 2 + 1
  }

  ghost predicate NoneNewlyUp<H(!new)>(replicas: seq<H>, v: View<H>) {
    forall h :: h in replicas ==> v.newlyUpSince(h).None?
  }

  /** A newly-up host since which no other of the hosts came up. */
  ghost predicate MostRecent<H(!new)>(hosts: seq<H>, host: H, v: View<H>) {
    && host in hosts && v.newlyUpSince(host).Some?
    && forall h :: h in hosts && v.newlyUpSince(h).Some? ==> v.newlyUpSince(h).value <= v.newlyUpSince(host).value
  }

  /** The replicas that may be used, the most recent newly-up one, and the unhealthy ones counted before one was seen.
      */
  method FilterReplicas<H(==, !new)>(replicas: seq<H>, accepts: H -> bool, v: View<H>)
    returns (kept: seq<H>, newlyUp: Option<H>, unhealthy: nat)
    ensures kept == Filter(replicas, Usable(accepts, v))
    ensures newlyUp.Some? ==> MostRecent(kept, newlyUp.value, v)
    ensures newlyUp.None? ==> unhealthy == CountBad(kept, v.healthy)
    ensures newlyUp.None?
      <==> forall h :: h in kept && v.newlyUpSince(h).Some? ==> v.newlyUpSince(h).value <= MIN_SAFE_INTEGER
  {
    ghost var keep := Usable(accepts, v);
    kept, newlyUp, unhealthy := [], None, 0;
    var newlyUpTimestamp := MIN_SAFE_INTEGER;
    for i := 0 to |replicas|
      invariant kept == Filter(replicas[..i], keep)
      invariant newlyUp.Some? ==>
        MostRecent(kept, newlyUp.value, v) && v.newlyUpSince(newlyUp.value) == Some(newlyUpTimestamp)
      invariant newlyUp.Some? ==> newlyUpTimestamp > MIN_SAFE_INTEGER
      invariant newlyUp.None? ==> newlyUpTimestamp == MIN_SAFE_INTEGER
      invariant forall g :: g in kept && v.newlyUpSince(g).Some? ==> v.newlyUpSince(g).value <= newlyUpTimestamp
      invariant newlyUp.None? ==> unhealthy == CountBad(kept, v.healthy)
    {
      var h := replicas[i];
      FilterNext(replicas, i, keep);
      if accepts(h) && v.isUp(h) {
        assert (kept + [h])[..|kept|] == kept;
        var isUpSince := v.newlyUpSince(h);
        if isUpSince.Some? && isUpSince.value > newlyUpTimestamp {
          newlyUp := Some(h);
          newlyUpTimestamp := isUpSince.value;
        }
        if newlyUp.None? && !v.healthy(h) {
          unhealthy := unhealthy + 1;
        }
        kept := kept + [h];
      }
    }
    assert replicas[..|replicas|] == replicas;
  }

  lemma {:induction false} SwapFront<H(!new)>(s: seq<H>, v: View<H>, u: nat)
    requires |s| >= 3 && u < |s| / 2 + 1 && UnhealthyLast(s, v.healthy, u)
    ensures UnhealthyLast(s[0 := s[1]][1 := s[0]], v.healthy, u)
  {
  }

  /** Unhealthy replicas, or the newly-up one, are sent to the back. */
  method SendBack<H(==, !new)>(replicas: array<H>, newlyUp: Option<H>, unhealthy: nat, v: View<H>, sendBack: bool)
    requires replicas.Length >= 3 && (newlyUp.None? ==> unhealthy == CountBad(replicas[..], v.healthy))
    modifies replicas
    ensures multiset(replicas[..]) == multiset(old(replicas[..]))
    ensures newlyUp.None? && 0 < unhealthy < replicas.Length / 2 + 1 ==>
      UnhealthyLast(replicas[..], v.healthy, unhealthy)
    ensures newlyUp.Some? && sendBack && old(Distinct(replicas[..])) ==>
      newlyUp.value != replicas[0] && newlyUp.value != replicas[1]
  {
    hide CountBad, UnhealthyLast;
    if newlyUp.None? {
      if unhealthy > 0 && unhealthy < replicas.Length / 2 + 1 {
        SendUnhealthyToTheBack(replicas, unhealthy, v.healthy);
      }
    } else if (newlyUp.value == replicas[0] || newlyUp.value == replicas[1]) && sendBack {
      var index := if newlyUp.value == replicas[0] then 0 else 1;
      ghost var before := replicas[..];
      Swap(replicas, replicas.Length - 1, index);
      assert replicas[index] == before[replicas.Length - 1] && replicas[1 - index] == before[1 - index];
      assert before[index] == newlyUp.value;
    }
  }

  /** Power of two choices: the less busy of the first two comes first. */
  method ChooseFirst<H(==, !new)>(replicas: array<H>, v: View<H>)
    requires replicas.Length >= 2
    modifies replicas
    ensures v.inFlight(replicas[0]) <= v.inFlight(replicas[1])
    ensures var old_ := old(replicas[..]); replicas[..] == old_ || replicas[..] == old_[0 := old_[1]][1 := old_[0]]
    ensures multiset(replicas[..]) == multiset(old(replicas[..]))
  {
    if v.inFlight(replicas[1]) < v.inFlight(replicas[0]) {
      Swap(replicas, 0, 1);
    }
  }

  /** The order of the usable replicas: a permutation, and with a healthy majority and no newly-up replica every
      unhealthy one last, also after the choice between the first two. */
  method OrderReplicas<H(==, !new)>(kept: seq<H>, newlyUp: Option<H>, unhealthy: nat, v: View<H>, draws: seq<nat>,
                                    sendBack: bool) returns (ordered: seq<H>)
    requires |draws| == |kept| && forall i :: 0 <= i < |draws| ==> draws[i] <= i
    requires newlyUp.None? ==> unhealthy == CountBad(kept, v.healthy)
    ensures multiset(ordered) == multiset(kept) && |ordered| == |kept|
    ensures newlyUp.None? && MajorityHealthy(kept, v) ==> UnhealthyLast(ordered, v.healthy, unhealthy)
    // The less busy of the first two comes first, and a newly-up replica that is sent back is neither of them.
    ensures |kept| >= 3 ==> v.inFlight(ordered[0]) <= v.inFlight(ordered[1])
    ensures |kept| >= 3 && newlyUp.Some? && sendBack && Distinct(kept) ==>
      newlyUp.value != ordered[0] && newlyUp.value != ordered[1]
  {
    if kept == [] {
      return [];
    }
    var replicas := new H[|kept|](i requires 0 <= i < |kept| => kept[i]);
    assert replicas[..] == kept;
    ShuffleArray(replicas, draws);
    CountBadPermuted(kept, replicas[..], v.healthy);
    hide CountBad, UnhealthyLast;
    if replicas.Length < 3 {
      return replicas[..];
    }
    if Distinct(kept) {
      DistinctPermuted(kept, replicas[..]);
    }
    hide Distinct;
    SendBack(replicas, newlyUp, unhealthy, v, sendBack);
    ghost var before := replicas[..];
    ChooseFirst(replicas, v);
    if newlyUp.None? && MajorityHealthy(kept, v) {
      SwapFront(before, v, unhealthy);
    }
    ordered := replicas[..];
  }

  // ---------------------------------------------------------------- the plan

  /** The up hosts around the ring of local hosts that are not among the replicas. */
  ghost function LocalPart<H(!new)>(hosts: seq<H>, start: nat, replicas: seq<H>, v: View<H>): seq<H> {
    Filter(Around(hosts, start), NotYielded(replicas, v))
  }

  function NotYielded<H(==, !new)>(replicas: seq<H>, v: View<H>): H -> bool {
    (h: H) => h !in replicas && v.isUp(h)
  }

  /** The loop over the local hosts. */
  method YieldAround<H(==, !new)>(local: seq<H>, initialIndex: nat, replicas: seq<H>,
                                  v: View<H>) returns (yielded: seq<H>)
    ensures yielded == LocalPart(local, initialIndex, replicas, v)
  {
    hide Filter, Around;
    ghost var ring, keep := Around(local, initialIndex), NotYielded(replicas, v);
    yielded := [];
    FilterNone<H>(keep);
    for i := 0 to |local|
      invariant yielded == Filter(ring[..i], keep)
    {
      var h := local[(i + initialIndex) % |local|];
      AroundAt(local, initialIndex, i);
      FilterNext(ring, i, keep);
      if h !in replicas && v.isUp(h) {
        yielded := yielded + [h];
      }
    }
    assert ring[..|local|] == ring;
  }

  lemma {:induction false} FilterNone<H(!new)>(keep: H -> bool)
    ensures Filter([], keep) == []
  {
  }

  class Policy<H(==, !new)> {
    const accepts: H -> bool
    var hosts: seq<H>
    var filteredHosts: Option<seq<H>>
    var index: nat

    ghost predicate Valid()
      reads this
    {
      && index < 0x7fffffff && Distinct(hosts)
      && (filteredHosts.Some? ==> filteredHosts.value == Filter(hosts, accepts))
    }

    /** accepts: the host is in the local datacenter and the filter takes it. */
    constructor (hosts: seq<H>, accepts: H -> bool)
      requires Distinct(hosts)
      ensures Valid() && this.hosts == hosts && this.accepts == accepts
    {
      this.hosts := hosts;
      this.accepts := accepts;
      filteredHosts := None;
      index := 0;
    }

    /** Hosts added or removed: the cached local hosts are dropped. */
    method HostsChanged(hosts: seq<H>)
      requires Valid() && Distinct(hosts)
      modifies this
      ensures Valid() && this.hosts == hosts && index == old(index)
    {
      this.hosts := hosts;
      filteredHosts := None;
    }

    method GetFilteredLocalHosts() returns (r: seq<H>)
      requires Valid()
      modifies this`filteredHosts
      ensures Valid() && r == Filter(hosts, accepts)
    {
      if filteredHosts.None? {
        filteredHosts := Some(Filter(hosts, accepts));
      }
      r := filteredHosts.value;
    }

    /** A counter that starts again before it leaves 31 bits. */
    method GetIndex() returns (r: nat)
      requires Valid()
      modifies this`index
      ensures Valid() && r == old(index) && index == NextIndex(r)
    {
      r := index;
      index := index + 1;
      if index == 0x7fffffff {
        index := 0;
      }
    }

    method GetLocalHosts(replicas: seq<H>, v: View<H>) returns (yielded: seq<H>)
      requires Valid()
      modifies this`filteredHosts, this`index
      ensures Valid() && yielded == LocalPart(Filter(hosts, accepts), old(index), replicas, v)
      ensures index == NextIndex(old(index))
    {
      var local := GetFilteredLocalHosts();
      var initialIndex := GetIndex();
      yielded := YieldAround(local, initialIndex, replicas, v);
    }

    /** The plan: the ordered replicas and then the other local hosts; without replicas, the local hosts; a preferred
        host first. */
    method NewQueryPlan(replicas: Option<seq<H>>, preferred: Option<H>, v: View<H>, draws: seq<nat>,
                        sendBack: bool) returns (plan: seq<H>)
      requires Valid() && (replicas.Some? ==> Distinct(replicas.value))
      requires replicas.Some? ==> |draws| == |Filter(replicas.value, Usable(accepts, v))|
      requires forall i :: 0 <= i < |draws| ==> draws[i] <= i
      modifies this`filteredHosts, this`index
      ensures Valid() && Distinct(plan)
      // Every up, accepted local host is in the plan, and whatever else is in it is a usable replica or preferred.
      ensures forall h :: h in hosts && accepts(h) && v.isUp(h) ==> h in plan
      ensures forall h :: h in plan ==>
        Some(h) == preferred || (accepts(h) && v.isUp(h) && (h in hosts || (replicas.Some? && h in replicas.value)))
      // The counter moves on; the local hosts follow the replicas from where it stood, around once.
      ensures index == NextIndex(old(index))
      ensures IsPlan(plan, Kept(replicas, accepts, v), preferred,
                     LocalPart(Filter(hosts, accepts), old(index), Kept(replicas, accepts, v), v))
      // The replicas come first, those that do not respond last among them.
      ensures preferred.None? && replicas.Some? ==>
        var kept := Filter(replicas.value, Usable(accepts, v));
        && |kept| <= |plan| && multiset(plan[..|kept|]) == multiset(kept)
        && (NoneNewlyUp(kept, v) && MajorityHealthy(kept, v) ==> UnhealthyLast(plan[..|kept|], v.healthy,
                                                                               CountBad(kept, v.healthy)))
    {
      var first: seq<H> := [];
      if replicas.Some? {
        var kept, newlyUp, unhealthy := FilterReplicas(replicas.value, accepts, v);
        first := OrderReplicas(kept, newlyUp, unhealthy, v, draws, sendBack);
        FilterDistinct(replicas.value, Usable(accepts, v));
        DistinctPermuted(kept, first);
      }
      ghost var kept := Kept(replicas, accepts, v);
      var rest := GetLocalHosts(first, v);
      LocalPartIs(hosts, accepts, old(index), first, v);
      SameLocalPart(Filter(hosts, accepts), old(index), first, kept, v);
      hide Filter, Around, CountBad, UnhealthyLast, LocalPart;
      plan := first + rest;
      assert plan[..|first|] == first && plan[|first|..] == rest;
      DistinctJoined(first, rest);
      if preferred.Some? {
        plan := PreferredFirst(preferred.value, plan);
        StillPlan(first, kept, rest, preferred.value);
      }
    }
  }

  /** The counter after one more plan. */
  function NextIndex(index: nat): nat {
    if index + 1 == 0x7fffffff then 0 else index + 1
  }

  /** The replicas a plan uses. */
  ghost function Kept<H(!new)>(replicas: Option<seq<H>>, accepts: H -> bool, v: View<H>): seq<H> {
    if replicas.Some? then Filter(replicas.value, Usable(accepts, v)) else []
  }

  function Not<H(==, !new)>(preferred: H): H -> bool {
    (h: H) => h != preferred
  }

  /** The preferred host, then the replicas in some order, then the others in their order, nothing twice. */
  ghost predicate IsPlan<H(!new)>(plan: seq<H>, kept: seq<H>, preferred: Option<H>, others: seq<H>) {
    match preferred
    case None =>
      && |kept| <= |plan| && multiset(plan[..|kept|]) == multiset(kept) && plan[|kept|..] == others
    case Some(p) =>
      var n := |Filter(kept, Not(p))|;
      && n < |plan| && plan[0] == p && multiset(plan[1..n + 1]) == multiset(Filter(kept, Not(p)))
      && plan[n + 1..] == Filter(others, Not(p))
  }

  lemma {:induction false} StillPlan<H(!new)>(first: seq<H>, kept: seq<H>, rest: seq<H>, p: H)
    requires multiset(first) == multiset(kept)
    ensures IsPlan([p] + Filter(first + rest, Not(p)), kept, Some(p), rest)
  {
    var a, b, k := Filter(first, Not(p)), Filter(rest, Not(p)), Filter(kept, Not(p));
    FilterJoined(first, rest, Not(p));
    FilterPermuted(first, kept, Not(p));
    hide Filter;
    SameSize(a, k);
    Parts(p, a, b);
  }

  lemma {:induction false} SameSize<H>(a: seq<H>, b: seq<H>)
    requires multiset(a) == multiset(b)
    ensures |a| == |b|
  {
    assert |multiset(a)| == |a| && |multiset(b)| == |b|;
  }

  lemma {:induction false} Parts<H>(p: H, a: seq<H>, b: seq<H>)
    ensures var plan := [p] + (a + b); plan[0] == p && plan[1..|a| + 1] == a && plan[|a| + 1..] == b
  {
  }

  lemma {:induction false} FilterJoined<H(!new)>(s: seq<H>, t: seq<H>, keep: H -> bool)
    ensures Filter(s + t, keep) == Filter(s, keep) + Filter(t, keep)
  {
    if s == [] {
      assert s + t == t;
    } else {
      assert (s + t)[0] == s[0] && (s + t)[1..] == s[1..] + t;
      FilterJoined(s[1..], t, keep);
    }
  }

  lemma {:induction false} FilterCount<H(!new)>(s: seq<H>, keep: H -> bool, h: H)
    ensures multiset(Filter(s, keep))[h] == if keep(h) then multiset(s)[h] else 0
  {
    if s != [] {
      FilterCount(s[1..], keep, h);
      assert s == [s[0]] + s[1..];
    }
  }

  lemma {:induction false} FilterPermuted<H(!new)>(s: seq<H>, t: seq<H>, keep: H -> bool)
    requires multiset(s) == multiset(t)
    ensures multiset(Filter(s, keep)) == multiset(Filter(t, keep))
  {
    forall h
      ensures multiset(Filter(s, keep))[h] == multiset(Filter(t, keep))[h]
    {
      FilterCount(s, keep, h);
      FilterCount(t, keep, h);
    }
  }

  lemma {:induction false} FilterAgrees<H(!new)>(s: seq<H>, f: H -> bool, g: H -> bool)
    requires forall h :: h in s ==> f(h) == g(h)
    ensures Filter(s, f) == Filter(s, g)
  {
    if s != [] {
      FilterAgrees(s[1..], f, g);
    }
  }

  lemma {:induction false} SameLocalPart<H(!new)>(local: seq<H>, start: nat, a: seq<H>, b: seq<H>, v: View<H>)
    requires multiset(a) == multiset(b)
    ensures LocalPart(local, start, a, v) == LocalPart(local, start, b, v)
  {
    forall h
      ensures h in a <==> h in b
    {
      assert h in a <==> h in multiset(a);
      assert h in b <==> h in multiset(b);
    }
    FilterAgrees(Around(local, start), NotYielded(a, v), NotYielded(b, v));
  }

  function Usable<H(!new)>(accepts: H -> bool, v: View<H>): H -> bool {
    (h: H) => accepts(h) && v.isUp(h)
  }

  lemma {:induction false} LocalPartIs<H(!new)>(hosts: seq<H>, accepts: H -> bool, start: nat, replicas: seq<H>,
                                                v: View<H>)
    requires Distinct(hosts)
    ensures var r := LocalPart(Filter(hosts, accepts), start, replicas, v);
      Distinct(r) && forall h :: h in r <==> h in hosts && accepts(h) && v.isUp(h) && h !in replicas
  {
    var local := Filter(hosts, accepts);
    FilterDistinct(hosts, accepts);
    AroundKeeps(local, start);
    FilterDistinct(Around(local, start), NotYielded(replicas, v));
    hide Around;
  }

  lemma {:induction false} DistinctJoined<H(!new)>(a: seq<H>, b: seq<H>)
    requires Distinct(a) && Distinct(b) && forall h :: h in b ==> h !in a
    ensures Distinct(a + b)
  {
    forall i, j | 0 <= i < j < |a + b|
      ensures (a + b)[i] != (a + b)[j]
    {
      if i < |a| <= j {
        assert a[i] in a && b[j - |a|] in b;
      }
    }
  }

  lemma {:induction false} DistinctPermuted<H(!new)>(s: seq<H>, t: seq<H>)
    requires Distinct(s) && multiset(s) == multiset(t)
    ensures Distinct(t) && |t| == |s| && forall h :: h in t <==> h in s
  {
    assert |multiset(s)| == |s| && |multiset(t)| == |t|;
    forall h
      ensures h in t <==> h in s
    {
      assert h in multiset(s) <==> h in s;
      assert h in multiset(t) <==> h in t;
    }
    forall i, j | 0 <= i < j < |t|
      ensures t[i] != t[j]
    {
      if t[i] == t[j] {
        TwiceCounted(t, i, j);
        OnceCounted(s, t[i]);
      }
    }
  }

  lemma {:induction false} TwiceCounted<H>(t: seq<H>, i: nat, j: nat)
    requires i < j < |t| && t[i] == t[j]
    ensures multiset(t)[t[i]] >= 2
  {
    assert t == t[..j] + ([t[j]] + t[j + 1..]);
    assert t[i] in t[..j] by { assert t[..j][i] == t[i]; }
    assert multiset(t) == multiset(t[..j]) + multiset{t[j]} + multiset(t[j + 1..]);
    assert multiset(t[..j])[t[i]] >= 1;
  }

  lemma {:induction false} OnceCounted<H(!new)>(s: seq<H>, h: H)
    requires Distinct(s)
    ensures multiset(s)[h] <= 1
  {
    if s != [] {
      var n := |s| - 1;
      assert s == s[..n] + [s[n]];
      OnceCounted(s[..n], h);
      if s[n] == h {
        assert h !in s[..n];
        assert multiset(s[..n])[h] == 0;
      }
    }
  }

  /** The preferred host, then the others. */
  method PreferredFirst<H(==, !new)>(preferred: H, plan: seq<H>) returns (r: seq<H>)
    requires Distinct(plan)
    ensures r == [preferred] + Filter(plan, Not(preferred))
    ensures Distinct(r) && forall h :: h in r <==> h == preferred || h in plan
  {
    var keep := Not(preferred);
    r := [preferred];
    for i := 0 to |plan|
      invariant r == [preferred] + Filter(plan[..i], keep)
    {
      FilterNext(plan, i, keep);
      if plan[i] != preferred {
        r := r + [plan[i]];
      }
    }
    assert plan[..|plan|] == plan;
    FilterDistinct(plan, keep);
    DistinctJoined([preferred], Filter(plan, keep));
  }
}
