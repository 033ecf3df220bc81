/** The array executor of lib/concurrent/index.js: workers that each run every c-th item, one at a time, in every
    interleaving of their completions. */
module ArrayExecution {
  import opened ResultGroup
  import opened Arithmetic

  /** A worker between two awaits; Rejected is a worker whose promise was rejected. */
  datatype Worker = NotStarted | Running(index: nat) | Finished | Rejected

  /** The promise of `execute`, which is that of all workers together. */
  datatype Promise<E> = Pending | Resolved | RejectedWith(err: E)

  // ---------------------------------------------------------------- which worker an index belongs to

  ghost function Owner(i: nat, c: nat): (w: nat)
    requires c > 0
    ensures w < c
  {
    i % c
  }

  ghost function Round(i: nat, c: nat): nat
    requires c > 0
  {
    i / c
  }

  /** The index of a worker's k-th round belongs to that worker and round, and every index is such a one. */
  lemma {:induction false} IndexParts(w: nat, k: nat, c: nat)
    requires w < c
    ensures w + c * k >= 0 && Owner(w + c * k, c) == w && Round(w + c * k, c) == k
  {
    assert c * k >= 0 by { if k == 0 { assert c * k == 0; } }
    var i := w + c * k;
    Unique(c, i / c, i % c, k, w);
  }

  lemma {:induction false} IndexOf(i: nat, c: nat)
    requires c > 0
    ensures i == Owner(i, c) + c * Round(i, c)
  {
  }

  /** A later round has a larger index. */
  lemma {:induction false} LaterRound(c: nat, k: nat, m: nat)
    requires c > 0 && k <= m
    ensures c * k <= c * m && (k < m ==> c * k + c <= c * m)
  {
    Spread(c, k, m - k);
    if k < m {
      AtLeast(c, m - k);
    }
  }

  class ArrayExecutor<R(!new), E(!new)> {
    const n: nat
    const concurrencyLevel: nat
    const raiseOnFirstError: bool
    const result: ResultSetGroup<R, E>
    var stop: bool
    var workers: seq<Worker>
    var promise: Promise<E>
    ghost var rounds: seq<nat>

    /** The item has been handed to the client. */
    ghost predicate Started(i: nat)
      requires |workers| == |rounds| == concurrencyLevel
      reads this`workers, this`rounds
    {
      i < n && concurrencyLevel > 0 &&
      var w, k := Owner(i, concurrencyLevel), Round(i, concurrencyLevel);
      k < rounds[w] || (k == rounds[w] && (workers[w].Running? || workers[w].Rejected?))
    }

    /** The item's outcome is known. */
    ghost predicate Done(i: nat)
      requires |workers| == |rounds| == concurrencyLevel
      reads this`workers, this`rounds
    {
      i < n && concurrencyLevel > 0 &&
      var w, k := Owner(i, concurrencyLevel), Round(i, concurrencyLevel);
      k < rounds[w] || (k == rounds[w] && workers[w].Rejected?)
    }

    ghost predicate WorkerOk(w: nat)
      requires |workers| == |rounds| == concurrencyLevel && w < concurrencyLevel
      reads this`workers, this`rounds, this`stop
    {
      && (workers[w].Running? ==> workers[w].index == w + concurrencyLevel * rounds[w] && workers[w].index < n)
      && (workers[w].NotStarted? ==> rounds[w] == 0)
      && (workers[w].Finished? && !stop ==> w + concurrencyLevel * rounds[w] >= n)
      && (workers[w].Rejected? ==> stop)
    }

    /** Workers and log agree: each index has one outcome logged when its round is over. */
    ghost predicate Working()
      reads this`workers, this`rounds, this`stop, result
    {
      && result.Valid() && |workers| == |rounds| == concurrencyLevel && concurrencyLevel <= n
      && (n > 0 ==> concurrencyLevel > 0)
      && (forall w: nat :: w < concurrencyLevel ==> WorkerOk(w))
      && DistinctIndices(result.log) && (forall i: nat :: Logged(result.log, i) <==> Done(i))
      && (stop <==> raiseOnFirstError && Failures(result.log) != [])
    }

    ghost predicate Valid()
      reads this, result
    {
      && Working()
      // Rejected with the first failure once one is raised; resolved only when all workers are finished.
      && (promise.RejectedWith? <==> stop) && (stop ==> promise.err == Failures(result.log)[0])
      && (promise == Resolved ==> AllFinished())
      && (concurrencyLevel > 0 && !stop && AllFinished() ==> promise == Resolved)
    }

    ghost predicate AllFinished()
      reads this`workers
    {
      forall w :: 0 <= w < |workers| ==> workers[w].Finished?
    }

    /** An absent or zero level means 100; there are no more workers than items. */
    constructor (n: nat, level: nat, raiseOnFirstError: bool, collectResults: bool, maxErrors: int)
      ensures Valid() && fresh(result) && this.n == n && this.raiseOnFirstError == raiseOnFirstError
      ensures concurrencyLevel == (var l := if level == 0 then 100 else level; if l < n then l else n)
      ensures forall w :: 0 <= w < concurrencyLevel ==> workers[w] == NotStarted
      ensures promise == Pending && !stop
    {
      this.n := n;
      this.raiseOnFirstError := raiseOnFirstError;
      var l := if level == 0 then 100 else level;
      var c := if l < n then l else n;
      concurrencyLevel := c;
      result := new ResultSetGroup(collectResults, maxErrors);
      stop := false;
      promise := Pending;
      workers := seq(c, _ => NotStarted);
      rounds := seq(c, _ => 0);
      new;
      assert c > 0 ==> workers[0].NotStarted?;
    }

    /** The start of a round: the worker goes on with its next item unless there is none or an error stopped it. */
    method ExecuteOneAtATime(w: nat, ghost round: nat, index: nat)
      requires |workers| == |rounds| == concurrencyLevel && w < concurrencyLevel
      requires index == w + concurrencyLevel * round
      modifies this`workers, this`rounds
      ensures workers == old(workers)[w := if index >= n || stop then Finished else Running(index)]
      ensures rounds == old(rounds)[w := round]
    {
      rounds := rounds[w := round];
      if index >= n || stop {
        workers := workers[w := Finished];
        return;
      }
      workers := workers[w := Running(index)];
    }

    /** The first round of a worker. */
    method Launch(w: nat)
      requires Valid() && w < concurrencyLevel && workers[w] == NotStarted && !stop
      modifies this`workers, this`rounds
      ensures Valid() && promise == Pending && workers == old(workers)[w := Running(w)]
      ensures !old(Started(w)) && forall i: nat :: Started(i) <==> old(Started(i)) || i == w
    {
      assert WorkerOk(w);
      assert !AllFinished() && promise == Pending;
      assert concurrencyLevel * 0 == 0;
      hide Owner, Round, DistinctIndices, Logged, Failures, First, Slots;
      IndexParts(w, 0, concurrencyLevel);
      ExecuteOneAtATime(w, 0, w);
      assert rounds == old(rounds);
      assert workers[w].Running? && !AllFinished();
      forall v: nat | v < concurrencyLevel
        ensures WorkerOk(v)
      {
        assert old(WorkerOk(v));
      }
      forall i: nat
        ensures Started(i) <==> old(Started(i)) || i == w
        ensures Done(i) <==> old(Done(i))
      {
        if i < n {
          IndexOf(i, concurrencyLevel);
        }
      }
    }

    /** All workers start, in order; without items there is nothing to wait for. */
    method Execute()
      requires Valid() && !stop && promise == Pending
      requires forall w :: 0 <= w < concurrencyLevel ==> workers[w] == NotStarted
      modifies this`workers, this`rounds, this`promise
      ensures Valid() && !stop && forall w: nat :: w < concurrencyLevel ==> workers[w] == Running(w)
      ensures promise == if n == 0 then Resolved else Pending
    {
      for i := 0 to concurrencyLevel
        invariant Valid() && !stop && promise == Pending
        invariant forall w: nat :: w < i ==> workers[w] == Running(w)
        invariant forall w: nat :: i <= w < concurrencyLevel ==> workers[w] == NotStarted
      {
        Launch(i);
      }
      if concurrencyLevel == 0 {
        promise := Resolved;
      }
    }

    /** Promise.all: the first rejection counts, else the last worker to finish. */
    method Settle(raised: bool, outcome: Outcome<R, E>)
      requires raised ==> outcome.Failure?
      modifies this`promise
      ensures old(promise) != Pending ==> promise == old(promise)
      ensures old(promise) == Pending ==>
        promise == if raised then RejectedWith(outcome.err) else if AllFinished() then Resolved else Pending
    {
      if promise != Pending {
        return;
      }
      if raised {
        promise := RejectedWith(outcome.err);
        return;
      }
      for w := 0 to |workers|
        invariant promise == Pending && forall v :: 0 <= v < w ==> workers[v].Finished?
      {
        if !workers[w].Finished? {
          return;
        }
      }
      promise := Resolved;
    }

    /** The item of a worker ends: its outcome is recorded; an error that is to be raised stops everybody and rejects
        the worker, otherwise the worker goes on with its next round. */
    method OnCompletion(w: nat, outcome: Outcome<R, E>)
      requires Valid() && w < concurrencyLevel && workers[w].Running?
      modifies this, result
      ensures Valid() && result.log == old(result.log) + [Entry(old(workers[w].index), outcome)]
      ensures forall v: nat :: v < concurrencyLevel && v != w ==> workers[v] == old(workers[v])
      ensures stop == (old(stop) || (raiseOnFirstError && outcome.Failure?))
      ensures old(promise) != Pending ==> promise == old(promise)
      ensures old(promise) == Pending ==>
        promise == if raiseOnFirstError && outcome.Failure? then RejectedWith(outcome.err)
                   else if AllFinished() then Resolved else Pending
      // What is started: nothing once an error stopped the executor, else the worker's next item if there is one.
      ensures var next := old(workers[w].index) + concurrencyLevel;
        if !stop && next < n then
          && workers[w] == Running(next) && !old(Started(next))
          && forall i: nat :: Started(i) <==> old(Started(i)) || i == next
        else (workers[w].Finished? || workers[w].Rejected?) && forall i: nat :: Started(i) <==> old(Started(i))
    {
      hide WorkerOk, Owner, Round, DistinctIndices, Logged, Failures, First, Slots;
      assert |workers| == |rounds| == concurrencyLevel;
      assert !stop && raiseOnFirstError ==> Failures(result.log) == [];
      hide Working;
      Conclude(w, outcome);
      Settle(raiseOnFirstError && outcome.Failure?, outcome);
    }

    /** The outcome is recorded and the worker goes on. */
    method Conclude(w: nat, outcome: Outcome<R, E>)
      requires Working() && w < concurrencyLevel && workers[w].Running?
      modifies this`stop, this`workers, this`rounds, result
      ensures Working() && result.log == old(result.log) + [Entry(old(workers[w].index), outcome)]
      ensures Failures(result.log) == old(Failures(result.log)) + if outcome.Failure? then [outcome.err] else []
      ensures forall v: nat :: v < concurrencyLevel && v != w ==> workers[v] == old(workers[v])
      ensures stop == (old(stop) || (raiseOnFirstError && outcome.Failure?))
      ensures var next := old(workers[w].index) + concurrencyLevel;
        if !stop && next < n then
          && workers[w] == Running(next) && !old(Started(next))
          && forall i: nat :: Started(i) <==> old(Started(i)) || i == next
        else (workers[w].Finished? || workers[w].Rejected?) && forall i: nat :: Started(i) <==> old(Started(i))
    {
      assert WorkerOk(w);
      var index := workers[w].index;
      hide Owner, Round, DistinctIndices, Logged, Failures, First, Slots;
      IndexParts(w, rounds[w], concurrencyLevel);
      assert !Logged(result.log, index);
      DistinctNext(result.log, Entry(index, outcome));
      result.Record(index, outcome);
      GoOn(w, raiseOnFirstError && outcome.Failure?);
    }

    /** After the outcome is recorded. */
    method GoOn(w: nat, raise: bool)
      requires |workers| == |rounds| == concurrencyLevel && (forall v: nat :: v < concurrencyLevel ==> WorkerOk(v))
      requires w < concurrencyLevel && workers[w].Running?
      modifies this`stop, this`workers, this`rounds
      ensures |workers| == |rounds| == concurrencyLevel && (forall v: nat :: v < concurrencyLevel ==> WorkerOk(v))
      ensures forall v: nat :: v < concurrencyLevel && v != w ==> workers[v] == old(workers[v])
      ensures stop == (old(stop) || raise)
      ensures forall i: nat :: Done(i) <==> old(Done(i)) || i == old(workers[w].index)
      ensures var next := old(workers[w].index) + concurrencyLevel;
        if !stop && next < n then
          && workers[w] == Running(next) && !old(Started(next))
          && forall i: nat :: Started(i) <==> old(Started(i)) || i == next
        else (workers[w].Finished? || workers[w].Rejected?) && forall i: nat :: Started(i) <==> old(Started(i))
    {
      assert WorkerOk(w);
      var c, index := concurrencyLevel, workers[w].index;
      ghost var k := rounds[w];
      hide Owner, Round;
      IndexParts(w, k, c);
      Spread(c, k, 1);
      IndexParts(w, k + 1, c);
      if raise {
        stop := true;
        workers := workers[w := Rejected];
      } else {
        ExecuteOneAtATime(w, k + 1, index + c);
      }
      forall v: nat | v < c
        ensures WorkerOk(v)
      {
        assert old(WorkerOk(v));
      }
      forall i: nat
        ensures Done(i) <==> old(Done(i)) || i == index
        ensures Started(i) <==> old(Started(i)) || (!stop && i == index + c < n)
      {
        if i < n { IndexOf(i, c); }
      }
    }

    // -------------------------------------------------------------- what holds in every state

    /** The indices that the first k workers are running. */
    ghost function RunningBelow(k: nat): (r: set<nat>)
      requires k <= |workers|
      reads this`workers
      ensures |r| <= k && forall w :: 0 <= w < k && workers[w].Running? ==> workers[w].index in r
    {
      if k == 0 then {} else RunningBelow(k - 1) + if workers[k - 1].Running? then {workers[k - 1].index} else {}
    }

    /** The items handed to the client whose outcome is not known. */
    ghost function InFlight(): set<nat>
      requires |workers| == |rounds| == concurrencyLevel
      reads this`workers, this`rounds
    {
      set i: nat | i < n && Started(i) && !Done(i)
    }

    /** Never more items are outstanding than there are workers. */
    lemma {:induction false} AtMostLevelInFlight()
      requires Valid()
      ensures |InFlight()| <= concurrencyLevel
    {
      var running := RunningBelow(concurrencyLevel);
      forall i | i in InFlight()
        ensures i in running
      {
        Outstanding(i);
      }
      assert InFlight() <= running;
      var rest := running - InFlight();
      assert running == InFlight() + rest && |running| == |InFlight()| + |rest|;
    }

    /** No more items are outstanding than there are workers, and each belongs to the worker that runs it. */
    lemma {:induction false} Outstanding(i: nat)
      requires Valid()
      ensures Started(i) && !Done(i)
        <==> i < n && concurrencyLevel > 0 && workers[Owner(i, concurrencyLevel)] == Running(i)
    {
      if i < n {
        var c := concurrencyLevel;
        var w := Owner(i, c);
        assert WorkerOk(w);
        IndexOf(i, c);
        if workers[w].Running? {
          IndexParts(w, rounds[w], c);
        }
      }
    }

    /** When no worker is left without an error having stopped them, every item has its outcome logged exactly once. */
    lemma {:induction false} AllDone()
      requires Valid() && !stop && forall w: nat :: w < concurrencyLevel ==> workers[w].Finished?
      ensures result.totalExecuted == n && forall i: nat :: Logged(result.log, i) <==> i < n
    {
      hide DistinctIndices, Logged, Failures, First, Slots;
      forall i: nat | i < n
        ensures Done(i)
      {
        var c := concurrencyLevel;
        var w, k := Owner(i, c), Round(i, c);
        assert WorkerOk(w);
        IndexOf(i, c);
        if k >= rounds[w] {
          LaterRound(c, rounds[w], k);
        }
      }
      AllLogged(result.log, n);
    }

    /** A resolved promise: every item has exactly one outcome, and with raiseOnFirstError none of them failed. */
    lemma {:induction false} ResolvedMeans()
      requires Valid() && promise == Resolved
      ensures result.totalExecuted == n && forall i: nat :: Logged(result.log, i) <==> i < n
      ensures raiseOnFirstError ==> Failures(result.log) == []
    {
      AllDone();
    }
  }

  /** Every run: completions of running items in any order. The invariant holds throughout, what is done stays done, and
      once an error stopped the executor nothing more is ever started. */
  method Drive<R(!new), E(!new)>(ex: ArrayExecutor<R, E>, schedule: seq<(nat, Outcome<R, E>)>)
    requires ex.Valid()
    modifies ex, ex.result
    ensures ex.Valid() && (old(ex.stop) ==> ex.stop) && old(ex.result.log) <= ex.result.log
    ensures old(ex.stop) ==> forall i: nat :: ex.Started(i) <==> old(ex.Started(i))
    ensures forall i: nat :: old(ex.Started(i)) ==> ex.Started(i)
    ensures old(ex.promise) != Pending ==> ex.promise == old(ex.promise)
  {
    for k := 0 to |schedule|
      invariant ex.Valid() && (old(ex.stop) ==> ex.stop) && old(ex.result.log) <= ex.result.log
      invariant old(ex.stop) ==> forall i: nat :: ex.Started(i) <==> old(ex.Started(i))
      invariant forall i: nat :: old(ex.Started(i)) ==> ex.Started(i)
      invariant old(ex.promise) != Pending ==> ex.promise == old(ex.promise)
    {
      hide DistinctIndices, Logged, Failures, First, Slots, Owner, Round;
      var (w, outcome) := schedule[k];
      if w < ex.concurrencyLevel && ex.workers[w].Running? {
        ex.OnCompletion(w, outcome);
      }
    }
  }
}
