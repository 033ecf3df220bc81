/** ResultSetGroup of lib/concurrent/index.js: what the executors collect. */
module ResultGroup {

  datatype Outcome<R, E> = Success(rs: R) | Failure(err: E)

  /** A finished execution: its index and its outcome. */
  datatype Entry<R, E> = Entry(index: nat, outcome: Outcome<R, E>)

  ghost function Failures<R, E>(log: seq<Entry<R, E>>): seq<E> {
    if log == [] then []
    else
      var last := log[|log| - 1];
      Failures(log[..|log| - 1]) + if last.outcome.Failure? then [last.outcome.err] else []
  }

  /** The first n of a list; none for a negative n. */
  ghost function First<E>(s: seq<E>, n: int): seq<E> {
    if n <= 0 then [] else if n <= |s| then s[..n] else s
  }

  /** What each index holds after the log. */
  ghost function Slots<R, E>(log: seq<Entry<R, E>>): map<nat, Outcome<R, E>> {
    if log == [] then map[] else Slots(log[..|log| - 1])[log[|log| - 1].index := log[|log| - 1].outcome]
  }

  ghost predicate DistinctIndices<R, E>(log: seq<Entry<R, E>>) {
    forall i, j :: 0 <= i < j < |log| ==> log[i].index != log[j].index
  }

  ghost predicate Logged<R, E>(log: seq<Entry<R, E>>, i: nat) {
    exists k :: 0 <= k < |log| && log[k].index == i
  }

  /** When every index is logged once, each slot holds the outcome of its own index, and there are no others. */
  lemma {:induction false} SlotsHold<R, E>(log: seq<Entry<R, E>>)
    requires DistinctIndices(log)
    ensures forall k :: 0 <= k < |log| ==> log[k].index in Slots(log) && Slots(log)[log[k].index] == log[k].outcome
    ensures forall i :: i in Slots(log) <==> Logged(log, i)
  {
    if log != [] {
      var n := |log| - 1;
      var before := log[..n];
      SlotsHold(before);
      forall k | 0 <= k < n
        ensures log[k].index in Slots(log) && Slots(log)[log[k].index] == log[k].outcome
      {
        assert before[k] == log[k];
      }
      forall i: nat
        ensures i in Slots(log) <==> Logged(log, i)
      {
        LoggedNext(log, i);
      }
    }
  }

  lemma {:induction false} LoggedNext<R, E>(log: seq<Entry<R, E>>, i: nat)
    requires log != []
    ensures Logged(log, i) <==> Logged(log[..|log| - 1], i) || log[|log| - 1].index == i
  {
    var n := |log| - 1;
    var before := log[..n];
    if Logged(before, i) {
      var k :| 0 <= k < |before| && before[k].index == i;
      assert log[k].index == i;
    }
    if Logged(log, i) && log[n].index != i {
      var k :| 0 <= k < |log| && log[k].index == i;
      assert before[k].index == i;
    }
  }

  /** An entry with a new index keeps the indices distinct. */
  lemma {:induction false} DistinctNext<R, E>(log: seq<Entry<R, E>>, e: Entry<R, E>)
    requires DistinctIndices(log) && !Logged(log, e.index)
    ensures DistinctIndices(log + [e])
    ensures forall i: nat :: Logged(log + [e], i) <==> Logged(log, i) || i == e.index
    ensures Failures(log + [e]) == Failures(log) + if e.outcome.Failure? then [e.outcome.err] else []
  {
    var all := log + [e];
    assert all[..|all| - 1] == log;
    forall i: nat
      ensures Logged(all, i) <==> Logged(log, i) || i == e.index
    {
      LoggedNext(all, i);
    }
  }

  ghost function Below(n: nat): (s: set<nat>)
    ensures |s| == n && forall k: nat :: k in s <==> k < n
  {
    if n == 0 then {} else Below(n - 1) + {n - 1}
  }

  ghost function Indices<R, E>(log: seq<Entry<R, E>>): (s: set<nat>)
    requires DistinctIndices(log)
    ensures |s| == |log| && forall i :: i in s <==> Logged(log, i)
  {
    if log == [] then {}
    else
      var n := |log| - 1;
      assert forall i: nat :: Logged(log, i) <==> Logged(log[..n], i) || log[n].index == i by {
        forall i: nat ensures Logged(log, i) <==> Logged(log[..n], i) || log[n].index == i { LoggedNext(log, i); }
      }
      assert !Logged(log[..n], log[n].index);
      Indices(log[..n]) + {log[n].index}
  }

  /** n distinct indices below n are all of them. */
  lemma {:induction false} AllLogged<R, E>(log: seq<Entry<R, E>>, n: nat)
    requires DistinctIndices(log) && forall i: nat :: Logged(log, i) ==> i < n
    ensures |log| <= n && (|log| == n <==> forall i: nat :: i < n ==> Logged(log, i))
  {
    var logged, all := Indices(log), Below(n);
    assert logged <= all;
    var rest := all - logged;
    assert all == logged + rest && |all| == |logged| + |rest|;
    if rest == {} {
      assert forall i: nat :: i < n ==> i in all;
    } else {
      var x :| x in rest;
      assert x < n && !Logged(log, x);
    }
  }

  /** The positions in the log of the executions that failed. */
  ghost function FailedAt<R, E>(log: seq<Entry<R, E>>): set<nat> {
    set k: nat | k < |log| && log[k].outcome.Failure?
  }

  lemma {:induction false} FailureCount<R, E>(log: seq<Entry<R, E>>)
    ensures |Failures(log)| == |FailedAt(log)|
  {
    if log == [] {
      assert FailedAt(log) == {};
    } else {
      var n := |log| - 1;
      FailureCount(log[..n]);
      assert FailedAt(log) == FailedAt(log[..n]) + if log[n].outcome.Failure? then {n} else {};
      assert n !in FailedAt(log[..n]);
    }
  }

  class ResultSetGroup<R(!new), E(!new)> {
    const collectResults: bool
    const maxErrors: int
    var totalExecuted: nat
    var errors: seq<E>
    var resultItems: map<nat, Outcome<R, E>>
    ghost var log: seq<Entry<R, E>>

    ghost predicate Valid()
      reads this
    {
      && totalExecuted == |log| && errors == First(Failures(log), maxErrors)
      && resultItems == if collectResults then Slots(log) else map[]
    }

    /** An absent or zero limit of errors means 100. */
    constructor (collectResults: bool, maxErrors: int)
      ensures Valid() && log == [] && this.collectResults == collectResults
      ensures this.maxErrors == if maxErrors == 0 then 100 else maxErrors
    {
      this.collectResults := collectResults;
      this.maxErrors := if maxErrors == 0 then 100 else maxErrors;
      totalExecuted := 0;
      errors := [];
      resultItems := map[];
      log := [];
    }

    method SetResultItem(index: nat, rs: R)
      requires Valid()
      modifies this
      ensures Valid() && log == old(log) + [Entry(index, Success(rs))]
    {
      totalExecuted := totalExecuted + 1;
      if collectResults {
        resultItems := resultItems[index := Success(rs)];
      }
      log := log + [Entry(index, Success(rs))];
      assert log[..|log| - 1] == old(log);
      assert Failures(log) == Failures(old(log)) + [];
    }

    /** The outcome is stored by the method for its kind. */
    method Record(index: nat, outcome: Outcome<R, E>)
      requires Valid()
      modifies this
      ensures Valid() && log == old(log) + [Entry(index, outcome)]
    {
      match outcome
      case Success(rs) => SetResultItem(index, rs);
      case Failure(err) => SetError(index, err);
    }

    method SetError(index: nat, err: E)
      requires Valid()
      modifies this
      ensures Valid() && log == old(log) + [Entry(index, Failure(err))]
    {
      totalExecuted := totalExecuted + 1;
      if |errors| < maxErrors {
        errors := errors + [err];
      }
      if collectResults {
        resultItems := resultItems[index := Failure(err)];
      }
      log := log + [Entry(index, Failure(err))];
      assert log[..|log| - 1] == old(log);
    }

    /** The kept errors are as many as executions failed, up to the limit. */
    lemma {:induction false} ErrorsKept()
      requires Valid()
      ensures |errors|
        == if maxErrors < |FailedAt(log)| then (if maxErrors < 0 then 0 else maxErrors) else |FailedAt(log)|
      ensures totalExecuted == |log|
    {
      FailureCount(log);
    }
  }
}
