/** The stream executor of lib/concurrent/index.js: the state its event handlers keep, for every order of events.
    Data arrives only while the stream is not paused, and a completion runs with its resume in one step. */
module StreamExecution {
  import opened Bytes
  import opened ResultGroup

  datatype Rejection<E> = BadItem | ReadError(err: E) | ExecutionError(err: E)

  /** What became of the promise. */
  datatype Settled<E> = Pending | Resolved | Rejected(reason: Rejection<E>)

  class StreamExecutor<R(!new), E(!new)> {
    const raiseOnFirstError: bool
    const concurrencyLevel: int
    const result: ResultSetGroup<R, E>
    var inFlight: nat
    var index: nat
    var readEnded: bool
    var paused: bool
    var promise: Settled<E>
    /** Indices of the executions in flight. */
    var running: set<nat>

    /** The most that may be in flight. */
    function Level(): int {
      if concurrencyLevel < 1 then 1 else concurrencyLevel
    }

    ghost predicate Valid()
      reads this, result
    {
      && result.Valid() && |running| == inFlight && index == inFlight + result.totalExecuted
      && (forall i :: i in running ==> i < index)
      && DistinctIndices(result.log) && (forall i: nat :: Logged(result.log, i) ==> i < index && i !in running)
      && inFlight <= Level() && (!paused ==> inFlight < Level())
      && (readEnded && inFlight == 0 ==> promise != Pending)
      && (promise != Pending ==> readEnded)
      && (promise == Resolved ==> inFlight == 0)
      && (raiseOnFirstError && Failures(result.log) != [] ==> promise.Rejected?)
    }

    constructor (raiseOnFirstError: bool, concurrencyLevel: int, collectResults: bool, maxErrors: int)
      ensures Valid() && fresh(result) && index == 0 && promise == Pending && !readEnded && result.log == []
      ensures this.raiseOnFirstError == raiseOnFirstError
      ensures this.concurrencyLevel == if concurrencyLevel == 0 then 100 else concurrencyLevel
    {
      this.raiseOnFirstError := raiseOnFirstError;
      this.concurrencyLevel := if concurrencyLevel == 0 then 100 else concurrencyLevel;
      result := new ResultSetGroup(collectResults, maxErrors);
      inFlight, index := 0, 0;
      readEnded, paused := false, false;
      promise := Pending;
      running := {};
    }

    /** Calling a promise's callbacks after it is settled has no effect. */
    method Resolve()
      modifies this`promise
      ensures promise == if old(promise) == Pending then Resolved else old(promise)
    {
      if promise == Pending {
        promise := Resolved;
      }
    }

    method Reject(reason: Rejection<E>)
      modifies this`promise
      ensures promise == if old(promise) == Pending then Rejected(reason) else old(promise)
    {
      if promise == Pending {
        promise := Rejected(reason);
      }
    }

    /** The end of the stream, or an error while reading it. */
    method SetReadEnded(err: Option<Rejection<E>>)
      requires Valid()
      modifies this`readEnded, this`promise
      ensures Valid() && readEnded
      ensures old(promise) != Pending ==> promise == old(promise)
      ensures old(promise) == Pending && old(readEnded) ==> promise == Pending
      ensures old(promise) == Pending && !old(readEnded) ==>
        promise == if err.Some? then Rejected(err.value) else if inFlight == 0 then Resolved else Pending
    {
      if !readEnded {
        readEnded := true;
        if err.Some? {
          Reject(err.value);
        } else if inFlight == 0 {
          Resolve();
        }
      }
    }

    /** An item from the stream; one that is not an array ends the reading. */
    method OnData(isArray: bool) returns (accepted: bool)
      requires Valid() && !paused
      modifies this
      ensures Valid() && accepted == (isArray && !old(readEnded))
      ensures accepted ==>
        index == old(index) + 1 && inFlight == old(inFlight) + 1 && running == old(running) + {old(index)}
      ensures accepted ==> promise == old(promise) && !readEnded && paused == (inFlight >= concurrencyLevel)
      ensures !accepted ==> index == old(index) && inFlight == old(inFlight) && running == old(running) && !paused
      ensures !accepted && isArray ==> promise == old(promise) && readEnded
      ensures !accepted && !isArray ==>
        readEnded && promise == if old(promise) == Pending && !old(readEnded) then Rejected(BadItem) else old(promise)
    {
      accepted := false;
      if !isArray {
        SetReadEnded(Some(BadItem));
        return;
      }
      if readEnded {
        return;
      }
      inFlight := inFlight + 1;
      running := running + {index};
      index := index + 1;
      accepted := true;
      if inFlight >= concurrencyLevel {
        paused := true;
      }
    }

    /** An execution ends. */
    method OnCompletion(i: nat, outcome: Outcome<R, E>)
      requires Valid() && i in running
      modifies this, result
      ensures Valid() && running == old(running) - {i} && inFlight == old(inFlight) - 1 && index == old(index)
      ensures !paused
      ensures result.log == old(result.log) + [Entry(i, outcome)]
      ensures old(promise) != Pending ==> promise == old(promise)
      ensures old(promise) == Pending ==>
        promise == if raiseOnFirstError && outcome.Failure? then Rejected(ExecutionError(outcome.err))
                   else if readEnded && inFlight == 0 then Resolved else Pending
      ensures readEnded == (old(readEnded) || (raiseOnFirstError && outcome.Failure?))
    {
      hide DistinctIndices, Logged, Failures, First, Slots;
      DistinctNext(result.log, Entry(i, outcome));
      running := running - {i};
      inFlight := inFlight - 1;
      result.Record(i, outcome);
      if outcome.Failure? && raiseOnFirstError {
        readEnded := true;
        Reject(ExecutionError(outcome.err));
      }
      if paused {
        paused := false;
      }
      if readEnded && inFlight == 0 {
        Resolve();
      }
    }

    // -------------------------------------------------------------- what a settled promise says

    /** A resolved promise: reading has ended, every accepted item is logged exactly once, and with raiseOnFirstError
        none of them failed. */
    lemma {:induction false} ResolvedMeans()
      requires Valid() && promise == Resolved
      ensures readEnded && inFlight == 0 && running == {} && |result.log| == index
      ensures forall i: nat :: i < index ==> Logged(result.log, i)
      ensures raiseOnFirstError ==> Failures(result.log) == []
    {
      AllLogged(result.log, index);
    }
  }

  datatype Event<R, E> = Data(isArray: bool) | ReadFailure(err: E) | End | Completion(index: nat, outcome: Outcome<R,
      E>)

  /** Every run: any events in any order, data only while the stream is not paused and completions only of executions
      in flight. The invariant holds throughout, a settled promise never changes, and once it is resolved neither the
      result nor the number of accepted items does. */
  method Drive<R(!new), E(!new)>(ex: StreamExecutor<R, E>, events: seq<Event<R, E>>)
    requires ex.Valid()
    modifies ex, ex.result
    ensures ex.Valid()
    ensures old(ex.promise) != Pending ==> ex.promise == old(ex.promise)
    ensures old(ex.promise) == Resolved ==> ex.result.log == old(ex.result.log) && ex.index == old(ex.index)
    ensures old(ex.readEnded) ==> ex.readEnded && ex.index == old(ex.index)
  {
    for k := 0 to |events|
      invariant ex.Valid()
      invariant old(ex.promise) != Pending ==> ex.promise == old(ex.promise)
      invariant old(ex.promise) == Resolved ==> ex.result.log == old(ex.result.log)
      invariant old(ex.readEnded) ==> ex.readEnded && ex.index == old(ex.index)
    {
      hide DistinctIndices, Logged, Failures, First, Slots;
      match events[k] {
        case Data(isArray) =>
          if !ex.paused {
            var accepted := ex.OnData(isArray);
          }
        case ReadFailure(err) => ex.SetReadEnded(Some(ReadError(err)));
        case End => ex.SetReadEnded(None);
        case Completion(i, outcome) =>
          if i in ex.running {
            ex.OnCompletion(i, outcome);
          }
      }
    }
  }
}
