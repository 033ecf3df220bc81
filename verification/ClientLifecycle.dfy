/** Connecting and shutting down a client (lib/client.ts): what each uninterrupted stretch of #connect and #shutdown
    keeps, for every order of calls and session outcomes. Listeners of the "connected" event do not call connect. */
module ClientLifecycle {
  import opened Bytes

  datatype Outcome<E> = Resolved | Failed(err: E) | AfterShutdown

  class Client<E(!new)> {
    const loggingOn: bool
    var connected: bool
    var connecting: bool
    var isShuttingDown: bool
    var loggingId: Option<nat>
    /** Log callbacks of this client that the native side holds. */
    var registrations: set<nat>
    /** Callers that wait for the "connected" event. */
    var waiting: set<nat>
    /** Settled connect calls. */
    var settled: map<nat, Outcome<E>>

    /** Session creations so far, how the finished ones ended, and which attempt each caller started or joined. */
    ghost var attempts: nat
    ghost var ended: seq<Outcome<E>>
    ghost var joined: map<nat, nat>

    /** A caller has the outcome of the attempt it started or joined, or waits for it. */
    ghost predicate Served()
      reads this`joined, this`settled, this`ended, this`attempts, this`waiting
    {
      && (forall c :: c in joined ==> joined[c] < attempts && (c in settled <==> joined[c] < |ended|))
      && (forall c :: c in joined && c in settled ==> settled[c] == ended[joined[c]])
      && (forall c :: c in waiting <==> c in joined && joined[c] >= |ended|)
    }

    ghost predicate Valid()
      reads this
    {
      && !(connected && connecting) && (isShuttingDown ==> !connected && !connecting)
      // One session creation is outstanding exactly while connecting.
      && attempts == |ended| + (if connecting then 1 else 0)
      // One log registration, exactly while logging is on and the client is connecting or connected.
      && registrations == Held()
      && (loggingId.Some? <==> loggingOn && (connecting || connected))
      && Served()
    }

    constructor (loggingOn: bool)
      ensures Valid() && this.loggingOn == loggingOn && !connected && !connecting && !isShuttingDown && attempts == 0
      ensures settled == map[]
    {
      this.loggingOn := loggingOn;
      connected, connecting, isShuttingDown := false, false, false;
      loggingId := None;
      registrations, waiting, settled := {}, {}, map[];
      attempts, ended, joined := 0, [], map[];
    }

    /** The registration the client knows of. */
    ghost function Held(): set<nat>
      reads this`loggingId
    {
      if loggingId.Some? then {loggingId.value} else {}
    }

    /** No registration the client knows of is left; a client that holds no other is left with none. */
    method CloseLogging()
      modifies this`loggingId, this`registrations
      ensures Held() == {} && registrations !! old(Held()) && old(registrations) <= registrations + old(Held())
      ensures registrations <= old(registrations) && (old(registrations) == old(Held()) ==> registrations == {})
    {
      if loggingId.Some? {
        registrations := registrations - {loggingId.value};
        loggingId := None;
      }
    }

    /** A call of connect up to its first wait. Setting up logging gives a registration or throws. */
    method Connect(caller: nat, setup: Result<nat>, setupError: E)
      requires Valid() && caller !in joined && caller !in settled
      modifies this
      ensures Valid() && connected == old(connected) && isShuttingDown == old(isShuttingDown)
      ensures old(connected) ==>
        settled == old(settled)[caller := Resolved] && attempts == old(attempts) && joined == old(joined)
      ensures old(isShuttingDown) ==>
        settled == old(settled)[caller := AfterShutdown] && attempts == old(attempts) && joined == old(joined)
      ensures old(connecting) ==>
        && connecting && attempts == old(attempts) && settled == old(settled)
        && joined == old(joined)[caller := attempts - 1]
      ensures !old(connected) && !old(isShuttingDown) && !old(connecting) ==>
        if loggingOn && setup.Err? then
          !connecting && attempts == old(attempts) && settled == old(settled)[caller := Failed(setupError)]
        else
          && connecting && attempts == old(attempts) + 1 && settled == old(settled)
          && joined == old(joined)[caller := attempts - 1]
    {
      if connected {
        settled := settled[caller := Resolved];
        return;
      }
      if isShuttingDown {
        settled := settled[caller := AfterShutdown];
        return;
      }
      if connecting {
        joined := joined[caller := attempts - 1];
        waiting := waiting + {caller};
        return;
      }
      connecting := true;
      if loggingOn {
        if setup.Err? {
          connected, connecting := false, false;
          CloseLogging();
          settled := settled[caller := Failed(setupError)];
          return;
        }
        loggingId := Some(setup.value);
        registrations := registrations + {setup.value};
      }
      attempts := attempts + 1;
      joined := joined[caller := attempts - 1];
      waiting := waiting + {caller};
    }

    /** The outstanding session creation ends: everybody who started or joined it gets its outcome. */
    method SessionCreation(outcome: Outcome<E>)
      requires Valid() && connecting && !outcome.AfterShutdown?
      modifies this
      ensures Valid() && connected == outcome.Resolved? && !connecting && !isShuttingDown
      ensures attempts == old(attempts) && joined == old(joined) && ended == old(ended) + [outcome]
      ensures forall c :: c in joined && joined[c] == attempts - 1 ==> c in settled && settled[c] == outcome
      ensures forall c :: c in old(settled) ==> c in settled && settled[c] == old(settled)[c]
    {
      if outcome.Resolved? {
        connected, connecting := true, false;
        Settle(outcome);
      } else {
        connected, connecting := false, false;
        Settle(outcome);
        CloseLogging();
      }
    }

    /** The "connected" event: the waiting callers are settled. */
    method Settle(outcome: Outcome<E>)
      requires Served() && attempts == |ended| + 1
      modifies this`settled, this`waiting, this`ended
      ensures Served() && ended == old(ended) + [outcome] && waiting == {}
      ensures forall c :: c in old(settled) ==> c in settled && settled[c] == old(settled)[c]
      ensures forall c :: c in joined && joined[c] == attempts - 1 ==> c in settled && settled[c] == outcome
    {
      settled := map c | c in settled.Keys + waiting :: if c in waiting then outcome else settled[c];
      waiting := {};
      ended := ended + [outcome];
    }

    /** shutdown does nothing unless the client is connected, also while it is connecting; afterwards the client never
        connects again. */
    method Shutdown()
      requires Valid()
      modifies this
      ensures Valid() && attempts == old(attempts) && joined == old(joined) && settled == old(settled)
      ensures connecting == old(connecting)
      ensures isShuttingDown == (old(isShuttingDown) || old(connected)) && !connected
    {
      if !connected {
        return;
      }
      // The branch of the source that waits for a running connect is never taken.
      assert !connecting;
      connected := false;
      isShuttingDown := true;
      CloseLogging();
    }
  }

  datatype Event<E> = ConnectCall(caller: nat, setup: Result<nat>,
                                  setupError: E) | SessionEnds(outcome: Outcome<E>) | ShutdownCall

  /** Every run: calls and session outcomes in any order. The invariant holds throughout, a settled call keeps its
      outcome, and after a shutdown took effect the client is never connected or connecting again. */
  method Drive<E(!new)>(client: Client<E>, events: seq<Event<E>>)
    requires client.Valid()
    modifies client
    ensures client.Valid()
    ensures old(client.isShuttingDown) ==> client.isShuttingDown && !client.connected && !client.connecting
    ensures forall c :: c in old(client.settled) ==> c in client.settled && client.settled[c] == old(client.settled)[c]
  {
    for k := 0 to |events|
      invariant client.Valid()
      invariant old(client.isShuttingDown) ==> client.isShuttingDown
      invariant forall c :: c in old(client.settled) ==>
        c in client.settled && client.settled[c] == old(client.settled)[c]
    {
      match events[k] {
        case ConnectCall(caller, setup, setupError) =>
          if caller !in client.settled && caller !in client.waiting {
            client.Connect(caller, setup, setupError);
          }
        case SessionEnds(outcome) =>
          if client.connecting && !outcome.AfterShutdown? {
            client.SessionCreation(outcome);
          }
        case ShutdownCall => client.Shutdown();
      }
    }
  }
}
