/** The test client's methods and callbacks over its own table; `send`, timers and promises are
    the environment's, kept here as fields. */
module McpTestClient {
  import opened Wrappers
  import opened ClientMachine

  datatype PendingRequest = PendingRequest(timer: nat)

  class Client {
    var pendingRequests: map<nat, PendingRequest>
    var requestId: nat
    var isConnected: bool
    var hasTransport: bool

    /** The environment: live timers, settled promises, disconnects awaiting the transport. */
    var timers: set<nat>
    var promises: map<nat, Outcome>
    var closing: nat
    ghost var thrown: set<nat>

    ghost predicate Valid()
      reads this
    {
      && (forall id :: id in pendingRequests ==> pendingRequests[id].timer == id)
      && Inv(Now())
    }

    ghost function Now(): State
      reads this
    {
      State(requestId, pendingRequests.Keys, timers, isConnected, hasTransport, closing, promises, thrown)
    }

    constructor ()
      ensures Valid() && Now() == START
    {
      pendingRequests, requestId, isConnected, hasTransport := map[], 1, false, false;
      timers, promises, closing, thrown := {}, map[], 0, {};
    }

    /** A promise takes its first settlement and ignores the rest. */
    method SettlePromise(id: nat, outcome: Outcome)
      modifies this`promises
      ensures promises == if id in old(promises) then old(promises) else old(promises)[id := outcome]
    {
      if id !in promises {
        promises := promises[id := outcome];
      }
    }

    method Connect()
      requires Valid()
      modifies this
      ensures Valid() && Now() == Step(old(Now()), Attach)
    {
      if !isConnected {
        hasTransport := true;
      }
    }

    method FinishConnect()
      requires Valid()
      modifies this
      ensures Valid() && Now() == Step(old(Now()), Establish)
    {
      if hasTransport {
        isConnected := true;
      }
    }

    method SendRequest(throws: bool)
      requires Valid()
      modifies this
      ensures Valid() && Now() == Step(old(Now()), Initialize(throws))
    {
      ghost var s := Now();
      if hasTransport {
        var id := requestId;
        requestId := requestId + 1;
        timers := timers + {id};
        pendingRequests := pendingRequests[id := PendingRequest(id)];
        if throws {
          SettlePromise(id, Rejected(SEND_FAILED));
          thrown := thrown + {id};
        }
      }
      StepKeepsInv(s, Initialize(throws));
    }

    method CallTool(throws: bool)
      requires Valid()
      modifies this
      ensures Valid() && Now() == Step(old(Now()), Event.CallTool(throws))
    {
      if isConnected && hasTransport {
        SendRequest(throws);
      }
    }

    method HandleMessage(id: Option<int>, error: Option<string>, result: string)
      requires Valid()
      modifies this
      ensures Valid() && Now() == Step(old(Now()), Message(id, error, result))
      ensures id.Some? && id.value in old(pendingRequests) && id.value !in old(promises) ==>
        && id.value in promises
        && (promises[id.value] == Resolved(result) <==> error == None)
        && (error.Some? && error.value != "" ==> promises[id.value] == Rejected(PEER_ERROR(error.value)))
        && (error == Some("") ==> promises[id.value] == Rejected(PEER_ERROR("Unknown error")))
      ensures forall other :: id != Some(other) ==>
        && (other in promises <==> other in old(promises))
        && (other in promises ==> promises[other] == old(promises)[other])
      ensures pendingRequests.Keys == old(pendingRequests.Keys) - (if id.Some? then {id.value} else {})
    {
      ghost var s := Now();
      if id.Some? && id.value >= 0 && id.value in pendingRequests {
        var request := pendingRequests[id.value];
        pendingRequests := pendingRequests - {id.value};
        timers := timers - {request.timer};
        SettlePromise(id.value, Answered(error, result));
      }
      StepKeepsInv(s, Message(id, error, result));
    }

    method TimerFires(timer: nat)
      requires Valid()
      modifies this
      ensures Valid() && Now() == Step(old(Now()), Timeout(timer))
      ensures timer !in pendingRequests
      ensures timer in old(pendingRequests) && timer !in old(promises) ==>
                promises == old(promises)[timer := Rejected(TIMED_OUT)]
    {
      ghost var s := Now();
      if timer in timers {
        timers := timers - {timer};
        pendingRequests := pendingRequests - {timer};
        SettlePromise(timer, Rejected(TIMED_OUT));
      }
      StepKeepsInv(s, Timeout(timer));
    }

    /** Clears every timer and rejects every request, in whatever order the table yields them. */
    method RejectEach(reason: Reason)
      requires Valid()
      modifies this`timers, this`promises
      ensures timers == RejectIds(old(Now()), pendingRequests.Keys, reason).timers
      ensures promises == RejectIds(old(Now()), pendingRequests.Keys, reason).outcomes
    {
      ghost var s := Now();
      var left := pendingRequests.Keys;
      ghost var done: set<nat> := {};
      assert RejectIds(s, {}, reason) == s;
      while left != {}
        invariant done !! left && done + left == pendingRequests.Keys
        invariant timers == RejectIds(s, done, reason).timers && promises == RejectIds(s, done, reason).outcomes
      {
        var id :| id in left;
        RejectOneMore(s, done, id, reason);
        timers := timers - {pendingRequests[id].timer};
        SettlePromise(id, Rejected(reason));
        left, done := left - {id}, done + {id};
      }
      assert done == pendingRequests.Keys;
    }

    /** The table is empty, and of its requests those still open are rejected for this reason. */
    ghost predicate AllRejected(ids: set<nat>, before: map<nat, Outcome>, reason: Reason)
      reads this
    {
      && pendingRequests == map[]
      && promises.Keys == before.Keys + ids
      && forall id :: id in promises ==> promises[id] == if id in before then before[id] else Rejected(reason)
    }

    method RejectAll(reason: Reason)
      requires Valid() && reason != SEND_FAILED
      modifies this`pendingRequests, this`timers, this`promises
      ensures Valid() && Now() == RejectPending(old(Now()), reason)
      ensures AllRejected(old(pendingRequests.Keys), old(promises), reason)
    {
      RejectKeepsInv(Now(), reason);
      RejectEach(reason);
      pendingRequests := map[];
    }

    method HandleError()
      requires Valid()
      modifies this
      ensures Valid() && Now() == Step(old(Now()), TransportFails)
      ensures AllRejected(old(pendingRequests.Keys), old(promises), TRANSPORT_ERROR)
    {
      RejectAll(TRANSPORT_ERROR);
    }

    method HandleClose()
      requires Valid()
      modifies this
      ensures Valid() && Now() == Step(old(Now()), Closed)
      ensures AllRejected(old(pendingRequests.Keys), old(promises), CONNECTION_CLOSED) && !isConnected
    {
      isConnected := false;
      RejectAll(CONNECTION_CLOSED);
    }

    /** `disconnect` up to its await of the transport; `waits` when it gets there. */
    method StartDisconnect() returns (waits: bool)
      requires Valid()
      modifies this
      ensures Valid() && Now() == Step(old(Now()), BeginDisconnect)
      ensures waits <==> old(isConnected && hasTransport)
      ensures waits ==> AllRejected(old(pendingRequests.Keys), old(promises), CLIENT_DISCONNECTED)
    {
      if !isConnected || !hasTransport {
        return false;
      }
      RejectAll(CLIENT_DISCONNECTED);
      closing := closing + 1;
      return true;
    }

    method FinishDisconnect()
      requires Valid() && closing > 0
      modifies this
      ensures Valid() && Now() == Step(old(Now()), EndDisconnect)
    {
      hasTransport, isConnected, closing := false, false, closing - 1;
    }
  }
}
