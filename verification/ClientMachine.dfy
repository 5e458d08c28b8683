/** The pending-request table of the MCP test client, as a machine over its callbacks: every
    stretch between two awaits is one event. */
module ClientMachine {
  import opened Wrappers

  datatype Reason = TIMED_OUT | PEER_ERROR(message: string) | TRANSPORT_ERROR | CONNECTION_CLOSED
      | CLIENT_DISCONNECTED | SEND_FAILED
  /** How a promise was settled; only the first settlement of a promise counts. */
  datatype Outcome = Resolved(result: string) | Rejected(reason: Reason)

  /** `closing` counts the disconnects awaiting the transport; `thrown` is history: the
      requests whose `send` threw. */
  datatype State = State(nextId: nat, pending: set<nat>, timers: set<nat>, connected: bool, transport: bool,
                         closing: nat, outcomes: map<nat, Outcome>, thrown: set<nat>)

  const START := State(1, {}, {}, false, false, 0, map[], {})

  datatype Event =
    | Attach                                     // connect, before its first await
    | Initialize(throws: bool)                   // connect sends its first request
    | Establish                                  // connect after the handshake
    | CallTool(throws: bool)
    | Message(id: Option<int>, error: Option<string>, result: string)
    | Timeout(timer: nat)
    | TransportFails
    | Closed
    | BeginDisconnect
    | EndDisconnect

  function Settle(s: State, id: nat, outcome: Outcome): State {
    if id in s.outcomes then s else s.(outcomes := s.outcomes[id := outcome])
  }

  function RejectIds(s: State, ids: set<nat>, reason: Reason): State {
    s.(timers := s.timers - ids,
       outcomes := s.outcomes + map id | id in ids && id !in s.outcomes :: Rejected(reason))
  }

  function RejectPending(s: State, reason: Reason): State {
    RejectIds(s, s.pending, reason).(pending := {})
  }

  lemma RejectOneMore(s: State, ids: set<nat>, id: nat, reason: Reason)
    requires id !in ids
    ensures var now, next := RejectIds(s, ids, reason), RejectIds(s, ids + {id}, reason);
      next.timers == now.timers - {id} && next.outcomes == Settle(now, id, Rejected(reason)).outcomes
  {
  }

  function Send(s: State, throws: bool): State {
    if !s.transport then s
    else
      var issued := s.(nextId := s.nextId + 1, pending := s.pending + {s.nextId}, timers := s.timers + {s.nextId});
      if throws then Settle(issued, s.nextId, Rejected(SEND_FAILED)).(thrown := s.thrown + {s.nextId}) else issued
  }

  function Release(s: State, id: nat, outcome: Outcome): State {
    Settle(s.(pending := s.pending - {id}, timers := s.timers - {id}), id, outcome)
  }

  /** An error object counts by its presence; an empty message has a default. */
  function Answered(error: Option<string>, result: string): Outcome {
    if error.None? then Resolved(result)
    else Rejected(PEER_ERROR(if error.value == "" then "Unknown error" else error.value))
  }

  predicate Awaited(s: State, id: Option<int>) {
    id.Some? && id.value >= 0 && id.value in s.pending
  }

  function Step(s: State, e: Event): State {
    match e
    case Attach => if s.connected then s else s.(transport := true)
    case Initialize(throws) => Send(s, throws)
    case Establish => if s.transport then s.(connected := true) else s
    case CallTool(throws) => if s.connected && s.transport then Send(s, throws) else s
    case Message(id, error, result) => if Awaited(s, id) then Release(s, id.value, Answered(error, result)) else s
    case Timeout(timer) => if timer in s.timers then Release(s, timer, Rejected(TIMED_OUT)) else s
    case TransportFails => RejectPending(s, TRANSPORT_ERROR)
    case Closed => RejectPending(s, CONNECTION_CLOSED).(connected := false)
    case BeginDisconnect =>
      if s.connected && s.transport then RejectPending(s, CLIENT_DISCONNECTED).(closing := s.closing + 1) else s
    case EndDisconnect =>
      if s.closing == 0 then s else s.(transport := false, connected := false, closing := s.closing - 1)
  }

  function Run(s: State, es: seq<Event>): State {
    if es == [] then s else Step(Run(s, es[..|es| - 1]), es[|es| - 1])
  }

  // ----- the invariant

  ghost predicate Inv(s: State) {
    && s.nextId > 0
    && s.timers == s.pending
    && (forall id: nat :: 0 < id < s.nextId <==> id in s.pending || id in s.outcomes)
    && (forall id :: id in s.thrown <==> id in s.outcomes && s.outcomes[id] == Rejected(SEND_FAILED))
    && (forall id :: id in s.pending && id in s.outcomes ==> id in s.thrown)
  }

  lemma RejectKeepsInv(s: State, reason: Reason)
    requires Inv(s) && reason != SEND_FAILED
    ensures Inv(RejectPending(s, reason))
  {
  }

  lemma StepKeepsInv(s: State, e: Event)
    requires Inv(s)
    ensures Inv(Step(s, e))
  {
  }

  lemma {:induction false} InvOverRuns(es: seq<Event>)
    ensures Inv(Run(START, es))
  {
    if es != [] {
      InvOverRuns(es[..|es| - 1]);
      StepKeepsInv(Run(START, es[..|es| - 1]), es[|es| - 1]);
    }
  }

  /** In every reachable state an issued request is either pending, with a live timer, or
      settled, and not both unless its `send` threw. */
  lemma PendingOrSettled(es: seq<Event>, id: nat)
    ensures var s := Run(START, es);
      && (0 < id < s.nextId <==> id in s.pending || id in s.outcomes)
      && (id in s.pending <==> id in s.timers)
      && (id in s.pending && id in s.outcomes ==> id in s.thrown)
      && (id in s.thrown ==> id in s.outcomes && s.outcomes[id] == Rejected(SEND_FAILED))
  {
    InvOverRuns(es);
  }

  // ----- settled for good

  lemma StepSettlesForGood(s: State, e: Event, id: nat)
    requires Inv(s)
    ensures s.nextId <= Step(s, e).nextId
    ensures id in s.outcomes ==> id in Step(s, e).outcomes && Step(s, e).outcomes[id] == s.outcomes[id]
    ensures id < s.nextId && id !in s.pending ==> id !in Step(s, e).pending
  {
  }

  lemma {:induction false} RunKeepsInv(s: State, es: seq<Event>)
    requires Inv(s)
    ensures Inv(Run(s, es))
  {
    if es != [] {
      RunKeepsInv(s, es[..|es| - 1]);
      StepKeepsInv(Run(s, es[..|es| - 1]), es[|es| - 1]);
    }
  }

  /** A settlement is never changed, and a released request is never pending again. */
  lemma {:induction false} SettledForGood(s: State, es: seq<Event>, id: nat)
    requires Inv(s)
    ensures s.nextId <= Run(s, es).nextId
    ensures id in s.outcomes ==> id in Run(s, es).outcomes && Run(s, es).outcomes[id] == s.outcomes[id]
    ensures id < s.nextId && id !in s.pending ==> id !in Run(s, es).pending
  {
    if es != [] {
      SettledForGood(s, es[..|es| - 1], id);
      RunKeepsInv(s, es[..|es| - 1]);
      StepSettlesForGood(Run(s, es[..|es| - 1]), es[|es| - 1], id);
    }
  }

  // ----- replies and other ends

  /** What the caller of a request is told by a reply: the result, or the peer's message, for
      which an empty one has a default. */
  predicate Says(error: Option<string>, result: string, outcome: Outcome) {
    match outcome
    case Resolved(told) => error == None && told == result
    case Rejected(PEER_ERROR(message)) =>
      error.Some? && ((error.value != "" && message == error.value)
                      || (error.value == "" && message == "Unknown error"))
    case Rejected(_) => false
  }

  /** A reply settles the request with its id and no other: with the result exactly when it
      carries no error, and else with the error's message. A request whose `send` threw keeps
      that failure. */
  lemma ReplyReachesItsRequest(s: State, id: nat, error: Option<string>, result: string, other: nat)
    requires Inv(s)
    ensures var next := Step(s, Message(Some(id), error, result));
      && (id in s.pending ==> id !in next.pending && id in next.outcomes)
      && (id in s.pending && id !in s.thrown ==>
            && (next.outcomes[id] == Resolved(result) <==> error == None)
            && (forall message :: error == Some(message) && message != "" ==>
                  next.outcomes[id] == Rejected(PEER_ERROR(message)))
            && (error == Some("") ==> next.outcomes[id] == Rejected(PEER_ERROR("Unknown error"))))
      && (id in s.pending && id in s.thrown ==> next.outcomes[id] == Rejected(SEND_FAILED))
      && (id !in s.pending ==> next == s)
      && (other != id ==>
            && (other in next.pending <==> other in s.pending) && (other in next.outcomes <==> other in s.outcomes)
            && (other in s.outcomes ==> next.outcomes[other] == s.outcomes[other]))
  {
  }

  /** A message without a number for an id is for nobody. */
  lemma OtherMessagesAreIgnored(s: State, id: Option<int>, error: Option<string>, result: string)
    requires id == None || id.value < 0
    ensures Step(s, Message(id, error, result)) == s
  {
  }

  /** The event that ends request `id` this way: its own reply, its timer, the failure or the end
      of the connection, or a `send` that throws as the request is issued. */
  predicate Causes(s: State, e: Event, id: nat, outcome: Outcome) {
    match outcome
    case Resolved(_) => id in s.pending && e.Message? && e.id == Some(id) && Says(e.error, e.result, outcome)
    case Rejected(PEER_ERROR(_)) =>
      id in s.pending && e.Message? && e.id == Some(id) && Says(e.error, e.result, outcome)
    case Rejected(TIMED_OUT) => id in s.pending && e == Timeout(id)
    case Rejected(TRANSPORT_ERROR) => id in s.pending && e == TransportFails
    case Rejected(CONNECTION_CLOSED) => id in s.pending && e == Closed
    case Rejected(CLIENT_DISCONNECTED) => id in s.pending && e == BeginDisconnect && s.connected && s.transport
    case Rejected(SEND_FAILED) =>
      id == s.nextId && s.transport && (e == Initialize(true) || (e == CallTool(true) && s.connected))
  }

  /** An open request ends in an event, and in this way, exactly when the event is the cause. */
  lemma SettledExactly(s: State, e: Event, id: nat, outcome: Outcome)
    requires Inv(s) && id !in s.outcomes
    ensures id in Step(s, e).outcomes && Step(s, e).outcomes[id] == outcome <==> Causes(s, e, id, outcome)
  {
    match e
    case Initialize(_) =>
    case CallTool(_) =>
    case Message(_, _, _) =>
    case Timeout(_) =>
    case _ =>
  }

  ghost predicate CausedAt(es: seq<Event>, id: nat, outcome: Outcome, k: nat) {
    k < |es| && Causes(Run(START, es[..k]), es[k], id, outcome)
  }

  /** Whatever a caller is told was caused by an event of the run: a result or a peer error by a
      message with the id of its own request, while that request was pending. */
  lemma {:induction false} OutcomeHasItsCause(es: seq<Event>, id: nat) returns (k: nat)
    requires id in Run(START, es).outcomes
    ensures CausedAt(es, id, Run(START, es).outcomes[id], k)
  {
    var init, last := es[..|es| - 1], es[|es| - 1];
    InvOverRuns(init);
    StepSettlesForGood(Run(START, init), last, id);
    if id in Run(START, init).outcomes {
      k := OutcomeHasItsCause(init, id);
      assert es[k] == init[k] && es[..k] == init[..k];
    } else {
      k := |es| - 1;
      SettledExactly(Run(START, init), last, id, Run(START, es).outcomes[id]);
    }
  }

  /** Every result and every peer error a caller sees came in a message with the id of its own
      request, while that request was pending, and is what that message says. */
  lemma OutcomeCameFromItsReply(es: seq<Event>, id: nat) returns (k: nat)
    requires id in Run(START, es).outcomes
    requires var o := Run(START, es).outcomes[id]; o.Resolved? || o.reason.PEER_ERROR?
    ensures k < |es| && id in Run(START, es[..k]).pending
    ensures es[k].Message? && es[k].id == Some(id)
    ensures var o := Run(START, es).outcomes[id];
      && (o.Resolved? <==> es[k].error == None)
      && (o.Resolved? ==> es[k].result == o.result)
      && (o.Rejected? ==> es[k].error == Some(o.reason.message)
                          || (es[k].error == Some("") && o.reason.message == "Unknown error"))
  {
    k := OutcomeHasItsCause(es, id);
  }

  // ----- who may send, and when the client is connected

  /** A request is issued, under the next number and pending from then on, exactly by a send over
      a transport, which a tool call needs the connection for. */
  lemma IssuedExactly(s: State, e: Event)
    requires Inv(s)
    ensures var sends := s.transport && (e.Initialize? || (e.CallTool? && s.connected));
      && Step(s, e).nextId == s.nextId + (if sends then 1 else 0)
      && (sends ==> Step(s, e).pending == s.pending + {s.nextId})
      && (!sends ==> Step(s, e).pending <= s.pending)
  {
  }

  /** The client is connected from the end of the handshake to the close of the connection or
      the end of a disconnect; it has a transport from the start of `connect` to the latter. */
  lemma ConnectedExactly(s: State, e: Event)
    ensures Step(s, e).connected <==>
      || (e == Establish && s.transport)
      || (s.connected && e != Closed && !(e == EndDisconnect && s.closing > 0))
    ensures Step(s, e).transport <==>
      || (e == Attach && !s.connected)
      || (s.transport && !(e == EndDisconnect && s.closing > 0))
    ensures Step(s, e).closing - s.closing ==
              if e == BeginDisconnect && s.connected && s.transport then 1
              else if e == EndDisconnect && s.closing > 0 then -1 else 0
  {
  }

  // ----- nothing stays pending

  lemma NothingPendingAfter(s: State, e: Event)
    requires e == TransportFails || e == Closed || (e == BeginDisconnect && s.connected && s.transport)
    ensures Step(s, e).pending == {}
    ensures forall id :: id in s.pending ==> id in Step(s, e).outcomes
  {
  }

  /** A request whose timer fires is not pending afterwards, whatever else happens. */
  lemma {:induction false} TimersEndRequests(s: State, es: seq<Event>, id: nat)
    requires Inv(s) && id < s.nextId && Timeout(id) in es
    ensures id !in Run(s, es).pending
  {
    var init, last := es[..|es| - 1], es[|es| - 1];
    RunKeepsInv(s, init);
    SettledForGood(s, init, id);
    if last != Timeout(id) {
      TimersEndRequests(s, init, id);
      StepSettlesForGood(Run(s, init), last, id);
    }
  }

  // ----- a completed disconnect

  predicate Releases(s: State, e: Event, id: nat) {
    || (e.Message? && e.id == Some(id))
    || e == Timeout(id) || e == TransportFails || e == Closed
    || (e == BeginDisconnect && s.connected && s.transport)
  }

  predicate Issues(s: State, e: Event, id: nat) {
    s.nextId == id && Step(s, e).nextId == id + 1
  }

  /** Some event of the run issues `id`, and no later one releases it. */
  ghost predicate LeftOpen(s: State, es: seq<Event>, id: nat) {
    OpenAfter(IssuedBy(s, es, id), ReleasedBy(s, es, id), |es|)
  }

  function IssuedBy(s: State, es: seq<Event>, id: nat): seq<bool> {
    seq(|es|, k requires 0 <= k < |es| => Issues(Run(s, es[..k]), es[k], id))
  }

  function ReleasedBy(s: State, es: seq<Event>, id: nat): seq<bool> {
    seq(|es|, k requires 0 <= k < |es| => Releases(Run(s, es[..k]), es[k], id))
  }

  ghost predicate OpenAfter(issued: seq<bool>, released: seq<bool>, n: nat)
    requires n <= |issued| == |released|
  {
    exists k :: 0 <= k < n && issued[k] && forall j :: k < j < n ==> !released[j]
  }

  lemma OpenStep(issued: seq<bool>, released: seq<bool>, n: nat)
    requires n < |issued| == |released|
    ensures OpenAfter(issued, released, n + 1) <==> issued[n] || (OpenAfter(issued, released, n) && !released[n])
  {
    if OpenAfter(issued, released, n) && !released[n] {
      var k :| 0 <= k < n && issued[k] && forall j :: k < j < n ==> !released[j];
      assert forall j :: k < j < n + 1 ==> !released[j];
    }
  }

  lemma StepPendingExactly(s: State, e: Event, id: nat)
    requires Inv(s)
    ensures id in Step(s, e).pending <==> Issues(s, e, id) || (id in s.pending && !Releases(s, e, id))
  {
  }

  lemma PendingStep(s: State, es: seq<Event>, n: nat, id: nat)
    requires Inv(s) && n < |es|
    ensures var before := Run(s, es[..n]);
      id in Run(s, es[..n + 1]).pending <==>
        Issues(before, es[n], id) || (id in before.pending && !Releases(before, es[n], id))
  {
    assert es[..n + 1][..n] == es[..n];
    RunKeepsInv(s, es[..n]);
    StepPendingExactly(Run(s, es[..n]), es[n], id);
  }

  lemma {:induction false} PendingAfter(s: State, es: seq<Event>, n: nat, id: nat)
    requires Inv(s) && id >= s.nextId && n <= |es|
    ensures id in Run(s, es[..n]).pending <==> OpenAfter(IssuedBy(s, es, id), ReleasedBy(s, es, id), n)
  {
    if n == 0 {
      assert es[..0] == [];
    } else {
      PendingAfter(s, es, n - 1, id);
      PendingStep(s, es, n - 1, id);
      OpenStep(IssuedBy(s, es, id), ReleasedBy(s, es, id), n - 1);
    }
  }

  /** Of the requests issued in a run, those left pending are those no later event released. */
  lemma PendingExactly(s: State, es: seq<Event>, id: nat)
    requires Inv(s) && id >= s.nextId
    ensures id in Run(s, es).pending <==> LeftOpen(s, es, id)
  {
    PendingAfter(s, es, |es|, id);
    assert es[..|es|] == es;
  }

  lemma AfterWindow(window: State, es: seq<Event>, id: nat)
    requires Inv(window) && window.pending == {}
    ensures id in Run(window, es).pending <==> id >= window.nextId && LeftOpen(window, es, id)
  {
    if id >= window.nextId {
      PendingExactly(window, es, id);
    } else {
      SettledForGood(window, es, id);
    }
  }

  lemma EndKeepsPending(s: State)
    ensures Step(s, EndDisconnect).pending == s.pending
  {
  }

  /** What is pending once a disconnect has completed: the requests issued while it awaited the
      transport and not released in that time. Nothing is pending exactly when there are none. */
  lemma AfterDisconnect(s: State, es: seq<Event>, id: nat)
    requires Inv(s) && s.connected && s.transport
    ensures var window := Step(s, BeginDisconnect);
      var done := Step(Run(window, es), EndDisconnect);
      && (id in done.pending <==> id >= window.nextId && LeftOpen(window, es, id))
      && (id in s.pending ==> id !in done.pending)
  {
    var window := Step(s, BeginDisconnect);
    assert window.nextId == s.nextId;
    StepKeepsInv(s, BeginDisconnect);
    NothingPendingAfter(s, BeginDisconnect);
    AfterWindow(window, es, id);
    EndKeepsPending(Run(window, es));
  }

  predicate Sends(e: Event) {
    e.CallTool? || e.Initialize?
  }

  lemma {:induction false} QuietRun(s: State, es: seq<Event>)
    requires s.pending == {} && forall k :: 0 <= k < |es| ==> !Sends(es[k])
    ensures Run(s, es).pending == {}
  {
    if es != [] {
      QuietRun(s, es[..|es| - 1]);
    }
  }

  /** No request sent while the transport closes: nothing is pending afterwards. */
  lemma QuietDisconnect(s: State, es: seq<Event>)
    requires s.connected && s.transport && forall k :: 0 <= k < |es| ==> !Sends(es[k])
    ensures Step(Run(Step(s, BeginDisconnect), es), EndDisconnect).pending == {}
  {
    QuietRun(Step(s, BeginDisconnect), es);
  }

  /** The client's own way to a connection: attach, send `initialize`, take its reply, establish. */
  function Handshake(reply: string): seq<Event> {
    [Attach, Initialize(false), Message(Some(1), None, reply), Establish]
  }

  lemma HandshakeRun(reply: string)
    ensures Run(START, Handshake(reply))
         == State(2, {}, {}, true, true, 0, map[1 := Resolved(reply)], {})
  {
    var s1 := START.(transport := true);
    var s2 := s1.(nextId := 2, pending := {1}, timers := {1});
    var s3 := s2.(pending := {}, timers := {}, outcomes := map[1 := Resolved(reply)]);
    var es1 := [] + [Attach];
    var es2 := es1 + [Initialize(false)];
    var es3 := es2 + [Message(Some(1), None, reply)];
    RunSnoc(START, [], Attach);
    assert Run(START, es1) == s1;
    RunSnoc(START, es1, Initialize(false));
    assert Run(START, es2) == s2;
    RunSnoc(START, es2, Message(Some(1), None, reply));
    assert Run(START, es3) == s3;
    RunSnoc(START, es3, Establish);
    assert Handshake(reply) == es3 + [Establish];
  }

  /** After a full handshake, a tool call made while the transport closes is pending after the disconnect. */
  lemma DisconnectCanLeaveARequest(reply: string)
    ensures Run(START, Handshake(reply) + [BeginDisconnect, CallTool(false), EndDisconnect]).pending == {2}
  {
    HandshakeRun(reply);
    var es := Handshake(reply);
    RunSnoc(START, es, BeginDisconnect);
    RunSnoc(START, es + [BeginDisconnect], CallTool(false));
    RunSnoc(START, es + [BeginDisconnect] + [CallTool(false)], EndDisconnect);
    assert es + [BeginDisconnect, CallTool(false), EndDisconnect]
        == es + [BeginDisconnect] + [CallTool(false)] + [EndDisconnect];
  }

  lemma RunSnoc(s: State, es: seq<Event>, e: Event)
    ensures Run(s, es + [e]) == Step(Run(s, es), e)
  {
    assert (es + [e])[..|es|] == es;
  }
}
