/** The server's chat socket: the registry of open connections and the
    receive-reply loop run for each connection.

    A socket is an abstract id. Each thing the loop can receive is an Event:
    a frame (a JSON object, some other JSON value, or text that is not JSON)
    together with what the document search and the answer generator return
    for it, or the client going away, or some other failure of the receive.
    The search and the generator are collaborators whose outcome, a result or
    an exception message, arrives with the event. React says what the loop
    does with one event: which collaborators it calls, the one envelope it
    sends back, and whether the handler ends. */
module Server {

  import opened Common

  type SocketId = nat

  // ---------------------------------------------------------------------
  // The connection registry

  /** The position of the first occurrence of x in s. */
  function IndexOf(s: seq<SocketId>, x: SocketId): (i: nat)
    requires x in s
    ensures i < |s| && s[i] == x
    ensures forall j :: 0 <= j < i ==> s[j] != x
  {
    if s[0] == x then 0 else 1 + IndexOf(s[1..], x)
  }

  /** list.remove(x) when x is present; the list as it was otherwise. */
  function RemoveFirst(s: seq<SocketId>, x: SocketId): seq<SocketId>
  {
    if x in s then s[..IndexOf(s, x)] + s[IndexOf(s, x) + 1..] else s
  }

  /** Removing takes away exactly one occurrence when there is one. */
  lemma RemoveFirstCount(s: seq<SocketId>, x: SocketId)
    ensures x in s ==> multiset(RemoveFirst(s, x)) == multiset(s) - multiset{x}
    ensures x in s ==> |RemoveFirst(s, x)| == |s| - 1
    ensures x !in s ==> RemoveFirst(s, x) == s
  {
    if x in s {
      var i := IndexOf(s, x);
      assert s == s[..i] + [x] + s[i + 1..];
      assert multiset(s) == multiset(s[..i]) + multiset{x} + multiset(s[i + 1..]);
    }
  }

  /** A socket that was not registered before it connected is gone again
      after it disconnects: connect and disconnect undo each other. */
  lemma ConnectDisconnectRoundTrip(s: seq<SocketId>, ws: SocketId)
    requires ws !in s
    ensures RemoveFirst(s + [ws], ws) == s
  {
    var t := s + [ws];
    assert forall j :: 0 <= j < |s| ==> t[j] == s[j];
    assert IndexOf(t, ws) == |s|;
    assert t[..|s|] == s;
  }

  class ConnectionManager {
    var activeConnections: seq<SocketId>

    constructor ()
      ensures activeConnections == []
    {
      activeConnections := [];
    }

    /** connect(websocket): accept, then register at the end. */
    method Connect(ws: SocketId)
      modifies this
      ensures activeConnections == old(activeConnections) + [ws]
    {
      activeConnections := activeConnections + [ws];
    }

    /** disconnect(websocket): list.remove, which raises ValueError (and
        changes nothing) when the socket is not registered. */
    method Disconnect(ws: SocketId) returns (raised: bool)
      modifies this
      ensures raised <==> ws !in old(activeConnections)
      ensures activeConnections == RemoveFirst(old(activeConnections), ws)
    {
      raised := ws !in activeConnections;
      activeConnections := RemoveFirst(activeConnections, ws);
    }
  }

  // ---------------------------------------------------------------------
  // One step of the loop

  /** What receive_text and json.loads produced: a JSON object, some other
      JSON value (known by its Python type name), or text that is not JSON. */
  datatype Frame = Object(fields: Record) | NonObject(typeName: string) | Malformed

  /** How the document search can fail: json.loads on a stored list column
      raises JSONDecodeError, or some other exception with its str(). */
  datatype SearchFailure = StoredJsonInvalid | SearchRaised(detail: string)

  datatype Event =
    | Received(frame: Frame, found: Result<seq<Record>, SearchFailure>, generated: Result<string, string>)
    | ClientGone
    | ReceiveFailed(detail: string)

  /** A call the loop makes on a collaborator. */
  datatype Call = Search(query: Value, limit: nat) | Generate(question: Value, docs: seq<Record>)

  /** An envelope sent back: {"type": "answer", ...} or {"type": "error", ...}. */
  datatype Outbound = Answer(content: string, sources: seq<Value>) | Error(content: string)

  /** Why the handler stopped: WebSocketDisconnect, JSONDecodeError, or any
      other exception. */
  datatype Ending = Disconnected | BadJson | Crashed

  datatype Reaction = Reaction(calls: seq<Call>, reply: Option<Outbound>, ending: Option<Ending>)

  const QuestionType: string := "question"
  const SearchLimit: nat := 3
  const UntitledSource: string := "제목 없음"
  const GenerationFailed: string := "응답 생성 중 오류가 발생했습니다: "
  const UnsupportedType: string := "지원하지 않는 메시지 타입입니다."
  const InvalidJson: string := "잘못된 JSON 형식입니다."
  const Failed: string := "오류가 발생했습니다: "

  /** [doc.get("title", "제목 없음") for doc in relevant_docs] */
  function Titles(docs: seq<Record>): (r: seq<Value>)
    ensures |r| == |docs|
    ensures forall i :: 0 <= i < |docs| ==> r[i] == Get(docs[i], "title", Str(UntitledSource))
  {
    if docs == [] then [] else [Get(docs[0], "title", Str(UntitledSource))] + Titles(docs[1..])
  }

  /** The message of the AttributeError that message_data.get raises when
      the frame is JSON but not an object. */
  function NoGet(typeName: string): string
  {
    "'" + typeName + "' object has no attribute 'get'"
  }

  /** One pass of the while-loop body, with the exception handlers around it. */
  function React(ev: Event): Reaction
  {
    match ev
    case ClientGone => Reaction([], None, Some(Disconnected))
    case ReceiveFailed(detail) => Reaction([], Some(Error(Failed + detail)), Some(Crashed))
    case Received(frame, found, generated) =>
      match frame
      case Malformed => Reaction([], Some(Error(InvalidJson)), Some(BadJson))
      case NonObject(typeName) => Reaction([], Some(Error(Failed + NoGet(typeName))), Some(Crashed))
      case Object(fields) =>
        if Get(fields, "type", Null) == Str(QuestionType) then
          var question := Get(fields, "content", Str(""));
          match found
          case Failure(StoredJsonInvalid) =>
            // the search runs outside the inner try: the outer handlers end the loop
            Reaction([Search(question, SearchLimit)], Some(Error(InvalidJson)), Some(BadJson))
          case Failure(SearchRaised(detail)) =>
            Reaction([Search(question, SearchLimit)], Some(Error(Failed + detail)), Some(Crashed))
          case Success(docs) =>
            var calls := [Search(question, SearchLimit), Generate(question, docs)];
            match generated
            case Success(answer) => Reaction(calls, Some(Answer(answer, Titles(docs))), None)
            case Failure(detail) => Reaction(calls, Some(Error(GenerationFailed + detail)), None)
        else
          Reaction([], Some(Error(UnsupportedType)), None)
  }

  /** Every event but the client going away draws exactly one reply; only an
      exception ends the loop. */
  lemma OneReplyPerEvent(ev: Event)
    ensures React(ev).reply.None? <==> ev.ClientGone?
    ensures React(ev).ending.None? <==>
              (ev.Received? && ev.frame.Object? &&
               (Get(ev.frame.fields, "type", Null) != Str(QuestionType) || ev.found.Success?))
  {
  }

  /** A question is searched with limit 3 (its content, "" when missing) and
      answered with the generator's text and the found titles in order. */
  lemma QuestionAnswered(fields: Record, docs: seq<Record>, answer: string)
    requires Get(fields, "type", Null) == Str(QuestionType)
    ensures var r := React(Received(Object(fields), Success(docs), Success(answer)));
            var q := if "content" in fields then fields["content"] else Str("");
            r.calls == [Search(q, 3), Generate(q, docs)] &&
            r.reply == Some(Answer(answer, Titles(docs))) && r.ending == None
  {
  }

  /** A generator failure is reported and the loop goes on. */
  lemma GenerationFailureReported(fields: Record, docs: seq<Record>, detail: string)
    requires Get(fields, "type", Null) == Str(QuestionType)
    ensures var r := React(Received(Object(fields), Success(docs), Failure(detail)));
            r.reply == Some(Error("응답 생성 중 오류가 발생했습니다: " + detail)) && r.ending == None
  {
  }

  /** A failed search ends the loop from the outer handlers: a stored list
      column that is not JSON is reported as invalid JSON, any other
      exception with the generic prefix. The generator is never called. */
  lemma SearchFailureEndsLoop(fields: Record, failure: SearchFailure, generated: Result<string, string>)
    requires Get(fields, "type", Null) == Str(QuestionType)
    ensures var r := React(Received(Object(fields), Failure(failure), generated));
            r.calls == [Search(Get(fields, "content", Str("")), 3)] &&
            (failure.StoredJsonInvalid? ==> r.reply == Some(Error("잘못된 JSON 형식입니다.")) && r.ending == Some(BadJson)) &&
            (failure.SearchRaised? ==>
               r.reply == Some(Error("오류가 발생했습니다: " + failure.detail)) && r.ending == Some(Crashed))
  {
  }

  /** Anything but a question, including the {"type": "message", ...}
      envelope the browser client sends, is refused without calling any
      collaborator, and the loop goes on. */
  lemma OtherTypesRefused(fields: Record, found: Result<seq<Record>, SearchFailure>, generated: Result<string, string>)
    requires Get(fields, "type", Null) != Str(QuestionType)
    ensures React(Received(Object(fields), found, generated)) ==
            Reaction([], Some(Error("지원하지 않는 메시지 타입입니다.")), None)
  {
  }

  // ---------------------------------------------------------------------
  // The loop

  datatype Outcome = Outcome(replies: seq<Outbound>, calls: seq<Call>, ending: Option<Ending>, consumed: nat)

  function Replies(r: Reaction): seq<Outbound>
  {
    if r.reply.Some? then [r.reply.value] else []
  }

  /** The events read one after another until one ends the handler; a
      handler whose events run out is still waiting (ending None). */
  function Run(events: seq<Event>): Outcome
  {
    if events == [] then Outcome([], [], None, 0)
    else
      var r := React(events[0]);
      if r.ending.Some? then Outcome(Replies(r), r.calls, r.ending, 1)
      else
        var rest := Run(events[1..]);
        Outcome(Replies(r) + rest.replies, r.calls + rest.calls, rest.ending, 1 + rest.consumed)
  }

  /** The loop reads events up to the one that ends it and answers each of
      them once, except a client that goes away. */
  lemma {:induction false} RunAnswersEachEvent(events: seq<Event>)
    ensures Run(events).consumed <= |events|
    ensures Run(events).ending.None? ==> Run(events).consumed == |events|
    ensures Run(events).ending.Some? ==>
              (Run(events).consumed >= 1 &&
               React(events[Run(events).consumed - 1]).ending == Run(events).ending)
    ensures |Run(events).replies| ==
              Run(events).consumed - (if Run(events).ending == Some(Disconnected) then 1 else 0)
  {
    if events != [] && React(events[0]).ending.None? {
      RunAnswersEachEvent(events[1..]);
      var k := Run(events[1..]).consumed;
      if k >= 1 {
        assert events[1..][k - 1] == events[k];
      }
      OneReplyPerEvent(events[0]);
    } else if events != [] {
      OneReplyPerEvent(events[0]);
    }
  }

  /** websocket_endpoint(websocket): register the socket, then receive and
      answer until an exception ends the handler. Only a client that went
      away is taken out of the registry; after the other endings the socket
      stays registered. */
  method Serve(manager: ConnectionManager, ws: SocketId, events: seq<Event>)
      returns (replies: seq<Outbound>, calls: seq<Call>, ending: Option<Ending>)
    modifies manager
    ensures replies == Run(events).replies && calls == Run(events).calls && ending == Run(events).ending
    ensures ending == Some(Disconnected) ==>
              manager.activeConnections == RemoveFirst(old(manager.activeConnections) + [ws], ws)
    ensures ending == Some(Disconnected) && ws !in old(manager.activeConnections) ==>
              manager.activeConnections == old(manager.activeConnections)
    ensures ending != Some(Disconnected) ==> manager.activeConnections == old(manager.activeConnections) + [ws]
  {
    manager.Connect(ws);
    ghost var registered := manager.activeConnections;
    replies, calls, ending := [], [], None;
    var i := 0;
    while i < |events| && ending.None?
      invariant 0 <= i <= |events|
      invariant manager.activeConnections == registered
      invariant ending.None? ==> replies + Run(events[i..]).replies == Run(events).replies
      invariant ending.None? ==> calls + Run(events[i..]).calls == Run(events).calls
      invariant ending.None? ==> Run(events[i..]).ending == Run(events).ending
      invariant ending.Some? ==> replies == Run(events).replies && calls == Run(events).calls
      invariant ending.Some? ==> ending == Run(events).ending
      decreases |events| - i, if ending.None? then 1 else 0
    {
      var r := React(events[i]);
      RunStep(events, i, replies, calls);
      replies := replies + Replies(r);
      calls := calls + r.calls;
      ending := r.ending;
      i := i + 1;
    }
    if ending == Some(Disconnected) {
      var raised := manager.Disconnect(ws);
      if ws !in old(manager.activeConnections) {
        ConnectDisconnectRoundTrip(old(manager.activeConnections), ws);
      }
    }
  }

  /** One turn of the loop in terms of Run. */
  lemma RunStep(events: seq<Event>, i: nat, replies: seq<Outbound>, calls: seq<Call>)
    requires i < |events|
    ensures var r := React(events[i]);
            var now := Run(events[i..]);
            var next := Run(events[i + 1..]);
            now.ending == (if r.ending.Some? then r.ending else next.ending) &&
            replies + now.replies == (if r.ending.Some? then replies + Replies(r) else replies + Replies(r) + next.replies) &&
            calls + now.calls == (if r.ending.Some? then calls + r.calls else calls + r.calls + next.calls)
  {
    assert events[i..][0] == events[i];
    assert events[i..][1..] == events[i + 1..];
  }
}
