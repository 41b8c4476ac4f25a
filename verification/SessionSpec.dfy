/** The session as a value: what each of its handlers does with a message. */
module SessionSpec {
  import opened Bytes

  datatype Option<+T> = None | Some(value: T)

  /** `std::string`: a sequence of bytes. */
  type Text = seq<byte>

  datatype MessageType = REQUEST | RESPONSE | ERROR

  datatype ErrorCode = NO_ERROR | INVALID_REQUEST | NO_SERVICE | NO_METHOD | INVALID_CHECKSUM

  datatype RpcMessage = RpcMessage(
    kind: MessageType, id: uint64, service: Text, rpc: Text,
    request: seq<byte>, response: seq<byte>, error: ErrorCode)

  function DefaultMessage(): RpcMessage {
    RpcMessage(REQUEST, 0, [], [], [], [], NO_ERROR)
  }

  /** A `(response, done)` pair of `reqCallbacks_`: whose call it is, and which of the two pointers are not null. */
  datatype Pending = Pending(call: nat, hasResponse: bool, hasDone: bool)

  /** Service name to the names of its methods; `None` is the null pointer. */
  type Services = Option<map<Text, set<Text>>>

  datatype Session = Session(nextId: int32, pending: map<int32, Pending>, services: Services)

  /** Does the request type of a method accept these bytes? */
  type RequestParser = (Text, Text, seq<byte>) -> bool

  /** A service call under way; its `done` closure carries the id. */
  datatype Job = Job(id: int32, service: Text, rpc: Text, request: seq<byte>)

  /** `done->Run()` of a call, after its response object was filled from these bytes. */
  datatype DoneRun = DoneRun(call: nat, response: seq<byte>)

  datatype Reaction = Reaction(session: Session, sent: seq<RpcMessage>, started: seq<Job>, ran: seq<DoneRun>)

  /** What the codec calls back with: a message, or null with a checksum error. */
  datatype Incoming = NullMessage | Received(msg: RpcMessage)

  function Dispatch(services: Services, parses: RequestParser, service: Text, rpc: Text, request: seq<byte>): ErrorCode
  {
    if services.None? || service !in services.value then NO_SERVICE
    else if rpc !in services.value[service] then NO_METHOD
    else if !parses(service, rpc, request) then INVALID_REQUEST
    else NO_ERROR
  }

  /** Is there such a service, with such a method? */
  predicate Offers(services: Services, service: Text, rpc: Text) {
    services.Some? && service in services.value && rpc in services.value[service]
  }

  /** And does it take these bytes? */
  predicate Accepts(services: Services, parses: RequestParser, service: Text, rpc: Text, request: seq<byte>) {
    Offers(services, service, rpc) && parses(service, rpc, request)
  }

  /** When a request is answered with which code; `NO_ERROR` is that it is served. */
  predicate CodeFits(services: Services, parses: RequestParser, service: Text, rpc: Text, request: seq<byte>,
                     code: ErrorCode) {
    match code
    case NO_ERROR => Accepts(services, parses, service, rpc, request)
    case NO_SERVICE => services.None? || service !in services.value
    case NO_METHOD => services.Some? && service in services.value && !Offers(services, service, rpc)
    case INVALID_REQUEST => Offers(services, service, rpc) && !parses(service, rpc, request)
    case INVALID_CHECKSUM => false
  }

  /** For every request exactly one code fits, and it is the one dispatch arrives at. */
  lemma DispatchExact(services: Services, parses: RequestParser, service: Text, rpc: Text, request: seq<byte>,
                      code: ErrorCode)
    ensures CodeFits(services, parses, service, rpc, request, code) <==>
              code == Dispatch(services, parses, service, rpc, request)
    ensures Dispatch(services, parses, service, rpc, request) == NO_ERROR <==>
              && services.Some? && service in services.value && rpc in services.value[service]
              && parses(service, rpc, request)
    ensures Dispatch(services, parses, service, rpc, request) == NO_SERVICE <==>
              services.None? || service !in services.value
    ensures Dispatch(services, parses, service, rpc, request) == NO_METHOD <==>
              services.Some? && service in services.value && rpc !in services.value[service]
  {
  }

  function ErrorReply(id: uint64, error: ErrorCode): RpcMessage {
    DefaultMessage().(id := id, error := error, kind := RESPONSE)
  }

  /** `on_rpc_callback`; `None` when the handler reads the id of a null message. */
  function OnRpcCallback(s: Session, parses: RequestParser, incoming: Incoming): Option<Reaction> {
    match incoming
    case NullMessage => None
    case Received(msg) => Some(OnMessage(s, parses, msg))
  }

  function OnMessage(s: Session, parses: RequestParser, msg: RpcMessage): Reaction {
    match msg.kind
    case REQUEST =>
      var error := Dispatch(s.services, parses, msg.service, msg.rpc, msg.request);
      if error == NO_ERROR
      then Reaction(s, [], [Job(Narrow(msg.id), msg.service, msg.rpc, msg.request)], [])
      else Reaction(s, [ErrorReply(msg.id, error)], [], [])
    case RESPONSE =>
      var id := Narrow(msg.id);
      if id !in s.pending then Reaction(s, [], [], [])
      else
        var entry := s.pending[id];
        Reaction(s.(pending := s.pending - {id}), [], [],
                 if entry.hasResponse && msg.error == NO_ERROR && entry.hasDone
                 then [DoneRun(entry.call, msg.response)] else [])
    case ERROR => Reaction(s, [], [], [])
  }

  /** `done_callback`: an empty serialization is reported as an invalid request. */
  function DoneReply(id: int32, result: seq<byte>): RpcMessage {
    if result == [] then ErrorReply(Widen(id), INVALID_REQUEST)
    else DefaultMessage().(id := Widen(id), kind := RESPONSE, response := result)
  }

  function RequestMessage(id: int32, service: Text, rpc: Text, request: seq<byte>): RpcMessage {
    DefaultMessage().(id := Widen(id), service := service, rpc := rpc, request := request)
  }

  /** `CallMethod`: a fresh id (the counter wraps), an entry in the map, a request. */
  function CallMethod(s: Session, entry: Pending, service: Text, rpc: Text, request: seq<byte>): Reaction {
    Reaction(s.(nextId := ToInt32(s.nextId + 1), pending := s.pending[s.nextId := entry]),
             [RequestMessage(s.nextId, service, rpc, request)], [], [])
  }

  // ---- What the handlers do, message by message ----

  /** The one message each of these is, field by field. */
  lemma MessageFields(id: int32, wide: uint64, service: Text, rpc: Text, request: seq<byte>, result: seq<byte>,
                      error: ErrorCode)
    ensures RequestMessage(id, service, rpc, request) ==
            RpcMessage(REQUEST, Widen(id), service, rpc, request, [], NO_ERROR)
    ensures ErrorReply(wide, error) == RpcMessage(RESPONSE, wide, [], [], [], [], error)
    ensures DoneReply(id, result) ==
            RpcMessage(RESPONSE, Widen(id), [], [], [], result, if result == [] then INVALID_REQUEST else NO_ERROR)
  {
  }

  /** A request changes nothing in the session: it starts one service call, or sends one reply that says why not. */
  lemma RequestHandled(s: Session, parses: RequestParser, msg: RpcMessage)
    requires msg.kind == REQUEST
    ensures var r := OnMessage(s, parses, msg);
            && r.session == s && r.ran == []
            && if Accepts(s.services, parses, msg.service, msg.rpc, msg.request)
               then r.sent == [] && r.started == [Job(Narrow(msg.id), msg.service, msg.rpc, msg.request)]
               else
                 && r.started == [] && |r.sent| == 1
                 && r.sent[0] == RpcMessage(RESPONSE, msg.id, [], [], [], [], r.sent[0].error)
                 && CodeFits(s.services, parses, msg.service, msg.rpc, msg.request, r.sent[0].error)
  {
  }

  /**
   A response takes its own entry out of the map and touches no other; it runs the entry's `done`
   exactly when it carries no error and both pointers are there. With no such entry it changes nothing.
   */
  lemma ResponseHandled(s: Session, parses: RequestParser, msg: RpcMessage, other: int32)
    requires msg.kind == RESPONSE
    ensures var r, id := OnMessage(s, parses, msg), Narrow(msg.id);
            && r.sent == [] && r.started == []
            && r.session.nextId == s.nextId && r.session.services == s.services
            && id !in r.session.pending
            && (other != id ==>
                  && (other in r.session.pending <==> other in s.pending)
                  && (other in s.pending ==> r.session.pending[other] == s.pending[other]))
            && (id !in s.pending ==> r.session == s && r.ran == [])
            && (id in s.pending ==>
                  var entry := s.pending[id];
                  r.ran == if entry.hasResponse && entry.hasDone && msg.error == NO_ERROR
                           then [DoneRun(entry.call, msg.response)] else [])
  {
  }

  /** A message of the third kind changes nothing at all. */
  lemma ErrorIgnored(s: Session, parses: RequestParser, msg: RpcMessage)
    requires msg.kind == ERROR
    ensures OnMessage(s, parses, msg) == Reaction(s, [], [], [])
  {
  }

  /** A call uses the next id, the least one after the greatest, and adds one entry and one request. */
  lemma CallHandled(s: Session, entry: Pending, service: Text, rpc: Text, request: seq<byte>, other: int32)
    ensures var r := CallMethod(s, entry, service, rpc, request);
            && r.sent == [RpcMessage(REQUEST, Widen(s.nextId), service, rpc, request, [], NO_ERROR)]
            && r.started == [] && r.ran == [] && r.session.services == s.services
            && r.session.nextId == (if s.nextId == 0x7fff_ffff then -0x8000_0000 else s.nextId + 1)
            && s.nextId in r.session.pending && r.session.pending[s.nextId] == entry
            && (other != s.nextId ==>
                  && (other in r.session.pending <==> other in s.pending)
                  && (other in s.pending ==> r.session.pending[other] == s.pending[other]))
  {
  }
}
