/** The session object: one class for both ends of a connection. */
module SessionClass {
  import opened Bytes
  import opened SessionSpec

  class RpcSession {
    var id: int32
    var reqCallbacks: map<int32, Pending>
    var services: Services
    const parses: RequestParser

    /** Messages given to `codec_.send_rpc_msg`, service calls started, and `done` closures run: oldest first. */
    var sent: seq<RpcMessage>
    var started: seq<Job>
    var ran: seq<DoneRun>

    ghost function View(): Session
      reads this
    {
      Session(id, reqCallbacks, services)
    }

    /** The state after a handler did what `r` says to a session that had these logs. */
    twostate predicate Did(r: Reaction)
      reads this
    {
      && View() == r.session
      && sent == old(sent) + r.sent && started == old(started) + r.started && ran == old(ran) + r.ran
    }

    /**
     What a response does to the map and to the closures: its own entry goes, every other one stays, and the
     entry's `done` runs when the response carries no error and both pointers are there.
     */
    twostate predicate Consumed(msg: RpcMessage)
      reads this
    {
      var callId := Narrow(msg.id);
      && callId !in reqCallbacks
      && (forall other :: other != callId ==>
            && (other in reqCallbacks <==> other in old(reqCallbacks))
            && (other in reqCallbacks ==> reqCallbacks[other] == old(reqCallbacks)[other]))
      && if callId in old(reqCallbacks)
            && old(reqCallbacks)[callId].hasResponse && old(reqCallbacks)[callId].hasDone && msg.error == NO_ERROR
         then ran == old(ran) + [DoneRun(old(reqCallbacks)[callId].call, msg.response)]
         else ran == old(ran)
    }

    constructor (parses: RequestParser)
      ensures View() == Session(0, map[], None) && this.parses == parses
      ensures sent == [] && started == [] && ran == []
    {
      id, reqCallbacks, services := 0, map[], None;
      this.parses := parses;
      sent, started, ran := [], [], [];
    }

    method SetServices(services: Services)
      modifies this`services
      ensures View() == old(View()).(services := services)
    {
      this.services := services;
    }

    method CallMethod(entry: Pending, service: Text, rpc: Text, request: seq<byte>)
      modifies this
      ensures Did(SessionSpec.CallMethod(old(View()), entry, service, rpc, request))
      ensures id == (if old(id) == 0x7fff_ffff then -0x8000_0000 else old(id) + 1) && services == old(services)
      ensures reqCallbacks == old(reqCallbacks)[old(id) := entry]
      ensures sent == old(sent) + [RpcMessage(REQUEST, Widen(old(id)), service, rpc, request, [], NO_ERROR)]
      ensures started == old(started) && ran == old(ran)
    {
      var rpcMsg := DefaultMessage();
      var thisId := id;
      id := ToInt32(id + 1);
      rpcMsg := rpcMsg.(id := Widen(thisId), kind := REQUEST);
      rpcMsg := rpcMsg.(service := service, rpc := rpc, request := request);
      reqCallbacks := reqCallbacks[thisId := entry];
      sent := sent + [rpcMsg];
    }

    /** Precondition: the message is not null, which the codec passes only with a checksum error. */
    method OnRpcCallback(incoming: Incoming)
      requires incoming.Received?
      modifies this
      ensures var r := SessionSpec.OnRpcCallback(old(View()), parses, incoming);
              r.Some? && Did(r.value)
      ensures id == old(id) && services == old(services)
      ensures incoming.msg.kind == REQUEST ==>
                var msg := incoming.msg;
                && reqCallbacks == old(reqCallbacks) && ran == old(ran)
                && if services.None? || msg.service !in services.value
                   then
                     && started == old(started)
                     && sent == old(sent) + [RpcMessage(RESPONSE, msg.id, [], [], [], [], NO_SERVICE)]
                   else if msg.rpc !in services.value[msg.service]
                   then
                     && started == old(started)
                     && sent == old(sent) + [RpcMessage(RESPONSE, msg.id, [], [], [], [], NO_METHOD)]
                   else if !parses(msg.service, msg.rpc, msg.request)
                   then
                     && started == old(started)
                     && sent == old(sent) + [RpcMessage(RESPONSE, msg.id, [], [], [], [], INVALID_REQUEST)]
                   else
                     && sent == old(sent)
                     && started == old(started) + [Job(Narrow(msg.id), msg.service, msg.rpc, msg.request)]
      ensures incoming.msg.kind == RESPONSE ==>
                sent == old(sent) && started == old(started) && Consumed(incoming.msg)
      ensures incoming.msg.kind == ERROR ==>
                && reqCallbacks == old(reqCallbacks)
                && sent == old(sent) && started == old(started) && ran == old(ran)
    {
      var rpcMsg := incoming.msg;
      var errorCode := NO_ERROR;
      if rpcMsg.kind == REQUEST {
        errorCode := OnRequest(rpcMsg);
      } else if rpcMsg.kind == RESPONSE {
        OnResponse(rpcMsg);
      }
      if errorCode != NO_ERROR {
        var reply := DefaultMessage();
        reply := reply.(id := rpcMsg.id);
        reply := reply.(error := errorCode);
        reply := reply.(kind := RESPONSE);
        sent := sent + [reply];
      }
    }

    method OnRequest(rpcMsg: RpcMessage) returns (errorCode: ErrorCode)
      requires rpcMsg.kind == REQUEST
      modifies this`started
      ensures errorCode == NO_SERVICE <==> services.None? || rpcMsg.service !in services.value
      ensures errorCode == NO_METHOD <==>
                && services.Some? && rpcMsg.service in services.value
                && rpcMsg.rpc !in services.value[rpcMsg.service]
      ensures errorCode == INVALID_REQUEST <==>
                && services.Some? && rpcMsg.service in services.value && rpcMsg.rpc in services.value[rpcMsg.service]
                && !parses(rpcMsg.service, rpcMsg.rpc, rpcMsg.request)
      ensures errorCode == NO_ERROR <==>
                && services.Some? && rpcMsg.service in services.value && rpcMsg.rpc in services.value[rpcMsg.service]
                && parses(rpcMsg.service, rpcMsg.rpc, rpcMsg.request)
      ensures errorCode == Dispatch(services, parses, rpcMsg.service, rpcMsg.rpc, rpcMsg.request)
      ensures started == old(started) +
                if errorCode == NO_ERROR then [Job(Narrow(rpcMsg.id), rpcMsg.service, rpcMsg.rpc, rpcMsg.request)]
                else []
    {
      if services.Some? {
        if rpcMsg.service in services.value {
          var methods := services.value[rpcMsg.service];
          if rpcMsg.rpc in methods {
            if parses(rpcMsg.service, rpcMsg.rpc, rpcMsg.request) {
              started := started + [Job(Narrow(rpcMsg.id), rpcMsg.service, rpcMsg.rpc, rpcMsg.request)];
              errorCode := NO_ERROR;
            } else {
              errorCode := INVALID_REQUEST;
            }
          } else {
            errorCode := NO_METHOD;
          }
        } else {
          errorCode := NO_SERVICE;
        }
      } else {
        errorCode := NO_SERVICE;
      }
    }

    method OnResponse(rpcMsg: RpcMessage)
      requires rpcMsg.kind == RESPONSE
      modifies this`reqCallbacks, this`ran
      ensures var r := OnMessage(old(View()), parses, rpcMsg);
              View() == r.session && ran == old(ran) + r.ran && r.sent == [] && r.started == []
      ensures Consumed(rpcMsg)
    {
      var callId := Narrow(rpcMsg.id);
      var found := None;
      if callId in reqCallbacks {
        found := Some(reqCallbacks[callId]);
        reqCallbacks := reqCallbacks - {callId};
      }
      if found.Some? && found.value.hasResponse {
        if rpcMsg.error == NO_ERROR {
          if found.value.hasDone {
            ran := ran + [DoneRun(found.value.call, rpcMsg.response)];
          }
        }
      }
    }

    method DoneCallback(result: seq<byte>, callId: int32)
      modifies this`sent
      ensures sent == old(sent) + [DoneReply(callId, result)]
      ensures var error := if result == [] then INVALID_REQUEST else NO_ERROR;
              sent == old(sent) + [RpcMessage(RESPONSE, Widen(callId), [], [], [], result, error)]
    {
      var rpcMsg := DefaultMessage().(id := Widen(callId));
      if result == [] {
        rpcMsg := rpcMsg.(kind := RESPONSE, error := INVALID_REQUEST);
      } else {
        rpcMsg := rpcMsg.(kind := RESPONSE, error := NO_ERROR);
        rpcMsg := rpcMsg.(response := result);
      }
      sent := sent + [rpcMsg];
    }
  }
}
