/** The session on top of the codec: what it does with a byte stream. */
module Stack {
  import opened Bytes
  import opened SessionSpec
  import Framing
  import Pool
  import Wire
  import EndToEnd
  import MessageCodec

  type Parser = seq<byte> -> RpcMessage

  /** What `rpcCallback_` is called with. */
  function Decoded(parse: Parser, e: Framing.Event): Incoming {
    match e
    case Message(body) => Received(parse(body))
    case ChecksumError => NullMessage
  }

  function Then(r: Reaction, q: Reaction): Reaction {
    Reaction(q.session, r.sent + q.sent, r.started + q.started, r.ran + q.ran)
  }

  /** The session handling the codec's callbacks in order; `None` as soon as it reads a null message. */
  function HandleAll(s: Session, accepts: RequestParser, parse: Parser, events: seq<Framing.Event>): Option<Reaction>
    decreases |events|
  {
    if events == [] then Some(Reaction(s, [], [], []))
    else
      match OnRpcCallback(s, accepts, Decoded(parse, events[0]))
      case None => None
      case Some(r) =>
        match HandleAll(r.session, accepts, parse, events[1..])
        case None => None
        case Some(q) => Some(Then(r, q))
  }

  /** The session handling messages, with no codec in between. */
  function OnMessages(s: Session, accepts: RequestParser, msgs: seq<RpcMessage>): Reaction
    decreases |msgs|
  {
    if msgs == [] then Reaction(s, [], [], [])
    else
      var r := OnMessage(s, accepts, msgs[0]);
      Then(r, OnMessages(r.session, accepts, msgs[1..]))
  }

  /** Handling messages one after the other: each meets the session the ones before it left, and all logs add up. */
  lemma {:induction false} OnMessagesMore(s: Session, accepts: RequestParser, msgs: seq<RpcMessage>, last: RpcMessage)
    ensures OnMessages(s, accepts, []) == Reaction(s, [], [], [])
    ensures var r := OnMessages(s, accepts, msgs);
            var q := OnMessage(r.session, accepts, last);
            OnMessages(s, accepts, msgs + [last]) ==
            Reaction(q.session, r.sent + q.sent, r.started + q.started, r.ran + q.ran)
    decreases |msgs|
  {
    hide OnMessage;
    if msgs == [] {
      assert [last][1..] == [];
      assert [] + [last] == [last];
    } else {
      assert (msgs + [last])[1..] == msgs[1..] + [last];
      OnMessagesMore(OnMessage(s, accepts, msgs[0]).session, accepts, msgs[1..], last);
    }
  }

  /** The session meets a null message exactly when a checksum error was reported. */
  lemma {:induction false} NullIffChecksumError(s: Session, accepts: RequestParser, parse: Parser,
                                                events: seq<Framing.Event>)
    ensures HandleAll(s, accepts, parse, events).None? <==> Framing.ChecksumError in events
    decreases |events|
  {
    hide OnMessage;
    if events != [] {
      assert events == [events[0]] + events[1..];
      if events[0].Message? {
        NullIffChecksumError(OnMessage(s, accepts, parse(events[0].body)).session, accepts, parse, events[1..]);
      }
    }
  }

  /** Frames with intact headers: the session gets through them exactly when every checksum is right. */
  lemma SurvivesIffIntact(s: Session, accepts: RequestParser, parse: Parser, payloads: seq<seq<byte>>)
    requires Framing.AllFit(payloads)
    ensures HandleAll(s, accepts, parse, Framing.Parse(Framing.Stream(payloads)).events).Some? <==>
              forall i :: 0 <= i < |payloads| ==> Framing.ChecksumOk(payloads[i])
  {
    hide Framing.Parse, HandleAll, Framing.ChecksumOk;
    Framing.ParseWholeStream(payloads);
    var events := Framing.JudgeAll(payloads);
    NullIffChecksumError(s, accepts, parse, events);
    assert forall i :: 0 <= i < |payloads| ==>
        (events[i] == Framing.ChecksumError <==> !Framing.ChecksumOk(payloads[i]));
  }

  function ParseAll(parse: Parser, bodies: seq<seq<byte>>): (msgs: seq<RpcMessage>)
    ensures |msgs| == |bodies|
    ensures forall i :: 0 <= i < |bodies| ==> msgs[i] == parse(bodies[i])
  {
    if bodies == [] then [] else [parse(bodies[0])] + ParseAll(parse, bodies[1..])
  }

  lemma {:induction false} AllParsed(s: Session, accepts: RequestParser, parse: Parser,
                                     events: seq<Framing.Event>, msgs: seq<RpcMessage>)
    requires |events| == |msgs|
    requires forall i :: 0 <= i < |msgs| ==> events[i].Message? && parse(events[i].body) == msgs[i]
    ensures HandleAll(s, accepts, parse, events) == Some(OnMessages(s, accepts, msgs))
    decreases |events|
  {
    hide OnMessage;
    if events != [] {
      assert events[0].Message? && parse(events[0].body) == msgs[0];
      AllParsed(OnMessage(s, accepts, msgs[0]).session, accepts, parse, events[1..], msgs[1..]);
    }
  }

  /**
   The transport is transparent: over every clean run of the sender's pool and every cutting into
   reads, the receiving session does what it would do if handed the messages directly, those of
   the sends that are out, each once. It never meets a null message.
   */
  lemma TransparentTransport(s: Session, accepts: RequestParser, parse: Parser,
                             steps: seq<Pool.Step>, chunks: seq<seq<byte>>) returns (order: seq<nat>)
    requires Pool.EnabledAll(Pool.Init(), steps) && Wire.CleanAll(Pool.Init(), steps)
    requires Framing.AllBodiesFit(Pool.ApplyAll(Pool.Init(), steps).bodies)
    requires Framing.Flatten(chunks) == Wire.WireBytes(Pool.ApplyAll(Pool.Init(), steps).wire)
    ensures var pool := Pool.ApplyAll(Pool.Init(), steps);
            && Wire.Distinct(order) && Wire.Known(order, |pool.bodies|)
            && (forall d: nat :: d < |pool.bodies| ==>
                  (d in order <==> Pool.Out(pool.wire, d) == Framing.Frame(pool.bodies[d])))
            && HandleAll(s, accepts, parse, Framing.Feed([], chunks).events) ==
               Some(OnMessages(s, accepts, ParseAll(parse, EndToEnd.Pick(pool.bodies, order))))
  {
    hide HandleAll, OnMessages, Framing.Feed, Framing.Frame, Pool.Out;
    order := EndToEnd.CleanDelivery(steps, chunks);
    var bodies := EndToEnd.Pick(Pool.ApplyAll(Pool.Init(), steps).bodies, order);
    AllParsed(s, accepts, parse, Framing.Feed([], chunks).events, ParseAll(parse, bodies));
  }

  /**
   One send at a time: whatever the schedule of partial writes and the cutting into reads, the
   receiving session does exactly what the messages, in the order sent, make it do.
   */
  lemma SerialTransport(s: Session, accepts: RequestParser, ser: RpcMessage -> seq<byte>, parse: Parser,
                        msgs: seq<RpcMessage>, steps: seq<Pool.Step>, chunks: seq<seq<byte>>)
    requires forall i :: 0 <= i < |msgs| ==> parse(ser(msgs[i])) == msgs[i] && Framing.BodyFits(ser(msgs[i]))
    requires Pool.EnabledAll(Pool.Init(), steps) && EndToEnd.Serial(Pool.Init(), steps)
    requires |EndToEnd.Sent(steps)| == |msgs| && forall i :: 0 <= i < |msgs| ==> EndToEnd.Sent(steps)[i] == ser(msgs[i])
    requires var pool := Pool.ApplyAll(Pool.Init(), steps);
             Pool.Busy(pool.slots) == 0 && Framing.Flatten(chunks) == Wire.WireBytes(pool.wire)
    ensures HandleAll(s, accepts, parse, Framing.Feed([], chunks).events) == Some(OnMessages(s, accepts, msgs))
  {
    hide HandleAll, OnMessages, Framing.Feed, Framing.Frame, Pool.ApplyAll, Pool.EnabledAll;
    EndToEnd.Delivery(ser, parse, msgs, steps, chunks);
    AllParsed(s, accepts, parse, Framing.Feed([], chunks).events, msgs);
  }

  /** The same with one actual serialization, so that the law assumed of protobuf is met. */
  lemma ConcreteTransport(s: Session, accepts: RequestParser, msgs: seq<RpcMessage>,
                          steps: seq<Pool.Step>, chunks: seq<seq<byte>>)
    requires forall i :: 0 <= i < |msgs| ==> Framing.BodyFits(MessageCodec.Serialize(msgs[i]))
    requires Pool.EnabledAll(Pool.Init(), steps) && EndToEnd.Serial(Pool.Init(), steps)
    requires |EndToEnd.Sent(steps)| == |msgs|
    requires forall i :: 0 <= i < |msgs| ==> EndToEnd.Sent(steps)[i] == MessageCodec.Serialize(msgs[i])
    requires var pool := Pool.ApplyAll(Pool.Init(), steps);
             Pool.Busy(pool.slots) == 0 && Framing.Flatten(chunks) == Wire.WireBytes(pool.wire)
    ensures HandleAll(s, accepts, MessageCodec.Parse, Framing.Feed([], chunks).events) ==
            Some(OnMessages(s, accepts, msgs))
  {
    hide HandleAll, OnMessages, Framing.Feed, MessageCodec.Serialize, MessageCodec.Parse;
    hide Pool.ApplyAll, Pool.EnabledAll;
    forall i | 0 <= i < |msgs|
      ensures MessageCodec.Parse(MessageCodec.Serialize(msgs[i])) == msgs[i]
    {
      MessageCodec.ParseSerialize(msgs[i]);
    }
    SerialTransport(s, accepts, MessageCodec.Serialize, MessageCodec.Parse, msgs, steps, chunks);
  }
}
