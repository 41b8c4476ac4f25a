/**
 The whole stack closed: two sessions, each framing what it sends into its own pool and wire, and decoding
 the other's wire in pieces. While the wires stay whole such a system does nothing `Protocol` does not allow.
 */
module Loop {
  import opened Bytes
  import opened SessionSpec
  import opened Framing
  import opened Bags
  import Protocol
  import Trace
  import Pool
  import PoolSpec
  import Wire
  import EndToEnd
  import Stack
  import MessageCodec

  type Peer = Protocol.Peer

  /** What comes from outside: the request types of both ends, and the serialization of messages. */
  datatype Setup = Setup(accepts: Protocol.Parsers, ser: RpcMessage -> seq<byte>, parse: seq<byte> -> RpcMessage)

  predicate Invertible(setup: Setup, m: RpcMessage) {
    setup.parse(setup.ser(m)) == m
  }

  ghost predicate Lawful(setup: Setup) {
    forall m :: Invertible(setup, m)
  }

  /**
   One end: its session, its service calls under way and the `done` closures it ran; its pool, with the wire
   it writes to; how much of the other end's wire it has read, what is still in its input buffer, and
   the frames taken out of it: those still to be handed to the session, and those that were.
   */
  datatype End = End(
    session: Session, calls: nat, jobs: seq<Job>, ran: seq<DoneRun>, pool: Pool.State,
    read: nat, pending: seq<byte>, todo: seq<Event>, handled: seq<Event>)

  /** `crashed`: a session read a null message, or a decoder took a checksum over unrelated memory. */
  datatype State = State(left: End, right: End, crashed: bool) {
    function At(p: Peer): End {
      if p == Protocol.Left then left else right
    }

    function With(p: Peer, end: End): State {
      if p == Protocol.Left then this.(left := end) else this.(right := end)
    }

    /** The bytes end `p` has to read: the other end's wire. */
    function Incoming(p: Peer): seq<byte> {
      Wire.WireBytes(At(p.Other()).pool.wire)
    }
  }

  function NewEnd(services: Services): End {
    End(Session(0, map[], services), 0, [], [], Pool.Init(), 0, [], [], [])
  }

  function Init(left: Services, right: Services): State {
    State(NewEnd(left), NewEnd(right), false)
  }

  datatype Step =
    | Call(p: Peer, service: Text, rpc: Text, request: seq<byte>, hasResponse: bool, hasDone: bool)
    | Write(p: Peer, step: Pool.Step)              // all of a send after its locked part
    | Read(p: Peer, count: nat)                    // `on_read` with the next bytes of the wire
    | Handle(p: Peer)                              // the callback for the next frame
    | Finish(p: Peer, j: nat, result: seq<byte>)   // a service runs its `done`

  predicate Ready(pool: Pool.State) {
    |pool.phases| == |pool.slots|
  }

  predicate Enabled(s: State, step: Step) {
    var end := s.At(step.p);
    && !s.crashed
    && Ready(end.pool)
    && match step
       case Call(_, _, _, _, _, _) => true
       case Write(_, w) => !w.Acquire? && Pool.Enabled(end.pool, w)
       case Read(p, count) => end.todo == [] && end.read + count <= |s.Incoming(p)|
       case Handle(_) => end.todo != []
       case Finish(_, j, _) => j < |end.jobs|
  }

  function SerializeAll(ser: RpcMessage -> seq<byte>, msgs: seq<RpcMessage>): seq<seq<byte>> {
    if msgs == [] then [] else [ser(msgs[0])] + SerializeAll(ser, msgs[1..])
  }

  /** The locked part of `send_rpc_msg` for each message; the rest of each send comes as `Write` steps. */
  function Post(pool: Pool.State, bodies: seq<seq<byte>>): (r: Pool.State)
    requires Ready(pool)
    ensures Ready(r)
    decreases |bodies|
  {
    if bodies == [] then pool else Post(Pool.Apply(pool, Pool.Acquire(bodies[0])), bodies[1..])
  }

  /** An end after its session did `r`. */
  function Did(setup: Setup, end: End, r: Reaction): End
    requires Ready(end.pool)
  {
    end.(session := r.session, jobs := end.jobs + r.started, ran := end.ran + r.ran,
         pool := Post(end.pool, SerializeAll(setup.ser, r.sent)))
  }

  function Started(end: End, step: Step): Reaction
    requires step.Call?
  {
    CallMethod(end.session, Pending(end.calls, step.hasResponse, step.hasDone), step.service, step.rpc, step.request)
  }

  function NextRead(s: State, p: Peer, count: nat): Parsed
    requires s.At(p).read + count <= |s.Incoming(p)|
  {
    Parse(s.At(p).pending + s.Incoming(p)[s.At(p).read..s.At(p).read + count])
  }

  function NextHandled(end: End): End
    requires end.todo != []
  {
    end.(todo := end.todo[1..], handled := end.handled + [end.todo[0]])
  }

  function WithoutJob(end: End, j: nat): End
    requires j < |end.jobs|
  {
    end.(jobs := end.jobs[..j] + end.jobs[j + 1..])
  }

  function Apply(setup: Setup, s: State, step: Step): State
    requires Enabled(s, step)
  {
    var p, end := step.p, s.At(step.p);
    match step
    case Call(_, _, _, _, _, _) => s.With(p, Did(setup, end.(calls := end.calls + 1), Started(end, step)))
    case Write(_, w) => s.With(p, end.(pool := Pool.Apply(end.pool, w)))
    case Read(_, count) =>
      var parsed := NextRead(s, p, count);
      if parsed.undefined then s.(crashed := true)
      else s.With(p, end.(read := end.read + count, pending := parsed.rest, todo := parsed.events))
    case Handle(_) =>
      (match OnRpcCallback(end.session, setup.accepts(p), Stack.Decoded(setup.parse, end.todo[0]))
       case None => s.(crashed := true)
       case Some(r) => s.With(p, Did(setup, NextHandled(end), r)))
    case Finish(_, j, result) =>
      s.With(p, Did(setup, WithoutJob(end, j), Reaction(end.session, [DoneReply(end.jobs[j].id, result)], [], [])))
  }

  predicate EnabledAll(setup: Setup, s: State, steps: seq<Step>)
    decreases |steps|
  {
    steps == [] || (Enabled(s, steps[0]) && EnabledAll(setup, Apply(setup, s, steps[0]), steps[1..]))
  }

  function ApplyAll(setup: Setup, s: State, steps: seq<Step>): State
    requires EnabledAll(setup, s, steps)
    decreases |steps|
  {
    if steps == [] then s else ApplyAll(setup, Apply(setup, s, steps[0]), steps[1..])
  }

  /** The calls made and the results computed, as they are seen from outside. */
  function Seen(s: State, step: Step): seq<Trace.Visible>
    requires Enabled(s, step)
  {
    match step
    case Call(p, service, rpc, request, hasResponse, hasDone) =>
      [Trace.Called(p, service, rpc, request, hasResponse, hasDone)]
    case Finish(p, j, result) => [Trace.Computed(p, s.At(p).jobs[j], result)]
    case _ => []
  }

  function TraceOf(setup: Setup, s: State, steps: seq<Step>): seq<Trace.Visible>
    requires EnabledAll(setup, s, steps)
    decreases |steps|
  {
    if steps == [] then [] else Seen(s, steps[0]) + TraceOf(setup, Apply(setup, s, steps[0]), steps[1..])
  }

  // ---- What a run has to respect ----

  predicate EverythingFits(s: State) {
    AllBodiesFit(s.left.pool.bodies) && AllBodiesFit(s.right.pool.bodies)
  }

  /** Transfers are clean, and no message is too big for its length. */
  ghost predicate Tame(setup: Setup, s: State, step: Step)
    requires Enabled(s, step)
  {
    && (step.Write? ==> Wire.Clean(s.At(step.p).pool, step.step))
    && EverythingFits(Apply(setup, s, step))
  }

  /** And no call takes the id of a call that waits. */
  ghost predicate Good(setup: Setup, s: State, step: Step)
    requires Enabled(s, step)
  {
    && Tame(setup, s, step)
    && (step.Call? ==> s.At(step.p).session.nextId !in s.At(step.p).session.pending)
  }

  ghost predicate TameAll(setup: Setup, s: State, steps: seq<Step>)
    requires EnabledAll(setup, s, steps)
    decreases |steps|
  {
    steps == [] || (Tame(setup, s, steps[0]) && TameAll(setup, Apply(setup, s, steps[0]), steps[1..]))
  }

  ghost predicate GoodAll(setup: Setup, s: State, steps: seq<Step>)
    requires EnabledAll(setup, s, steps)
    decreases |steps|
  {
    steps == [] || (Good(setup, s, steps[0]) && GoodAll(setup, Apply(setup, s, steps[0]), steps[1..]))
  }

  // ---- The bytes between two ends ----

  /** The pool's invariant holds and its wire is whole. */
  ghost predicate Tidy(pool: Pool.State) {
    && Pool.Inv(pool)
    && AllBodiesFit(pool.bodies)
    && exists order: seq<nat>, d: nat, k: nat :: Wire.Laid(pool, order, d, k)
  }

  /** The frames `p` took out so far are those of the bytes it has read. */
  predicate Decoded(end: End, stream: seq<byte>) {
    && end.read <= |stream|
    && Parse(stream[..end.read]) == Parsed(end.handled + end.todo, end.pending, false)
  }

  ghost predicate Sound(s: State) {
    && !s.crashed
    && Tidy(s.left.pool) && Tidy(s.right.pool)
    && Decoded(s.left, s.Incoming(Protocol.Left)) && Decoded(s.right, s.Incoming(Protocol.Right))
  }

  lemma TidyStep(pool: Pool.State, step: Pool.Step)
    requires Tidy(pool) && Pool.Enabled(pool, step) && Wire.Clean(pool, step)
    requires AllBodiesFit(Pool.Apply(pool, step).bodies)
    ensures Tidy(Pool.Apply(pool, step))
  {
    hide Pool.Apply, Pool.Enabled, Pool.Inv, Wire.Laid, Wire.Clean;
    var order: seq<nat>, d: nat, k: nat :| Wire.Laid(pool, order, d, k);
    var order', d', k' := Wire.LaidStep(pool, step, order, d, k);
    Pool.InvStep(pool, step);
  }

  lemma {:induction false} PostKeeps(pool: Pool.State, bodies: seq<seq<byte>>)
    requires Ready(pool)
    ensures Post(pool, bodies).bodies == pool.bodies + bodies && Post(pool, bodies).wire == pool.wire
    ensures Tidy(pool) && AllBodiesFit(Post(pool, bodies).bodies) ==> Tidy(Post(pool, bodies))
    decreases |bodies|
  {
    hide Tidy;
    if bodies != [] {
      var first := Pool.Acquire(bodies[0]);
      var next := Pool.Apply(pool, first);
      PostKeeps(next, bodies[1..]);
      assert pool.bodies + bodies == next.bodies + bodies[1..];
      if Tidy(pool) && AllBodiesFit(Post(pool, bodies).bodies) {
        assert AllBodiesFit(next.bodies) by {
          assert next.bodies == Post(pool, bodies).bodies[..|next.bodies|];
        }
        TidyStep(pool, first);
      }
    }
  }

  predicate AllOut(pool: Pool.State) {
    forall d: nat :: d < |pool.bodies| ==> Pool.Out(pool.wire, d) == Frame(pool.bodies[d])
  }

  /** The frames of the bytes read so far are among the messages sent, each once. */
  lemma ReadPrefix(pool: Pool.State, n: nat) returns (order: seq<nat>)
    requires Tidy(pool) && n <= |Wire.WireBytes(pool.wire)|
    ensures Wire.Distinct(order) && Wire.Known(order, |pool.bodies|)
    ensures var p := Parse(Wire.WireBytes(pool.wire)[..n]);
            !p.undefined && p.events <= EndToEnd.Pick(Messages(pool.bodies), order)
    ensures n == |Wire.WireBytes(pool.wire)| && AllOut(pool) ==>
              Parse(Wire.WireBytes(pool.wire)[..n]).events == EndToEnd.Pick(Messages(pool.bodies), order)
              && forall d: nat :: d < |pool.bodies| ==> d in order
  {
    hide Parse, Frame, Wire.WireBytes, Pool.Out, Pool.Inv, Wire.MarkedWire, Wire.MarkedFrames, Wire.Part;
    var stream := Wire.WireBytes(pool.wire);
    var d: nat, k: nat;
    order, d, k :| Wire.Laid(pool, order, d, k);
    assert EndToEnd.Pick(Messages(pool.bodies), order) == Messages(EndToEnd.Pick(pool.bodies, order));
    assert Flatten([stream]) == stream by { assert stream + Flatten([]) == stream; }
    EndToEnd.LaidDecoded(pool, order, d, k, [stream]);
    ChunkIndependence([stream]);
    ParseAppend(stream[..n], stream[n..]);
    assert stream[..n] + stream[n..] == stream;
    forall e: nat | e < |pool.bodies| && Pool.Out(pool.wire, e) == Frame(pool.bodies[e])
      ensures e in order
    {
      Pool.FrameNotEmpty(pool.bodies[e]);
      Wire.LaidOut(pool, order, d, k, e);
    }
    assert n == |stream| ==> stream[..n] == stream;
  }

  // ---- What the messages are in `Protocol`'s terms ----

  function Sends(setup: Setup, p: Peer): Protocol.Work -> multiset<Event> {
    (w: Protocol.Work) => if w.Packet? && w.to == p then multiset{Message(setup.ser(w.msg))} else multiset{}
  }

  function JobsAt(p: Peer): Protocol.Work -> multiset<Job> {
    (w: Protocol.Work) => if w.Serving? && w.at == p then multiset{w.job} else multiset{}
  }

  /** The work of the abstract system is the jobs of this end, and what was sent to it and not yet handled. */
  predicate WorkMatches(setup: Setup, s: State, work: seq<Protocol.Work>, p: Peer) {
    && Bag(work, JobsAt(p)) == multiset(s.At(p).jobs)
    && Bag(work, Sends(setup, p)) + multiset(s.At(p).handled) == multiset(Messages(s.At(p.Other()).pool.bodies))
  }

  predicate SideMatches(end: End, side: Protocol.Side) {
    side.session == end.session && |side.calls| == end.calls && side.ran == end.ran
  }

  predicate Matches(setup: Setup, s: State, a: Protocol.State) {
    forall p: Peer :: SideMatches(s.At(p), a.At(p)) && WorkMatches(setup, s, a.work, p)
  }

  // ---- Every step keeps the bytes in order ----

  lemma DidSound(setup: Setup, s: State, p: Peer, end: End, r: Reaction)
    requires Sound(s) && Ready(end.pool)
    requires end.pool == s.At(p).pool && Decoded(end, s.Incoming(p))
    requires EverythingFits(s.With(p, Did(setup, end, r)))
    ensures Sound(s.With(p, Did(setup, end, r)))
  {
    hide Tidy, Parse, Wire.WireBytes, Post, SerializeAll;
    PostKeeps(end.pool, SerializeAll(setup.ser, r.sent));
  }

  lemma WriteSound(setup: Setup, s: State, p: Peer, w: Pool.Step)
    requires Sound(s) && Enabled(s, Write(p, w)) && Good(setup, s, Write(p, w))
    ensures Sound(Apply(setup, s, Write(p, w)))
  {
    hide Parse, Wire.MarkedWire, Pool.Apply, Pool.Inv, Pool.Enabled, Wire.Laid, Wire.Clean;
    var pool := s.At(p).pool;
    TidyStep(pool, w);
    Wire.WireGrowsStep(pool, w);
    var stream, longer, n := Wire.WireBytes(pool.wire), Wire.WireBytes(Pool.Apply(pool, w).wire), s.At(p.Other()).read;
    assert longer[..n] == stream[..n];
  }

  lemma ReadSound(setup: Setup, s: State, p: Peer, count: nat)
    requires Sound(s) && Enabled(s, Read(p, count))
    ensures Sound(Apply(setup, s, Read(p, count)))
  {
    hide Parse, Tidy, Wire.WireBytes, Apply;
    ReadApplied(setup, s, p, count);
    var end, stream := s.At(p), s.Incoming(p);
    var a, b := stream[..end.read], stream[end.read..end.read + count];
    assert a + b == stream[..end.read + count];
    ParseAppend(a, b);
    var order := ReadPrefix(s.At(p.Other()).pool, end.read + count);
    NotUndefined(Parse(a + b));
  }

  /** The next frame of an end is one of the messages sent to it. */
  lemma NextIsMessage(s: State, p: Peer)
    requires Sound(s) && s.At(p).todo != []
    ensures var end := s.At(p);
            && end.todo[0].Message?
            && multiset(end.handled) + multiset{end.todo[0]} <= multiset(Messages(s.At(p.Other()).pool.bodies))
  {
    hide Parse, Tidy, Wire.WireBytes, EndToEnd.Pick, Messages;
    var end, all := s.At(p), Messages(s.At(p.Other()).pool.bodies);
    var order := ReadPrefix(s.At(p.Other()).pool, end.read);
    PickBag(all, order);
    var picked, front := EndToEnd.Pick(all, order), end.handled + [end.todo[0]];
    assert front <= picked by { assert front <= end.handled + end.todo; }
    PrefixBag(front, picked);
    assert picked[|end.handled|] == end.todo[0];
    PickedAt(all, order, |end.handled|);
  }

  lemma PrefixBag<T>(a: seq<T>, b: seq<T>)
    requires a <= b
    ensures multiset(a) <= multiset(b)
  {
    assert b == a + b[|a|..];
  }

  lemma PickedAt<T>(xs: seq<T>, order: seq<nat>, i: nat)
    requires Wire.Known(order, |xs|) && i < |order|
    ensures order[i] < |xs| && EndToEnd.Pick(xs, order)[i] == xs[order[i]]
  {
  }

  lemma HandleSound(setup: Setup, s: State, p: Peer)
    requires Sound(s) && Enabled(s, Handle(p)) && Good(setup, s, Handle(p))
    ensures Sound(Apply(setup, s, Handle(p)))
  {
    hide Sound, OnMessage, Did, Apply;
    NextIsMessage(s, p);
    HandleApplied(setup, s, p);
    var end := s.At(p);
    var r := OnMessage(end.session, setup.accepts(p), setup.parse(end.todo[0].body));
    HandledDecoded(s, p);
    DidSound(setup, s, p, NextHandled(end), r);
  }

  lemma HandledDecoded(s: State, p: Peer)
    requires Sound(s) && s.At(p).todo != []
    ensures Decoded(NextHandled(s.At(p)), s.Incoming(p))
  {
    hide Parse, Tidy, Wire.WireBytes;
    var end := s.At(p);
    assert NextHandled(end).handled + NextHandled(end).todo == end.handled + end.todo;
  }

  lemma HandleApplied(setup: Setup, s: State, p: Peer)
    requires Enabled(s, Handle(p)) && s.At(p).todo[0].Message?
    ensures var end := s.At(p);
            var r := OnMessage(end.session, setup.accepts(p), setup.parse(end.todo[0].body));
            Apply(setup, s, Handle(p)) == s.With(p, Did(setup, NextHandled(end), r))
  {
    hide OnMessage, Did;
  }

  lemma FinishApplied(setup: Setup, s: State, p: Peer, j: nat, result: seq<byte>)
    requires Enabled(s, Finish(p, j, result))
    ensures var end := s.At(p);
            var r := Reaction(end.session, [DoneReply(end.jobs[j].id, result)], [], []);
            Apply(setup, s, Finish(p, j, result)) == s.With(p, Did(setup, WithoutJob(end, j), r))
  {
    hide Did, DoneReply;
  }

  lemma WriteApplied(setup: Setup, s: State, p: Peer, w: Pool.Step)
    requires Enabled(s, Write(p, w))
    ensures Apply(setup, s, Write(p, w)) == s.With(p, s.At(p).(pool := Pool.Apply(s.At(p).pool, w)))
  {
    hide Pool.Apply, Pool.Enabled;
  }

  lemma ReadApplied(setup: Setup, s: State, p: Peer, count: nat)
    requires Enabled(s, Read(p, count))
    ensures var end, parsed := s.At(p), NextRead(s, p, count);
            Apply(setup, s, Read(p, count)) ==
            if parsed.undefined then s.(crashed := true)
            else s.With(p, end.(read := end.read + count, pending := parsed.rest, todo := parsed.events))
  {
    hide NextRead;
  }

  lemma SoundStep(setup: Setup, s: State, step: Step)
    requires Sound(s) && Enabled(s, step) && Good(setup, s, step)
    ensures Sound(Apply(setup, s, step))
  {
    hide Parse, Tidy, Wire.WireBytes, Did;
    var end := s.At(step.p);
    match step
    case Call(p, _, _, _, _, _) => DidSound(setup, s, p, end.(calls := end.calls + 1), Started(end, step));
    case Write(p, w) => WriteSound(setup, s, p, w);
    case Read(p, count) => ReadSound(setup, s, p, count);
    case Handle(p) => HandleSound(setup, s, p);
    case Finish(p, j, result) =>
      DidSound(setup, s, p, WithoutJob(end, j), Reaction(end.session, [DoneReply(end.jobs[j].id, result)], [], []));
  }

  // ---- Every step is one `Protocol` allows, or none ----

  lemma MessagesConcat(a: seq<seq<byte>>, b: seq<seq<byte>>)
    ensures Messages(a + b) == Messages(a) + Messages(b)
  {
  }

  lemma OutcomeBags(setup: Setup, r: Reaction, p: Peer, tag: Protocol.Tag, q: Peer)
    requires |r.sent| + |r.started| <= 1
    ensures var work := Protocol.Outcome(r, p, tag);
            && Bag(work, JobsAt(q)) == (if q == p then multiset(r.started) else multiset{})
            && Bag(work, Sends(setup, q)) ==
               (if q == p.Other() then multiset(Messages(SerializeAll(setup.ser, r.sent))) else multiset{})
  {
    hide Bag, Sends, JobsAt, Messages;
    var work := Protocol.Outcome(r, p, tag);
    if |r.sent| == 1 {
      var w := Protocol.Packet(p.Other(), r.sent[0], tag);
      assert work == [w];
      OneContributes(setup, w, q);
      OneMessage(setup, r.sent);
    } else if |r.started| == 1 {
      var w := Protocol.Serving(p, r.started[0], tag);
      assert work == [w] && r.started == [w.job];
      OneContributes(setup, w, q);
      NoMessage();
    } else {
      NoBag(JobsAt(q));
      NoBag(Sends(setup, q));
      NoMessage();
      assert work == [];
    }
  }

  lemma OneContributes(setup: Setup, w: Protocol.Work, q: Peer)
    ensures Bag([w], Sends(setup, q)) ==
            if w.Packet? && w.to == q then multiset{Message(setup.ser(w.msg))} else multiset{}
    ensures Bag([w], JobsAt(q)) == if w.Serving? && w.at == q then multiset{w.job} else multiset{}
  {
    hide Bag, Sends, JobsAt;
    Contributes(setup, w, q);
    BagOne(w, Sends(setup, q));
    BagOne(w, JobsAt(q));
  }

  lemma OneMessage(setup: Setup, msgs: seq<RpcMessage>)
    requires |msgs| == 1
    ensures Messages(SerializeAll(setup.ser, msgs)) == [Message(setup.ser(msgs[0]))]
  {
  }

  lemma NoMessage()
    ensures Messages([]) == []
  {
  }

  lemma NoBag<T>(f: Protocol.Work -> multiset<T>)
    ensures Bag([], f) == multiset{}
  {
  }

  /** What a session does adds the same to the bytes as to the work in flight. */
  lemma DidMatches(setup: Setup, s: State, work: seq<Protocol.Work>, p: Peer, r: Reaction, tag: Protocol.Tag, q: Peer)
    requires Ready(s.At(p).pool) && |r.sent| + |r.started| <= 1
    requires WorkMatches(setup, s, work, q)
    ensures WorkMatches(setup, s.With(p, Did(setup, s.At(p), r)), work + Protocol.Outcome(r, p, tag), q)
  {
    hide Bag, Protocol.Outcome, SerializeAll, Sends, JobsAt, Messages, Post;
    var out, bodies := Protocol.Outcome(r, p, tag), SerializeAll(setup.ser, r.sent);
    PostKeeps(s.At(p).pool, bodies);
    MessagesConcat(s.At(p).pool.bodies, bodies);
    OutcomeBags(setup, r, p, tag, q);
    BagConcat(work, out, JobsAt(q));
    BagConcat(work, out, Sends(setup, q));
  }

  /** The handlers send and start at most one thing each. */
  lemma OneOutcome(s: Session, accepts: RequestParser, msg: RpcMessage)
    ensures var r := OnMessage(s, accepts, msg); |r.sent| + |r.started| <= 1
  {
    hide Dispatch;
  }

  /** The two systems still match after these two steps. */
  predicate Follows(setup: Setup, s: State, step: Step, a: Protocol.State, other: Protocol.Step) {
    && Enabled(s, step) && Protocol.Enabled(a, other)
    && Matches(setup, Apply(setup, s, step), Protocol.Apply(a, setup.accepts, other))
  }

  lemma CallSim(setup: Setup, s: State, a: Protocol.State, step: Step)
    requires step.Call? && Enabled(s, step) && Matches(setup, s, a)
    ensures Follows(setup, s, step, a,
              Protocol.Invoke(step.p, step.service, step.rpc, step.request, step.hasResponse, step.hasDone))
  {
    hide WorkMatches, Did, Protocol.Outcome;
    var p, end, k := step.p, s.At(step.p), s.At(step.p).calls;
    assert SideMatches(end, a.At(p));
    var r, tag, counted := Started(end, step), Protocol.Tag(p, k), end.(calls := k + 1);
    var next, t := s.With(p, counted), Apply(setup, s, step);
    assert t == s.With(p, Did(setup, counted, r)) == next.With(p, Did(setup, next.At(p), r));
    var b := Protocol.Apply(a, setup.accepts,
      Protocol.Invoke(p, step.service, step.rpc, step.request, step.hasResponse, step.hasDone));
    assert b.work == a.work + Protocol.Outcome(r, p, tag);
    forall q: Peer
      ensures WorkMatches(setup, t, b.work, q) && SideMatches(t.At(q), b.At(q))
    {
      SameWork(setup, s, next, a.work, q);
      DidMatches(setup, next, a.work, p, r, tag, q);
      DidSide(setup, counted, r);
    }
  }

  /** Only the jobs, the frames handled and the messages sent matter. */
  lemma SameWork(setup: Setup, s: State, t: State, work: seq<Protocol.Work>, q: Peer)
    requires WorkMatches(setup, s, work, q)
    requires t.At(q).jobs == s.At(q).jobs && t.At(q).handled == s.At(q).handled
    requires t.At(q.Other()).pool.bodies == s.At(q.Other()).pool.bodies
    ensures WorkMatches(setup, t, work, q)
  {
  }

  lemma HandleSim(setup: Setup, s: State, a: Protocol.State, p: Peer) returns (i: nat)
    requires Lawful(setup) && Enabled(s, Handle(p)) && Sound(s) && Matches(setup, s, a)
    ensures Follows(setup, s, Handle(p), a, Protocol.Deliver(i))
  {
    hide Sound, OnMessage, WorkMatches, Did, Apply;
    i := InFlight(setup, s, a.work, p);
    var end, msg, tag := s.At(p), a.work[i].msg, a.work[i].tag;
    assert Invertible(setup, msg);
    var r := OnMessage(end.session, setup.accepts(p), msg);
    OneOutcome(end.session, setup.accepts(p), msg);
    var next, t := s.With(p, NextHandled(end)), Apply(setup, s, Handle(p));
    HandleApplied(setup, s, p);
    assert t == s.With(p, Did(setup, NextHandled(end), r)) == next.With(p, Did(setup, next.At(p), r));
    var b := Protocol.Apply(a, setup.accepts, Protocol.Deliver(i));
    assert b.work == Protocol.Without(a.work, i) + Protocol.Outcome(r, p, tag);
    forall q: Peer
      ensures WorkMatches(setup, t, b.work, q) && SideMatches(t.At(q), b.At(q))
    {
      Handled(setup, s, a.work, p, i, q);
      DidMatches(setup, next, Protocol.Without(a.work, i), p, r, tag, q);
      DidSide(setup, NextHandled(end), r);
    }
  }

  lemma DidSide(setup: Setup, end: End, r: Reaction)
    requires Ready(end.pool)
    ensures var did := Did(setup, end, r);
            did.session == r.session && did.calls == end.calls && did.ran == end.ran + r.ran
  {
  }

  /** The message in the next frame is in flight. */
  lemma InFlight(setup: Setup, s: State, work: seq<Protocol.Work>, p: Peer) returns (i: nat)
    requires Sound(s) && s.At(p).todo != [] && WorkMatches(setup, s, work, p)
    ensures i < |work| && work[i].Packet? && work[i].to == p && s.At(p).todo[0] == Message(setup.ser(work[i].msg))
  {
    hide Sound, Bag, Messages;
    NextIsMessage(s, p);
    var end, all := s.At(p), multiset(Messages(s.At(p.Other()).pool.bodies));
    StillThere(Bag(work, Sends(setup, p)), multiset(end.handled), all, end.todo[0]);
    i := BagFind(work, Sends(setup, p), end.todo[0]);
  }

  lemma StillThere<T>(a: multiset<T>, b: multiset<T>, all: multiset<T>, x: T)
    requires a + b == all && b + multiset{x} <= all
    ensures x in a
  {
    assert b[x] + 1 <= all[x] == a[x] + b[x];
  }

  lemma Handled(setup: Setup, s: State, work: seq<Protocol.Work>, p: Peer, i: nat, q: Peer)
    requires s.At(p).todo != [] && WorkMatches(setup, s, work, q)
    requires i < |work| && work[i].Packet? && work[i].to == p && s.At(p).todo[0] == Message(setup.ser(work[i].msg))
    ensures WorkMatches(setup, s.With(p, NextHandled(s.At(p))), Protocol.Without(work, i), q)
  {
    hide Bag, Protocol.Without, Sends, JobsAt, Messages;
    BagWithout(work, i, Sends(setup, q));
    BagWithout(work, i, JobsAt(q));
    Contributes(setup, work[i], q);
  }

  lemma Contributes(setup: Setup, w: Protocol.Work, q: Peer)
    ensures Sends(setup, q)(w) == if w.Packet? && w.to == q then multiset{Message(setup.ser(w.msg))} else multiset{}
    ensures JobsAt(q)(w) == if w.Serving? && w.at == q then multiset{w.job} else multiset{}
  {
  }

  predicate IsJob(work: seq<Protocol.Work>, i: nat, p: Peer, job: Job) {
    i < |work| && work[i].Serving? && work[i].at == p && work[i].job == job
  }

  lemma FinishSim(setup: Setup, s: State, a: Protocol.State, p: Peer, j: nat, result: seq<byte>, i: nat)
    requires Enabled(s, Finish(p, j, result)) && IsJob(a.work, i, p, s.At(p).jobs[j])
    requires Matches(setup, s, a)
    ensures Follows(setup, s, Finish(p, j, result), a, Protocol.Finish(i, result))
  {
    hide WorkMatches, Did, Bag, Apply;
    var end, job := s.At(p), s.At(p).jobs[j];
    FinishApplied(setup, s, p, j, result);
    var tag, r := a.work[i].tag, Reaction(end.session, [DoneReply(job.id, result)], [], []);
    var next, t := s.With(p, WithoutJob(end, j)), Apply(setup, s, Finish(p, j, result));
    assert t == s.With(p, Did(setup, WithoutJob(end, j), r)) == next.With(p, Did(setup, next.At(p), r));
    var b := Protocol.Apply(a, setup.accepts, Protocol.Finish(i, result));
    assert b.work == Protocol.Without(a.work, i) + Protocol.Outcome(r, p, tag);
    forall q: Peer
      ensures WorkMatches(setup, t, b.work, q) && SideMatches(t.At(q), b.At(q))
    {
      JobDone(setup, s, a.work, p, j, i, q);
      DidMatches(setup, next, Protocol.Without(a.work, i), p, r, tag, q);
      DidSide(setup, WithoutJob(end, j), r);
      assert SideMatches(end, a.At(p));
    }
  }

  lemma JobFound(setup: Setup, s: State, a: Protocol.State, p: Peer, j: nat) returns (i: nat)
    requires j < |s.At(p).jobs| && Matches(setup, s, a)
    ensures IsJob(a.work, i, p, s.At(p).jobs[j])
  {
    hide Bag;
    assert WorkMatches(setup, s, a.work, p);
    assert s.At(p).jobs[j] in multiset(s.At(p).jobs);
    i := BagFind(a.work, JobsAt(p), s.At(p).jobs[j]);
  }

  lemma JobDone(setup: Setup, s: State, work: seq<Protocol.Work>, p: Peer, j: nat, i: nat, q: Peer)
    requires j < |s.At(p).jobs| && WorkMatches(setup, s, work, q)
    requires IsJob(work, i, p, s.At(p).jobs[j])
    ensures WorkMatches(setup, s.With(p, WithoutJob(s.At(p), j)), Protocol.Without(work, i), q)
  {
    hide Bag, Protocol.Without, Sends, JobsAt, Messages;
    BagWithout(work, i, Sends(setup, q));
    BagWithout(work, i, JobsAt(q));
    Contributes(setup, work[i], q);
    if q == p { FewerJobs(Bag(Protocol.Without(work, i), JobsAt(q)), s.At(p).jobs, j); }
  }

  lemma FewerJobs(rest: multiset<Job>, jobs: seq<Job>, j: nat)
    requires j < |jobs| && rest + multiset{jobs[j]} == multiset(jobs)
    ensures rest == multiset(jobs[..j] + jobs[j + 1..])
  {
    OneLess(jobs, j);
    Cancel(rest, multiset(jobs[..j] + jobs[j + 1..]), jobs[j]);
  }

  lemma Cancel<T>(a: multiset<T>, b: multiset<T>, x: T)
    requires a + multiset{x} == b + multiset{x}
    ensures a == b
  {
    assert a == a + multiset{x} - multiset{x};
  }

  lemma OneLess<T>(xs: seq<T>, j: nat)
    requires j < |xs|
    ensures multiset(xs) == multiset(xs[..j] + xs[j + 1..]) + multiset{xs[j]}
  {
    assert xs == xs[..j] + [xs[j]] + xs[j + 1..];
  }

  lemma Unseen(setup: Setup, s: State, a: Protocol.State, step: Step)
    requires (step.Write? || step.Read?) && Enabled(s, step) && Matches(setup, s, a)
    requires Sound(Apply(setup, s, step))
    ensures Matches(setup, Apply(setup, s, step), a)
  {
    hide WorkMatches, Tidy, Decoded, NextRead, Apply, Pool.Apply, Pool.Enabled;
    if step.Write? {
      WriteApplied(setup, s, step.p, step.step);
      EndToEnd.BodiesStep(s.At(step.p).pool, step.step);
    } else {
      ReadApplied(setup, s, step.p, step.count);
    }
    forall q: Peer
      ensures WorkMatches(setup, Apply(setup, s, step), a.work, q)
    {
      SameWork(setup, s, Apply(setup, s, step), a.work, q);
    }
  }

  /** From `a`, `run` is a run of `Protocol` with no reuse of ids that leads to where `t` stands, and shows `trace`. */
  ghost predicate Mirrors(setup: Setup, t: State, a: Protocol.State, run: seq<Protocol.Step>,
                          trace: seq<Trace.Visible>) {
    && Sound(t)
    && Protocol.EnabledAll(a, setup.accepts, run) && Protocol.FreshAll(a, setup.accepts, run)
    && Matches(setup, t, Protocol.ApplyAll(a, setup.accepts, run))
    && Trace.TraceOf(a, setup.accepts, run) == trace
  }

  /** One step over bytes is one step of `Protocol`, or none, and looks the same from outside. */
  lemma StepSim(setup: Setup, s: State, a: Protocol.State, step: Step) returns (run: seq<Protocol.Step>)
    requires Lawful(setup) && Sound(s) && Matches(setup, s, a)
    requires Enabled(s, step) && Good(setup, s, step)
    ensures |run| == (if step.Write? || step.Read? then 0 else 1)
    ensures run != [] && !step.Call? ==> !run[0].Invoke?
    ensures Mirrors(setup, Apply(setup, s, step), a, run, Seen(s, step))
  {
    hide Apply, Matches, Sound, Protocol.Apply, Protocol.EnabledAll, Protocol.FreshAll, Wire.Clean, EverythingFits;
    SoundStep(setup, s, step);
    match step
    case Call(p, service, rpc, request, hasResponse, hasDone) =>
      CallSim(setup, s, a, step);
      run := [Protocol.Invoke(p, service, rpc, request, hasResponse, hasDone)];
      SameSession(setup, s, a, p);
      OneStep(a, setup.accepts, run[0]);
    case Handle(p) =>
      var i := HandleSim(setup, s, a, p);
      run := [Protocol.Deliver(i)];
      OneStep(a, setup.accepts, run[0]);
    case Finish(p, j, result) =>
      var i := JobFound(setup, s, a, p, j);
      FinishSim(setup, s, a, p, j, result, i);
      run := [Protocol.Finish(i, result)];
      OneStep(a, setup.accepts, run[0]);
    case _ =>
      Unseen(setup, s, a, step);
      run := [];
      NoSteps(a, setup.accepts);
  }

  lemma OneStep(a: Protocol.State, accepts: Protocol.Parsers, step: Protocol.Step)
    requires Protocol.Enabled(a, step) && Protocol.Fresh(a, step)
    ensures Protocol.EnabledAll(a, accepts, [step]) && Protocol.FreshAll(a, accepts, [step])
    ensures Protocol.ApplyAll(a, accepts, [step]) == Protocol.Apply(a, accepts, step)
    ensures Trace.TraceOf(a, accepts, [step]) == Trace.Seen(a, step)
  {
    hide Protocol.Apply, Protocol.Enabled, Protocol.Fresh, Trace.Seen;
    assert [step][1..] == [];
    assert Trace.Seen(a, step) + [] == Trace.Seen(a, step);
  }

  lemma SameSession(setup: Setup, s: State, a: Protocol.State, p: Peer)
    requires Matches(setup, s, a)
    ensures a.At(p).session == s.At(p).session
  {
  }

  lemma {:induction false} RunSim(setup: Setup, s: State, a: Protocol.State, steps: seq<Step>)
    returns (run: seq<Protocol.Step>)
    requires Lawful(setup) && EnabledAll(setup, s, steps) && GoodAll(setup, s, steps)
    requires Sound(s) && Matches(setup, s, a)
    ensures Mirrors(setup, ApplyAll(setup, s, steps), a, run, TraceOf(setup, s, steps))
    decreases |steps|
  {
    hide Apply, Enabled, Good, Sound, Matches, Lawful, Protocol.EnabledAll, Protocol.FreshAll, Seen, Trace.TraceOf;
    run := [];
    if steps == [] {
      NoSteps(a, setup.accepts);
    } else {
      var first := StepSim(setup, s, a, steps[0]);
      var rest := RunSim(setup, Apply(setup, s, steps[0]), Protocol.ApplyAll(a, setup.accepts, first), steps[1..]);
      run := first + rest;
      Protocol.RunConcat(a, setup.accepts, first, rest);
      Trace.TraceConcat(a, setup.accepts, first, rest);
    }
  }

  lemma NoSteps(a: Protocol.State, accepts: Protocol.Parsers)
    ensures Protocol.EnabledAll(a, accepts, []) && Protocol.FreshAll(a, accepts, [])
    ensures Protocol.ApplyAll(a, accepts, []) == a && Trace.TraceOf(a, accepts, []) == []
  {
  }

  lemma {:induction false} StepsConcat(setup: Setup, s: State, a: seq<Step>, b: seq<Step>)
    requires EnabledAll(setup, s, a) && EnabledAll(setup, ApplyAll(setup, s, a), b)
    ensures EnabledAll(setup, s, a + b)
    ensures ApplyAll(setup, s, a + b) == ApplyAll(setup, ApplyAll(setup, s, a), b)
    ensures GoodAll(setup, s, a) && GoodAll(setup, ApplyAll(setup, s, a), b) ==> GoodAll(setup, s, a + b)
    decreases |a|
  {
    hide Apply, Enabled, Good;
    if a == [] {
      assert a + b == b;
    } else {
      assert (a + b)[0] == a[0] && (a + b)[1..] == a[1..] + b;
      StepsConcat(setup, Apply(setup, s, a[0]), a[1..], b);
    }
  }

  /** The law assumed of protobuf is met by one actual serialization. */
  lemma ConcreteLawful(accepts: Protocol.Parsers)
    ensures Lawful(Setup(accepts, MessageCodec.Serialize, MessageCodec.Parse))
  {
    var setup := Setup(accepts, MessageCodec.Serialize, MessageCodec.Parse);
    hide MessageCodec.Serialize, MessageCodec.Parse;
    forall m
      ensures Invertible(setup, m)
    {
      MessageCodec.ParseSerialize(m);
    }
  }

  lemma InitSound(setup: Setup, left: Services, right: Services)
    ensures Sound(Init(left, right)) && Matches(setup, Init(left, right), Protocol.Init(left, right))
  {
    hide Pool.Inv, Tidy, Parse, Wire.WireBytes, Bag, Pool.Init;
    InitTidy();
    NoBag(Sends(setup, Protocol.Left));
    NoBag(Sends(setup, Protocol.Right));
    NoBag(JobsAt(Protocol.Left));
    NoBag(JobsAt(Protocol.Right));
  }

  lemma InitTidy()
    ensures Tidy(Pool.Init()) && Pool.Init().bodies == []
    ensures Parse(Wire.WireBytes(Pool.Init().wire)[..0]) == Parsed([], [], false)
  {
    hide Pool.Inv;
    Pool.InvInit();
    assert Wire.Laid(Pool.Init(), [], 0, 0);
  }

  /** The services are asked only for what they offer, with requests that parse. */
  predicate JobsAccepted(jobs: seq<Job>, services: Services, parses: RequestParser) {
    forall j :: 0 <= j < |jobs| ==> Accepts(services, parses, jobs[j].service, jobs[j].rpc, jobs[j].request)
  }

  lemma AllJobsAccepted(setup: Setup, left: Services, right: Services, s: State, run: seq<Protocol.Step>, p: Peer)
    requires Protocol.EnabledAll(Protocol.Init(left, right), setup.accepts, run)
    requires Protocol.FreshAll(Protocol.Init(left, right), setup.accepts, run)
    requires Matches(setup, s, Protocol.ApplyAll(Protocol.Init(left, right), setup.accepts, run))
    ensures JobsAccepted(s.At(p).jobs, Protocol.TablesOf(p, left, right), setup.accepts(p))
  {
    hide Matches, Accepts, Trace.Served, Trace.TraceOf;
    var a := Protocol.ApplyAll(Protocol.Init(left, right), setup.accepts, run);
    var jobs := s.At(p).jobs;
    forall j | 0 <= j < |jobs|
      ensures Accepts(Protocol.TablesOf(p, left, right), setup.accepts(p),
                      jobs[j].service, jobs[j].rpc, jobs[j].request)
    {
      var i := JobFound(setup, s, a, p, j);
      Trace.RunServed(left, right, setup.accepts, run, i);
    }
  }

  /**
   Nothing has crashed, both wires are whole, services were asked only for what they offer, and each `done`
   that ran was of a call in the trace, with a result computed for that very call. Both ends stand where a run
   of `Protocol` leads that looks the same from outside, and that run kept every promise to every call.
   */
  ghost predicate Keeps(setup: Setup, left: Services, right: Services, s: State, trace: seq<Trace.Visible>,
                        run: seq<Protocol.Step>) {
    var init := Protocol.Init(left, right);
    && Sound(s)
    && (forall p: Peer :: |Trace.CallsOf(trace, p)| == s.At(p).calls && Trace.RanOwn(trace, p, s.At(p).ran))
    && Trace.Served(trace, setup.accepts, left, right)
    && (forall p: Peer :: JobsAccepted(s.At(p).jobs, Protocol.TablesOf(p, left, right), setup.accepts(p)))
    && Protocol.EnabledAll(init, setup.accepts, run) && Protocol.FreshAll(init, setup.accepts, run)
    && Trace.TraceOf(init, setup.accepts, run) == trace
    && var a := Protocol.ApplyAll(init, setup.accepts, run);
       && Matches(setup, s, a)
       && forall tag: Protocol.Tag :: tag.call < s.At(tag.caller).calls ==>
            tag.call < |a.At(tag.caller).calls| && Protocol.Safe(a, setup.accepts, tag)
  }

  /**
   The stack as a whole. Over every run in which transfers are clean, messages fit and no call takes a waiting
   call's id, however the writes are split and the reads cut: no assertion of the buffers fails, no decoder or
   session crashes, each `done` gets its own call's result, and the two sessions are those of a run of
   `Protocol` with the same calls and results, so that every promise made to a call is kept.
   */
  lemma BytesKeepPromises(setup: Setup, left: Services, right: Services, steps: seq<Step>)
    returns (run: seq<Protocol.Step>)
    requires Lawful(setup)
    requires EnabledAll(setup, Init(left, right), steps) && GoodAll(setup, Init(left, right), steps)
    ensures var init := Init(left, right);
            Keeps(setup, left, right, ApplyAll(setup, init, steps), TraceOf(setup, init, steps), run)
  {
    hide Sound, WorkMatches, Protocol.Safe, Trace.RanOwn, Trace.CallsOf, Trace.TraceOf, Trace.Served, JobsAccepted;
    InitSound(setup, left, right);
    run := RunSim(setup, Init(left, right), Protocol.Init(left, right), steps);
    var s := ApplyAll(setup, Init(left, right), steps);
    var a := Protocol.ApplyAll(Protocol.Init(left, right), setup.accepts, run);
    forall tag: Protocol.Tag | tag.call < s.At(tag.caller).calls
      ensures tag.call < |a.At(tag.caller).calls| && Protocol.Safe(a, setup.accepts, tag)
    {
      assert SideMatches(s.At(tag.caller), a.At(tag.caller));
      Protocol.CallSafety(left, right, setup.accepts, run, tag);
    }
    Trace.RunServed(left, right, setup.accepts, run, 0);
    forall p: Peer
      ensures JobsAccepted(s.At(p).jobs, Protocol.TablesOf(p, left, right), setup.accepts(p))
      ensures var trace := TraceOf(setup, Init(left, right), steps);
              |Trace.CallsOf(trace, p)| == s.At(p).calls && Trace.RanOwn(trace, p, s.At(p).ran)
    {
      assert SideMatches(s.At(p), a.At(p));
      Trace.RunRanOwn(left, right, setup.accepts, run, p);
      AllJobsAccepted(setup, left, right, s, run, p);
    }
  }

  predicate FewCalls(s: State) {
    s.left.calls <= 0x1_0000_0000 && s.right.calls <= 0x1_0000_0000
  }

  lemma {:induction false} CallsGrow(setup: Setup, s: State, steps: seq<Step>, p: Peer)
    requires EnabledAll(setup, s, steps)
    ensures s.At(p).calls <= ApplyAll(setup, s, steps).At(p).calls
    decreases |steps|
  {
    hide OnRpcCallback, NextRead, Post, Pool.Apply;
    if steps != [] { CallsGrow(setup, Apply(setup, s, steps[0]), steps[1..], p); }
  }

  /** With fewer than 2^32 calls so far, the next id is free. */
  lemma IdFree(setup: Setup, s: State, a: Protocol.State, step: Step)
    requires step.Call? && Matches(setup, s, a) && Protocol.Inv(a, setup.accepts) && s.At(step.p).calls < 0x1_0000_0000
    ensures s.At(step.p).session.nextId !in s.At(step.p).session.pending
  {
    hide Protocol.Inv, WorkMatches;
    assert SideMatches(s.At(step.p), a.At(step.p));
    Protocol.SidesOk(a, setup.accepts);
    Protocol.FreshMeaning(a.At(step.p));
  }

  lemma {:induction false} FewCallsGood(setup: Setup, s: State, a: Protocol.State, steps: seq<Step>)
    requires Lawful(setup) && EnabledAll(setup, s, steps) && TameAll(setup, s, steps)
    requires FewCalls(ApplyAll(setup, s, steps))
    requires Sound(s) && Matches(setup, s, a) && Protocol.Inv(a, setup.accepts)
    ensures GoodAll(setup, s, steps)
    decreases |steps|
  {
    hide Apply, Enabled, Tame, Sound, Matches, Lawful, Protocol.Inv, Protocol.EnabledAll, Protocol.FreshAll;
    if steps != [] {
      var t := Apply(setup, s, steps[0]);
      if steps[0].Call? {
        CallsGrow(setup, t, steps[1..], steps[0].p);
        OneMore(setup, s, steps[0]);
        IdFree(setup, s, a, steps[0]);
      }
      var run := StepSim(setup, s, a, steps[0]);
      Protocol.InvRun(a, setup.accepts, run);
      FewCallsGood(setup, t, Protocol.ApplyAll(a, setup.accepts, run), steps[1..]);
    }
  }

  lemma OneMore(setup: Setup, s: State, step: Step)
    requires step.Call? && Enabled(s, step)
    ensures Apply(setup, s, step).At(step.p).calls == s.At(step.p).calls + 1
  {
  }

  /** So with at most 2^32 calls from each end, clean transfers of messages that fit are all a run needs. */
  lemma FewCallsKeepPromises(setup: Setup, left: Services, right: Services, steps: seq<Step>)
    returns (run: seq<Protocol.Step>)
    requires Lawful(setup) && EnabledAll(setup, Init(left, right), steps)
    requires TameAll(setup, Init(left, right), steps) && FewCalls(ApplyAll(setup, Init(left, right), steps))
    ensures var init := Init(left, right);
            Keeps(setup, left, right, ApplyAll(setup, init, steps), TraceOf(setup, init, steps), run)
  {
    hide Keeps, Sound, Matches, Protocol.Inv;
    InitSound(setup, left, right);
    Protocol.InvInit(left, right, setup.accepts);
    FewCallsGood(setup, Init(left, right), Protocol.Init(left, right), steps);
    run := BytesKeepPromises(setup, left, right, steps);
  }
}
