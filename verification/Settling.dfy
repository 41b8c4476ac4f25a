/** Runs over bytes that end: what has then been done for every call, and that the end can always be reached. */
module Settling {
  import opened Bytes
  import opened SessionSpec
  import opened Framing
  import opened Bags
  import opened Loop
  import Protocol
  import Trace
  import Pool
  import PoolSpec
  import Wire
  import EndToEnd
  import MessageCodec

  // ---- When everything has come through ----

  /** Every frame is out and read, every callback handled, and no service call is under way. */
  predicate Settled(s: State) {
    forall p: Peer ::
      && s.At(p).jobs == [] && s.At(p).todo == [] && s.At(p).read == |s.Incoming(p)|
      && AllOut(s.At(p).pool)
  }

  lemma NothingInFlight(setup: Setup, s: State, work: seq<Protocol.Work>, p: Peer)
    requires Sound(s) && Settled(s) && WorkMatches(setup, s, work, p)
    ensures Bag(work, Sends(setup, p)) == multiset{} && Bag(work, JobsAt(p)) == multiset{}
  {
    hide Tidy, Parse, Wire.WireBytes, Bag;
    var pool, end := s.At(p.Other()).pool, s.At(p);
    assert AllOut(pool) && end.jobs == [];
    var order := ReadPrefix(pool, end.read);
    PickBag(Messages(pool.bodies), order);
    assert end.handled + end.todo == end.handled;
    assert multiset(end.handled) == multiset(Messages(pool.bodies));
    var inFlight := Bag(work, Sends(setup, p));
    assert inFlight == inFlight + multiset(end.handled) - multiset(end.handled);
  }

  lemma SomeBag(setup: Setup, work: seq<Protocol.Work>) returns (p: Peer)
    requires work != []
    ensures Bag(work, Sends(setup, p)) != multiset{} || Bag(work, JobsAt(p)) != multiset{}
  {
    hide Bag;
    p := if work[0].Packet? then work[0].to else work[0].at;
    BagWithout(work, 0, Sends(setup, p));
    BagWithout(work, 0, JobsAt(p));
    if work[0].Packet? {
      assert Message(setup.ser(work[0].msg)) in Bag(work, Sends(setup, p));
    } else {
      assert work[0].job in Bag(work, JobsAt(p));
    }
  }

  /** Then every call of both ends has been answered, and both maps are empty. */
  lemma SettledAnswered(setup: Setup, s: State, a: Protocol.State)
    requires Sound(s) && Settled(s) && Matches(setup, s, a) && Protocol.Inv(a, setup.accepts)
    ensures forall p: Peer ::
              && s.At(p).session.pending == map[]
              && forall k: nat :: k < s.At(p).calls ==> k in a.At(p).answered
  {
    hide Sound, Settled, WorkMatches, Protocol.Inv, Bag;
    if a.work != [] {
      var p := SomeBag(setup, a.work);
      assert WorkMatches(setup, s, a.work, p);
      NothingInFlight(setup, s, a.work, p);
    }
    Protocol.Drained(a, setup.accepts);
    forall p: Peer
      ensures SideMatches(s.At(p), a.At(p))
    {
    }
  }

  /**
   Over every such run: once everything has come through, both maps are empty and every call is over, its
   `done` run with its own result or, when there is none for it to run with, not at all.
   */
  lemma BytesAnswerAll(setup: Setup, left: Services, right: Services, steps: seq<Step>)
    requires Lawful(setup)
    requires EnabledAll(setup, Init(left, right), steps) && GoodAll(setup, Init(left, right), steps)
    requires Settled(ApplyAll(setup, Init(left, right), steps))
    ensures var s, trace := ApplyAll(setup, Init(left, right), steps), TraceOf(setup, Init(left, right), steps);
            forall p: Peer ::
              && s.At(p).session.pending == map[]
              && |Trace.CallsOf(trace, p)| == s.At(p).calls
              && Trace.RanOwn(trace, p, s.At(p).ran)
              && forall k: nat :: k < s.At(p).calls ==>
                   Trace.Over(trace, p, k, setup.accepts(p.Other()), Protocol.TablesOf(p.Other(), left, right),
                              s.At(p).ran)
  {
    hide Sound, Settled, WorkMatches, Protocol.Inv, Protocol.Safe;
    hide Trace.Over, Trace.RanOwn, Trace.CallsOf, Trace.TraceOf;
    var s, trace := ApplyAll(setup, Init(left, right), steps), TraceOf(setup, Init(left, right), steps);
    var init := Protocol.Init(left, right);
    var run := BytesKeepPromises(setup, left, right, steps);
    var a := Protocol.ApplyAll(init, setup.accepts, run);
    Protocol.InvInit(left, right, setup.accepts);
    Protocol.InvRun(init, setup.accepts, run);
    SettledAnswered(setup, s, a);
    forall p: Peer, k: nat | k < s.At(p).calls
      ensures k < |Trace.CallsOf(trace, p)|
      ensures Trace.Over(trace, p, k, setup.accepts(p.Other()), Protocol.TablesOf(p.Other(), left, right),
                         s.At(p).ran)
    {
      assert SideMatches(s.At(p), a.At(p));
      Trace.RunRanOwn(left, right, setup.accepts, run, p);
      Trace.RecordedOver(a, setup.accepts, p, k, trace);
      Trace.ServicesStay(init, setup.accepts, run, p.Other());
    }
  }

  // ---- The end can always be reached ----

  predicate NoneFailed(pool: Pool.State) {
    forall i :: 0 <= i < |pool.phases| ==> !pool.phases[i].Failed?
  }

  /** No write has failed. */
  predicate Healthy(s: State) {
    NoneFailed(s.left.pool) && NoneFailed(s.right.pool)
  }

  /** A step that moves something on: no new call, and no transfer or read of nothing. */
  predicate Busy(step: Step) {
    match step
    case Call(_, _, _, _, _, _) => false
    case Write(_, w) => w.Transfer? ==> w.count > 0
    case Read(_, count) => count > 0
    case _ => true
  }

  predicate Failing(step: Step) {
    step.Write? && step.step.Fail?
  }

  /** An entry of the pool that has bytes to bring out. */
  lemma OwnerWaits(pool: Pool.State, d: nat) returns (i: nat)
    requires Tidy(pool) && NoneFailed(pool) && d < |pool.bodies|
    requires Pool.Out(pool.wire, d) != Frame(pool.bodies[d])
    ensures i < |pool.phases| && Pool.Owns(pool.phases[i], d)
    ensures Pool.EntryOk(pool.slots[i], pool.phases[i], pool.bodies, pool.wire)
    ensures !pool.phases[i].Idle? && !pool.phases[i].Failed? && |pool.slots| == |pool.phases|
  {
    hide Frame, Pool.Out, Wire.Laid, Pool.EntryOk;
    Pool.InvConserves(pool, d);
    i :| 0 <= i < |pool.phases| && Pool.Owns(pool.phases[i], d);
  }

  /** The send to go on with: the one midway if there is one, and then no other is. */
  lemma NextSend(pool: Pool.State) returns (d: nat)
    requires Tidy(pool) && !AllOut(pool)
    ensures d < |pool.bodies| && Pool.Out(pool.wire, d) != Frame(pool.bodies[d])
    ensures forall e: nat :: e != d ==> !Wire.Midway(pool, e)
  {
    hide Frame, Pool.Out, Pool.Inv, Wire.MarkedWire, Wire.MarkedFrames, Wire.Part;
    var order: seq<nat>, last: nat, k: nat :| Wire.Laid(pool, order, last, k);
    d :| d < |pool.bodies| && Pool.Out(pool.wire, d) != Frame(pool.bodies[d]);
    if k > 0 {
      d := last;
    }
    forall e: nat | e < |pool.bodies|
      ensures e != d ==> !Wire.Midway(pool, e)
      ensures e == d ==> Pool.Out(pool.wire, e) != Frame(pool.bodies[e])
    {
      Wire.LaidOut(pool, order, last, k, e);
    }
  }

  /** While a frame is not out, its send can go on without cutting into another. */
  lemma PoolProgress(pool: Pool.State) returns (w: Pool.Step)
    requires Tidy(pool) && NoneFailed(pool) && !AllOut(pool)
    ensures !w.Acquire? && !w.Fail? && (w.Transfer? ==> w.count > 0)
    ensures Pool.Enabled(pool, w) && Wire.Clean(pool, w)
  {
    hide Frame, Pool.Out, Tidy, Wire.Midway;
    var d := NextSend(pool);
    var i := OwnerWaits(pool, d);
    match pool.phases[i]
    case Acquired(_) => w := Pool.Fill(i);
    case Writing(_, handed) => w := Pool.Transfer(i, |handed|);
    case _ => w := Pool.Complete(i);
  }

  /** Replies without a result are small. */
  predicate SmallReply(setup: Setup, id: uint64, error: ErrorCode) {
    BodyFits(setup.ser(ErrorReply(id, error)))
  }

  ghost predicate SmallReplies(setup: Setup) {
    forall id, error :: SmallReply(setup, id, error)
  }

  /** One actual serialization has small replies: 14 bytes each. */
  lemma ConcreteSmall(accepts: Protocol.Parsers)
    ensures SmallReplies(Setup(accepts, MessageCodec.Serialize, MessageCodec.Parse))
  {
    hide SmallReply;
    forall id, error
      ensures SmallReply(Setup(accepts, MessageCodec.Serialize, MessageCodec.Parse), id, error)
    {
      ReplySize(accepts, id, error);
    }
  }

  lemma ReplySize(accepts: Protocol.Parsers, id: uint64, error: ErrorCode)
    ensures |MessageCodec.Serialize(ErrorReply(id, error))| == 14
    ensures SmallReply(Setup(accepts, MessageCodec.Serialize, MessageCodec.Parse), id, error)
  {
    hide BigEndian;
  }

  /** In a sound state without failed writes something can always be done, unless everything has come through. */
  lemma Progress(setup: Setup, s: State) returns (step: Step)
    requires Sound(s) && Healthy(s) && !Settled(s) && SmallReplies(setup)
    ensures Enabled(s, step) && Good(setup, s, step) && Busy(step) && !Failing(step)
  {
    hide Sound, Enabled, Good, Settled, Healthy, SmallReplies;
    var p := Waiting(s);
    if s.At(p).jobs != [] {
      step := Finish(p, 0, []);
      CanFinish(setup, s, p);
    } else if s.At(p).todo != [] {
      step := Handle(p);
      CanHandle(setup, s, p);
    } else if s.At(p).read != |s.Incoming(p)| {
      step := CanRead(setup, s, p);
    } else {
      step := CanWrite(setup, s, p);
    }
  }

  lemma Waiting(s: State) returns (p: Peer)
    requires !Settled(s)
    ensures s.At(p).jobs != [] || s.At(p).todo != [] || s.At(p).read != |s.Incoming(p)| || !AllOut(s.At(p).pool)
  {
    hide AllOut, Wire.WireBytes;
    p :| !(&& s.At(p).jobs == [] && s.At(p).todo == [] && s.At(p).read == |s.Incoming(p)| && AllOut(s.At(p).pool));
  }

  lemma SoundReady(s: State)
    requires Sound(s)
    ensures EverythingFits(s) && !s.crashed
    ensures forall p: Peer :: Ready(s.At(p).pool) && s.At(p).read <= |s.Incoming(p)| && Tidy(s.At(p).pool)
  {
  }

  lemma CanRead(setup: Setup, s: State, p: Peer) returns (step: Step)
    requires Sound(s) && s.At(p).todo == [] && s.At(p).read != |s.Incoming(p)|
    ensures Enabled(s, step) && Good(setup, s, step) && Busy(step) && !Failing(step)
  {
    hide Sound, Tidy, Wire.WireBytes, NextRead, Apply;
    SoundReady(s);
    step := Read(p, |s.Incoming(p)| - s.At(p).read);
    ReadApplied(setup, s, p, step.count);
  }

  lemma CanWrite(setup: Setup, s: State, p: Peer) returns (step: Step)
    requires Sound(s) && Healthy(s) && !AllOut(s.At(p).pool)
    ensures Enabled(s, step) && Good(setup, s, step) && Busy(step) && !Failing(step)
  {
    hide Sound, AllOut, Tidy, Pool.Apply, Pool.Enabled, Wire.Clean, Apply;
    SoundReady(s);
    var w := PoolProgress(s.At(p).pool);
    step := Write(p, w);
    WriteApplied(setup, s, p, w);
    EndToEnd.BodiesStep(s.At(p).pool, w);
  }

  /** What a session does that sends nothing, or something small, leaves everything fitting. */
  lemma FitDid(setup: Setup, s: State, p: Peer, end: End, r: Reaction)
    requires EverythingFits(s) && Ready(end.pool) && end.pool == s.At(p).pool
    requires r.sent == [] || (|r.sent| == 1 && BodyFits(setup.ser(r.sent[0])))
    ensures EverythingFits(s.With(p, Did(setup, end, r)))
  {
    hide Post;
    var bodies := SerializeAll(setup.ser, r.sent);
    PostKeeps(end.pool, bodies);
    SerializeOne(setup.ser, r.sent);
    FitTogether(end.pool.bodies, bodies);
  }

  lemma SerializeOne(ser: RpcMessage -> seq<byte>, msgs: seq<RpcMessage>)
    requires |msgs| <= 1
    ensures SerializeAll(ser, msgs) == if msgs == [] then [] else [ser(msgs[0])]
  {
  }

  lemma FitTogether(a: seq<seq<byte>>, b: seq<seq<byte>>)
    requires AllBodiesFit(a) && AllBodiesFit(b)
    ensures AllBodiesFit(a + b)
  {
  }

  lemma Fits(setup: Setup, id: uint64, error: ErrorCode)
    requires SmallReply(setup, id, error)
    ensures BodyFits(setup.ser(ErrorReply(id, error)))
  {
  }

  lemma CanFinish(setup: Setup, s: State, p: Peer)
    requires Sound(s) && SmallReplies(setup) && s.At(p).jobs != []
    ensures Enabled(s, Finish(p, 0, [])) && Good(setup, s, Finish(p, 0, []))
  {
    hide Sound, Did, Tidy, Apply, SmallReply;
    SoundReady(s);
    FinishApplied(setup, s, p, 0, []);
    var end := s.At(p);
    assert SmallReply(setup, Widen(end.jobs[0].id), INVALID_REQUEST);
    Fits(setup, Widen(end.jobs[0].id), INVALID_REQUEST);
    FitDid(setup, s, p, WithoutJob(end, 0), Reaction(end.session, [DoneReply(end.jobs[0].id, [])], [], []));
  }

  lemma CanHandle(setup: Setup, s: State, p: Peer)
    requires Sound(s) && SmallReplies(setup) && s.At(p).todo != []
    ensures Enabled(s, Handle(p)) && Good(setup, s, Handle(p))
  {
    hide Sound, Did, Tidy, OnMessage, Apply, SmallReplies, Messages, Wire.WireBytes;
    SoundReady(s);
    NextIsMessage(s, p);
    HandleApplied(setup, s, p);
    var end := s.At(p);
    var msg := setup.parse(end.todo[0].body);
    RepliesSmall(setup, end.session, setup.accepts(p), msg);
    FitDid(setup, s, p, NextHandled(end), OnMessage(end.session, setup.accepts(p), msg));
  }

  lemma RepliesSmall(setup: Setup, session: Session, accepts: RequestParser, msg: RpcMessage)
    requires SmallReplies(setup)
    ensures var r := OnMessage(session, accepts, msg);
            r.sent == [] || (|r.sent| == 1 && BodyFits(setup.ser(r.sent[0])))
  {
    var error := Dispatch(session.services, accepts, msg.service, msg.rpc, msg.request);
    hide Dispatch;
    assert SmallReply(setup, msg.id, error);
  }

  // ---- Nothing goes on for ever ----

  /** What an entry still has to do: twice for each byte to bring out, and once for what comes between. */
  function Effort(phase: Pool.Phase, bodies: seq<seq<byte>>): nat {
    match phase
    case Acquired(d) => if d < |bodies| then 2 * |Frame(bodies[d])| + 1 else 0
    case Writing(_, handed) => 2 * |handed|
    case Transferred(_, handed, count) => if count <= |handed| then 2 * (|handed| - count) + 1 else 0
    case _ => 0
  }

  function EffortAll(phases: seq<Pool.Phase>, bodies: seq<seq<byte>>): nat {
    if phases == [] then 0
    else EffortAll(phases[..|phases| - 1], bodies) + Effort(phases[|phases| - 1], bodies)
  }

  lemma {:induction false} EffortUpdate(phases: seq<Pool.Phase>, bodies: seq<seq<byte>>, i: nat, phase: Pool.Phase)
    requires i < |phases|
    ensures EffortAll(phases[i := phase], bodies) + Effort(phases[i], bodies) ==
            EffortAll(phases, bodies) + Effort(phase, bodies)
    decreases |phases|
  {
    hide Effort;
    var n := |phases| - 1;
    if i < n {
      EffortUpdate(phases[..n], bodies, i, phase);
      assert phases[i := phase][..n] == phases[..n][i := phase];
    } else {
      assert phases[i := phase][..n] == phases[..n];
    }
  }

  /** Every step of a send but its start brings it further. */
  lemma EffortFalls(pool: Pool.State, w: Pool.Step)
    requires Pool.Inv(pool) && Pool.Enabled(pool, w) && !w.Acquire? && (w.Transfer? ==> w.count > 0)
    ensures var after := Pool.Apply(pool, w);
            EffortAll(after.phases, after.bodies) < EffortAll(pool.phases, pool.bodies)
  {
    hide EffortAll, Effort, Pool.Apply, Pool.Inv, Pool.Enabled;
    var after, i := Pool.Apply(pool, w), w.entry;
    EntryStep(pool, w);
    EffortUpdate(pool.phases, pool.bodies, i, after.phases[i]);
  }

  lemma EntryStep(pool: Pool.State, w: Pool.Step)
    requires Pool.Inv(pool) && Pool.Enabled(pool, w) && !w.Acquire? && (w.Transfer? ==> w.count > 0)
    ensures var after, i := Pool.Apply(pool, w), w.entry;
            && i < |pool.phases| == |after.phases| && after.bodies == pool.bodies
            && after.phases == pool.phases[i := after.phases[i]]
            && Effort(after.phases[i], pool.bodies) < Effort(pool.phases[i], pool.bodies)
  {
    hide Frame, Pool.Out, PoolSpec.Fill, PoolSpec.HasPrependRoom, PoolSpec.Acquire;
    var i := w.entry;
    assert Pool.EntryOk(pool.slots[i], pool.phases[i], pool.bodies, pool.wire);
    if w.Fill? {
      PoolSpec.FillFresh(pool.slots[i].buf, pool.bodies[pool.phases[i].send]);
    }
  }

  function Unread(s: State, p: Peer): nat {
    if s.At(p).read <= |s.Incoming(p)| then |s.Incoming(p)| - s.At(p).read else 0
  }

  function UnreadAll(s: State): nat {
    Unread(s, Protocol.Left) + Unread(s, Protocol.Right)
  }

  function EffortOf(s: State): nat {
    EffortAll(s.left.pool.phases, s.left.pool.bodies) + EffortAll(s.right.pool.phases, s.right.pool.bodies)
  }

  /** Less work in flight; or as much, and less to bring out; or as much of both, and less to read. */
  predicate Lower(t: State, b: Protocol.State, s: State, a: Protocol.State) {
    var before, after := Protocol.Weight(a.work), Protocol.Weight(b.work);
    || after < before
    || (after == before && EffortOf(t) < EffortOf(s))
    || (after == before && EffortOf(t) == EffortOf(s) && UnreadAll(t) < UnreadAll(s))
  }

  /** Where two ends stand in a run over bytes, and where `Protocol` stands. */
  ghost predicate Standing(setup: Setup, s: State, a: Protocol.State) {
    Lawful(setup) && Sound(s) && Matches(setup, s, a) && Protocol.Inv(a, setup.accepts)
  }

  lemma MoveFalls(setup: Setup, s: State, step: Step)
    requires Sound(s) && Enabled(s, step) && Busy(step) && (step.Write? || step.Read?)
    requires !Apply(setup, s, step).crashed
    ensures var t := Apply(setup, s, step);
            EffortOf(t) < EffortOf(s) || (EffortOf(t) == EffortOf(s) && UnreadAll(t) < UnreadAll(s))
  {
    hide EffortAll, Tidy, Parse, Wire.WireBytes, Pool.Apply, Pool.Enabled;
    if step.Write? {
      TidyInv(s.At(step.p).pool);
      EffortFalls(s.At(step.p).pool, step.step);
    }
  }

  lemma TidyInv(pool: Pool.State)
    requires Tidy(pool)
    ensures Pool.Inv(pool)
  {
  }

  /** Every step but a call lowers the measure. */
  lemma Falls(setup: Setup, s: State, a: Protocol.State, step: Step) returns (b: Protocol.State)
    requires Standing(setup, s, a) && Enabled(s, step) && Good(setup, s, step) && Busy(step)
    ensures Standing(setup, Apply(setup, s, step), b) && Lower(Apply(setup, s, step), b, s, a)
  {
    hide Lawful, Sound, Matches, Protocol.Inv, Enabled, Good, Apply, EffortOf, UnreadAll, Protocol.Weight;
    var run := StepSim(setup, s, a, step);
    b := Protocol.ApplyAll(a, setup.accepts, run);
    Protocol.InvRun(a, setup.accepts, run);
    if step.Write? || step.Read? {
      assert b == a;
      NotCrashed(Apply(setup, s, step));
      MoveFalls(setup, s, step);
    } else {
      Protocol.DrainBound(a, setup.accepts, run);
    }
  }

  lemma NotCrashed(s: State)
    requires Sound(s)
    ensures !s.crashed
  {
  }

  lemma PoolHealthy(pool: Pool.State, w: Pool.Step)
    requires NoneFailed(pool) && Pool.Enabled(pool, w) && !w.Fail?
    ensures NoneFailed(Pool.Apply(pool, w))
  {
    hide PoolSpec.Fill, PoolSpec.HasPrependRoom, PoolSpec.Acquire, PoolSpec.Written;
  }

  lemma {:induction false} PostHealthy(pool: Pool.State, bodies: seq<seq<byte>>)
    requires Ready(pool) && NoneFailed(pool)
    ensures NoneFailed(Post(pool, bodies))
    decreases |bodies|
  {
    hide NoneFailed, Pool.Apply;
    if bodies != [] {
      PoolHealthy(pool, Pool.Acquire(bodies[0]));
      AcquireReady(pool, bodies[0]);
      PostHealthy(Pool.Apply(pool, Pool.Acquire(bodies[0])), bodies[1..]);
    }
  }

  lemma AcquireReady(pool: Pool.State, body: seq<byte>)
    requires Ready(pool)
    ensures Ready(Pool.Apply(pool, Pool.Acquire(body)))
  {
  }

  lemma HealthyStep(setup: Setup, s: State, step: Step)
    requires Healthy(s) && Enabled(s, step) && !Failing(step)
    ensures Healthy(Apply(setup, s, step))
  {
    hide NoneFailed, Post, OnMessage, NextRead, SerializeAll, Pool.Apply;
    var end := s.At(step.p);
    match step
    case Write(_, w) => PoolHealthy(end.pool, w);
    case Read(_, _) =>
    case Call(_, _, _, _, _, _) => PostHealthy(end.pool, SerializeAll(setup.ser, Started(end, step).sent));
    case Finish(_, j, result) => PostHealthy(end.pool, SerializeAll(setup.ser, [DoneReply(end.jobs[j].id, result)]));
    case Handle(p) =>
      if end.todo[0].Message? {
        var r := OnMessage(end.session, setup.accepts(p), setup.parse(end.todo[0].body));
        PostHealthy(end.pool, SerializeAll(setup.ser, r.sent));
      }
  }

  /** Steps that all move something on, none of them a failure. */
  predicate Steady(steps: seq<Step>) {
    forall i :: 0 <= i < |steps| ==> Busy(steps[i]) && !Failing(steps[i])
  }

  lemma {:induction false} CanSettle(setup: Setup, s: State, a: Protocol.State) returns (more: seq<Step>)
    requires Standing(setup, s, a) && Healthy(s) && SmallReplies(setup)
    ensures EnabledAll(setup, s, more) && GoodAll(setup, s, more) && Steady(more)
    ensures Settled(ApplyAll(setup, s, more))
    decreases Protocol.Weight(a.work), EffortOf(s), UnreadAll(s)
  {
    hide Apply, Enabled, Good, Settled, Healthy, SmallReplies, Sound, EffortOf, UnreadAll, Protocol.Weight, Matches;
    if Settled(s) {
      more := [];
    } else {
      var step := Progress(setup, s);
      var b := Falls(setup, s, a, step);
      HealthyStep(setup, s, step);
      var rest := CanSettle(setup, Apply(setup, s, step), b);
      more := [step] + rest;
      assert more[1..] == rest;
    }
  }

  /** The run so far gives both ends a place in `Protocol`. */
  lemma Reached(setup: Setup, left: Services, right: Services, steps: seq<Step>) returns (a: Protocol.State)
    requires Lawful(setup)
    requires EnabledAll(setup, Init(left, right), steps) && GoodAll(setup, Init(left, right), steps)
    ensures Standing(setup, ApplyAll(setup, Init(left, right), steps), a)
  {
    hide Sound, Matches, Protocol.Inv;
    var init := Protocol.Init(left, right);
    InitSound(setup, left, right);
    var run := RunSim(setup, Init(left, right), init, steps);
    Protocol.InvInit(left, right, setup.accepts);
    Protocol.InvRun(init, setup.accepts, run);
    a := Protocol.ApplyAll(init, setup.accepts, run);
  }

  /**
   No run gets stuck: from wherever a run in which no write failed has come, the steps that remain, with no
   new call and no failure, can bring everything through.
   */
  lemma AlwaysSettles(setup: Setup, left: Services, right: Services, steps: seq<Step>) returns (more: seq<Step>)
    requires Lawful(setup) && SmallReplies(setup)
    requires EnabledAll(setup, Init(left, right), steps) && GoodAll(setup, Init(left, right), steps)
    requires Healthy(ApplyAll(setup, Init(left, right), steps))
    ensures Steady(more)
    ensures EnabledAll(setup, Init(left, right), steps + more) && GoodAll(setup, Init(left, right), steps + more)
    ensures Settled(ApplyAll(setup, Init(left, right), steps + more))
  {
    hide Settled, Healthy, SmallReplies, Standing, Steady;
    var a := Reached(setup, left, right, steps);
    more := CanSettle(setup, ApplyAll(setup, Init(left, right), steps), a);
    StepsConcat(setup, Init(left, right), steps, more);
  }

  // ---- Endless schedules ----

  function Later(next: nat -> Step): nat -> Step {
    (i: nat) => next(i + 1)
  }

  function First(next: nat -> Step, n: nat): seq<Step> {
    if n == 0 then [] else [next(0)] + First(Later(next), n - 1)
  }

  predicate BusyAll(steps: seq<Step>) {
    forall i :: 0 <= i < |steps| ==> Busy(steps[i])
  }

  ghost predicate Goes(setup: Setup, s: State, steps: seq<Step>) {
    EnabledAll(setup, s, steps) && GoodAll(setup, s, steps) && BusyAll(steps)
  }

  lemma {:induction false} Ends(setup: Setup, s: State, a: Protocol.State, next: nat -> Step) returns (n: nat)
    requires Standing(setup, s, a)
    ensures !Goes(setup, s, First(next, n))
    decreases Protocol.Weight(a.work), EffortOf(s), UnreadAll(s)
  {
    hide Apply, Enabled, Good, Busy, Standing, EffortOf, UnreadAll, Protocol.Weight;
    if Enabled(s, next(0)) && Good(setup, s, next(0)) && Busy(next(0)) {
      var b := Falls(setup, s, a, next(0));
      var m := Ends(setup, Apply(setup, s, next(0)), b, Later(next));
      n := m + 1;
    } else {
      n := 1;
    }
    assert First(next, n) == [next(0)] + First(Later(next), n - 1);
    assert First(next, n)[1..] == First(Later(next), n - 1);
    assert BusyAll(First(next, n)) ==> Busy(First(next, n)[0]) && BusyAll(First(next, n)[1..]);
  }

  /** Nor does a run go on for ever without new calls: every endless schedule stops somewhere. */
  lemma NeverEndless(setup: Setup, left: Services, right: Services, steps: seq<Step>, next: nat -> Step)
    returns (n: nat)
    requires Lawful(setup)
    requires EnabledAll(setup, Init(left, right), steps) && GoodAll(setup, Init(left, right), steps)
    ensures !Goes(setup, ApplyAll(setup, Init(left, right), steps), First(next, n))
  {
    hide Goes, Standing;
    var a := Reached(setup, left, right, steps);
    n := Ends(setup, ApplyAll(setup, Init(left, right), steps), a, next);
  }
}
