/** From the messages sent to the callbacks made: pool, wire, arbitrary cutting, decoder. */
module EndToEnd {
  import opened Bytes
  import opened Framing
  import opened Pool
  import opened Wire
  import PoolSpec

  function Pick<T>(xs: seq<T>, order: seq<nat>): (r: seq<T>)
    requires Known(order, |xs|)
    ensures |r| == |order|
  {
    seq(|order|, i requires 0 <= i < |order| => xs[order[i]])
  }

  lemma StripConcat(a: Marked, b: Marked)
    ensures Strip(a + b) == Strip(a) + Strip(b)
  {
  }

  lemma StripMark(d: nat, bytes: seq<byte>)
    ensures Strip(Mark(d, bytes)) == bytes
  {
  }

  lemma {:induction false} FrameAllAppend(bodies: seq<seq<byte>>, body: seq<byte>)
    ensures FrameAll(bodies + [body]) == FrameAll(bodies) + Frame(body)
  {
    hide Frame;
    if bodies == [] {
      assert FrameAll([body]) == Frame(body) + FrameAll([]) == Frame(body);
    } else {
      assert (bodies + [body])[1..] == bodies[1..] + [body];
      FrameAllAppend(bodies[1..], body);
    }
  }

  lemma {:induction false} StripFrames(bodies: seq<seq<byte>>, order: seq<nat>)
    requires Known(order, |bodies|)
    ensures Strip(MarkedFrames(bodies, order)) == FrameAll(Pick(bodies, order))
    decreases |order|
  {
    hide Frame;
    if order != [] {
      var init, last := order[..|order| - 1], order[|order| - 1];
      StripFrames(bodies, init);
      StripConcat(MarkedFrames(bodies, init), Mark(last, Frame(bodies[last])));
      StripMark(last, Frame(bodies[last]));
      FrameAllAppend(Pick(bodies, init), bodies[last]);
      assert Pick(bodies, order) == Pick(bodies, init) + [bodies[last]];
    }
  }

  /** What the receiver makes of a wire of whole frames, however it is cut into reads. */
  lemma LaidDecoded(s: State, order: seq<nat>, d: nat, k: nat, chunks: seq<seq<byte>>)
    requires Laid(s, order, d, k) && AllBodiesFit(s.bodies)
    requires Flatten(chunks) == WireBytes(s.wire)
    ensures Feed([], chunks) ==
            Parsed(Messages(Pick(s.bodies, order)), if k == 0 then [] else Frame(s.bodies[d])[..k], false)
  {
    hide Frame, Parse, Mark;
    var part := if k == 0 then [] else Frame(s.bodies[d])[..k];
    StripFrames(s.bodies, order);
    StripConcat(MarkedFrames(s.bodies, order), Part(s.bodies, d, k));
    assert Strip(Part(s.bodies, d, k)) == part by {
      if k > 0 { StripMark(d, part); }
    }
    FramesThen(Pick(s.bodies, order), part);
    assert Parse(part) == Parsed([], part, false) by {
      if k == 0 { RoundTrip([]); } else { PartialFrameWaits(s.bodies[d], k); }
    }
    assert Messages(Pick(s.bodies, order)) + [] == Messages(Pick(s.bodies, order));
    ChunkIndependence(chunks);
    NotUndefined(Feed([], chunks));
  }

  /**
   For every clean run, at any moment of it, and every cutting of the wire into reads: the callbacks are
   the messages of exactly the sends whose frame is out, each once, none null; and when every
   send has been released, that is all of them and nothing is left in the input buffer.
   */
  lemma CleanDelivery(steps: seq<Step>, chunks: seq<seq<byte>>) returns (order: seq<nat>)
    requires EnabledAll(Init(), steps) && CleanAll(Init(), steps)
    requires AllBodiesFit(ApplyAll(Init(), steps).bodies)
    requires Flatten(chunks) == WireBytes(ApplyAll(Init(), steps).wire)
    ensures var s := ApplyAll(Init(), steps);
            && Distinct(order) && Known(order, |s.bodies|)
            && (forall e: nat :: e < |s.bodies| ==> (e in order <==> Out(s.wire, e) == Frame(s.bodies[e])))
            && Feed([], chunks).events == Messages(Pick(s.bodies, order))
            && !Feed([], chunks).undefined
            && ((forall e: nat :: e < |s.bodies| ==> Released(s, e)) ==>
                  Feed([], chunks).rest == [] && forall e: nat :: e < |s.bodies| ==> e in order)
  {
    hide Frame, Out, Parse, Inv, Laid, Feed, Messages, Pick, Released, WireBytes, CleanAll;
    InvInit();
    InitLaid();
    var s := ApplyAll(Init(), steps);
    var d, k;
    order, d, k := CleanRunLaid(Init(), steps, [], 0, 0);
    LaidShape(s, order, d, k);
    LaidDecoded(s, order, d, k, chunks);
    forall e: nat | e < |s.bodies|
      ensures e in order <==> Out(s.wire, e) == Frame(s.bodies[e])
      ensures Released(s, e) ==> e in order
      ensures k > 0 && e == d ==> !Released(s, e)
    {
      SendOut(s, order, d, k, e);
    }
  }

  lemma InitLaid()
    ensures Laid(Init(), [], 0, 0)
  {
  }

  lemma LaidShape(s: State, order: seq<nat>, d: nat, k: nat)
    requires Laid(s, order, d, k)
    ensures Distinct(order) && Known(order, |s.bodies|)
    ensures k > 0 ==> d < |s.bodies|
  {
  }

  /** Whether a send is out in full, from where it stands on the wire. */
  lemma SendOut(s: State, order: seq<nat>, d: nat, k: nat, e: nat)
    requires Inv(s) && Laid(s, order, d, k) && e < |s.bodies|
    ensures e in order <==> Out(s.wire, e) == Frame(s.bodies[e])
    ensures Released(s, e) ==> e in order
    ensures k > 0 && e == d ==> !Released(s, e)
  {
    hide Frame, Out, MarkedWire, MarkedFrames, Part, Inv;
    LaidOut(s, order, d, k, e);
    FrameNotEmpty(s.bodies[e]);
    InvConserves(s, e);
  }

  // ---- One send at a time ----

  /** A send starts only when the pool is idle: the previous frame has drained. */
  predicate Serial(s: State, steps: seq<Step>)
    requires EnabledAll(s, steps)
    decreases |steps|
  {
    steps == [] || ((steps[0].Acquire? ==> Busy(s.slots) == 0) && Serial(Apply(s, steps[0]), steps[1..]))
  }

  predicate Counting(order: seq<nat>) {
    forall i :: 0 <= i < |order| ==> order[i] == i
  }

  /** With one send at a time: one entry, and frames on the wire in the order of the sends. */
  predicate InOrder(s: State, order: seq<nat>, d: nat, k: nat) {
    && |s.slots| == |s.phases| == 1
    && Laid(s, order, d, k) && Counting(order)
    && (k > 0 ==> d == |s.bodies| - 1)
    && (s.phases[0].Idle? ==> k == 0 && |order| == |s.bodies|)
    && (!s.phases[0].Idle? ==> s.phases[0].send == |s.bodies| - 1 && |s.bodies| - 1 <= |order|)
  }

  lemma InOrderClean(s: State, step: Step, order: seq<nat>, d: nat, k: nat)
    requires Inv(s) && InOrder(s, order, d, k) && Enabled(s, step)
    ensures Clean(s, step)
  {
    hide Frame, Out, Laid;
    if step.Transfer? && step.count > 0 {
      forall e: nat | e != s.phases[step.entry].send && e < |s.bodies|
        ensures !Midway(s, e)
      {
        assert order[e] == e;
        LaidOut(s, order, d, k, e);
      }
    }
  }

  lemma CountedOnce(order: seq<nat>, e: nat)
    requires Counting(order)
    ensures e < |order| ==> !Distinct(order + [e])
  {
    if e < |order| {
      assert (order + [e])[e] == (order + [e])[|order|];
    }
  }

  lemma InOrderTransfer(s: State, i: nat, count: nat, order: seq<nat>, d: nat, k: nat)
    returns (order': seq<nat>, d': nat, k': nat)
    requires Inv(s) && InOrder(s, order, d, k) && Enabled(s, Transfer(i, count))
    ensures InOrder(Apply(s, Transfer(i, count)), order', d', k')
  {
    hide Frame, Out, MarkedWire, MarkedFrames, Part, Inv;
    InOrderClean(s, Transfer(i, count), order, d, k);
    order', d', k' := LaidStep(s, Transfer(i, count), order, d, k);
    TransferFacts(s, i, count);
    var e := s.phases[0].send;
    if order' == order + [e] {
      CountedOnce(order, e);
      assert |order| == e;
    }
  }

  lemma InOrderComplete(s: State, i: nat, order: seq<nat>, d: nat, k: nat)
    requires Inv(s) && InOrder(s, order, d, k) && Enabled(s, Complete(i))
    ensures InOrder(Apply(s, Complete(i)), order, d, k)
  {
    hide Frame, Out, MarkedWire, MarkedFrames, Part, PoolSpec.Written;
    var t, e := Apply(s, Complete(i)), s.phases[0].send;
    InvComplete(s, i);
    assert EntryOk(s.slots[0], s.phases[0], s.bodies, s.wire);
    assert EntryOk(t.slots[0], t.phases[0], t.bodies, t.wire);
    LaidOut(s, order, d, k, e);
    FrameNotEmpty(s.bodies[e]);
    if t.phases[0].Idle? {
      CountedTo(order, e, |s.bodies|);
      assert k > 0 ==> d in order;
    }
  }

  lemma CountedTo(order: seq<nat>, e: nat, n: nat)
    requires Counting(order) && Known(order, n) && e in order && e == n - 1
    ensures |order| == n
  {
    var at :| 0 <= at < |order| && order[at] == e;
    assert order[at] == at && order[|order| - 1] == |order| - 1;
  }

  lemma InOrderStep(s: State, step: Step, order: seq<nat>, d: nat, k: nat)
    returns (order': seq<nat>, d': nat, k': nat)
    requires Inv(s) && InOrder(s, order, d, k) && Enabled(s, step)
    requires step.Acquire? ==> Busy(s.slots) == 0
    ensures Clean(s, step)
    ensures InOrder(Apply(s, step), order', d', k')
  {
    hide Frame, Out, MarkedWire, MarkedFrames, Part, PoolSpec.Fill, PoolSpec.HasPrependRoom, PoolSpec.Written;
    InOrderClean(s, step, order, d, k);
    match step
    case Transfer(i, count) =>
      order', d', k' := InOrderTransfer(s, i, count, order, d, k);
    case Complete(i) =>
      order', d', k' := order, d, k;
      InOrderComplete(s, i, order, d, k);
    case _ =>
      assert EntryOk(s.slots[0], s.phases[0], s.bodies, s.wire);
      order', d', k' := LaidStep(s, step, order, d, k);
  }

  lemma {:induction false} InOrderRun(s: State, steps: seq<Step>, order: seq<nat>, d: nat, k: nat)
    returns (order': seq<nat>, d': nat, k': nat)
    requires Inv(s) && InOrder(s, order, d, k)
    requires EnabledAll(s, steps) && Serial(s, steps)
    ensures CleanAll(s, steps) && InOrder(ApplyAll(s, steps), order', d', k')
    decreases |steps|
  {
    hide Apply, Enabled, Clean, Inv, InOrder;
    order', d', k' := order, d, k;
    if steps != [] {
      order', d', k' := InOrderStep(s, steps[0], order, d, k);
      InvStep(s, steps[0]);
      order', d', k' := InOrderRun(Apply(s, steps[0]), steps[1..], order', d', k');
    }
  }

  /** The messages of the run, in the order of the `send_rpc_msg` calls. */
  function Sent(steps: seq<Step>): seq<seq<byte>> {
    if steps == [] then []
    else (if steps[0].Acquire? then [steps[0].body] else []) + Sent(steps[1..])
  }

  lemma {:induction false} SentBodies(s: State, steps: seq<Step>)
    requires EnabledAll(s, steps)
    ensures ApplyAll(s, steps).bodies == s.bodies + Sent(steps)
    decreases |steps|
  {
    hide Apply, Enabled;
    if steps != [] {
      BodiesStep(s, steps[0]);
      SentBodies(Apply(s, steps[0]), steps[1..]);
    }
  }

  lemma BodiesStep(s: State, step: Step)
    requires Enabled(s, step)
    ensures Apply(s, step).bodies == s.bodies + if step.Acquire? then [step.body] else []
  {
    hide PoolSpec.Fill, PoolSpec.HasPrependRoom, PoolSpec.Written, PoolSpec.Acquire;
  }

  /**
   The end-to-end law. For every sequence of messages, every partial-write schedule that drains one
   frame before the next send starts, and every cutting at the receiver, the callbacks are exactly
   those messages in order, all intact, the input buffer ends empty, and one pool entry suffices.
   */
  lemma Delivery<M>(ser: M -> seq<byte>, parse: seq<byte> -> M, msgs: seq<M>, steps: seq<Step>, chunks: seq<seq<byte>>)
    requires forall i :: 0 <= i < |msgs| ==> parse(ser(msgs[i])) == msgs[i] && BodyFits(ser(msgs[i]))
    requires EnabledAll(Init(), steps) && Serial(Init(), steps)
    requires |Sent(steps)| == |msgs| && forall i :: 0 <= i < |msgs| ==> Sent(steps)[i] == ser(msgs[i])
    requires var s := ApplyAll(Init(), steps); Busy(s.slots) == 0 && Flatten(chunks) == WireBytes(s.wire)
    ensures CleanAll(Init(), steps) && |ApplyAll(Init(), steps).slots| == 1
    ensures var f := Feed([], chunks);
            && !f.undefined && f.rest == [] && |f.events| == |msgs|
            && forall i :: 0 <= i < |msgs| ==> f.events[i].Message? && parse(f.events[i].body) == msgs[i]
  {
    hide Frame, Out, Parse, Laid, CleanAll, Apply, Enabled, Serial, Messages, Feed;
    InvInit();
    var s := ApplyAll(Init(), steps);
    InitInOrder();
    var order, d, k := InOrderRun(Init(), steps, [], 0, 0);
    InvRun(Init(), steps);
    assert EntryOk(s.slots[0], s.phases[0], s.bodies, s.wire);
    SentBodies(Init(), steps);
    assert s.bodies == Sent(steps);
    assert Known(order, |s.bodies|) by { LaidKnown(s, order, d, k); }
    assert Pick(s.bodies, order) == s.bodies;
    LaidDecoded(s, order, d, k, chunks);
  }

  lemma InitInOrder()
    ensures InOrder(Init(), [], 0, 0)
  {
  }

  lemma LaidKnown(s: State, order: seq<nat>, d: nat, k: nat)
    requires Laid(s, order, d, k)
    ensures Known(order, |s.bodies|)
  {
  }
}
