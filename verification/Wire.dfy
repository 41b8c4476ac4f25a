/**
 What the wire carries when partial writes of different frames may interleave, exactly which
 schedules keep frames whole, and what the receiver makes of the result.
 */
module Wire {
  import opened Bytes
  import PoolSpec
  import opened Framing
  import opened Pool

  /** Each byte on the wire together with the send it belongs to. */
  type Marked = seq<(nat, byte)>

  function Mark(d: nat, bytes: seq<byte>): (m: Marked)
    ensures |m| == |bytes|
  {
    seq(|bytes|, i requires 0 <= i < |bytes| => (d, bytes[i]))
  }

  function MarkedWire(wire: seq<Chunk>): Marked {
    if wire == [] then []
    else MarkedWire(wire[..|wire| - 1]) + Mark(wire[|wire| - 1].send, wire[|wire| - 1].bytes)
  }

  function Strip(m: Marked): (s: seq<byte>)
    ensures |s| == |m|
  {
    seq(|m|, i requires 0 <= i < |m| => m[i].1)
  }

  /** The byte stream the receiver sees. */
  function WireBytes(wire: seq<Chunk>): seq<byte> {
    Strip(MarkedWire(wire))
  }

  /** The bytes of one send, in order. */
  function Only(m: Marked, d: nat): seq<byte> {
    if m == [] then []
    else Only(m[..|m| - 1], d) + if m[|m| - 1].0 == d then [m[|m| - 1].1] else []
  }

  lemma {:induction false} OnlyConcat(a: Marked, b: Marked, d: nat)
    ensures Only(a + b, d) == Only(a, d) + Only(b, d)
    decreases |b|
  {
    if b == [] {
      assert a + b == a;
    } else {
      assert (a + b)[..|a + b| - 1] == a + b[..|b| - 1];
      OnlyConcat(a, b[..|b| - 1], d);
    }
  }

  lemma {:induction false} OnlyMark(e: nat, bytes: seq<byte>, d: nat)
    ensures Only(Mark(e, bytes), d) == if e == d then bytes else []
    decreases |bytes|
  {
    if bytes != [] {
      var init := bytes[..|bytes| - 1];
      assert Mark(e, bytes)[..|bytes| - 1] == Mark(e, init);
      OnlyMark(e, init, d);
      assert bytes == init + [bytes[|bytes| - 1]];
    }
  }

  lemma {:induction false} OnlyIsOut(wire: seq<Chunk>, d: nat)
    ensures Only(MarkedWire(wire), d) == Out(wire, d)
    decreases |wire|
  {
    if wire != [] {
      var init, last := wire[..|wire| - 1], wire[|wire| - 1];
      OnlyIsOut(init, d);
      OnlyConcat(MarkedWire(init), Mark(last.send, last.bytes), d);
      OnlyMark(last.send, last.bytes, d);
    }
  }

  // ---- Whole frames ----

  /** The frames of the listed sends, one after the other, every byte marked. */
  function MarkedFrames(bodies: seq<seq<byte>>, order: seq<nat>): Marked
    requires Known(order, |bodies|)
  {
    if order == [] then []
    else
      var last := order[|order| - 1];
      MarkedFrames(bodies, order[..|order| - 1]) + Mark(last, Frame(bodies[last]))
  }

  predicate Known(order: seq<nat>, n: nat) {
    forall i :: 0 <= i < |order| ==> order[i] < n
  }

  predicate Distinct(order: seq<nat>) {
    forall i, j :: 0 <= i < j < |order| ==> order[i] != order[j]
  }

  /**
   With each byte traced to its send, the wire is the frames of `order`, whole and one after the other, followed
   by the first `k` bytes, not all, of the frame of one more send `d` (nothing when `k` is 0).
   */
  predicate Laid(s: State, order: seq<nat>, d: nat, k: nat) {
    && Distinct(order)
    && Known(order, |s.bodies|)
    && (k > 0 ==> d < |s.bodies| && d !in order && k < |Frame(s.bodies[d])|)
    && MarkedWire(s.wire) == MarkedFrames(s.bodies, order) + Part(s.bodies, d, k)
  }

  function Part(bodies: seq<seq<byte>>, d: nat, k: nat): Marked
    requires k > 0 ==> d < |bodies| && k <= |Frame(bodies[d])|
  {
    if k == 0 then [] else Mark(d, Frame(bodies[d])[..k])
  }

  lemma OnlyNothing(d: nat)
    ensures Only([], d) == []
  {
  }

  lemma {:induction false} OnlyFrames(bodies: seq<seq<byte>>, order: seq<nat>, d: nat)
    requires Distinct(order) && Known(order, |bodies|)
    ensures Only(MarkedFrames(bodies, order), d) == if d in order then Frame(bodies[d]) else []
    decreases |order|
  {
    hide Frame, Only, Mark;
    if order == [] {
      OnlyNothing(d);
    } else {
      var init, last := order[..|order| - 1], order[|order| - 1];
      OnlyFrames(bodies, init, d);
      OnlyConcat(MarkedFrames(bodies, init), Mark(last, Frame(bodies[last])), d);
      OnlyMark(last, Frame(bodies[last]), d);
      assert order == init + [last];
    }
  }

  lemma OnlyPart(bodies: seq<seq<byte>>, e: nat, k: nat, d: nat)
    requires k > 0 ==> e < |bodies| && k <= |Frame(bodies[e])|
    ensures Only(Part(bodies, e, k), d) == if k > 0 && e == d then Frame(bodies[e])[..k] else []
  {
    if k > 0 { OnlyMark(e, Frame(bodies[e])[..k], d); }
  }

  /** In such a wire every send is out whole, not at all, or is the one at the end. */
  lemma LaidOut(s: State, order: seq<nat>, d: nat, k: nat, e: nat)
    requires Laid(s, order, d, k) && e < |s.bodies|
    ensures Out(s.wire, e) ==
            if e in order then Frame(s.bodies[e]) else if k > 0 && e == d then Frame(s.bodies[d])[..k] else []
  {
    hide Frame, Out;
    OnlyIsOut(s.wire, e);
    OnlyConcat(MarkedFrames(s.bodies, order), Part(s.bodies, d, k), e);
    OnlyFrames(s.bodies, order, e);
    OnlyPart(s.bodies, d, k, e);
  }

  // ---- Clean schedules ----

  /** Some but not all of the frame of `d` is on the wire. */
  predicate Midway(s: State, d: nat) {
    d < |s.bodies| && 0 < |Out(s.wire, d)| < |Frame(s.bodies[d])|
  }

  /** A transfer is clean unless the frame of another send is midway at that moment. */
  ghost predicate Clean(s: State, step: Step)
    requires Enabled(s, step)
  {
    step.Transfer? && step.count > 0 ==> forall d: nat :: d != s.phases[step.entry].send ==> !Midway(s, d)
  }

  ghost predicate CleanAll(s: State, steps: seq<Step>)
    requires EnabledAll(s, steps)
    decreases |steps|
  {
    steps == [] || (Clean(s, steps[0]) && CleanAll(Apply(s, steps[0]), steps[1..]))
  }

  lemma {:induction false} FramesExtend(bodies: seq<seq<byte>>, body: seq<byte>, order: seq<nat>)
    requires Known(order, |bodies|)
    ensures MarkedFrames(bodies + [body], order) == MarkedFrames(bodies, order)
    decreases |order|
  {
    hide Frame, Mark;
    if order != [] { FramesExtend(bodies, body, order[..|order| - 1]); }
  }

  /** What a transfer adds to the wire, and how far the frame was out before. */
  lemma TransferFacts(s: State, i: nat, count: nat)
    requires Inv(s) && Enabled(s, Transfer(i, count))
    ensures var e, handed := s.phases[i].send, s.phases[i].handed;
            && e < |s.bodies| && handed != []
            && Out(s.wire, e) + handed == Frame(s.bodies[e])
            && Apply(s, Transfer(i, count)) ==
               s.(phases := s.phases[i := Transferred(e, handed, count)], wire := s.wire + [Chunk(e, handed[..count])])
            && MarkedWire(s.wire + [Chunk(e, handed[..count])]) == MarkedWire(s.wire) + Mark(e, handed[..count])
  {
    hide Frame, Out;
    var e, handed := s.phases[i].send, s.phases[i].handed;
    assert EntryOk(s.slots[i], s.phases[i], s.bodies, s.wire);
    assert handed[0..] == handed;
    assert (s.wire + [Chunk(e, handed[..count])])[..|s.wire|] == s.wire;
  }

  lemma PartMore(bodies: seq<seq<byte>>, e: nat, k: nat, count: nat)
    requires e < |bodies| && k + count <= |Frame(bodies[e])|
    ensures Part(bodies, e, k) + Mark(e, Frame(bodies[e])[k..k + count]) == Part(bodies, e, k + count)
  {
    hide Frame;
  }

  lemma FramesMore(bodies: seq<seq<byte>>, order: seq<nat>, e: nat)
    requires Known(order, |bodies|) && e < |bodies|
    ensures Known(order + [e], |bodies|)
    ensures MarkedFrames(bodies, order + [e]) == MarkedFrames(bodies, order) + Part(bodies, e, |Frame(bodies[e])|)
  {
    hide Frame;
    FrameNotEmpty(bodies[e]);
    assert (order + [e])[..|order|] == order;
    assert Frame(bodies[e])[..|Frame(bodies[e])|] == Frame(bodies[e]);
  }

  /** One clean step keeps the wire whole; a transfer only lengthens the last frame or starts a new one. */
  lemma LaidStep(s: State, step: Step, order: seq<nat>, d: nat, k: nat)
    returns (order': seq<nat>, d': nat, k': nat)
    requires Inv(s) && Enabled(s, step) && Clean(s, step)
    requires Laid(s, order, d, k)
    ensures Laid(Apply(s, step), order', d', k')
    ensures !step.Transfer? ==> (order', d', k') == (order, d, k)
    ensures step.Transfer? ==> Extends(order, d, k, s.phases[step.entry].send, order', d', k')
  {
    hide Apply, Enabled, Inv, Laid, Clean;
    order', d', k' := order, d, k;
    if step.Transfer? && step.count > 0 {
      order', d', k' := LaidTransfer(s, step.entry, step.count, order, d, k);
    } else if step.Transfer? {
      LaidNothing(s, step.entry, order, d, k);
    } else {
      LaidOther(s, step, order, d, k);
    }
  }

  /** A transfer of no bytes. */
  lemma LaidNothing(s: State, i: nat, order: seq<nat>, d: nat, k: nat)
    requires Inv(s) && Enabled(s, Transfer(i, 0)) && Laid(s, order, d, k)
    ensures Laid(Apply(s, Transfer(i, 0)), order, d, k)
  {
    hide Frame, Out, MarkedWire, MarkedFrames, Part, Inv, Apply;
    TransferFacts(s, i, 0);
    assert Mark(s.phases[i].send, s.phases[i].handed[..0]) == [];
    assert MarkedWire(s.wire) + [] == MarkedWire(s.wire);
  }

  lemma LaidOther(s: State, step: Step, order: seq<nat>, d: nat, k: nat)
    requires Enabled(s, step) && !step.Transfer? && Laid(s, order, d, k)
    ensures Laid(Apply(s, step), order, d, k)
  {
    hide Frame, Mark, MarkedWire, MarkedFrames;
    hide PoolSpec.Fill, PoolSpec.HasPrependRoom, PoolSpec.Written, PoolSpec.Acquire;
    if step.Acquire? { FramesExtend(s.bodies, step.body, order); }
  }

  /** Send `e` was extended: it is the last one, complete or not. */
  predicate Extends(order: seq<nat>, d: nat, k: nat, e: nat, order': seq<nat>, d': nat, k': nat) {
    || (order', d', k') == (order, d, k)
    || (order' == order && d' == e)
    || (order' == order + [e] && k' == 0)
  }

  lemma LaidTransfer(s: State, i: nat, count: nat, order: seq<nat>, d: nat, k: nat)
    returns (order': seq<nat>, d': nat, k': nat)
    requires Inv(s) && count > 0 && Enabled(s, Transfer(i, count)) && Clean(s, Transfer(i, count))
    requires Laid(s, order, d, k)
    ensures Laid(Apply(s, Transfer(i, count)), order', d', k')
    ensures Extends(order, d, k, s.phases[i].send, order', d', k')
  {
    hide Frame, Out, Mark, MarkedFrames, Part, MarkedWire, Inv;
    TransferFacts(s, i, count);
    var e, handed := s.phases[i].send, s.phases[i].handed;
    var frame := Frame(s.bodies[e]);
    LaidOut(s, order, d, k, e);
    if k > 0 {
      LaidOut(s, order, d, k, d);
      assert Midway(s, d);
      assert e == d;
    }
    assert e !in order;
    assert Out(s.wire, e) == frame[..k] by { FirstPart(frame); }
    var n := k + count;
    assert frame[k..n] == handed[..count];
    PartStart(s.bodies, d, e);
    PartMore(s.bodies, e, k, count);
    if n < |frame| {
      order', d', k' := order, e, n;
    } else {
      order', d', k' := order + [e], e, 0;
      FramesMore(s.bodies, order, e);
      PartStart(s.bodies, e, e);
    }
  }

  lemma FirstPart(frame: seq<byte>)
    ensures frame[..0] == []
  {
  }

  lemma PartStart(bodies: seq<seq<byte>>, d: nat, e: nat)
    ensures Part(bodies, d, 0) == Part(bodies, e, 0) == []
  {
  }

  lemma {:induction false} CleanRunLaid(s: State, steps: seq<Step>, order: seq<nat>, d: nat, k: nat)
    returns (order': seq<nat>, d': nat, k': nat)
    requires Inv(s) && EnabledAll(s, steps) && CleanAll(s, steps)
    requires Laid(s, order, d, k)
    ensures Inv(ApplyAll(s, steps)) && Laid(ApplyAll(s, steps), order', d', k')
    decreases |steps|
  {
    hide Apply, Enabled, Clean, Laid, Inv;
    order', d', k' := order, d, k;
    if steps != [] {
      order', d', k' := LaidStep(s, steps[0], order, d, k);
      InvStep(s, steps[0]);
      order', d', k' := CleanRunLaid(Apply(s, steps[0]), steps[1..], order', d', k');
    }
  }

  // ---- A schedule that is not clean can never be whole again ----

  /** At every byte of such a wire at most one frame is midway. */
  lemma {:induction false} OneMidway(bodies: seq<seq<byte>>, order: seq<nat>, d: nat, k: nat, p: nat, a: nat, b: nat)
    requires Distinct(order) && Known(order, |bodies|)
    requires k > 0 ==> d < |bodies| && d !in order && k <= |Frame(bodies[d])|
    requires a < |bodies| && b < |bodies| && a != b
    requires p <= |MarkedFrames(bodies, order) + Part(bodies, d, k)|
    ensures var m := (MarkedFrames(bodies, order) + Part(bodies, d, k))[..p];
            !(0 < |Only(m, a)| < |Frame(bodies[a])| && 0 < |Only(m, b)| < |Frame(bodies[b])|)
    decreases |order|
  {
    hide Frame, Only, Mark;
    var whole, part := MarkedFrames(bodies, order), Part(bodies, d, k);
    var m := (whole + part)[..p];
    if |whole| <= p {
      assert m == whole + part[..p - |whole|];
      OnlyUpTo(bodies, order, d, k, p - |whole|, a);
      OnlyUpTo(bodies, order, d, k, p - |whole|, b);
    } else {
      var init, last := order[..|order| - 1], order[|order| - 1];
      WholeLast(bodies, order);
      assert m == whole[..p];
      OneMidway(bodies, init, last, |Frame(bodies[last])|, p, a, b);
    }
  }

  /** What one send has on the wire when the last frame is cut off. */
  lemma OnlyUpTo(bodies: seq<seq<byte>>, order: seq<nat>, d: nat, k: nat, q: nat, e: nat)
    requires Distinct(order) && Known(order, |bodies|)
    requires k > 0 ==> d < |bodies| && d !in order && k <= |Frame(bodies[d])|
    requires e < |bodies| && q <= |Part(bodies, d, k)|
    ensures Only(MarkedFrames(bodies, order) + Part(bodies, d, k)[..q], e) ==
            if e in order then Frame(bodies[e]) else if k > 0 && e == d then Frame(bodies[d])[..k][..q] else []
  {
    hide Frame, Only, Distinct, Known, MarkedFrames;
    OnlyConcat(MarkedFrames(bodies, order), Part(bodies, d, k)[..q], e);
    OnlyFrames(bodies, order, e);
    if k > 0 {
      OnlyMark(d, Frame(bodies[d])[..k][..q], e);
      assert Part(bodies, d, k)[..q] == Mark(d, Frame(bodies[d])[..k][..q]);
    } else {
      assert Part(bodies, d, k)[..q] == [];
      OnlyNothing(e);
    }
  }

  /** Whole frames end in a whole frame. */
  lemma WholeLast(bodies: seq<seq<byte>>, order: seq<nat>)
    requires Known(order, |bodies|) && order != []
    ensures var init, last := order[..|order| - 1], order[|order| - 1];
            MarkedFrames(bodies, order) == MarkedFrames(bodies, init) + Part(bodies, last, |Frame(bodies[last])|)
  {
    hide Frame, Mark;
    var last := order[|order| - 1];
    FrameNotEmpty(bodies[last]);
    assert Frame(bodies[last])[..|Frame(bodies[last])|] == Frame(bodies[last]);
  }

  lemma WireGrowsStep(s: State, step: Step)
    requires Inv(s) && Enabled(s, step)
    ensures var t := Apply(s, step); MarkedWire(s.wire) <= MarkedWire(t.wire) && s.bodies <= t.bodies
  {
    hide PoolSpec.Fill, PoolSpec.Written, PoolSpec.HasPrependRoom, Frame, Mark;
    if step.Transfer? {
      TransferFacts(s, step.entry, step.count);
    }
  }

  lemma {:induction false} WireGrows(s: State, steps: seq<Step>)
    requires Inv(s) && EnabledAll(s, steps)
    ensures var t := ApplyAll(s, steps); MarkedWire(s.wire) <= MarkedWire(t.wire) && s.bodies <= t.bodies
    decreases |steps|
  {
    hide Apply, Enabled, Inv, MarkedWire;
    if steps != [] {
      WireGrowsStep(s, steps[0]);
      InvStep(s, steps[0]);
      WireGrows(Apply(s, steps[0]), steps[1..]);
    }
  }

  lemma {:induction false} UncleanNeverWhole(s: State, steps: seq<Step>, order: seq<nat>, d: nat, k: nat)
    requires Inv(s) && EnabledAll(s, steps)
    requires Laid(ApplyAll(s, steps), order, d, k)
    ensures CleanAll(s, steps)
    decreases |steps|
  {
    hide Apply, Enabled, Laid, Inv, Clean;
    if steps != [] {
      InvStep(s, steps[0]);
      UncleanNeverWhole(Apply(s, steps[0]), steps[1..], order, d, k);
      FirstStepClean(s, steps, order, d, k);
    }
  }

  lemma FirstStepClean(s: State, steps: seq<Step>, order: seq<nat>, d: nat, k: nat)
    requires Inv(s) && steps != [] && EnabledAll(s, steps)
    requires Laid(ApplyAll(s, steps), order, d, k)
    ensures Clean(s, steps[0])
  {
    hide Apply, Laid, Inv, Midway;
    if steps[0].Transfer? && steps[0].count > 0 {
      forall b: nat | b != s.phases[steps[0].entry].send
        ensures !Midway(s, b)
      {
        NotMidway(s, steps, order, d, k, b);
      }
    }
  }

  lemma NotMidway(s: State, steps: seq<Step>, order: seq<nat>, d: nat, k: nat, b: nat)
    requires Inv(s) && steps != [] && EnabledAll(s, steps)
    requires steps[0].Transfer? && steps[0].count > 0
    requires b != s.phases[steps[0].entry].send
    requires Laid(ApplyAll(s, steps), order, d, k)
    ensures !Midway(s, b)
  {
    hide Frame, Out, Only, MarkedWire, MarkedFrames, Part, Inv, Apply;
    var i, count := steps[0].entry, steps[0].count;
    var s', t := Apply(s, steps[0]), ApplyAll(s, steps);
    TransferFacts(s, i, count);
    InvStep(s, steps[0]);
    WireGrows(s', steps[1..]);
    var a, handed := s.phases[i].send, s.phases[i].handed;
    var before, all := MarkedWire(s.wire), MarkedWire(t.wire);
    var p := |before|;
    assert all[..p] == before;
    assert all[..p + 1] == before + [(a, handed[0])];
    OnlyIsOut(s.wire, a);
    OnlyIsOut(s.wire, b);
    OnlyOneMore(before, a, handed[0], a);
    OnlyOneMore(before, a, handed[0], b);
    FrameLong(s.bodies[a]);
    if Midway(s, b) {
      OneMidway(t.bodies, order, d, k, p, a, b);
      OneMidway(t.bodies, order, d, k, p + 1, a, b);
    }
  }

  lemma OnlyOneMore(m: Marked, a: nat, x: byte, d: nat)
    ensures Only(m + [(a, x)], d) == Only(m, d) + if a == d then [x] else []
  {
    assert (m + [(a, x)])[..|m|] == m;
  }

  lemma FrameLong(body: seq<byte>)
    ensures |Frame(body)| >= 8
  {
  }

  /**
   With each byte traced to its send, the wire is a concatenation of whole frames, at most the last one
   incomplete, exactly when no transfer took place while the frame of another send was midway. For the bytes
   alone this is sufficient only: `Interleaving.UncleanYetWhole`.
   */
  lemma WholeIffClean(steps: seq<Step>)
    requires EnabledAll(Init(), steps)
    ensures CleanAll(Init(), steps) <==>
              exists order: seq<nat>, d: nat, k: nat :: Laid(ApplyAll(Init(), steps), order, d, k)
  {
    InvInit();
    if CleanAll(Init(), steps) {
      var order, d, k := CleanRunLaid(Init(), steps, [], 0, 0);
    }
    if order: seq<nat>, d: nat, k: nat :| Laid(ApplyAll(Init(), steps), order, d, k) {
      UncleanNeverWhole(Init(), steps, order, d, k);
    }
  }
}
