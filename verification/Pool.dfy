/**
 Sending as a step system: any number of sends, each acquiring a pool entry, framing its
 message there and draining it by partial writes, interleaved in any order. The kernel
 copies bytes out of the entry's memory some time after the write was issued and before
 its completion handler runs.
 */
module Pool {
  import opened Bytes
  import opened BufferSpec
  import opened Framing
  import PoolSpec

  /** Where a pool entry is in the send that owns it; `handed` are the bytes given to the outstanding write. */
  datatype Phase =
    | Idle
    | Acquired(send: nat)
    | Writing(send: nat, handed: seq<byte>)
    | Transferred(send: nat, handed: seq<byte>, count: nat)
    | Failed(send: nat, handed: seq<byte>)

  /** Bytes of one send that reached the wire together. */
  datatype Chunk = Chunk(send: nat, bytes: seq<byte>)

  /** `bodies[d]` is the message of send `d`; `asserted` records a failed assertion of the buffer code. */
  datatype State = State(
    slots: seq<PoolSpec.Slot>, phases: seq<Phase>, bodies: seq<seq<byte>>, wire: seq<Chunk>, asserted: bool)

  function Init(): State {
    State([PoolSpec.Slot(true, PoolSpec.NewBuf())], [Idle], [], [], false)
  }

  datatype Step =
    | Acquire(body: seq<byte>)             // the locked part of send_rpc_msg
    | Fill(entry: nat)                     // the rest of send_rpc_msg, up to async_write_some
    | Transfer(entry: nat, count: nat)     // the socket takes some of the bytes it was given
    | Complete(entry: nat)                 // on_write without error
    | Fail(entry: nat)                     // on_write with an error

  predicate Enabled(s: State, step: Step) {
    if step.Acquire? then |s.phases| == |s.slots|
    else
      && step.entry < |s.slots| == |s.phases|
      && var phase := s.phases[step.entry];
      match step
      case Fill(_) => phase.Acquired? && phase.send < |s.bodies|
      case Transfer(_, count) => phase.Writing? && count <= |phase.handed|
      case Complete(_) => phase.Transferred?
      case Fail(_) => phase.Writing?
  }

  function Apply(s: State, step: Step): State
    requires Enabled(s, step)
  {
    match step
    case Acquire(body) =>
      var i, taken := PoolSpec.FirstFree(s.slots), Acquired(|s.bodies|);
      s.(slots := PoolSpec.Acquire(s.slots),
         phases := if i < |s.phases| then s.phases[i := taken] else s.phases + [taken],
         bodies := s.bodies + [body])
    case Fill(i) =>
      var slot, d := s.slots[i], s.phases[i].send;
      if !PoolSpec.HasPrependRoom(slot.buf, s.bodies[d]) then s.(asserted := true)
      else
        var buf := PoolSpec.Fill(slot.buf, s.bodies[d]);
        s.(slots := s.slots[i := slot.(buf := buf)], phases := s.phases[i := Writing(d, buf.content)])
    case Transfer(i, count) =>
      var memory, phase := s.slots[i].buf.content, s.phases[i];
      if |memory| < count then s.(asserted := true)
      else
        s.(phases := s.phases[i := Transferred(phase.send, phase.handed, count)],
           wire := s.wire + [Chunk(phase.send, memory[..count])])
    case Complete(i) =>
      var slot, phase := s.slots[i], s.phases[i];
      if |slot.buf.content| < phase.count then s.(asserted := true)
      else
        var slot' := PoolSpec.Written(slot, phase.count);
        s.(slots := s.slots[i := slot'],
           phases := s.phases[i := if slot'.buf.content == [] then Idle else Writing(phase.send, slot'.buf.content)])
    case Fail(i) =>
      s.(phases := s.phases[i := Failed(s.phases[i].send, s.phases[i].handed)])
  }

  predicate EnabledAll(s: State, steps: seq<Step>)
    decreases |steps|
  {
    steps == [] || (Enabled(s, steps[0]) && EnabledAll(Apply(s, steps[0]), steps[1..]))
  }

  function ApplyAll(s: State, steps: seq<Step>): State
    requires EnabledAll(s, steps)
    decreases |steps|
  {
    if steps == [] then s else ApplyAll(Apply(s, steps[0]), steps[1..])
  }

  // ---- What is on the wire ----

  /** The bytes of send `d` on the wire, in order. */
  function Out(wire: seq<Chunk>, d: nat): seq<byte> {
    if wire == [] then []
    else
      var last := wire[|wire| - 1];
      Out(wire[..|wire| - 1], d) + if last.send == d then last.bytes else []
  }

  lemma OutMore(wire: seq<Chunk>, c: Chunk, d: nat)
    ensures Out(wire + [c], d) == Out(wire, d) + if c.send == d then c.bytes else []
  {
    assert (wire + [c])[..|wire|] == wire;
  }

  // ---- The invariant ----

  /** One entry: free and drained, or owned by one send, with sent bytes and remaining bytes making up its frame. */
  predicate EntryOk(slot: PoolSpec.Slot, phase: Phase, bodies: seq<seq<byte>>, wire: seq<Chunk>) {
    && (phase.Idle? <==> slot.valid)
    && (phase.Idle? || phase.Acquired? ==> PoolSpec.Reset(slot.buf))
    && (!phase.Idle? ==> phase.send < |bodies|)
    && match phase
       case Idle => true
       case Acquired(d) => Out(wire, d) == []
       case Writing(d, handed) => Draining(slot, handed, 0, bodies[d], Out(wire, d))
       case Transferred(d, handed, count) => Draining(slot, handed, count, bodies[d], Out(wire, d))
       case Failed(d, handed) => Draining(slot, handed, 0, bodies[d], Out(wire, d))
  }

  /** An outstanding write: its bytes still are the entry's content, and `out` plus what was not taken is the frame. */
  predicate Draining(slot: PoolSpec.Slot, handed: seq<byte>, count: nat, body: seq<byte>, out: seq<byte>) {
    && slot.buf.content == handed != []
    && count <= |handed|
    && out + handed[count..] == Frame(body)
  }

  predicate Owns(phase: Phase, d: nat) {
    !phase.Idle? && phase.send == d
  }

  /** No entry belongs to send `d`: it has been released. */
  predicate Released(s: State, d: nat) {
    d < |s.bodies| && forall i :: 0 <= i < |s.phases| ==> !Owns(s.phases[i], d)
  }

  predicate EntriesOk(s: State) {
    |s.phases| == |s.slots| && forall i :: 0 <= i < |s.slots| ==> EntryOk(s.slots[i], s.phases[i], s.bodies, s.wire)
  }

  predicate OwnersDistinct(s: State) {
    forall i, j :: 0 <= i < j < |s.phases| && !s.phases[i].Idle? ==> !Owns(s.phases[j], s.phases[i].send)
  }

  ghost predicate ReleasedComplete(s: State) {
    forall d: nat :: Released(s, d) ==> Out(s.wire, d) == Frame(s.bodies[d])
  }

  predicate WireKnown(s: State) {
    forall c :: 0 <= c < |s.wire| ==> s.wire[c].send < |s.bodies|
  }

  ghost predicate Inv(s: State) {
    !s.asserted && EntriesOk(s) && OwnersDistinct(s) && ReleasedComplete(s) && WireKnown(s)
  }

  lemma {:induction false} UnknownSilent(wire: seq<Chunk>, d: nat)
    requires forall c :: 0 <= c < |wire| ==> wire[c].send < d
    ensures Out(wire, d) == []
    decreases |wire|
  {
    if wire != [] { UnknownSilent(wire[..|wire| - 1], d); }
  }

  lemma InvInit()
    ensures Inv(Init())
  {
    hide Frame;
  }

  lemma InvAcquire(s: State, body: seq<byte>)
    requires Inv(s) && Enabled(s, Acquire(body))
    ensures Inv(Apply(s, Acquire(body)))
  {
    hide Frame, Out;
    var t, d, n := Apply(s, Acquire(body)), |s.bodies|, PoolSpec.FirstFree(s.slots);
    UnknownSilent(s.wire, d);
    assert EntryOk(t.slots[n], t.phases[n], t.bodies, t.wire);
    assert EntriesOk(t);
    forall e: nat | Released(t, e)
      ensures Out(t.wire, e) == Frame(t.bodies[e])
    {
      assert !Owns(t.phases[n], e);
      assert forall i :: 0 <= i < |s.phases| && i != n ==> t.phases[i] == s.phases[i];
      assert Released(s, e);
    }
  }

  lemma InvFill(s: State, i: nat)
    requires Inv(s) && Enabled(s, Fill(i))
    ensures Inv(Apply(s, Fill(i)))
    ensures s.slots[i].buf.reader == 8
    ensures PoolSpec.Appended(s.slots[i].buf, s.bodies[s.phases[i].send]).reader == 8
    ensures Apply(s, Fill(i)).slots[i].buf.reader == 4
  {
    hide Frame, Out;
    var t, d := Apply(s, Fill(i)), s.phases[i].send;
    assert EntryOk(s.slots[i], s.phases[i], s.bodies, s.wire);
    PoolSpec.FillFresh(s.slots[i].buf, s.bodies[d]);
    FrameNotEmpty(s.bodies[d]);
    assert EntryOk(t.slots[i], t.phases[i], t.bodies, t.wire);
    SamePhaseOwners(s, t, i);
  }

  lemma FrameNotEmpty(body: seq<byte>)
    ensures Frame(body) != []
  {
  }

  /** A step that keeps every owner releases nothing. */
  lemma SamePhaseOwners(s: State, t: State, i: nat)
    requires i < |s.phases| == |t.phases| && s.bodies == t.bodies
    requires !s.phases[i].Idle? && Owns(t.phases[i], s.phases[i].send)
    requires forall j :: 0 <= j < |s.phases| && j != i ==> t.phases[j] == s.phases[j]
    ensures forall d: nat :: Released(t, d) <==> Released(s, d)
    ensures OwnersDistinct(s) ==> OwnersDistinct(t)
  {
    forall d: nat
      ensures Released(t, d) <==> Released(s, d)
    {
      assert forall j :: 0 <= j < |s.phases| ==> Owns(t.phases[j], d) == Owns(s.phases[j], d);
    }
  }

  lemma InvTransfer(s: State, i: nat, count: nat)
    requires Inv(s) && Enabled(s, Transfer(i, count))
    ensures Inv(Apply(s, Transfer(i, count)))
  {
    hide Frame, Out;
    var t, phase := Apply(s, Transfer(i, count)), s.phases[i];
    var c := Chunk(phase.send, phase.handed[..count]);
    assert EntryOk(s.slots[i], phase, s.bodies, s.wire);
    assert t == s.(phases := s.phases[i := Transferred(phase.send, phase.handed, count)], wire := s.wire + [c]);
    SamePhaseOwners(s, t, i);
    forall j | 0 <= j < |t.slots|
      ensures EntryOk(t.slots[j], t.phases[j], t.bodies, t.wire)
    {
      assert EntryOk(s.slots[j], s.phases[j], s.bodies, s.wire);
      if j == i {
        EntryTransferred(s, i, count);
      } else {
        EntryElsewhere(s.slots[j], s.phases[j], s.bodies, s.wire, c);
      }
    }
    forall d: nat | Released(t, d)
      ensures Out(t.wire, d) == Frame(t.bodies[d])
    {
      assert !Owns(t.phases[i], d);
      OutMore(s.wire, c, d);
      assert Out(s.wire, d) + [] == Out(s.wire, d);
    }
  }

  lemma EntryTransferred(s: State, i: nat, count: nat)
    requires i < |s.slots| == |s.phases| && s.phases[i].Writing? && count <= |s.phases[i].handed|
    requires EntryOk(s.slots[i], s.phases[i], s.bodies, s.wire)
    ensures var phase := s.phases[i];
            EntryOk(s.slots[i], Transferred(phase.send, phase.handed, count), s.bodies,
                    s.wire + [Chunk(phase.send, phase.handed[..count])])
  {
    hide Frame, Out;
    var phase := s.phases[i];
    OutMore(s.wire, Chunk(phase.send, phase.handed[..count]), phase.send);
    Regroup(Out(s.wire, phase.send), phase.handed, count);
  }

  /** What another send puts on the wire makes no difference to an entry. */
  lemma EntryElsewhere(slot: PoolSpec.Slot, phase: Phase, bodies: seq<seq<byte>>, wire: seq<Chunk>, c: Chunk)
    requires EntryOk(slot, phase, bodies, wire) && !Owns(phase, c.send)
    ensures EntryOk(slot, phase, bodies, wire + [c])
  {
    hide Frame, Out;
    if !phase.Idle? {
      OutMore(wire, c, phase.send);
      assert Out(wire, phase.send) + [] == Out(wire, phase.send);
    }
  }

  lemma Regroup(out: seq<byte>, handed: seq<byte>, count: nat)
    requires count <= |handed|
    ensures out + handed[..count] + handed[count..] == out + handed[0..]
  {
    assert handed[0..] == handed[..count] + handed[count..];
  }

  lemma InvComplete(s: State, i: nat)
    requires Inv(s) && Enabled(s, Complete(i))
    ensures Inv(Apply(s, Complete(i)))
    ensures var t := Apply(s, Complete(i));
            t.slots[i].valid <==> Out(s.wire, s.phases[i].send) == Frame(s.bodies[s.phases[i].send])
  {
    hide Frame, Out;
    var t, phase := Apply(s, Complete(i)), s.phases[i];
    assert EntryOk(s.slots[i], phase, s.bodies, s.wire);
    var rest := phase.handed[phase.count..];
    assert t.slots[i].buf.content == rest == rest[0..];
    assert t.slots[i].valid <==> rest == [];
    assert |Out(s.wire, phase.send)| + |rest| == |Frame(s.bodies[phase.send])|;
    assert Out(s.wire, phase.send) + [] == Out(s.wire, phase.send);
    assert EntryOk(t.slots[i], t.phases[i], t.bodies, t.wire);
    if rest != [] {
      SamePhaseOwners(s, t, i);
    } else {
      forall d: nat | Released(t, d)
        ensures Out(t.wire, d) == Frame(t.bodies[d])
      {
        if d != phase.send {
          assert forall j :: 0 <= j < |s.phases| ==> j == i || t.phases[j] == s.phases[j];
          assert Released(s, d);
        }
      }
    }
  }

  lemma InvFail(s: State, i: nat)
    requires Inv(s) && Enabled(s, Fail(i))
    ensures Inv(Apply(s, Fail(i)))
  {
    hide Frame, Out;
    var t := Apply(s, Fail(i));
    assert EntryOk(s.slots[i], s.phases[i], s.bodies, s.wire);
    assert EntryOk(t.slots[i], t.phases[i], t.bodies, t.wire);
    SamePhaseOwners(s, t, i);
  }

  lemma InvStep(s: State, step: Step)
    requires Inv(s) && Enabled(s, step)
    ensures Inv(Apply(s, step))
  {
    match step
    case Acquire(body) => InvAcquire(s, body);
    case Fill(i) => InvFill(s, i);
    case Transfer(i, count) => InvTransfer(s, i, count);
    case Complete(i) => InvComplete(s, i);
    case Fail(i) => InvFail(s, i);
  }

  lemma {:induction false} InvRun(s: State, steps: seq<Step>)
    requires Inv(s) && EnabledAll(s, steps)
    ensures Inv(ApplyAll(s, steps))
    decreases |steps|
  {
    hide Inv, Apply, Enabled;
    if steps != [] {
      InvStep(s, steps[0]);
      InvRun(Apply(s, steps[0]), steps[1..]);
    }
  }

  // ---- What every run guarantees ----

  predicate Outstanding(phase: Phase) {
    phase.Writing? || phase.Transferred? || phase.Failed?
  }

  /**
   After any interleaving: no assertion of the buffer code failed (in particular the length
   always found room in front), a free entry is drained and reset to index 8, unfinished sends
   own distinct taken entries, and an outstanding write's bytes are still the entry's content.
   */
  lemma PoolOwnership(steps: seq<Step>)
    requires EnabledAll(Init(), steps)
    ensures var s := ApplyAll(Init(), steps);
            && !s.asserted && |s.phases| == |s.slots|
            && (forall i :: 0 <= i < |s.slots| && s.slots[i].valid ==> PoolSpec.Reset(s.slots[i].buf))
            && (forall i :: 0 <= i < |s.slots| ==> (s.slots[i].valid <==> s.phases[i].Idle?))
            && (forall i, j :: 0 <= i < j < |s.slots| && !s.slots[i].valid && !s.slots[j].valid ==>
                  s.phases[i].send != s.phases[j].send)
            && (forall i :: 0 <= i < |s.slots| && Outstanding(s.phases[i]) ==>
                  s.slots[i].buf.content == s.phases[i].handed)
  {
    hide Frame, Out;
    InvInit();
    InvRun(Init(), steps);
    var s := ApplyAll(Init(), steps);
    assert forall i :: 0 <= i < |s.slots| ==> EntryOk(s.slots[i], s.phases[i], s.bodies, s.wire);
    forall i, j | 0 <= i < j < |s.slots| && !s.slots[i].valid && !s.slots[j].valid
      ensures s.phases[i].send != s.phases[j].send
    {
      assert !Owns(s.phases[j], s.phases[i].send);
    }
  }

  /** What the entry owning a send has still to bring to the wire. */
  function NotYetOut(slot: PoolSpec.Slot, phase: Phase, body: seq<byte>): seq<byte> {
    match phase
    case Acquired(_) => Frame(body)
    case Transferred(_, _, count) => if count <= |slot.buf.content| then slot.buf.content[count..] else []
    case _ => slot.buf.content
  }

  /**
   The bytes of send `d` on the wire are a prefix of its frame; wire and entry together hold the
   frame, each byte once; the entry has been released exactly when the whole frame is out and no
   completion is still due.
   */
  predicate Conserved(s: State, d: nat)
    requires d < |s.bodies| && |s.phases| == |s.slots|
  {
    var frame, out := Frame(s.bodies[d]), Out(s.wire, d);
    && out <= frame
    && (forall i :: 0 <= i < |s.phases| && Owns(s.phases[i], d) ==>
          out + NotYetOut(s.slots[i], s.phases[i], s.bodies[d]) == frame)
    && (Released(s, d) <==>
          out == frame && forall i :: 0 <= i < |s.phases| && Owns(s.phases[i], d) ==> !s.phases[i].Transferred?)
  }

  lemma InvConserves(s: State, d: nat)
    requires Inv(s) && d < |s.bodies|
    ensures Conserved(s, d)
  {
    hide Frame, Out;
    FrameNotEmpty(s.bodies[d]);
    forall i | 0 <= i < |s.phases| && Owns(s.phases[i], d)
      ensures Out(s.wire, d) + NotYetOut(s.slots[i], s.phases[i], s.bodies[d]) == Frame(s.bodies[d])
      ensures !s.phases[i].Transferred? ==> Out(s.wire, d) != Frame(s.bodies[d])
    {
      assert EntryOk(s.slots[i], s.phases[i], s.bodies, s.wire);
      if s.phases[i].Writing? || s.phases[i].Failed? {
        assert s.phases[i].handed[0..] == s.phases[i].handed;
      }
    }
  }

  lemma WireConservation(steps: seq<Step>, d: nat)
    requires EnabledAll(Init(), steps) && d < |ApplyAll(Init(), steps).bodies|
    ensures var s := ApplyAll(Init(), steps); |s.phases| == |s.slots| && Conserved(s, d)
  {
    InvInit();
    InvRun(Init(), steps);
    InvConserves(ApplyAll(Init(), steps), d);
  }

  /** Same outstanding write, same memory. */
  predicate SameWrite(s: State, t: State, i: nat) {
    && i < |s.slots| == |s.phases| && i < |t.slots| == |t.phases|
    && Outstanding(s.phases[i]) && Outstanding(t.phases[i])
    && t.slots[i].buf == s.slots[i].buf
    && t.phases[i].send == s.phases[i].send && t.phases[i].handed == s.phases[i].handed
  }

  /** Until its completion handler runs, nothing any other step does touches an outstanding write's buffer. */
  lemma HandedStable(before: seq<Step>, steps: seq<Step>, i: nat)
    requires EnabledAll(Init(), before)
    requires var s := ApplyAll(Init(), before);
             EnabledAll(s, steps) && i < |s.phases| && Outstanding(s.phases[i])
    requires forall k :: 0 <= k < |steps| ==> steps[k] != Complete(i)
    ensures var s := ApplyAll(Init(), before); SameWrite(s, ApplyAll(s, steps), i)
  {
    InvInit();
    InvRun(Init(), before);
    HandedStableFrom(ApplyAll(Init(), before), steps, i);
  }

  lemma {:induction false} HandedStableFrom(s: State, steps: seq<Step>, i: nat)
    requires Inv(s) && EnabledAll(s, steps)
    requires i < |s.phases| && Outstanding(s.phases[i])
    requires forall k :: 0 <= k < |steps| ==> steps[k] != Complete(i)
    ensures SameWrite(s, ApplyAll(s, steps), i)
    decreases |steps|
  {
    hide Apply, Enabled;
    if steps != [] {
      HandedStableStep(s, steps[0], i);
      InvStep(s, steps[0]);
      HandedStableFrom(Apply(s, steps[0]), steps[1..], i);
    }
  }

  lemma HandedStableStep(s: State, step: Step, i: nat)
    requires Inv(s) && Enabled(s, step) && step != Complete(i)
    requires i < |s.phases| && Outstanding(s.phases[i])
    ensures SameWrite(s, Apply(s, step), i)
  {
    hide Frame, Out;
    assert EntryOk(s.slots[i], s.phases[i], s.bodies, s.wire);
  }

  // ---- The number of entries ----

  function Busy(slots: seq<PoolSpec.Slot>): (n: nat)
    ensures n <= |slots|
  {
    if slots == [] then 0 else (if slots[0].valid then 0 else 1) + Busy(slots[1..])
  }

  lemma {:induction false} BusyUpdate(slots: seq<PoolSpec.Slot>, i: nat, x: PoolSpec.Slot)
    requires i < |slots|
    ensures Busy(slots[i := x]) == Busy(slots) - (if slots[i].valid then 0 else 1) + (if x.valid then 0 else 1)
  {
    if i > 0 {
      assert slots[i := x][1..] == slots[1..][i - 1 := x];
      BusyUpdate(slots[1..], i - 1, x);
    } else {
      assert slots[i := x][1..] == slots[1..];
    }
  }

  lemma {:induction false} BusyAppend(slots: seq<PoolSpec.Slot>, x: PoolSpec.Slot)
    ensures Busy(slots + [x]) == Busy(slots) + (if x.valid then 0 else 1)
  {
    if slots != [] {
      assert (slots + [x])[1..] == slots[1..] + [x];
      BusyAppend(slots[1..], x);
    }
  }

  lemma {:induction false} AllBusy(slots: seq<PoolSpec.Slot>)
    ensures PoolSpec.FirstFree(slots) == |slots| <==> Busy(slots) == |slots|
  {
    if slots != [] { AllBusy(slots[1..]); }
  }

  /** The largest number of entries taken at once, over all states of the run. */
  function Peak(s: State, steps: seq<Step>): nat
    requires EnabledAll(s, steps)
    decreases |steps|
  {
    if steps == [] then Busy(s.slots) else Max(Busy(s.slots), Peak(Apply(s, steps[0]), steps[1..]))
  }

  lemma WrittenFrees(slot: PoolSpec.Slot, count: nat)
    ensures count <= |slot.buf.content| && slot.valid ==> PoolSpec.Written(slot, count).valid
  {
  }

  lemma BusyStep(s: State, step: Step)
    requires Enabled(s, step)
    ensures var t := Apply(s, step);
            && (step.Acquire? ==> Busy(t.slots) == Busy(s.slots) + 1)
            && (step.Acquire? ==> |t.slots| == if Busy(s.slots) == |s.slots| then |s.slots| + 1 else |s.slots|)
            && (!step.Acquire? ==> Busy(t.slots) <= Busy(s.slots) && |t.slots| == |s.slots|)
  {
    hide PoolSpec.Fill, PoolSpec.HasPrependRoom, PoolSpec.Written;
    match step
    case Acquire(_) =>
      AllBusy(s.slots);
      var i := PoolSpec.FirstFree(s.slots);
      if i < |s.slots| {
        BusyUpdate(s.slots, i, s.slots[i].(valid := false));
      } else {
        BusyAppend(s.slots, PoolSpec.Slot(false, PoolSpec.NewBuf()));
      }
    case Fill(i) =>
      BusyUpdate(s.slots, i, Apply(s, step).slots[i]);
    case Complete(i) =>
      WrittenFrees(s.slots[i], s.phases[i].count);
      BusyUpdate(s.slots, i, Apply(s, step).slots[i]);
    case _ =>
  }

  lemma {:induction false} HighWaterFrom(s: State, steps: seq<Step>, before: nat)
    requires EnabledAll(s, steps)
    requires |s.slots| == Max(1, before) && Busy(s.slots) <= before
    ensures |ApplyAll(s, steps).slots| == Max(1, Max(before, Peak(s, steps)))
    decreases |steps|
  {
    hide Apply, Enabled;
    if steps != [] {
      BusyStep(s, steps[0]);
      var t := Apply(s, steps[0]);
      HighWaterFrom(t, steps[1..], Max(before, Busy(t.slots)));
      PeakStart(t, steps[1..]);
    }
  }

  lemma PeakStart(s: State, steps: seq<Step>)
    requires EnabledAll(s, steps)
    ensures Busy(s.slots) <= Peak(s, steps)
  {
  }

  /** The pool is exactly as long as the peak number of simultaneous sends (failed ones included), and never empty. */
  lemma HighWaterMark(steps: seq<Step>)
    requires EnabledAll(Init(), steps)
    ensures |ApplyAll(Init(), steps).slots| == Max(1, Peak(Init(), steps))
  {
    HighWaterFrom(Init(), steps, 0);
  }
}
