/**
 What happens when a call gets the id of a call that still waits: that such a state is reached,
 that the older call's answer then runs the newer call's `done`, and that its own never runs.
 */
module IdReuse {
  import opened Bytes
  import opened SessionSpec
  import opened Protocol

  const ID_COUNT: nat := 0x1_0000_0000

  /** The waiting call whose entry the next call of `p` would overwrite. */
  function Holder(s: State, p: Peer): nat
    requires s.At(p).session.nextId in s.At(p).session.pending
  {
    s.At(p).session.pending[s.At(p).session.nextId].call
  }

  /** `work[i]` is the non-empty answer to call `k` of `p`, on its way back. */
  predicate Answering(s: State, p: Peer, k: nat, i: nat) {
    && i < |s.work| && s.work[i].Packet? && s.work[i].to == p && s.work[i].tag == Tag(p, k)
    && k in s.At(p).results && s.At(p).results[k] != []
  }

  /** What such an answer carries: the id both calls have, and the older call's result. */
  lemma OlderAnswer(s: State, parses: Parsers, p: Peer, i: nat)
    requires Inv(s, parses) && s.At(p).session.nextId in s.At(p).session.pending
    requires Answering(s, p, Holder(s, p), i)
    ensures s.work[i].msg.kind == RESPONSE && s.work[i].msg.error == NO_ERROR
    ensures Narrow(s.work[i].msg.id) == s.At(p).session.nextId
    ensures s.work[i].msg.response == s.At(p).results[Holder(s, p)]
  {
    hide Dispatch, CountsOk, AnsweredOk, RanOk, IdsOk;
    var side, k := s.At(p), Holder(s, p);
    assert WorkOk(s, parses, s.work[i]);
    assert SideOk(side);
    assert side.calls[k].id == side.session.nextId;
    IdRoundTrip(side.calls[k].id, 0);
  }

  /** The answer to the older call runs the newer call's `done`, with the older call's result. */
  lemma Misdelivered(s: State, parses: Parsers, step: Step, i: nat)
    requires Inv(s, parses) && step.Invoke? && !Fresh(s, step) && step.hasResponse && step.hasDone
    requires Answering(s, step.p, Holder(s, step.p), i)
    ensures var t := Apply(s, parses, step);
            && Enabled(t, Deliver(i))
            && Apply(t, parses, Deliver(i)).At(step.p).ran ==
               s.At(step.p).ran + [DoneRun(|s.At(step.p).calls|, s.At(step.p).results[Holder(s, step.p)])]
  {
    hide Inv, Narrow;
    OlderAnswer(s, parses, step.p, i);
    assert Apply(s, parses, step).work[i] == s.work[i];
  }

  /** The newer call's own answer then finds no entry, and changes nothing. */
  lemma AnswerLost(s: State, parses: Parsers, step: Step, i: nat, late: RpcMessage)
    requires Inv(s, parses) && step.Invoke? && !Fresh(s, step)
    requires Answering(s, step.p, Holder(s, step.p), i)
    requires late.kind == RESPONSE && late.id == Widen(s.At(step.p).session.nextId)
    ensures var t := Apply(s, parses, step);
            && Enabled(t, Deliver(i))
            && var end := Apply(t, parses, Deliver(i)).At(step.p);
               OnMessage(end.session, parses(step.p), late) == Reaction(end.session, [], [], [])
  {
    hide Inv, Narrow, Widen;
    OlderAnswer(s, parses, step.p, i);
    IdRoundTrip(s.At(step.p).session.nextId, 0);
    assert Apply(s, parses, step).work[i] == s.work[i];
  }

  // ---- The older call's own `done` ----

  /** No entry leads to call `k`, and its `done` has not run. */
  predicate Forgotten(side: Side, k: nat) {
    && k < |side.calls|
    && (forall id <- side.session.pending :: side.session.pending[id].call != k)
    && (forall j :: 0 <= j < |side.ran| ==> side.ran[j].call != k)
  }

  lemma ForgottenStep(s: State, parses: Parsers, step: Step, p: Peer, k: nat)
    requires Enabled(s, step) && Forgotten(s.At(p), k)
    ensures Forgotten(Apply(s, parses, step).At(p), k)
  {
    hide Dispatch;
  }

  lemma {:induction false} ForgottenRun(s: State, parses: Parsers, steps: seq<Step>, p: Peer, k: nat)
    requires EnabledAll(s, parses, steps) && Forgotten(s.At(p), k)
    ensures Forgotten(ApplyAll(s, parses, steps).At(p), k)
    decreases |steps|
  {
    hide Apply, Enabled, Forgotten;
    if steps != [] {
      ForgottenStep(s, parses, steps[0], p, k);
      ForgottenRun(Apply(s, parses, steps[0]), parses, steps[1..], p, k);
    }
  }

  /** Whatever happens after the overwriting call, the older call's `done` never runs. */
  lemma OverwrittenNeverRuns(s: State, parses: Parsers, step: Step, steps: seq<Step>)
    requires Inv(s, parses) && step.Invoke? && !Fresh(s, step)
    requires EnabledAll(Apply(s, parses, step), parses, steps)
    ensures var k, t := Holder(s, step.p), ApplyAll(Apply(s, parses, step), parses, steps);
            Open(s, Tag(step.p, k)) && !RanAs(t.At(step.p), k)
  {
    hide Dispatch, CountsOk, AllWorkOk, AnsweredOk;
    var k, side := Holder(s, step.p), s.At(step.p);
    assert SideOk(side);
    assert forall j :: 0 <= j < |side.ran| ==> Due(side, side.ran[j].call);
    assert Forgotten(Apply(s, parses, step).At(step.p), k);
    ForgottenRun(Apply(s, parses, step), parses, steps, step.p, k);
  }

  // ---- A run that gets there ----

  function Repeat(step: Step, n: nat): (steps: seq<Step>)
    ensures |steps| == n
  {
    if n == 0 then [] else [step] + Repeat(step, n - 1)
  }

  /** `t` is `s` after `n` more calls by `p` with nothing delivered. */
  predicate Called(s: State, t: State, p: Peer, n: nat) {
    && |t.At(p).calls| == |s.At(p).calls| + n && s.At(p).calls <= t.At(p).calls
    && t.At(p.Other()) == s.At(p.Other())
    && t.At(p).answered == s.At(p).answered && t.At(p).results == s.At(p).results && t.At(p).ran == s.At(p).ran
    && t.At(p).session.services == s.At(p).session.services
    && s.work <= t.work
  }

  lemma {:induction false} RepeatRuns(s: State, parses: Parsers, step: Step, n: nat)
    requires step.Invoke?
    ensures EnabledAll(s, parses, Repeat(step, n))
    ensures Called(s, ApplyAll(s, parses, Repeat(step, n)), step.p, n)
    decreases n
  {
    hide Apply, Called;
    if n > 0 {
      var t := Apply(s, parses, step);
      assert Repeat(step, n)[0] == step && Repeat(step, n)[1..] == Repeat(step, n - 1);
      RepeatRuns(t, parses, step, n - 1);
      CalledMore(s, parses, step, ApplyAll(t, parses, Repeat(step, n - 1)), n - 1);
    } else {
      CalledNone(s, step.p);
    }
  }

  lemma CalledNone(s: State, p: Peer)
    ensures Called(s, s, p, 0)
  {
  }

  lemma CalledMore(s: State, parses: Parsers, step: Step, u: State, n: nat)
    requires step.Invoke? && Called(Apply(s, parses, step), u, step.p, n)
    ensures Called(s, u, step.p, n + 1)
  {
    hide Outcome;
  }

  /** 2^32 calls with nothing delivered use every id once; the next call is not fresh. */
  lemma IdsRunOut(left: Services, right: Services, parses: Parsers, step: Step)
    requires step.Invoke?
    ensures var init, steps := Init(left, right), Repeat(step, ID_COUNT);
            && EnabledAll(init, parses, steps) && FreshAll(init, parses, steps)
            && Inv(ApplyAll(init, parses, steps), parses)
            && !Fresh(ApplyAll(init, parses, steps), step)
  {
    hide Inv, Apply, Repeat;
    var init, steps := Init(left, right), Repeat(step, ID_COUNT);
    RepeatRuns(init, parses, step, ID_COUNT);
    InvInit(left, right, parses);
    FewCallsFresh(init, parses, steps);
    InvRun(init, parses, steps);
    FirstHolds(ApplyAll(init, parses, steps), parses, step.p);
  }

  /** While the first call waits, the call after 2^32 of them would overwrite its entry. */
  lemma FirstHolds(s: State, parses: Parsers, p: Peer)
    requires Inv(s, parses) && |s.At(p).calls| == ID_COUNT && 0 !in s.At(p).answered
    ensures s.At(p).session.nextId in s.At(p).session.pending && Holder(s, p) == 0
  {
    hide Dispatch, CountsOk, AllWorkOk, AnsweredOk;
    assert SideOk(s.At(p));
    SameWord(0, ID_COUNT);
  }

  // ---- From the start to the wrong result ----

  lemma TwoSteps(s: State, parses: Parsers, a: Step, b: Step)
    requires Enabled(s, a) && Enabled(Apply(s, parses, a), b)
    ensures EnabledAll(s, parses, [a, b])
    ensures ApplyAll(s, parses, [a, b]) == Apply(Apply(s, parses, a), parses, b)
    ensures !a.Invoke? && !b.Invoke? ==> FreshAll(s, parses, [a, b])
  {
    hide Apply, Enabled;
    var t := Apply(s, parses, a);
    assert [a, b][1..] == [b] && [b][1..] == [];
    assert EnabledAll(t, parses, [b]) && ApplyAll(t, parses, [b]) == Apply(t, parses, b);
    assert !b.Invoke? ==> FreshAll(t, parses, [b]);
  }

  /** The first call, after many others, is delivered and served: its answer is on its way. */
  lemma FirstAnswered(s: State, parses: Parsers, p: Peer, result: seq<byte>)
    requires Inv(s, parses) && |s.At(p).calls| == ID_COUNT && 0 !in s.At(p).answered && 0 !in s.At(p).results
    requires s.work != [] && s.work[0].tag == Tag(p, 0) && s.work[0].Packet? && s.work[0].to == p.Other()
    requires Verdict(s, parses, Tag(p, 0)) == NO_ERROR
    ensures var steps := [Deliver(0), Finish(|s.work| - 1, result)];
            && EnabledAll(s, parses, steps) && FreshAll(s, parses, steps)
            && var t := ApplyAll(s, parses, steps);
               && t.At(p) == s.At(p).(results := s.At(p).results[0 := result])
               && |t.work| == |s.work|
               && (result != [] ==> Answering(t, p, 0, |t.work| - 1))
  {
    hide Dispatch, CountsOk, AnsweredOk, SideOk;
    var n := |s.work| - 1;
    var w := DeliveredRequest(s, parses, 0);
    var s' := Apply(s, parses, Deliver(0));
    assert s'.work[n] == w && w.Serving?;
    assert WorkOk(s, parses, w);
    TwoSteps(s, parses, Deliver(0), Finish(n, result));
    var t := Apply(s', parses, Finish(n, result));
    assert t.work[n] == Packet(p, DoneReply(w.job.id, result), Tag(p, 0));
  }

  /**
   A run of the code as it is, from a new connection: one call of `p` more than there are ids, then the
   first call's answer arrives. The one `done` that runs is the last call's, with the first
   call's result; for the last call nothing was ever computed.
   */
  lemma WrongResultReached(left: Services, right: Services, parses: Parsers, step: Step, result: seq<byte>)
    returns (steps: seq<Step>)
    requires step.Invoke? && step.hasResponse && step.hasDone && result != []
    requires var services := if step.p == Left then right else left;
             Accepts(services, parses(step.p.Other()), step.service, step.rpc, step.request)
    ensures EnabledAll(Init(left, right), parses, steps)
    ensures var side := ApplyAll(Init(left, right), parses, steps).At(step.p);
            && side.ran == [DoneRun(ID_COUNT, result)]
            && ID_COUNT !in side.results
            && 0 in side.results && side.results[0] == result
            && !RanAs(side, 0)
  {
    hide Inv, Apply, Repeat, Dispatch, Accepts, OnMessage;
    var init, flood, p := Init(left, right), Repeat(step, ID_COUNT), step.p;
    DispatchExact(if p == Left then right else left, parses(p.Other()), step.service, step.rpc, step.request, NO_ERROR);
    IdsRunOut(left, right, parses, step);
    FloodStarts(left, right, parses, step);
    var s := ApplyAll(init, parses, flood);
    FirstAnswered(s, parses, p, result);
    var serve := [Deliver(0), Finish(|s.work| - 1, result)];
    var t := ApplyAll(s, parses, serve);
    InvRun(s, parses, serve);
    FirstHolds(t, parses, p);
    var last := [step, Deliver(|t.work| - 1)];
    Misdelivered(t, parses, step, |t.work| - 1);
    TwoSteps(t, parses, step, Deliver(|t.work| - 1));
    ResultsStay(t, parses, step, |t.work| - 1);
    RunConcat(init, parses, flood, serve);
    steps := flood + serve + last;
    RunConcat(init, parses, flood + serve, last);
  }

  lemma ResultsStay(t: State, parses: Parsers, step: Step, i: nat)
    requires step.Invoke? && Enabled(Apply(t, parses, step), Deliver(i))
    ensures Apply(Apply(t, parses, step), parses, Deliver(i)).At(step.p).results == t.At(step.p).results
  {
    hide OnMessage;
  }

  /** What the flood of calls leaves behind: the first request at the front, nothing answered or computed. */
  lemma FloodStarts(left: Services, right: Services, parses: Parsers, step: Step)
    requires step.Invoke?
    requires EnabledAll(Init(left, right), parses, Repeat(step, ID_COUNT))
    ensures var s, p := ApplyAll(Init(left, right), parses, Repeat(step, ID_COUNT)), step.p;
            && |s.At(p).calls| == ID_COUNT && s.At(p).answered == {} && s.At(p).results == map[] && s.At(p).ran == []
            && s.At(p.Other()).session.services == (if p == Left then right else left)
            && s.work != [] && s.work[0].tag == Tag(p, 0) && s.work[0].Packet? && s.work[0].to == p.Other()
            && s.At(p).calls[0].service == step.service && s.At(p).calls[0].rpc == step.rpc
            && s.At(p).calls[0].request == step.request
  {
    hide Repeat;
    var init, first := Init(left, right), Apply(Init(left, right), parses, step);
    RepeatMore(step, ID_COUNT);
    RepeatRuns(first, parses, step, ID_COUNT - 1);
    assert |first.work| == 1 && first.work[0].tag == Tag(step.p, 0);
    assert Repeat(step, ID_COUNT)[1..] == Repeat(step, ID_COUNT - 1);
  }

  lemma RepeatMore(step: Step, n: nat)
    requires n > 0
    ensures Repeat(step, n) == [step] + Repeat(step, n - 1)
  {
  }
}
