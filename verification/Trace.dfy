/**
 What can be seen of a run from outside, the calls made and what the services computed for them, and
 what that says about the `done` closures that run.
 */
module Trace {
  import opened Bytes
  import opened SessionSpec
  import opened Protocol

  datatype Visible =
    | Called(p: Peer, service: Text, rpc: Text, request: seq<byte>, hasResponse: bool, hasDone: bool)
    | Computed(at: Peer, job: Job, result: seq<byte>)

  function Seen(s: State, step: Step): seq<Visible>
    requires Enabled(s, step)
  {
    match step
    case Invoke(p, service, rpc, request, hasResponse, hasDone) =>
      [Called(p, service, rpc, request, hasResponse, hasDone)]
    case Deliver(_) => []
    case Finish(i, result) => [Computed(s.work[i].at, s.work[i].job, result)]
  }

  function TraceOf(s: State, parses: Parsers, steps: seq<Step>): seq<Visible>
    requires EnabledAll(s, parses, steps)
    decreases |steps|
  {
    if steps == [] then [] else Seen(s, steps[0]) + TraceOf(Apply(s, parses, steps[0]), parses, steps[1..])
  }

  lemma {:induction false} TraceConcat(s: State, parses: Parsers, a: seq<Step>, b: seq<Step>)
    requires EnabledAll(s, parses, a) && EnabledAll(ApplyAll(s, parses, a), parses, b)
    ensures EnabledAll(s, parses, a + b)
    ensures TraceOf(s, parses, a + b) == TraceOf(s, parses, a) + TraceOf(ApplyAll(s, parses, a), parses, b)
    decreases |a|
  {
    hide Apply, Enabled, Seen;
    RunConcat(s, parses, a, b);
    if a == [] {
      assert a + b == b;
    } else {
      assert (a + b)[0] == a[0] && (a + b)[1..] == a[1..] + b;
      TraceConcat(Apply(s, parses, a[0]), parses, a[1..], b);
    }
  }

  /** The calls of one end, in order: call `k` is the one at index `k`. */
  function CallsOf(trace: seq<Visible>, p: Peer): (calls: seq<Visible>)
    ensures forall k :: 0 <= k < |calls| ==> calls[k].Called? && calls[k].p == p
  {
    if trace == [] then []
    else
      var last := trace[|trace| - 1];
      CallsOf(trace[..|trace| - 1], p) + if last.Called? && last.p == p then [last] else []
  }

  lemma CallsOfMore(trace: seq<Visible>, v: Visible, p: Peer)
    ensures CallsOf(trace + [v], p) == CallsOf(trace, p) + if v.Called? && v.p == p then [v] else []
  {
    assert (trace + [v])[..|trace|] == trace;
  }

  // ---- The tables of both ends are those of the trace ----

  function AsCalled(p: Peer, c: Call): Visible {
    Called(p, c.service, c.rpc, c.request, c.hasResponse, c.hasDone)
  }

  function AsJob(c: Call): Job {
    Job(c.id, c.service, c.rpc, c.request)
  }

  predicate Recorded(side: Side, p: Peer, trace: seq<Visible>) {
    && |CallsOf(trace, p)| == |side.calls|
    && (forall k :: 0 <= k < |side.calls| ==> CallsOf(trace, p)[k] == AsCalled(p, side.calls[k]))
    && (forall k <- side.results ::
          k < |side.calls| && Computed(p.Other(), AsJob(side.calls[k]), side.results[k]) in trace)
  }

  lemma RecordedStep(s: State, parses: Parsers, step: Step, p: Peer, trace: seq<Visible>)
    requires Inv(s, parses) && Enabled(s, step) && Recorded(s.At(p), p, trace)
    ensures Recorded(Apply(s, parses, step).At(p), p, trace + Seen(s, step))
  {
    hide Recorded, Apply;
    match step
    case Invoke(_, _, _, _, _, _) => RecordedInvoke(s, parses, step, p, trace);
    case Deliver(i) => RecordedDeliver(s, parses, i, p, trace);
    case Finish(i, result) =>
      WorkIs(s, parses, i);
      RecordedFinish(s, parses, i, result, p, trace);
  }

  lemma RecordedInvoke(s: State, parses: Parsers, step: Step, p: Peer, trace: seq<Visible>)
    requires step.Invoke? && Recorded(s.At(p), p, trace)
    ensures Recorded(Apply(s, parses, step).At(p), p, trace + Seen(s, step))
  {
    hide Outcome, CallsOf;
    CallsOfMore(trace, Seen(s, step)[0], p);
  }

  lemma RecordedDeliver(s: State, parses: Parsers, i: nat, p: Peer, trace: seq<Visible>)
    requires Enabled(s, Deliver(i)) && Recorded(s.At(p), p, trace)
    ensures Recorded(Apply(s, parses, Deliver(i)).At(p), p, trace + Seen(s, Deliver(i)))
  {
    hide Outcome, OnMessage, CallsOf, Without;
    assert trace + [] == trace;
  }

  lemma WorkIs(s: State, parses: Parsers, i: nat)
    requires Inv(s, parses) && i < |s.work|
    ensures WorkOk(s, parses, s.work[i])
  {
    hide WorkOk;
  }

  lemma RecordedFinish(s: State, parses: Parsers, i: nat, result: seq<byte>, p: Peer, trace: seq<Visible>)
    requires Enabled(s, Finish(i, result)) && WorkOk(s, parses, s.work[i]) && Recorded(s.At(p), p, trace)
    ensures Recorded(Apply(s, parses, Finish(i, result)).At(p), p, trace + Seen(s, Finish(i, result)))
  {
    hide Dispatch, CallsOf, Without;
    CallsOfMore(trace, Seen(s, Finish(i, result))[0], p);
  }

  lemma {:induction false} RecordedRun(s: State, parses: Parsers, steps: seq<Step>, p: Peer, trace: seq<Visible>)
    requires Inv(s, parses) && EnabledAll(s, parses, steps) && FreshAll(s, parses, steps)
    requires Recorded(s.At(p), p, trace)
    ensures Recorded(ApplyAll(s, parses, steps).At(p), p, trace + TraceOf(s, parses, steps))
    decreases |steps|
  {
    hide Inv, Apply, Enabled, Fresh, Recorded, Seen;
    if steps == [] {
      assert trace + [] == trace;
    } else {
      RecordedStep(s, parses, steps[0], p, trace);
      InvStep(s, parses, steps[0]);
      var t := Apply(s, parses, steps[0]);
      RecordedRun(t, parses, steps[1..], p, trace + Seen(s, steps[0]));
      assert trace + Seen(s, steps[0]) + TraceOf(t, parses, steps[1..]) == trace + TraceOf(s, parses, steps);
    }
  }

  lemma {:induction false} ServicesStay(s: State, parses: Parsers, steps: seq<Step>, p: Peer)
    requires EnabledAll(s, parses, steps)
    ensures ApplyAll(s, parses, steps).At(p).session.services == s.At(p).session.services
    decreases |steps|
  {
    hide Dispatch;
    if steps != [] { ServicesStay(Apply(s, parses, steps[0]), parses, steps[1..], p); }
  }

  // ---- What an end is promised, in terms of the trace ----

  /** The service call that call `k` of an end amounts to at the other end. */
  function JobOf(c: Visible, k: nat): Job
    requires c.Called?
  {
    Job(ToInt32(k), c.service, c.rpc, c.request)
  }

  /**
   Every `done` that ran is that of a call made with both pointers, no two are of the same call, and each got a
   non-empty result that the other end's service computed for the request of that very call.
   */
  predicate RanOwn(trace: seq<Visible>, p: Peer, ran: seq<DoneRun>) {
    var calls := CallsOf(trace, p);
    && (forall j :: 0 <= j < |ran| ==>
          && ran[j].call < |calls|
          && var c := calls[ran[j].call];
             && c.hasResponse && c.hasDone && ran[j].response != []
             && Computed(p.Other(), JobOf(c, ran[j].call), ran[j].response) in trace)
    && (forall j, l :: 0 <= j < l < |ran| ==> ran[j].call != ran[l].call)
  }

  predicate RanCall(ran: seq<DoneRun>, k: nat) {
    exists j :: 0 <= j < |ran| && ran[j].call == k
  }

  /**
   Call `k` is over: a request the other end's tables refuse ran no `done`; for any other the service computed
   a result, and `done` ran with it if it is not empty and both pointers were given, and not at all otherwise.
   */
  ghost predicate Over(trace: seq<Visible>, p: Peer, k: nat, accepts: RequestParser, services: Services,
                       ran: seq<DoneRun>)
    requires k < |CallsOf(trace, p)|
  {
    var c := CallsOf(trace, p)[k];
    if !Accepts(services, accepts, c.service, c.rpc, c.request) then !RanCall(ran, k)
    else
      exists result: seq<byte> ::
        && Computed(p.Other(), JobOf(c, k), result) in trace
        && if result != [] && c.hasResponse && c.hasDone then DoneRun(k, result) in ran else !RanCall(ran, k)
  }

  lemma RecordedOwn(side: Side, p: Peer, trace: seq<Visible>)
    requires SideOk(side) && Recorded(side, p, trace)
    ensures RanOwn(trace, p, side.ran)
  {
    hide CallsOf, PendingOk;
    forall j | 0 <= j < |side.ran|
      ensures Due(side, side.ran[j].call) && side.ran[j].response == side.results[side.ran[j].call]
    {
    }
  }

  lemma RecordedOver(s: State, parses: Parsers, p: Peer, k: nat, trace: seq<Visible>)
    requires Inv(s, parses) && Recorded(s.At(p), p, trace) && k < |s.At(p).calls| && k in s.At(p).answered
    ensures k < |CallsOf(trace, p)|
    ensures Over(trace, p, k, parses(p.Other()), s.At(p.Other()).session.services, s.At(p).ran)
  {
    hide CallsOf, PendingOk, CountsOk, AllWorkOk, Dispatch, Accepts;
    var side := s.At(p);
    AcceptedExact(s, parses, Tag(p, k));
    assert SideOk(side) && AnsweredOk(s, parses, p);
    assert RanCall(side.ran, k) <==> Due(side, k);
    if Verdict(s, parses, Tag(p, k)) == NO_ERROR {
      var result := side.results[k];
      assert Computed(p.Other(), JobOf(CallsOf(trace, p)[k], k), result) in trace;
      if Due(side, k) {
        var j :| 0 <= j < |side.ran| && side.ran[j].call == k;
        assert side.ran[j] == DoneRun(k, result);
      }
    }
  }

  // ---- Only what the tables accept is served ----

  predicate Serves(v: Visible, parses: Parsers, left: Services, right: Services) {
    v.Computed? ==> Accepts(TablesOf(v.at, left, right), parses(v.at), v.job.service, v.job.rpc, v.job.request)
  }

  predicate Served(trace: seq<Visible>, parses: Parsers, left: Services, right: Services) {
    forall i :: 0 <= i < |trace| ==> Serves(trace[i], parses, left, right)
  }

  predicate HasTables(s: State, left: Services, right: Services) {
    s.left.session.services == left && s.right.session.services == right
  }

  /** A service call under way is of a service and method in the tables of its end, with bytes its type takes. */
  lemma ServingAccepted(s: State, parses: Parsers, i: nat, left: Services, right: Services)
    requires Inv(s, parses) && HasTables(s, left, right) && i < |s.work| && s.work[i].Serving?
    ensures var Serving(at, job, _) := s.work[i];
            Accepts(TablesOf(at, left, right), parses(at), job.service, job.rpc, job.request)
  {
    hide Inv, Dispatch, Accepts;
    WorkIs(s, parses, i);
    AcceptedExact(s, parses, s.work[i].tag);
  }

  lemma {:induction false} ServedRun(s: State, parses: Parsers, steps: seq<Step>, left: Services, right: Services)
    requires Inv(s, parses) && EnabledAll(s, parses, steps) && FreshAll(s, parses, steps)
    requires HasTables(s, left, right)
    ensures Served(TraceOf(s, parses, steps), parses, left, right)
    ensures HasTables(ApplyAll(s, parses, steps), left, right)
    decreases |steps|
  {
    hide Inv, Apply, Enabled, Fresh, Accepts;
    if steps != [] {
      if steps[0].Finish? { CanServe(s, parses, steps[0], left, right); }
      InvStep(s, parses, steps[0]);
      TablesStay(s, parses, steps[0], left, right);
      ServedRun(Apply(s, parses, steps[0]), parses, steps[1..], left, right);
    }
  }

  lemma CanServe(s: State, parses: Parsers, step: Step, left: Services, right: Services)
    requires Inv(s, parses) && Enabled(s, step) && step.Finish? && HasTables(s, left, right)
    ensures Served(Seen(s, step), parses, left, right)
  {
    hide Inv, Accepts;
    ServingAccepted(s, parses, step.i, left, right);
  }

  lemma TablesStay(s: State, parses: Parsers, step: Step, left: Services, right: Services)
    requires Enabled(s, step) && HasTables(s, left, right)
    ensures HasTables(Apply(s, parses, step), left, right)
  {
    hide Dispatch;
  }

  /**
   Over every run: whatever a service is asked to do, and whatever it computes, is for a service in the
   tables of its end, a method of that service, and a request that parses.
   */
  lemma RunServed(left: Services, right: Services, parses: Parsers, steps: seq<Step>, i: nat)
    requires EnabledAll(Init(left, right), parses, steps) && FreshAll(Init(left, right), parses, steps)
    ensures Served(TraceOf(Init(left, right), parses, steps), parses, left, right)
    ensures var s := ApplyAll(Init(left, right), parses, steps);
            i < |s.work| && s.work[i].Serving? ==>
              var Serving(at, job, _) := s.work[i];
              Accepts(TablesOf(at, left, right), parses(at), job.service, job.rpc, job.request)
  {
    hide Inv, Accepts, Served, Apply;
    var init, s := Init(left, right), ApplyAll(Init(left, right), parses, steps);
    InvInit(left, right, parses);
    InvRun(init, parses, steps);
    ServedRun(init, parses, steps, left, right);
    if i < |s.work| && s.work[i].Serving? { ServingAccepted(s, parses, i, left, right); }
  }

  /** Over every run without reuse of a waiting call's id, each `done` that runs gets its own call's result. */
  lemma RunRanOwn(left: Services, right: Services, parses: Parsers, steps: seq<Step>, p: Peer)
    requires EnabledAll(Init(left, right), parses, steps) && FreshAll(Init(left, right), parses, steps)
    ensures var trace := TraceOf(Init(left, right), parses, steps);
            var s := ApplyAll(Init(left, right), parses, steps);
            Recorded(s.At(p), p, trace) && RanOwn(trace, p, s.At(p).ran)
  {
    hide RanOwn, SideOk;
    var init, trace := Init(left, right), TraceOf(Init(left, right), parses, steps);
    InvInit(left, right, parses);
    RecordedRun(init, parses, steps, p, []);
    assert [] + trace == trace;
    InvRun(init, parses, steps);
    SidesOk(ApplyAll(init, parses, steps), parses);
    RecordedOwn(ApplyAll(init, parses, steps).At(p), p, trace);
  }
}
