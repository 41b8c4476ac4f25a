/**
 Two sessions and the messages between them. Either end may call and serve. Messages may
 overtake each other. Each piece of work in flight carries a tag naming the call it belongs
 to; the tag is for stating properties only, no handler reads it.
 */
module Protocol {
  import opened Bytes
  import opened SessionSpec

  datatype Peer = Left | Right {
    function Other(): Peer {
      if this == Left then Right else Left
    }
  }

  datatype Tag = Tag(caller: Peer, call: nat)

  datatype Call = Call(id: int32, service: Text, rpc: Text, request: seq<byte>, hasResponse: bool, hasDone: bool)

  datatype Work =
    | Packet(to: Peer, msg: RpcMessage, tag: Tag)
    | Serving(at: Peer, job: Job, tag: Tag)

  /**
   One end: its session, the calls it made, which of them have been answered, what the other
   end's services computed for them, and the `done` closures it ran.
   */
  datatype Side = Side(
    session: Session, calls: seq<Call>, answered: set<nat>, results: map<nat, seq<byte>>, ran: seq<DoneRun>)

  datatype State = State(left: Side, right: Side, work: seq<Work>) {
    function At(p: Peer): Side {
      if p == Left then left else right
    }

    function With(p: Peer, side: Side): State {
      if p == Left then this.(left := side) else this.(right := side)
    }
  }

  type Parsers = Peer -> RequestParser

  function NewSide(services: Services): Side {
    Side(Session(0, map[], services), [], {}, map[], [])
  }

  function TablesOf(p: Peer, left: Services, right: Services): Services {
    if p == Left then left else right
  }

  function Init(left: Services, right: Services): State {
    State(NewSide(left), NewSide(right), [])
  }

  datatype Step =
    | Invoke(p: Peer, service: Text, rpc: Text, request: seq<byte>, hasResponse: bool, hasDone: bool)
    | Deliver(i: nat)
    | Finish(i: nat, result: seq<byte>)

  predicate Enabled(s: State, step: Step) {
    match step
    case Invoke(_, _, _, _, _, _) => true
    case Deliver(i) => i < |s.work| && s.work[i].Packet?
    case Finish(i, _) => i < |s.work| && s.work[i].Serving?
  }

  /** The id the call will use is not that of a call still waiting. */
  predicate Fresh(s: State, step: Step) {
    step.Invoke? ==> s.At(step.p).session.nextId !in s.At(step.p).session.pending
  }

  function Without(work: seq<Work>, i: nat): seq<Work>
    requires i < |work|
  {
    work[..i] + work[i + 1..]
  }

  function Outcome(r: Reaction, p: Peer, tag: Tag): seq<Work> {
    seq(|r.sent|, k requires 0 <= k < |r.sent| => Packet(p.Other(), r.sent[k], tag)) +
    seq(|r.started|, k requires 0 <= k < |r.started| => Serving(p, r.started[k], tag))
  }

  function Issued(side: Side, call: Call, r: Reaction): Side {
    side.(session := r.session, calls := side.calls + [call])
  }

  function Reacted(side: Side, k: nat, msg: RpcMessage, r: Reaction): Side {
    side.(session := r.session, ran := side.ran + r.ran,
          answered := if msg.kind == RESPONSE then side.answered + {k} else side.answered)
  }

  function Apply(s: State, parses: Parsers, step: Step): State
    requires Enabled(s, step)
  {
    match step
    case Invoke(p, service, rpc, request, hasResponse, hasDone) =>
      var side, k := s.At(p), |s.At(p).calls|;
      var call := Call(side.session.nextId, service, rpc, request, hasResponse, hasDone);
      var r := CallMethod(side.session, Pending(k, hasResponse, hasDone), service, rpc, request);
      s.With(p, Issued(side, call, r)).(work := s.work + Outcome(r, p, Tag(p, k)))
    case Deliver(i) =>
      var Packet(to, msg, tag) := s.work[i];
      var r := OnMessage(s.At(to).session, parses(to), msg);
      s.With(to, Reacted(s.At(to), tag.call, msg, r)).(work := Without(s.work, i) + Outcome(r, to, tag))
    case Finish(i, result) =>
      var Serving(at, job, tag) := s.work[i];
      var side := s.At(tag.caller);
      s.With(tag.caller, side.(results := side.results[tag.call := result]))
       .(work := Without(s.work, i) + [Packet(at.Other(), DoneReply(job.id, result), tag)])
  }

  // ---- Where a call is ----

  function Count(work: seq<Work>, tag: Tag): nat {
    if work == [] then 0 else Count(work[..|work| - 1], tag) + if work[|work| - 1].tag == tag then 1 else 0
  }

  lemma {:induction false} CountConcat(a: seq<Work>, b: seq<Work>, tag: Tag)
    ensures Count(a + b, tag) == Count(a, tag) + Count(b, tag)
    decreases |b|
  {
    if b == [] {
      assert a + b == a;
    } else {
      assert (a + b)[..|a + b| - 1] == a + b[..|b| - 1];
      CountConcat(a, b[..|b| - 1], tag);
    }
  }

  lemma CountOne(w: Work, tag: Tag)
    ensures Count([w], tag) == if w.tag == tag then 1 else 0
  {
    assert [w][..0] == [];
  }

  lemma CountWithout(work: seq<Work>, i: nat, tag: Tag)
    requires i < |work|
    ensures Count(Without(work, i), tag) == Count(work, tag) - if work[i].tag == tag then 1 else 0
  {
    hide Count;
    assert work == work[..i] + [work[i]] + work[i + 1..];
    CountConcat(work[..i] + [work[i]], work[i + 1..], tag);
    CountConcat(work[..i], [work[i]], tag);
    CountConcat(work[..i], work[i + 1..], tag);
    CountOne(work[i], tag);
  }

  /** Two pieces of work of one call are counted twice. */
  lemma CountTwo(work: seq<Work>, i: nat, j: nat)
    requires i < j < |work| && work[i].tag == work[j].tag
    ensures Count(work, work[i].tag) >= 2
  {
    CountWithout(work, j, work[i].tag);
    assert Without(work, j)[i] == work[i];
    CountWithout(Without(work, j), i, work[i].tag);
  }

  lemma CountPresent(work: seq<Work>, i: nat)
    requires i < |work|
    ensures Count(work, work[i].tag) >= 1
  {
    CountWithout(work, i, work[i].tag);
  }

  // ---- The invariant ----

  /** Issued and not yet answered. */
  predicate Open(s: State, tag: Tag) {
    tag.call < |s.At(tag.caller).calls| && tag.call !in s.At(tag.caller).answered
  }

  ghost predicate CountsOk(s: State) {
    forall tag :: Count(s.work, tag) == if Open(s, tag) then 1 else 0
  }

  /** What the other end's tables say about a call. */
  function Verdict(s: State, parses: Parsers, tag: Tag): ErrorCode
    requires tag.call < |s.At(tag.caller).calls|
  {
    var c, server := s.At(tag.caller).calls[tag.call], tag.caller.Other();
    Dispatch(s.At(server).session.services, parses(server), c.service, c.rpc, c.request)
  }

  predicate WorkOk(s: State, parses: Parsers, w: Work) {
    var side, k := s.At(w.tag.caller), w.tag.call;
    && k < |side.calls|
    && var c := side.calls[k];
    match w
    case Serving(at, job, tag) =>
      && at == tag.caller.Other() && k !in side.results && Verdict(s, parses, tag) == NO_ERROR
      && job == Job(c.id, c.service, c.rpc, c.request)
    case Packet(to, msg, tag) =>
      if to != tag.caller then k !in side.results && msg == RequestMessage(c.id, c.service, c.rpc, c.request)
      else msg == Answer(s, parses, tag) && (k in side.results <==> Verdict(s, parses, tag) == NO_ERROR)
  }

  /** The one reply a call can get. */
  function Answer(s: State, parses: Parsers, tag: Tag): RpcMessage
    requires tag.call < |s.At(tag.caller).calls|
  {
    var side := s.At(tag.caller);
    var c := side.calls[tag.call];
    if tag.call in side.results then DoneReply(c.id, side.results[tag.call])
    else ErrorReply(Widen(c.id), Verdict(s, parses, tag))
  }

  predicate AllWorkOk(s: State, parses: Parsers) {
    forall i :: 0 <= i < |s.work| ==> WorkOk(s, parses, s.work[i])
  }

  /** The map holds exactly the waiting calls, each under its own id. */
  predicate PendingOk(side: Side) {
    && (forall k :: 0 <= k < |side.calls| && k !in side.answered ==>
          side.calls[k].id in side.session.pending
          && side.session.pending[side.calls[k].id] == Pending(k, side.calls[k].hasResponse, side.calls[k].hasDone))
    && (forall id <- side.session.pending ::
          var k := side.session.pending[id].call;
          k < |side.calls| && k !in side.answered && side.calls[k].id == id)
  }

  predicate IdsOk(side: Side) {
    && side.session.nextId == ToInt32(|side.calls|)
    && (forall k :: 0 <= k < |side.calls| ==> side.calls[k].id == ToInt32(k))
    && (forall k <- side.answered :: k < |side.calls|)
    && (forall k <- side.results :: k < |side.calls|)
  }

  /** Is the `done` of call `k` due: was it answered with a non-empty result, with both pointers there? */
  predicate Due(side: Side, k: nat) {
    && k < |side.calls| && k in side.answered
    && k in side.results && side.results[k] != []
    && side.calls[k].hasResponse && side.calls[k].hasDone
  }

  /** Every `done` that ran was due, with that call's own result; none ran twice; every one due has run. */
  predicate RanOk(side: Side) {
    && (forall j :: 0 <= j < |side.ran| ==>
          Due(side, side.ran[j].call) && side.ran[j].response == side.results[side.ran[j].call])
    && (forall j, l :: 0 <= j < l < |side.ran| ==> side.ran[j].call != side.ran[l].call)
    && (forall k :: 0 <= k < |side.calls| && Due(side, k) ==> exists j :: 0 <= j < |side.ran| && side.ran[j].call == k)
  }

  predicate SideOk(side: Side) {
    PendingOk(side) && IdsOk(side) && RanOk(side)
  }

  /** An answered call got a result exactly when the tables accept it. */
  predicate AnsweredOk(s: State, parses: Parsers, p: Peer) {
    forall k :: 0 <= k < |s.At(p).calls| && k in s.At(p).answered ==>
      (k in s.At(p).results <==> Verdict(s, parses, Tag(p, k)) == NO_ERROR)
  }

  ghost predicate Inv(s: State, parses: Parsers) {
    && CountsOk(s) && AllWorkOk(s, parses)
    && SideOk(s.left) && SideOk(s.right)
    && AnsweredOk(s, parses, Left) && AnsweredOk(s, parses, Right)
  }

  lemma InvInit(left: Services, right: Services, parses: Parsers)
    ensures Inv(Init(left, right), parses)
  {
  }

  // ---- Every step keeps it ----

  /** Nothing that `WorkOk` or `AnsweredOk` says about this call changed. */
  predicate SameCall(s: State, t: State, tag: Tag) {
    var a, b, k := s.At(tag.caller), t.At(tag.caller), tag.call;
    && k < |a.calls| && k < |b.calls| && a.calls[k] == b.calls[k]
    && (k in a.results <==> k in b.results)
    && (k in a.results ==> a.results[k] == b.results[k])
    && s.At(tag.caller.Other()).session.services == t.At(tag.caller.Other()).session.services
  }

  lemma WorkOkSame(s: State, t: State, parses: Parsers, w: Work)
    requires WorkOk(s, parses, w) && SameCall(s, t, w.tag)
    ensures WorkOk(t, parses, w)
  {
    hide Dispatch;
  }

  lemma WithoutFrom(work: seq<Work>, i: nat, j: nat) returns (from: nat)
    requires i < |work| && j < |work| - 1
    ensures from < |work| && from != i && Without(work, i)[j] == work[from]
  {
    from := if j < i then j else j + 1;
  }

  /** Piece `i` is replaced by one other piece of the same call. */
  lemma Replaced(s: State, t: State, parses: Parsers, i: nat, w: Work)
    requires CountsOk(s) && AllWorkOk(s, parses)
    requires i < |s.work| && t.work == Without(s.work, i) + [w] && w.tag == s.work[i].tag
    requires forall tag :: Open(t, tag) <==> Open(s, tag)
    requires forall tag: Tag :: tag.call < |s.At(tag.caller).calls| && tag != w.tag ==> SameCall(s, t, tag)
    requires WorkOk(t, parses, w)
    ensures CountsOk(t) && AllWorkOk(t, parses)
  {
    hide WorkOk, SameCall, Open;
    forall tag
      ensures Count(t.work, tag) == Count(s.work, tag)
    {
      CountWithout(s.work, i, tag);
      CountConcat(Without(s.work, i), [w], tag);
      CountOne(w, tag);
    }
    forall j | 0 <= j < |t.work|
      ensures WorkOk(t, parses, t.work[j])
    {
      if j < |t.work| - 1 {
        OthersOk(s, t, parses, i, j);
      }
    }
  }

  lemma OthersOk(s: State, t: State, parses: Parsers, i: nat, j: nat)
    requires CountsOk(s) && AllWorkOk(s, parses)
    requires i < |s.work| && j < |s.work| - 1
    requires forall tag: Tag :: tag.call < |s.At(tag.caller).calls| && tag != s.work[i].tag ==> SameCall(s, t, tag)
    ensures WorkOk(t, parses, Without(s.work, i)[j])
  {
    hide SameCall, Dispatch;
    var from := WithoutFrom(s.work, i, j);
    assert WorkOk(s, parses, s.work[from]);
    if s.work[from].tag == s.work[i].tag {
      if from < i { CountTwo(s.work, from, i); } else { CountTwo(s.work, i, from); }
    }
    WorkOkSame(s, t, parses, s.work[from]);
  }

  lemma AnsweredSame(s: State, t: State, parses: Parsers, p: Peer)
    requires AnsweredOk(s, parses, p)
    requires forall k: nat :: k in t.At(p).answered && k < |t.At(p).calls| ==>
               k in s.At(p).answered && SameCall(s, t, Tag(p, k))
    ensures AnsweredOk(t, parses, p)
  {
    hide Dispatch;
    forall k: nat | k < |t.At(p).calls| && k in t.At(p).answered
      ensures k in t.At(p).results <==> Verdict(t, parses, Tag(p, k)) == NO_ERROR
    {
      assert SameCall(s, t, Tag(p, k));
    }
  }

  lemma IssuedOk(side: Side, call: Call)
    requires SideOk(side) && side.session.nextId !in side.session.pending && call.id == side.session.nextId
    ensures var entry := Pending(|side.calls|, call.hasResponse, call.hasDone);
            SideOk(Issued(side, call, CallMethod(side.session, entry, call.service, call.rpc, call.request)))
  {
    hide PendingOk, RanOk;
    var entry := Pending(|side.calls|, call.hasResponse, call.hasDone);
    NextWord(|side.calls|);
    IssuedPending(side, call, entry);
    IssuedRan(side, call, CallMethod(side.session, entry, call.service, call.rpc, call.request).session);
  }

  lemma IssuedPending(side: Side, call: Call, entry: Pending)
    requires PendingOk(side) && side.session.nextId !in side.session.pending && call.id == side.session.nextId
    requires entry == Pending(|side.calls|, call.hasResponse, call.hasDone)
    requires forall k <- side.answered :: k < |side.calls|
    ensures PendingOk(Issued(side, call, CallMethod(side.session, entry, call.service, call.rpc, call.request)))
  {
  }

  lemma IssuedRan(side: Side, call: Call, session: Session)
    requires RanOk(side) && IdsOk(side)
    ensures RanOk(side.(session := session, calls := side.calls + [call]))
  {
    hide IdsOk, RanOk;
    var after := side.(session := session, calls := side.calls + [call]);
    IssuedDue(side, after);
    RanSame(side, after);
  }

  /** A call that is new is not due. */
  lemma IssuedDue(side: Side, after: Side)
    requires IdsOk(side) && |after.calls| == |side.calls| + 1 && side.calls <= after.calls
    requires after.answered == side.answered && after.results == side.results
    ensures forall k: nat :: Due(after, k) <==> Due(side, k)
  {
  }

  lemma RanSame(side: Side, after: Side)
    requires RanOk(side) && after.ran == side.ran && after.results == side.results
    requires forall k: nat :: Due(after, k) <==> Due(side, k)
    ensures RanOk(after)
  {
    hide Due;
    forall k: nat | k < |after.calls| && Due(after, k)
      ensures exists j :: 0 <= j < |after.ran| && after.ran[j].call == k
    {
      DueKnown(side, k);
    }
  }

  lemma DueKnown(side: Side, k: nat)
    requires Due(side, k)
    ensures k < |side.calls|
  {
  }

  lemma NextWord(k: nat)
    ensures ToInt32(ToInt32(k) + 1) == ToInt32(k + 1)
  {
    var q := (k - ToInt32(k)) / 0x1_0000_0000;
    assert ToInt32(k) == k - q * 0x1_0000_0000;
    Int32Shift(k + 1, -q);
  }

  lemma InvInvoke(s: State, parses: Parsers, step: Step)
    requires Inv(s, parses) && step.Invoke? && Fresh(s, step)
    ensures Inv(Apply(s, parses, step), parses)
  {
    hide Dispatch, SideOk, AnsweredOk, WorkOk, SameCall;
    var p, t := step.p, Apply(s, parses, step);
    var side, k := s.At(p), |s.At(p).calls|;
    var call := Call(side.session.nextId, step.service, step.rpc, step.request, step.hasResponse, step.hasDone);
    var w := Packet(p.Other(), RequestMessage(call.id, call.service, call.rpc, call.request), Tag(p, k));
    assert t.work == s.work + [w];
    SideIds(side);
    IssuedOk(side, call);
    forall tag
      ensures Count(t.work, tag) == if Open(t, tag) then 1 else 0
    {
      CountConcat(s.work, [w], tag);
      CountOne(w, tag);
    }
    forall tag: Tag | tag.call < |s.At(tag.caller).calls|
      ensures SameCall(s, t, tag)
    {
      InvokeSame(s, parses, step, tag);
    }
    forall i | 0 <= i < |t.work|
      ensures WorkOk(t, parses, t.work[i])
    {
      if i < |s.work| {
        WorkCall(s, parses, s.work[i]);
        WorkOkSame(s, t, parses, s.work[i]);
      } else {
        NewRequestOk(t, parses, w);
      }
    }
    AnsweredKnown(s);
    AnsweredSame(s, t, parses, Left);
    AnsweredSame(s, t, parses, Right);
  }

  lemma SideIds(side: Side)
    requires SideOk(side)
    ensures forall k <- side.answered :: k < |side.calls|
    ensures forall k <- side.results :: k < |side.calls|
  {
  }

  lemma AnsweredKnown(s: State)
    requires SideOk(s.left) && SideOk(s.right)
    ensures forall p: Peer, k <- s.At(p).answered :: k < |s.At(p).calls|
  {
    SideIds(s.left);
    SideIds(s.right);
  }

  lemma WorkCall(s: State, parses: Parsers, w: Work)
    requires WorkOk(s, parses, w)
    ensures w.tag.call < |s.At(w.tag.caller).calls|
  {
  }

  lemma NewRequestOk(t: State, parses: Parsers, w: Work)
    requires w.Packet? && w.to == w.tag.caller.Other()
    requires w.tag.call < |t.At(w.tag.caller).calls| && w.tag.call !in t.At(w.tag.caller).results
    requires var c := t.At(w.tag.caller).calls[w.tag.call]; w.msg == RequestMessage(c.id, c.service, c.rpc, c.request)
    ensures WorkOk(t, parses, w)
  {
  }

  lemma InvokeSame(s: State, parses: Parsers, step: Step, tag: Tag)
    requires step.Invoke? && tag.call < |s.At(tag.caller).calls|
    ensures SameCall(s, Apply(s, parses, step), tag)
  {
  }

  /** A request becomes a service call or an error reply; neither session changes. */
  lemma DeliveredRequest(s: State, parses: Parsers, i: nat) returns (w: Work)
    requires Inv(s, parses) && Enabled(s, Deliver(i)) && s.work[i].to != s.work[i].tag.caller
    ensures Apply(s, parses, Deliver(i)) == s.(work := Without(s.work, i) + [w])
    ensures w.tag == s.work[i].tag && Burden(w) < Burden(s.work[i]) && WorkOk(s, parses, w)
  {
    hide Dispatch, SideOk, AnsweredOk;
    var Packet(to, msg, tag) := s.work[i];
    assert WorkOk(s, parses, s.work[i]);
    var c, verdict := s.At(tag.caller).calls[tag.call], Verdict(s, parses, tag);
    IdRoundTrip(c.id, 0);
    if verdict == NO_ERROR {
      w := Serving(to, Job(c.id, c.service, c.rpc, c.request), tag);
    } else {
      w := Packet(tag.caller, ErrorReply(Widen(c.id), verdict), tag);
    }
    var r := OnMessage(s.At(to).session, parses(to), msg);
    assert to == tag.caller.Other() && to.Other() == tag.caller;
    assert r == if verdict == NO_ERROR then Reaction(s.At(to).session, [], [w.job], [])
                else Reaction(s.At(to).session, [w.msg], [], []);
    assert Outcome(r, to, tag) == [w];
  }

  lemma InvDeliverRequest(s: State, parses: Parsers, i: nat)
    requires Inv(s, parses) && Enabled(s, Deliver(i)) && s.work[i].to != s.work[i].tag.caller
    ensures Inv(Apply(s, parses, Deliver(i)), parses)
  {
    hide Dispatch, SideOk, AnsweredOk, WorkOk, SameCall;
    var w := DeliveredRequest(s, parses, i);
    var t := Apply(s, parses, Deliver(i));
    forall tag: Tag | tag.call < |s.At(tag.caller).calls|
      ensures SameCall(s, t, tag)
    {
      SameSides(s, t, tag);
    }
    WorkOkSame(s, t, parses, w) by { WorkCall(s, parses, w); }
    Replaced(s, t, parses, i, w);
    AnsweredKnown(s);
    AnsweredSame(s, t, parses, Left);
    AnsweredSame(s, t, parses, Right);
  }

  lemma SameSides(s: State, t: State, tag: Tag)
    requires s.left == t.left && s.right == t.right && tag.call < |s.At(tag.caller).calls|
    ensures SameCall(s, t, tag)
  {
  }

  /** The reply to a waiting call, at its caller: the entry goes, and `done` runs exactly when it is due. */
  lemma ReactedOk(side: Side, parser: RequestParser, k: nat, msg: RpcMessage)
    requires SideOk(side) && k < |side.calls| && k !in side.answered
    requires msg.kind == RESPONSE && msg.id == Widen(side.calls[k].id)
    requires k in side.results ==> msg == DoneReply(side.calls[k].id, side.results[k])
    requires k !in side.results ==> msg.error != NO_ERROR
    ensures var r := OnMessage(side.session, parser, msg);
            && SideOk(Reacted(side, k, msg, r)) && r.sent == [] && r.started == []
            && r.session.services == side.session.services
  {
    IdRoundTrip(side.calls[k].id, 0);
    var c := side.calls[k];
    var r := OnMessage(side.session, parser, msg);
    var after := Reacted(side, k, msg, r);
    assert side.session.pending[c.id] == Pending(k, c.hasResponse, c.hasDone);
    assert PendingOk(after);
    assert forall j :: 0 <= j < |side.ran| ==> Due(side, side.ran[j].call) && side.ran[j].call != k;
    assert forall j :: 0 <= j < |side.calls| && j != k ==> (Due(after, j) <==> Due(side, j));
    assert Due(after, k) <==> r.ran == [DoneRun(k, msg.response)];
    assert !Due(after, k) ==> after.ran == side.ran;
    RanAfter(side, after, k, msg.response);
  }

  lemma RanAfter(side: Side, after: Side, k: nat, response: seq<byte>)
    requires RanOk(side)
    requires after.calls == side.calls && after.results == side.results && k < |side.calls|
    requires forall j :: 0 <= j < |side.calls| && j != k ==> (Due(after, j) <==> Due(side, j))
    requires forall j :: 0 <= j < |side.ran| ==> side.ran[j].call != k
    requires !Due(after, k) ==> after.ran == side.ran
    requires Due(after, k) ==> after.ran == side.ran + [DoneRun(k, response)] && response == side.results[k]
    ensures RanOk(after)
  {
    forall j | 0 <= j < |after.calls| && Due(after, j)
      ensures exists l :: 0 <= l < |after.ran| && after.ran[l].call == j
    {
      if j == k {
        assert after.ran[|side.ran|].call == k;
      } else {
        var l :| 0 <= l < |side.ran| && side.ran[l].call == j;
        assert after.ran[l].call == j;
      }
    }
  }

  lemma InvDeliverResponse(s: State, parses: Parsers, i: nat)
    requires Inv(s, parses) && Enabled(s, Deliver(i)) && s.work[i].to == s.work[i].tag.caller
    ensures Inv(Apply(s, parses, Deliver(i)), parses)
    ensures Apply(s, parses, Deliver(i)).work == Without(s.work, i)
  {
    hide Dispatch, SideOk, AnsweredOk, SameCall;
    var Packet(p, msg, tag) := s.work[i];
    var t, side, k := Apply(s, parses, Deliver(i)), s.At(p), tag.call;
    assert WorkOk(s, parses, s.work[i]);
    CountPresent(s.work, i);
    assert Open(s, tag);
    ReactedOk(side, parses(p), k, msg);
    assert t.work == Without(s.work, i) + [] == Without(s.work, i);
    forall other: Tag | other.call < |s.At(other.caller).calls|
      ensures SameCall(s, t, other)
    {
      DeliverSame(s, parses, i, other);
    }
    Removed(s, t, parses, i);
    AnsweredKnown(s);
    AnsweredSame(s, t, parses, p.Other());
    AnsweredMore(s, t, parses, tag);
  }

  lemma DeliverSame(s: State, parses: Parsers, i: nat, tag: Tag)
    requires Enabled(s, Deliver(i)) && tag.call < |s.At(tag.caller).calls|
    ensures SameCall(s, Apply(s, parses, Deliver(i)), tag)
  {
    hide Dispatch;
  }

  lemma AnsweredMore(s: State, t: State, parses: Parsers, tag: Tag)
    requires AnsweredOk(s, parses, tag.caller) && tag.call < |s.At(tag.caller).calls|
    requires forall k <- s.At(tag.caller).answered :: k < |s.At(tag.caller).calls|
    requires t.At(tag.caller).answered == s.At(tag.caller).answered + {tag.call}
    requires forall other: Tag :: other.call < |s.At(other.caller).calls| ==> SameCall(s, t, other)
    requires t.At(tag.caller).calls == s.At(tag.caller).calls
    requires tag.call in s.At(tag.caller).results <==> Verdict(s, parses, tag) == NO_ERROR
    ensures AnsweredOk(t, parses, tag.caller)
  {
    hide Dispatch;
    forall k: nat | k < |t.At(tag.caller).calls| && k in t.At(tag.caller).answered
      ensures k in t.At(tag.caller).results <==> Verdict(t, parses, Tag(tag.caller, k)) == NO_ERROR
    {
      assert SameCall(s, t, Tag(tag.caller, k));
    }
  }

  /** Piece `i` is consumed and its call is answered. */
  lemma Removed(s: State, t: State, parses: Parsers, i: nat)
    requires CountsOk(s) && AllWorkOk(s, parses)
    requires i < |s.work| && t.work == Without(s.work, i)
    requires Open(s, s.work[i].tag)
    requires forall tag :: Open(t, tag) <==> Open(s, tag) && tag != s.work[i].tag
    requires forall tag: Tag :: tag.call < |s.At(tag.caller).calls| ==> SameCall(s, t, tag)
    ensures CountsOk(t) && AllWorkOk(t, parses)
  {
    hide WorkOk, SameCall, Open;
    forall tag
      ensures Count(t.work, tag) == if Open(t, tag) then 1 else 0
    {
      CountWithout(s.work, i, tag);
    }
    forall j | 0 <= j < |t.work|
      ensures WorkOk(t, parses, t.work[j])
    {
      OthersOk(s, t, parses, i, j);
    }
  }

  lemma InvFinish(s: State, parses: Parsers, i: nat, result: seq<byte>)
    requires Inv(s, parses) && Enabled(s, Finish(i, result))
    ensures Inv(Apply(s, parses, Finish(i, result)), parses)
  {
    hide Dispatch, SideOk, AnsweredOk, SameCall;
    var Serving(at, job, tag) := s.work[i];
    var t, side, k := Apply(s, parses, Finish(i, result)), s.At(tag.caller), tag.call;
    assert WorkOk(s, parses, s.work[i]);
    CountPresent(s.work, i);
    assert Open(s, tag);
    var w := Packet(tag.caller, DoneReply(job.id, result), tag);
    forall other: Tag | other.call < |s.At(other.caller).calls| && other != tag
      ensures SameCall(s, t, other)
    {
      FinishSame(s, parses, i, result, other);
    }
    ResultOk(side, k, result);
    Replaced(s, t, parses, i, w);
    AnsweredKnown(s);
    AnsweredSame(s, t, parses, Left);
    AnsweredSame(s, t, parses, Right);
  }

  lemma FinishSame(s: State, parses: Parsers, i: nat, result: seq<byte>, tag: Tag)
    requires Enabled(s, Finish(i, result)) && tag.call < |s.At(tag.caller).calls| && tag != s.work[i].tag
    ensures SameCall(s, Apply(s, parses, Finish(i, result)), tag)
  {
  }

  lemma ResultOk(side: Side, k: nat, result: seq<byte>)
    requires SideOk(side) && k < |side.calls| && k !in side.answered
    ensures SideOk(side.(results := side.results[k := result]))
  {
    var after := side.(results := side.results[k := result]);
    assert forall j :: 0 <= j < |side.calls| ==> (Due(after, j) <==> Due(side, j));
    assert RanOk(after);
  }

  lemma InvStep(s: State, parses: Parsers, step: Step)
    requires Inv(s, parses) && Enabled(s, step) && Fresh(s, step)
    ensures Inv(Apply(s, parses, step), parses)
  {
    match step
    case Invoke(_, _, _, _, _, _) => InvInvoke(s, parses, step);
    case Deliver(i) =>
      if s.work[i].to == s.work[i].tag.caller {
        InvDeliverResponse(s, parses, i);
      } else {
        InvDeliverRequest(s, parses, i);
      }
    case Finish(i, result) => InvFinish(s, parses, i, result);
  }

  // ---- Runs ----

  predicate EnabledAll(s: State, parses: Parsers, steps: seq<Step>)
    decreases |steps|
  {
    steps == [] || (Enabled(s, steps[0]) && EnabledAll(Apply(s, parses, steps[0]), parses, steps[1..]))
  }

  /** No call is issued under the id of a call still waiting. */
  predicate FreshAll(s: State, parses: Parsers, steps: seq<Step>)
    requires EnabledAll(s, parses, steps)
    decreases |steps|
  {
    steps == [] || (Fresh(s, steps[0]) && FreshAll(Apply(s, parses, steps[0]), parses, steps[1..]))
  }

  function ApplyAll(s: State, parses: Parsers, steps: seq<Step>): State
    requires EnabledAll(s, parses, steps)
    decreases |steps|
  {
    if steps == [] then s else ApplyAll(Apply(s, parses, steps[0]), parses, steps[1..])
  }

  lemma {:induction false} InvRun(s: State, parses: Parsers, steps: seq<Step>)
    requires Inv(s, parses) && EnabledAll(s, parses, steps) && FreshAll(s, parses, steps)
    ensures Inv(ApplyAll(s, parses, steps), parses)
    decreases |steps|
  {
    hide Inv, Apply, Enabled, Fresh;
    if steps != [] {
      InvStep(s, parses, steps[0]);
      InvRun(Apply(s, parses, steps[0]), parses, steps[1..]);
    }
  }

  /** The runs of a call's `done`. */
  predicate RanAs(side: Side, k: nat) {
    exists j :: 0 <= j < |side.ran| && side.ran[j].call == k
  }

  /** What the other end has: its tables, and which requests their types accept. */
  predicate Accepted(s: State, parses: Parsers, tag: Tag)
    requires tag.call < |s.At(tag.caller).calls|
  {
    var c, server := s.At(tag.caller).calls[tag.call], tag.caller.Other();
    Accepts(s.At(server).session.services, parses(server), c.service, c.rpc, c.request)
  }

  /**
   Field by field, what is anywhere of a call: its request; a call of the service it names, which the other
   end offers and whose type takes the bytes; or the reply, with the result or with the code that fits.
   */
  predicate Proper(s: State, parses: Parsers, w: Work)
    requires w.tag.call < |s.At(w.tag.caller).calls|
  {
    var side, k, server := s.At(w.tag.caller), w.tag.call, w.tag.caller.Other();
    var c, id := side.calls[k], ToInt32(k);
    match w
    case Serving(at, job, tag) =>
      at == server && job == Job(id, c.service, c.rpc, c.request) && Accepted(s, parses, tag) && k !in side.results
    case Packet(to, msg, tag) =>
      if to == server then
        msg == RpcMessage(REQUEST, Widen(id), c.service, c.rpc, c.request, [], NO_ERROR) && k !in side.results
      else if k in side.results then
        var result := side.results[k];
        && Accepted(s, parses, tag)
        && msg == RpcMessage(RESPONSE, Widen(id), [], [], [], result,
                             if result == [] then INVALID_REQUEST else NO_ERROR)
      else
        && !Accepted(s, parses, tag)
        && msg == RpcMessage(RESPONSE, Widen(id), [], [], [], [], msg.error)
        && CodeFits(s.At(server).session.services, parses(server), c.service, c.rpc, c.request, msg.error)
  }

  lemma WorkProper(s: State, parses: Parsers, w: Work)
    requires WorkOk(s, parses, w) && IdsOk(s.At(w.tag.caller))
    ensures w.tag.call < |s.At(w.tag.caller).calls| && Proper(s, parses, w)
  {
    hide Dispatch, ErrorReply, DoneReply, RequestMessage, CodeFits, Accepts;
    var side, k, server := s.At(w.tag.caller), w.tag.call, w.tag.caller.Other();
    var c, code := side.calls[k], Verdict(s, parses, w.tag);
    DispatchExact(s.At(server).session.services, parses(server), c.service, c.rpc, c.request, code);
    AcceptedExact(s, parses, w.tag);
    var result := if k in side.results then side.results[k] else [];
    MessageFields(c.id, Widen(c.id), c.service, c.rpc, c.request, result, code);
  }

  lemma AcceptedExact(s: State, parses: Parsers, tag: Tag)
    requires tag.call < |s.At(tag.caller).calls|
    ensures Accepted(s, parses, tag) <==> Verdict(s, parses, tag) == NO_ERROR
  {
    var c, server := s.At(tag.caller).calls[tag.call], tag.caller.Other();
    DispatchExact(s.At(server).session.services, parses(server), c.service, c.rpc, c.request, NO_ERROR);
  }

  /**
   What a call is promised. While it waits there is exactly one request, service call or response
   of it anywhere, the request it was made with or the answer to it, and its own entry stands
   in the map; once answered there is none, and its entry is gone. Its `done` runs at most once, with
   the result computed for that very call; it has run exactly when the call was answered with a
   non-empty result and both pointers were given. A call was answered with a result exactly when
   the other end's tables accept it.
   */
  ghost predicate Safe(s: State, parses: Parsers, tag: Tag)
    requires tag.call < |s.At(tag.caller).calls|
  {
    var side, k := s.At(tag.caller), tag.call;
    var c := side.calls[k];
    && Count(s.work, tag) == (if k in side.answered then 0 else 1)
    && c.id == ToInt32(k)
    && (forall i :: 0 <= i < |s.work| && s.work[i].tag == tag ==> Proper(s, parses, s.work[i]))
    && (k !in side.answered <==>
          c.id in side.session.pending && side.session.pending[c.id] == Pending(k, c.hasResponse, c.hasDone))
    && (forall j, l :: 0 <= j < l < |side.ran| && side.ran[j].call == k ==> side.ran[l].call != k)
    && (forall j :: 0 <= j < |side.ran| && side.ran[j].call == k ==>
          k in side.results && side.ran[j].response == side.results[k])
    && (RanAs(side, k) <==> Due(side, k))
    && (k in side.answered ==> (k in side.results <==> Accepted(s, parses, tag)))
  }

  lemma InvSafe(s: State, parses: Parsers, tag: Tag)
    requires Inv(s, parses) && tag.call < |s.At(tag.caller).calls|
    ensures Safe(s, parses, tag)
  {
    hide Dispatch, WorkOk, Count, PendingOk, RanOk, Due, RanAs, Proper, Accepted;
    assert SideOk(s.At(tag.caller)) && AnsweredOk(s, parses, tag.caller);
    assert CountsOk(s);
    AcceptedExact(s, parses, tag);
    forall i | 0 <= i < |s.work| && s.work[i].tag == tag
      ensures Proper(s, parses, s.work[i])
    {
      WorkProper(s, parses, s.work[i]);
    }
    EntryThere(s.At(tag.caller), tag.call);
    RanOnce(s.At(tag.caller), tag.call);
  }

  lemma EntryThere(side: Side, k: nat)
    requires PendingOk(side) && k < |side.calls|
    ensures var c := side.calls[k];
            k !in side.answered <==>
            c.id in side.session.pending && side.session.pending[c.id] == Pending(k, c.hasResponse, c.hasDone)
  {
  }

  lemma RanOnce(side: Side, k: nat)
    requires RanOk(side) && k < |side.calls|
    ensures forall j, l :: 0 <= j < l < |side.ran| && side.ran[j].call == k ==> side.ran[l].call != k
    ensures forall j :: 0 <= j < |side.ran| && side.ran[j].call == k ==>
              k in side.results && side.ran[j].response == side.results[k]
    ensures RanAs(side, k) <==> Due(side, k)
  {
  }

  /** The promise is kept to every call in every run that issues no id of a call still waiting. */
  lemma CallSafety(left: Services, right: Services, parses: Parsers, steps: seq<Step>, tag: Tag)
    requires EnabledAll(Init(left, right), parses, steps) && FreshAll(Init(left, right), parses, steps)
    requires tag.call < |ApplyAll(Init(left, right), parses, steps).At(tag.caller).calls|
    ensures Safe(ApplyAll(Init(left, right), parses, steps), parses, tag)
  {
    InvInit(left, right, parses);
    InvRun(Init(left, right), parses, steps);
    InvSafe(ApplyAll(Init(left, right), parses, steps), parses, tag);
  }

  lemma {:induction false} RunConcat(s: State, parses: Parsers, a: seq<Step>, b: seq<Step>)
    requires EnabledAll(s, parses, a) && EnabledAll(ApplyAll(s, parses, a), parses, b)
    ensures EnabledAll(s, parses, a + b) && ApplyAll(s, parses, a + b) == ApplyAll(ApplyAll(s, parses, a), parses, b)
    ensures FreshAll(s, parses, a) && FreshAll(ApplyAll(s, parses, a), parses, b) ==> FreshAll(s, parses, a + b)
    decreases |a|
  {
    hide Apply, Enabled, Fresh;
    if a == [] {
      assert a + b == b;
    } else {
      assert (a + b)[0] == a[0] && (a + b)[1..] == a[1..] + b;
      RunConcat(Apply(s, parses, a[0]), parses, a[1..], b);
    }
  }

  // ---- When ids run out ----

  /** An id is in use exactly when a waiting call was issued a multiple of 2^32 calls earlier. */
  lemma FreshMeaning(side: Side)
    requires SideOk(side)
    ensures side.session.nextId !in side.session.pending <==>
            forall k: nat :: k < |side.calls| && k !in side.answered ==> (|side.calls| - k) % 0x1_0000_0000 != 0
  {
    var n := |side.calls|;
    if side.session.nextId in side.session.pending {
      var k := side.session.pending[side.session.nextId].call;
      SameWord(k, n);
      assert k !in side.answered && (n - k) % 0x1_0000_0000 == 0;
    }
    forall k: nat | k < n && k !in side.answered && side.session.nextId !in side.session.pending
      ensures (n - k) % 0x1_0000_0000 != 0
    {
      SameWord(k, n);
    }
  }

  lemma SameWord(k: nat, n: nat)
    requires k <= n
    ensures ToInt32(k) == ToInt32(n) <==> (n - k) % 0x1_0000_0000 == 0
  {
    var m := 0x1_0000_0000;
    if ToInt32(k) == ToInt32(n) {
      assert k % m == n % m;
      QuotientUnique(n - k, m, n / m - k / m, 0);
    }
    if (n - k) % m == 0 {
      Int32Shift(k, (n - k) / m);
    }
  }

  /**
   A call keeps the guarantees exactly when its id is fresh: otherwise it overwrites the entry of
   a call that still waits.
   */
  lemma CallSafeIffFresh(s: State, parses: Parsers, step: Step)
    requires Inv(s, parses) && step.Invoke?
    ensures Inv(Apply(s, parses, step), parses) <==> Fresh(s, step)
    ensures !Fresh(s, step) ==>
              exists k: nat ::
                && Open(s, Tag(step.p, k))
                && s.At(step.p).session.pending[s.At(step.p).calls[k].id].call == k
                && var after := Apply(s, parses, step).At(step.p);
                   after.session.pending[after.calls[k].id].call != k
  {
    hide Dispatch, WorkOk, AnsweredOk, RanOk, CountsOk;
    if Fresh(s, step) {
      InvInvoke(s, parses, step);
    } else {
      var side := s.At(step.p);
      assert SideOk(side);
      var k := side.session.pending[side.session.nextId].call;
      var after := Apply(s, parses, step).At(step.p);
      assert after.calls[k] == side.calls[k] && after.session.pending[after.calls[k].id].call == |side.calls|;
      assert Open(s, Tag(step.p, k));
      assert !PendingOk(after);
      assert !SideOk(after);
    }
  }

  /** The promise is kept to every call made so far. */
  ghost predicate AllSafe(s: State, parses: Parsers) {
    forall tag: Tag :: tag.call < |s.At(tag.caller).calls| ==> Safe(s, parses, tag)
  }

  lemma InvAllSafe(s: State, parses: Parsers)
    requires Inv(s, parses)
    ensures AllSafe(s, parses)
  {
    hide Inv, Safe;
    forall tag: Tag | tag.call < |s.At(tag.caller).calls|
      ensures Safe(s, parses, tag)
    {
      InvSafe(s, parses, tag);
    }
  }

  /** The same about the promise itself: a call breaks it, to a call that still waits, exactly when its id is in use. */
  lemma SafeIffFresh(s: State, parses: Parsers, step: Step)
    requires Inv(s, parses) && step.Invoke?
    ensures AllSafe(Apply(s, parses, step), parses) <==> Fresh(s, step)
  {
    hide Inv, Safe, WorkOk;
    var t, side := Apply(s, parses, step), s.At(step.p);
    if Fresh(s, step) {
      InvInvoke(s, parses, step);
      InvAllSafe(t, parses);
    } else {
      SidesOk(s, parses);
      var k := side.session.pending[side.session.nextId].call;
      assert k < |side.calls| && t.At(step.p).calls[k] == side.calls[k];
      assert t.At(step.p).session.pending[side.calls[k].id].call == |side.calls|;
      EntryLost(t, parses, Tag(step.p, k));
    }
  }

  lemma EntryLost(t: State, parses: Parsers, tag: Tag)
    requires Open(t, tag)
    requires var side := t.At(tag.caller);
             side.calls[tag.call].id in side.session.pending
             && side.session.pending[side.calls[tag.call].id].call != tag.call
    ensures !Safe(t, parses, tag)
  {
    hide WorkOk, Count, Dispatch;
  }

  /** The promise is kept to every call at every moment of the run. */
  ghost predicate SafeAll(s: State, parses: Parsers, steps: seq<Step>)
    requires EnabledAll(s, parses, steps)
    decreases |steps|
  {
    AllSafe(s, parses) && (steps == [] || SafeAll(Apply(s, parses, steps[0]), parses, steps[1..]))
  }

  lemma {:induction false} SafeAllFresh(s: State, parses: Parsers, steps: seq<Step>)
    requires Inv(s, parses) && EnabledAll(s, parses, steps)
    ensures SafeAll(s, parses, steps) <==> FreshAll(s, parses, steps)
    decreases |steps|
  {
    hide Inv, AllSafe, Apply, Enabled;
    InvAllSafe(s, parses);
    if steps != [] {
      if steps[0].Invoke? { SafeIffFresh(s, parses, steps[0]); }
      if Fresh(s, steps[0]) {
        InvStep(s, parses, steps[0]);
        SafeAllFresh(Apply(s, parses, steps[0]), parses, steps[1..]);
      } else {
        SafeFirst(Apply(s, parses, steps[0]), parses, steps[1..]);
      }
    }
  }

  lemma SafeFirst(s: State, parses: Parsers, steps: seq<Step>)
    requires EnabledAll(s, parses, steps)
    ensures SafeAll(s, parses, steps) ==> AllSafe(s, parses)
  {
  }

  /** Over whole runs: every call is kept its promise at every moment exactly when no id of a waiting call is reused. */
  lemma RunSafeIffFresh(left: Services, right: Services, parses: Parsers, steps: seq<Step>)
    requires EnabledAll(Init(left, right), parses, steps)
    ensures SafeAll(Init(left, right), parses, steps) <==> FreshAll(Init(left, right), parses, steps)
  {
    InvInit(left, right, parses);
    SafeAllFresh(Init(left, right), parses, steps);
  }

  lemma {:induction false} CallsGrow(s: State, parses: Parsers, steps: seq<Step>, p: Peer)
    requires EnabledAll(s, parses, steps)
    ensures |s.At(p).calls| <= |ApplyAll(s, parses, steps).At(p).calls|
    decreases |steps|
  {
    hide OnMessage;
    if steps != [] { CallsGrow(Apply(s, parses, steps[0]), parses, steps[1..], p); }
  }

  predicate FewCalls(s: State) {
    |s.left.calls| <= 0x1_0000_0000 && |s.right.calls| <= 0x1_0000_0000
  }

  /** A run with at most 2^32 calls at each end never meets an id in use. */
  lemma {:induction false} FewCallsFresh(s: State, parses: Parsers, steps: seq<Step>)
    requires Inv(s, parses) && EnabledAll(s, parses, steps)
    requires FewCalls(ApplyAll(s, parses, steps))
    ensures FreshAll(s, parses, steps)
    decreases |steps|
  {
    hide Inv, Enabled, Apply, Fresh;
    if steps != [] {
      if steps[0].Invoke? {
        CallsGrow(Apply(s, parses, steps[0]), parses, steps[1..], steps[0].p);
        OneMoreCall(s, parses, steps[0]);
        FewCallsStep(s, parses, steps[0]);
      } else {
        NoCallFresh(s, steps[0]);
      }
      InvStep(s, parses, steps[0]);
      FewCallsFresh(Apply(s, parses, steps[0]), parses, steps[1..]);
    }
  }

  lemma OneMoreCall(s: State, parses: Parsers, step: Step)
    requires step.Invoke?
    ensures |Apply(s, parses, step).At(step.p).calls| == |s.At(step.p).calls| + 1
  {
    hide Outcome;
  }

  lemma FewCallsStep(s: State, parses: Parsers, step: Step)
    requires Inv(s, parses) && step.Invoke? && |s.At(step.p).calls| < 0x1_0000_0000
    ensures Fresh(s, step)
  {
    hide Inv, SideOk;
    SidesOk(s, parses);
    FreshMeaning(s.At(step.p));
  }

  lemma NoCallFresh(s: State, step: Step)
    requires !step.Invoke?
    ensures Fresh(s, step)
  {
  }

  lemma SidesOk(s: State, parses: Parsers)
    requires Inv(s, parses)
    ensures forall p: Peer :: SideOk(s.At(p))
  {
  }

  /** So a connection on which neither end makes more than 2^32 calls keeps the promise to every call. */
  lemma FewCallsSafe(left: Services, right: Services, parses: Parsers, steps: seq<Step>, tag: Tag)
    requires EnabledAll(Init(left, right), parses, steps)
    requires FewCalls(ApplyAll(Init(left, right), parses, steps))
    requires tag.call < |ApplyAll(Init(left, right), parses, steps).At(tag.caller).calls|
    ensures Safe(ApplyAll(Init(left, right), parses, steps), parses, tag)
  {
    InvInit(left, right, parses);
    FewCallsFresh(Init(left, right), parses, steps);
    CallSafety(left, right, parses, steps, tag);
  }

  // ---- Progress ----

  /** Work still to do: a request is worth 3, a service call under way 2, a response 1. */
  function Weight(work: seq<Work>): nat {
    if work == [] then 0 else Weight(work[..|work| - 1]) + Burden(work[|work| - 1])
  }

  function Burden(w: Work): nat {
    match w
    case Serving(_, _, _) => 2
    case Packet(_, msg, _) => if msg.kind == REQUEST then 3 else 1
  }

  lemma {:induction false} WeightConcat(a: seq<Work>, b: seq<Work>)
    ensures Weight(a + b) == Weight(a) + Weight(b)
    decreases |b|
  {
    hide Burden;
    if b == [] {
      assert a + b == a;
    } else {
      assert (a + b)[..|a + b| - 1] == a + b[..|b| - 1];
      WeightConcat(a, b[..|b| - 1]);
    }
  }

  lemma WeightWithout(work: seq<Work>, i: nat)
    requires i < |work|
    ensures Weight(Without(work, i)) == Weight(work) - Burden(work[i])
  {
    hide Weight, Burden;
    assert work == work[..i] + [work[i]] + work[i + 1..];
    WeightConcat(work[..i] + [work[i]], work[i + 1..]);
    WeightConcat(work[..i], [work[i]]);
    WeightConcat(work[..i], work[i + 1..]);
    WeightOne(work[i]);
  }

  lemma WeightOne(w: Work)
    ensures Weight([w]) == Burden(w)
  {
    assert [w][..0] == [];
  }

  /**
   Without new calls every step lowers the weight and adds no work: a request is answered once,
   and handling a response sends nothing.
   */
  lemma StepDecreases(s: State, parses: Parsers, step: Step)
    requires Inv(s, parses) && Enabled(s, step) && !step.Invoke?
    ensures Weight(Apply(s, parses, step).work) < Weight(s.work)
    ensures |Apply(s, parses, step).work| <= |s.work|
  {
    hide Inv, Burden, SideOk, AnsweredOk, WorkOk;
    var i := step.i;
    WeightWithout(s.work, i);
    BurdenPositive(s.work[i]);
    match step
    case Deliver(_) =>
      if s.work[i].to == s.work[i].tag.caller {
        InvDeliverResponse(s, parses, i);
      } else {
        var w := DeliveredRequest(s, parses, i);
        WeightConcat(Without(s.work, i), [w]);
        WeightOne(w);
      }
    case Finish(_, result) =>
      var Serving(at, job, tag) := s.work[i];
      var w := Packet(at.Other(), DoneReply(job.id, result), tag);
      WeightConcat(Without(s.work, i), [w]);
      WeightOne(w);
      BurdenReply(s.work[i], w);
  }

  lemma BurdenPositive(w: Work)
    ensures Burden(w) >= 1
  {
  }

  lemma BurdenReply(a: Work, b: Work)
    requires a.Serving? && b.Packet? && b.msg.kind == RESPONSE
    ensures Burden(b) < Burden(a)
  {
  }

  /** With no new calls, a run can make at most as many steps as the weight it starts with. */
  lemma {:induction false} DrainBound(s: State, parses: Parsers, steps: seq<Step>)
    requires Inv(s, parses) && EnabledAll(s, parses, steps)
    requires forall j :: 0 <= j < |steps| ==> !steps[j].Invoke?
    ensures |steps| + Weight(ApplyAll(s, parses, steps).work) <= Weight(s.work)
    ensures Inv(ApplyAll(s, parses, steps), parses)
    decreases |steps|
  {
    hide Inv, Apply, Enabled;
    if steps != [] {
      StepDecreases(s, parses, steps[0]);
      InvStep(s, parses, steps[0]);
      DrainBound(Apply(s, parses, steps[0]), parses, steps[1..]);
    }
  }

  /** Work never gets stuck, and when none is left every call has been answered and both maps are empty. */
  lemma Drained(s: State, parses: Parsers)
    requires Inv(s, parses)
    ensures s.work != [] ==> Enabled(s, Deliver(0)) || Enabled(s, Finish(0, []))
    ensures s.work == [] ==>
              forall p: Peer ::
                (forall k: nat :: k < |s.At(p).calls| ==> k in s.At(p).answered) && s.At(p).session.pending == map[]
  {
    hide Dispatch, AnsweredOk, RanOk, WorkOk;
    if s.work == [] {
      forall p: Peer
        ensures (forall k: nat :: k < |s.At(p).calls| ==> k in s.At(p).answered) && s.At(p).session.pending == map[]
      {
        assert SideOk(s.At(p));
        assert forall tag :: Count(s.work, tag) == 0;
        assert forall k: nat :: k < |s.At(p).calls| ==> !Open(s, Tag(p, k));
        var pending := s.At(p).session.pending;
        assert forall id :: id in pending ==> Open(s, Tag(p, pending[id].call));
        assert pending.Keys == {};
      }
    }
  }
}
