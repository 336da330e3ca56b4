/** Which code a request is answered with, in terms of what happened to it. */
module RequestCodes {
  import opened Options
  import opened RequestResults
  import opened RequestTable
  import opened Requests

  /** What a run says of its requests: whose flag was raised before the decision, who was decided on, how work ended. */
  datatype Record = Record(raised: set<nat>, decided: set<nat>, work: map<nat, bool>)

  const NOTHING := Record({}, {}, map[])

  function Raise(r: Record, id: nat): Record {
    if id in r.decided then r else r.(raised := r.raised + {id})
  }

  /** The record after one more event; a call of `Cancel` concerns the request published under the path. */
  function Noted(r: Record, s: State, e: Event): Record {
    match e
    case Decide(id) => r.(decided := r.decided + {id})
    case RaiseFlag(id) => Raise(r, id)
    case CallCancel(path) => if path in s.objects then Raise(r, s.objects[path]) else r
    case WorkDone(id, ok) => r.(work := r.work[id := ok])
    case _ => r
  }

  function NotedAll(r: Record, s: State, events: seq<Event>): Record
    requires Run(s, events).Some?
    decreases |events|
  {
    if |events| == 0 then r else NotedAll(Noted(r, s, events[0]), Apply(s, events[0]), events[1..])
  }

  /** CANCELLED for a flag raised in time, else what the work came to. */
  function CodeFor(r: Record, id: nat): Option<Code> {
    if id in r.raised then Some(CANCELLED)
    else if id !in r.work then None
    else Some(if r.work[id] then SUCCESS else ERROR)
  }

  predicate Decided(pc: Pc) {
    pc.Emitting? || Answered(pc)
  }

  /** The state of request `id` agrees with the record. */
  predicate Agrees(s: State, r: Record, id: nat)
    requires id < |s.requests|
  {
    var request := s.requests[id];
    && (id in r.decided <==> Decided(request.pc))
    && (id in r.raised ==> request.flag)
    && (request.flag && !Decided(request.pc) ==> id in r.raised)
    && (request.pc.Deciding? ==> (id in r.work && r.work[id] == request.pc.ok) || id in r.raised)
    && (Decided(request.pc) ==> CodeFor(r, id) == Some(request.pc.code))
    && (request.pc.Reserved? || request.pc.Rejecting? || request.pc.Running? ==> id !in r.work)
  }

  ghost predicate AllAgree(s: State, r: Record) {
    && (forall id :: 0 <= id < |s.requests| ==> Agrees(s, r, id))
    && (forall id :: id in r.decided ==> id < |s.requests|)
    && (forall id :: id in r.raised ==> id < |s.requests|)
    && (forall id :: id in r.work ==> id < |s.requests|)
  }

  lemma AgreeOnRegister(s: State, r: Record, path: Path)
    requires AllAgree(s, r)
    ensures AllAgree(Apply(s, Register(path)), Noted(r, s, Register(path)))
  {
    var s' := Apply(s, Register(path));
    forall id | 0 <= id < |s'.requests|
      ensures Agrees(s', r, id)
    {
      if id < |s.requests| {
        assert Agrees(s, r, id);
      } else {
        assert id !in r.decided && id !in r.raised && id !in r.work;
      }
    }
  }

  lemma AgreeOnFlag(s: State, r: Record, id: nat, s': State)
    requires AllAgree(s, r) && id < |s.requests| && s'.requests == Flagged(s, id).requests
    ensures AllAgree(s', Raise(r, id))
  {
    forall other | 0 <= other < |s.requests|
      ensures Agrees(s', Raise(r, id), other)
    {
      assert Agrees(s, r, other);
    }
  }

  lemma AgreeOnVanish(s: State, r: Record, client: Client)
    requires AllAgree(s, r)
    ensures AllAgree(Apply(s, Vanish(client)), r)
  {
    var s' := Apply(s, Vanish(client));
    forall id | 0 <= id < |s'.requests|
      ensures Agrees(s', r, id)
    {
      assert Agrees(s, r, id);
    }
  }

  /** The steps of a request's own task concern no other request. */
  lemma AgreeOnTask(s: State, r: Record, e: Event)
    requires AllAgree(s, r) && Enabled(s, e)
    requires !e.Register? && !e.Vanish? && !e.CallCancel? && !e.RaiseFlag?
    ensures AllAgree(Apply(s, e), Noted(r, s, e))
  {
    var s', r' := Apply(s, e), Noted(r, s, e);
    forall id | 0 <= id < |s'.requests|
      ensures Agrees(s', r', id)
    {
      assert Agrees(s, r, id);
      if id != e.id {
        assert s'.requests[id] == s.requests[id];
      }
    }
  }

  lemma StepAgrees(s: State, r: Record, e: Event)
    requires AllAgree(s, r) && Enabled(s, e)
    ensures AllAgree(Apply(s, e), Noted(r, s, e))
  {
    match e
    case Register(path) => AgreeOnRegister(s, r, path);
    case Vanish(client) => AgreeOnVanish(s, r, client);
    case CallCancel(path) => AgreeOnFlag(s, r, s.objects[path], Apply(s, e));
    case RaiseFlag(id) => AgreeOnFlag(s, r, id, Apply(s, e));
    case _ => AgreeOnTask(s, r, e);
  }

  lemma {:induction false} RunAgrees(s: State, r: Record, events: seq<Event>)
    requires AllAgree(s, r) && Run(s, events).Some?
    ensures AllAgree(Run(s, events).value, NotedAll(r, s, events))
    decreases |events|
  {
    if |events| > 0 {
      StepAgrees(s, r, events[0]);
      RunAgrees(Apply(s, events[0]), Noted(r, s, events[0]), events[1..]);
    }
  }

  /**
    A response says what happened: CANCELLED if the request's flag was raised before the decision,
    else SUCCESS if its work ended well and ERROR if it did not.
   */
  lemma ResponseSaysWhatHappened(events: seq<Event>, response: Response)
    requires Run(Start, events).Some? && response in Run(Start, events).value.responses
    ensures CodeFor(NotedAll(NOTHING, Start, events), response.id) == Some(response.code)
  {
    var s := Run(Start, events).value;
    RunKeepsInv(Start, events);
    RunAgrees(Start, NOTHING, events);
    var i :| 0 <= i < |s.responses| && s.responses[i] == response;
    assert Answered(s.requests[response.id].pc);
    assert Agrees(s, NotedAll(NOTHING, Start, events), response.id);
  }

  /** And a request whose object is gone has been answered so, unless the bus did not take it. */
  lemma AnswerSaysWhatHappened(events: seq<Event>, id: nat)
    requires Run(Start, events).Some?
    requires var s := Run(Start, events).value;
      id < |s.requests| && (s.requests[id].pc.Releasing? || s.requests[id].pc.Finished?)
    ensures var s, code := Run(Start, events).value, CodeFor(NotedAll(NOTHING, Start, events), id);
      code.Some? && (id in s.lost || Response(id, code.value) in s.responses)
  {
    var s := Run(Start, events).value;
    RunKeepsInv(Start, events);
    RunAgrees(Start, NOTHING, events);
    assert Agrees(s, NotedAll(NOTHING, Start, events), id);
    assert id in s.lost || Response(id, s.requests[id].pc.code) in s.responses;
  }
}
