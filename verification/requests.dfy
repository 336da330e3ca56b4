/**
  The life of request objects as a step machine: each request's task, calls of `Cancel` on
  published objects, and clients that vanish at any point. An event is one atomic action.
 */
module Requests {
  import opened Options
  import opened RequestTable

  datatype Code = SUCCESS | CANCELLED | ERROR

  datatype Pc =
    | Reserved            // has its slot, object not yet published
    | Rejecting           // its path was taken, about to release
    | Running             // published, work in progress
    | Deciding(ok: bool)  // work over, about to read the flag
    | Emitting(code: Code)
    | Removing(code: Code)
    | Releasing(code: Code)
    | Finished(code: Code)
    | Refused             // answered with an error, never published
    | Leaked              // publishing failed: an error too, but the slot stays

  /** `gone`: the client vanished after the request was registered. */
  datatype Request = Request(path: Path, pc: Pc, flag: bool, gone: bool)

  datatype Response = Response(id: nat, code: Code)

  datatype State = State(
    table: Table<nat>,
    objects: map<Path, nat>,    // published objects
    requests: seq<Request>,
    condemned: set<nat>,        // handles a vanished client left, flag not yet raised
    inTime: set<nat>,           // requests whose flag was raised before their decision
    responses: seq<Response>,
    lost: set<nat>)             // requests whose response the bus did not take

  datatype Event =
    | Register(path: Path)
    | Publish(id: nat, fails: bool)
    | Reject(id: nat)
    | WorkDone(id: nat, ok: bool)
    | SeeCancel(id: nat)
    | Decide(id: nat)
    | Emit(id: nat, sent: bool)
    | Remove(id: nat)
    | Release(id: nat)
    | CallCancel(path: Path)
    | Vanish(client: Client)
    | RaiseFlag(id: nat)

  const Start := State(map[], map[], [], {}, {}, [], {})

  function At(s: State, id: nat, pc: Pc): State
    requires id < |s.requests|
  {
    s.(requests := s.requests[id := s.requests[id].(pc := pc)])
  }

  predicate Undecided(pc: Pc) {
    pc.Reserved? || pc.Rejecting? || pc.Running? || pc.Deciding?
  }

  function Flagged(s: State, id: nat): State
    requires id < |s.requests|
  {
    s.(requests := s.requests[id := s.requests[id].(flag := true)],
       inTime := if Undecided(s.requests[id].pc) then s.inTime + {id} else s.inTime)
  }

  /** A vanished client: its row goes at once, the flags of its requests are raised one by one. */
  function Vanished(s: State, client: Client): State {
    s.(table := s.table - {client},
       condemned := s.condemned + (set i | 0 <= i < |Row(s.table, client)| :: Row(s.table, client)[i].handle),
       requests := seq(|s.requests|, i requires 0 <= i < |s.requests| =>
         if s.requests[i].path.client == client then s.requests[i].(gone := true) else s.requests[i]))
  }

  predicate Enabled(s: State, e: Event) {
    match e
    case Register(_) => true
    case Publish(id, _) => id < |s.requests| && s.requests[id].pc.Reserved?
    case Reject(id) => id < |s.requests| && s.requests[id].pc.Rejecting?
    case WorkDone(id, _) => id < |s.requests| && s.requests[id].pc.Running?
    case SeeCancel(id) => id < |s.requests| && s.requests[id].pc.Running? && s.requests[id].flag
    case Decide(id) => id < |s.requests| && s.requests[id].pc.Deciding?
    case Emit(id, _) => id < |s.requests| && s.requests[id].pc.Emitting?
    case Remove(id) => id < |s.requests| && s.requests[id].pc.Removing?
    case Release(id) => id < |s.requests| && s.requests[id].pc.Releasing?
    case CallCancel(path) => path in s.objects && s.objects[path] < |s.requests|
    case Vanish(_) => true
    case RaiseFlag(id) => id in s.condemned && id < |s.requests|
  }

  function Apply(s: State, e: Event): State
    requires Enabled(s, e)
  {
    match e
    case Register(path) =>
      var id := |s.requests|;
      match RequestTable.Reserved(s.table, path.client, Slot(path, id)) {
        case None => s
        case Some(table) =>
          s.(table := table, requests := s.requests + [Request(path, Reserved, false, false)])
      }
    case Publish(id, fails) =>
      if fails then At(s, id, Leaked)
      else if s.requests[id].path in s.objects then At(s, id, Rejecting)
      else At(s, id, Running).(objects := s.objects[s.requests[id].path := id])
    case Reject(id) =>
      At(s, id, Refused).(table := Released(s.table, s.requests[id].path.client, s.requests[id].path))
    case WorkDone(id, ok) => At(s, id, Deciding(ok))
    case SeeCancel(id) => At(s, id, Deciding(false))
    case Decide(id) =>
      At(s, id, Emitting(if s.requests[id].flag then CANCELLED else if s.requests[id].pc.ok then SUCCESS else ERROR))
    case Emit(id, sent) =>
      var s' := At(s, id, Removing(s.requests[id].pc.code));
      if sent && s.requests[id].path in s.objects then
        s'.(responses := s.responses + [Response(s.objects[s.requests[id].path], s.requests[id].pc.code)])
      else s'.(lost := s.lost + {id})
    case Remove(id) =>
      At(s, id, Releasing(s.requests[id].pc.code)).(objects := s.objects - {s.requests[id].path})
    case Release(id) =>
      At(s, id, Finished(s.requests[id].pc.code))
        .(table := Released(s.table, s.requests[id].path.client, s.requests[id].path))
    case CallCancel(path) => Flagged(s, s.objects[path])
    case Vanish(client) => Vanished(s, client)
    case RaiseFlag(id) => Flagged(s, id).(condemned := s.condemned - {id})
  }

  function Run(s: State, events: seq<Event>): Option<State>
    decreases |events|
  {
    if |events| == 0 then Some(s)
    else if !Enabled(s, events[0]) then None
    else Run(Apply(s, events[0]), events[1..])
  }

  predicate Published(pc: Pc) {
    pc.Running? || pc.Deciding? || pc.Emitting? || pc.Removing?
  }

  predicate Answered(pc: Pc) {
    pc.Removing? || pc.Releasing? || pc.Finished?
  }

  /** A published object is its own request's, and every request in that phase has its object. */
  predicate ObjectsMatch(s: State) {
    && (forall path :: path in s.objects ==>
          && s.objects[path] < |s.requests|
          && s.requests[s.objects[path]].path == path
          && Published(s.requests[s.objects[path]].pc))
    && (forall id :: 0 <= id < |s.requests| && Published(s.requests[id].pc) ==>
          s.requests[id].path in s.objects && s.objects[s.requests[id].path] == id)
  }

  /**
    One response, with its code, for each request that is past emitting and whose response the
    bus took; none for the others.
   */
  predicate OneResponse(s: State) {
    && (forall i :: 0 <= i < |s.responses| ==>
          && s.responses[i].id < |s.requests|
          && Answered(s.requests[s.responses[i].id].pc)
          && s.requests[s.responses[i].id].pc.code == s.responses[i].code)
    && (forall i, j :: 0 <= i < j < |s.responses| ==> s.responses[i].id != s.responses[j].id)
    && (forall id :: 0 <= id < |s.requests| && Answered(s.requests[id].pc) ==>
          id in s.lost || Response(id, s.requests[id].pc.code) in s.responses)
    && (forall i :: 0 <= i < |s.responses| ==> s.responses[i].id !in s.lost)
    && (forall id :: id in s.lost ==> id < |s.requests| && Answered(s.requests[id].pc))
  }

  /** A decided request is coded CANCELLED exactly when its flag was raised in time. */
  predicate CodesMatch(s: State) {
    forall id :: 0 <= id < |s.requests| ==>
      var pc := s.requests[id].pc;
      && (id in s.inTime ==> s.requests[id].flag)
      && (Undecided(pc) && s.requests[id].flag ==> id in s.inTime)
      && ((pc.Emitting? || Answered(pc)) ==> (pc.code == CANCELLED <==> id in s.inTime))
  }

  predicate InTimeKnown(s: State) {
    && (forall id :: id in s.inTime ==> id < |s.requests|)
    && (forall id :: id in s.condemned ==> id < |s.requests| && s.requests[id].gone)
  }

  /** The slots of the table name registered requests of that client. */
  predicate SlotsKnown(s: State) {
    forall client, i :: client in s.table && 0 <= i < |s.table[client]| ==>
      s.table[client][i].handle < |s.requests| && s.requests[s.table[client][i].handle].path.client == client
  }

  predicate Inv(s: State) {
    ObjectsMatch(s) && OneResponse(s) && CodesMatch(s) && InTimeKnown(s) && SlotsKnown(s) && Capped(s.table)
  }

  // ----- Every step keeps the invariant

  lemma ObjectsMatchOnRegister(s: State, path: Path)
    requires ObjectsMatch(s)
    ensures ObjectsMatch(Apply(s, Register(path)))
  {
  }

  /** Steps that neither publish nor remove an object. */
  lemma ObjectsMatchUntouched(s: State, e: Event)
    requires ObjectsMatch(s) && Enabled(s, e) && !e.Register? && !e.Publish? && !e.Remove?
    ensures ObjectsMatch(Apply(s, e))
  {
    var s' := Apply(s, e);
    assert s'.objects == s.objects && |s'.requests| == |s.requests|;
    assert forall id :: 0 <= id < |s.requests| ==>
      s'.requests[id].path == s.requests[id].path && (Published(s'.requests[id].pc) <==> Published(s.requests[id].pc));
  }

  lemma ObjectsMatchOnPublish(s: State, id: nat, fails: bool)
    requires ObjectsMatch(s) && Enabled(s, Publish(id, fails))
    ensures ObjectsMatch(Apply(s, Publish(id, fails)))
  {
    var s' := Apply(s, Publish(id, fails));
    assert forall other :: 0 <= other < |s.requests| && other != id ==> s'.requests[other] == s.requests[other];
  }

  lemma ObjectsMatchOnRemove(s: State, id: nat)
    requires ObjectsMatch(s) && Enabled(s, Remove(id))
    ensures ObjectsMatch(Apply(s, Remove(id)))
  {
    var s' := Apply(s, Remove(id));
    assert forall other :: 0 <= other < |s.requests| && other != id ==> s'.requests[other] == s.requests[other];
  }

  lemma ObjectsMatchKept(s: State, e: Event)
    requires ObjectsMatch(s) && Enabled(s, e)
    ensures ObjectsMatch(Apply(s, e))
  {
    if e.Register? {
      ObjectsMatchOnRegister(s, e.path);
    } else if e.Publish? {
      ObjectsMatchOnPublish(s, e.id, e.fails);
    } else if e.Remove? {
      ObjectsMatchOnRemove(s, e.id);
    } else {
      ObjectsMatchUntouched(s, e);
    }
  }

  /** What has been answered stays answered with its code, and nothing else becomes so. */
  predicate SameAnswers(s: State, s': State) {
    && s'.responses == s.responses && s'.lost == s.lost && |s.requests| <= |s'.requests|
    && (forall id :: 0 <= id < |s.requests| ==>
          && (Answered(s'.requests[id].pc) <==> Answered(s.requests[id].pc))
          && (Answered(s.requests[id].pc) ==> s'.requests[id].pc.code == s.requests[id].pc.code))
    && (forall id :: |s.requests| <= id < |s'.requests| ==> !Answered(s'.requests[id].pc))
  }

  lemma OneResponseSame(s: State, s': State)
    requires OneResponse(s) && SameAnswers(s, s')
    ensures OneResponse(s')
  {
  }

  lemma OneResponseUntouched(s: State, e: Event)
    requires OneResponse(s) && Enabled(s, e) && !e.Emit?
    ensures OneResponse(Apply(s, e))
  {
    assert SameAnswers(s, Apply(s, e));
    OneResponseSame(s, Apply(s, e));
  }

  lemma OneResponseOnEmit(s: State, id: nat)
    requires ObjectsMatch(s) && OneResponse(s) && Enabled(s, Emit(id, true))
    ensures OneResponse(Apply(s, Emit(id, true)))
  {
    var s' := Apply(s, Emit(id, true));
    assert s'.responses == s.responses + [Response(id, s.requests[id].pc.code)];
    assert forall i :: 0 <= i < |s.responses| ==> s.responses[i].id != id;
  }

  lemma OneResponseOnLoss(s: State, id: nat)
    requires OneResponse(s) && Enabled(s, Emit(id, false))
    ensures OneResponse(Apply(s, Emit(id, false)))
  {
    var s' := Apply(s, Emit(id, false));
    assert s'.responses == s.responses;
    assert forall i :: 0 <= i < |s.responses| ==> s.responses[i].id != id;
    assert forall other :: 0 <= other < |s.requests| && other != id ==> s'.requests[other] == s.requests[other];
  }

  lemma CodesMatchOnFlag(s: State, id: nat)
    requires CodesMatch(s) && id < |s.requests|
    ensures CodesMatch(Flagged(s, id))
  {
  }

  lemma CodesMatchOnRegister(s: State, path: Path)
    requires CodesMatch(s) && InTimeKnown(s)
    ensures CodesMatch(Apply(s, Register(path)))
  {
  }

  /** The steps of a request's own task. */
  lemma CodesMatchOnTask(s: State, e: Event)
    requires CodesMatch(s) && Enabled(s, e)
    requires !e.Register? && !e.Vanish? && !e.CallCancel? && !e.RaiseFlag?
    ensures CodesMatch(Apply(s, e))
  {
    var s' := Apply(s, e);
    assert s'.inTime == s.inTime;
    assert forall id :: 0 <= id < |s.requests| && id != e.id ==> s'.requests[id] == s.requests[id];
  }

  lemma CodesMatchOnVanish(s: State, client: Client)
    requires CodesMatch(s)
    ensures CodesMatch(Apply(s, Vanish(client)))
  {
    var s' := Apply(s, Vanish(client));
    assert s'.inTime == s.inTime;
    assert forall id :: 0 <= id < |s.requests| ==>
      s'.requests[id].pc == s.requests[id].pc && s'.requests[id].flag == s.requests[id].flag;
  }

  lemma CodesMatchKept(s: State, e: Event)
    requires CodesMatch(s) && InTimeKnown(s) && Enabled(s, e)
    ensures CodesMatch(Apply(s, e))
  {
    match e
    case Register(path) => CodesMatchOnRegister(s, path);
    case Vanish(client) => CodesMatchOnVanish(s, client);
    case CallCancel(path) => CodesMatchOnFlag(s, s.objects[path]);
    case RaiseFlag(id) => CodesMatchOnFlag(s, id);
    case _ => CodesMatchOnTask(s, e);
  }

  lemma KnownKept(s: State, e: Event)
    requires InTimeKnown(s) && SlotsKnown(s) && Enabled(s, e)
    ensures InTimeKnown(Apply(s, e))
  {
  }

  lemma SlotsKnownOnRegister(s: State, path: Path)
    requires SlotsKnown(s)
    ensures SlotsKnown(Apply(s, Register(path)))
  {
  }

  /** Steps that add no slot and change no path. */
  lemma SlotsKnownUntouched(s: State, e: Event)
    requires SlotsKnown(s) && Enabled(s, e) && !e.Register?
    ensures SlotsKnown(Apply(s, e))
  {
    var s' := Apply(s, e);
    assert |s'.requests| == |s.requests|;
    assert forall id :: 0 <= id < |s.requests| ==> s'.requests[id].path == s.requests[id].path;
    assert forall client, i :: client in s'.table && 0 <= i < |s'.table[client]| ==>
      client in s.table && s'.table[client][i] in s.table[client];
  }

  lemma SlotsKnownKept(s: State, e: Event)
    requires SlotsKnown(s) && Enabled(s, e)
    ensures SlotsKnown(Apply(s, e))
  {
    if e.Register? {
      SlotsKnownOnRegister(s, e.path);
    } else {
      SlotsKnownUntouched(s, e);
    }
  }

  lemma CappedKept(s: State, e: Event)
    requires Capped(s.table) && Enabled(s, e)
    ensures Capped(Apply(s, e).table)
  {
  }

  lemma StepKeepsInv(s: State, e: Event)
    requires Inv(s) && Enabled(s, e)
    ensures Inv(Apply(s, e))
  {
    ObjectsMatchKept(s, e);
    if e.Emit? && e.sent {
      OneResponseOnEmit(s, e.id);
    } else if e.Emit? {
      OneResponseOnLoss(s, e.id);
    } else {
      OneResponseUntouched(s, e);
    }
    CodesMatchKept(s, e);
    KnownKept(s, e);
    SlotsKnownKept(s, e);
    CappedKept(s, e);
  }

  lemma {:induction false} RunKeepsInv(s: State, events: seq<Event>)
    requires Inv(s) && Run(s, events).Some?
    ensures Inv(Run(s, events).value)
    decreases |events|
  {
    if |events| > 0 {
      StepKeepsInv(s, events[0]);
      RunKeepsInv(Apply(s, events[0]), events[1..]);
    }
  }
}
