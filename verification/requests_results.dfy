/** What clients of request objects can rely on, over every interleaving. */
module RequestResults {
  import opened Options
  import opened RequestTable
  import opened Requests

  ghost predicate Reachable(s: State) {
    exists events: seq<Event> :: Run(Start, events) == Some(s)
  }

  lemma ReachableHasInv(s: State)
    requires Reachable(s)
    ensures Inv(s)
  {
    var events: seq<Event> :| Run(Start, events) == Some(s);
    RunKeepsInv(Start, events);
  }

  /** No client ever holds more than eight slots, and no empty row is kept. */
  lemma RowsAlwaysCapped(s: State, client: Client)
    requires Reachable(s) && client in s.table
    ensures 1 <= |s.table[client]| <= 8
  {
    ReachableHasInv(s);
  }

  /**
    Once its object is removed a request has had exactly one response, or none if the bus did not
    take it, coded CANCELLED exactly when its flag was raised before the decision.
   */
  lemma ExactlyOneResponse(s: State, id: nat)
    requires Reachable(s) && id < |s.requests|
    requires s.requests[id].pc.Releasing? || s.requests[id].pc.Finished?
    ensures s.requests[id].path in s.objects ==> s.objects[s.requests[id].path] != id
    ensures if id in s.lost then forall i :: 0 <= i < |s.responses| ==> s.responses[i].id != id
            else exists i :: 0 <= i < |s.responses| && s.responses[i] == Response(id, s.requests[id].pc.code)
    ensures forall i, j ::
      (0 <= i < |s.responses| && 0 <= j < |s.responses| && s.responses[i].id == s.responses[j].id == id) ==> i == j
    ensures s.requests[id].pc.code == CANCELLED <==> id in s.inTime
  {
    ReachableHasInv(s);
    assert Answered(s.requests[id].pc);
    assert id in s.lost || Response(id, s.requests[id].pc.code) in s.responses;
  }

  /** Before its response goes out the object is there to carry it, and nothing has been said. */
  lemma NoEarlyResponse(s: State, id: nat, i: nat)
    requires Reachable(s) && id < |s.requests| && i < |s.responses|
    requires !Answered(s.requests[id].pc)
    ensures s.responses[i].id != id
    ensures Published(s.requests[id].pc) ==>
      s.requests[id].path in s.objects && s.objects[s.requests[id].path] == id
  {
    ReachableHasInv(s);
  }

  lemma {:induction false} InTimeStays(s: State, events: seq<Event>, id: nat)
    requires id in s.inTime && Run(s, events).Some?
    ensures id in Run(s, events).value.inTime
    decreases |events|
  {
    if |events| > 0 {
      InTimeStays(Apply(s, events[0]), events[1..], id);
    }
  }

  /** A published request can be cancelled through its object, and it is this request whose flag goes up. */
  lemma CancelReaches(s: State, id: nat)
    requires Reachable(s) && id < |s.requests| && Published(s.requests[id].pc)
    ensures Enabled(s, CallCancel(s.requests[id].path))
    ensures var s' := Apply(s, CallCancel(s.requests[id].path));
      && |s'.requests| == |s.requests| && s'.requests[id] == s.requests[id].(flag := true)
      && forall other :: 0 <= other < |s.requests| && other != id ==> s'.requests[other] == s.requests[other]
  {
    ReachableHasInv(s);
  }

  /** Nothing else is ruled out either: calls and disconnects come at any time, and publication, work and signal can fail. */
  lemma OutcomesAreFree(s: State, id: nat, path: Path, client: Client, ok: bool)
    requires id < |s.requests|
    ensures Enabled(s, Register(path)) && Enabled(s, Vanish(client))
    ensures s.requests[id].pc.Reserved? ==> Enabled(s, Publish(id, ok))
    ensures s.requests[id].pc.Running? ==> Enabled(s, WorkDone(id, ok))
    ensures s.requests[id].pc.Running? && s.requests[id].flag ==> Enabled(s, SeeCancel(id))
    ensures s.requests[id].pc.Emitting? ==> Enabled(s, Emit(id, ok))
  {
  }

  /** A flag raised before the decision wins over the result of the work, whatever happens next. */
  lemma CancelWins(s: State, events: seq<Event>, id: nat)
    requires Reachable(s) && Run(s, events).Some?
    requires id < |s.requests| && s.requests[id].flag && Undecided(s.requests[id].pc)
    requires var s' := Run(s, events).value; id < |s'.requests| && Answered(s'.requests[id].pc)
    ensures Run(s, events).value.requests[id].pc.code == CANCELLED
    ensures id in Run(s, events).value.lost || Response(id, CANCELLED) in Run(s, events).value.responses
  {
    ReachableHasInv(s);
    InTimeStays(s, events, id);
    RunKeepsInv(s, events);
    var s' := Run(s, events).value;
    assert s'.requests[id].pc.code == CANCELLED;
  }

  // ----- The table against the live requests

  predicate Unfinished(pc: Pc) {
    !pc.Finished? && !pc.Refused? && !pc.Leaked?
  }

  /** In progress, and its client has not been seen to vanish since it was registered. */
  predicate Live(r: Request) {
    Unfinished(r.pc) && !r.gone
  }

  /** Every slot of a row is a live request of that client, oldest first. */
  predicate RowsLive(s: State) {
    forall client, i :: client in s.table && 0 <= i < |s.table[client]| ==>
      var slot := s.table[client][i];
      && slot.handle < |s.requests|
      && s.requests[slot.handle].path == slot.path && slot.path.client == client
      && Live(s.requests[slot.handle])
  }

  predicate Ascending(row: seq<Slot<nat>>) {
    forall i, j :: 0 <= i < j < |row| ==> row[i].handle < row[j].handle
  }

  predicate RowsOrdered(s: State) {
    forall client :: client in s.table ==> Ascending(s.table[client])
  }

  predicate LiveInRows(s: State) {
    forall id :: 0 <= id < |s.requests| && Live(s.requests[id]) ==>
      Slot(s.requests[id].path, id) in Row(s.table, s.requests[id].path.client)
  }

  /** The table is the live requests. */
  predicate Exact(s: State) {
    RowsLive(s) && RowsOrdered(s) && LiveInRows(s)
  }

  predicate DistinctPaths(s: State) {
    forall i, j :: 0 <= i < j < |s.requests| && Unfinished(s.requests[i].pc) && Unfinished(s.requests[j].pc) ==>
      s.requests[i].path != s.requests[j].path
  }

  /** A vanished client's unfinished requests are flagged or about to be. */
  predicate GoneAreFlagged(s: State) {
    forall id :: 0 <= id < |s.requests| && Unfinished(s.requests[id].pc) && s.requests[id].gone ==>
      s.requests[id].flag || id in s.condemned
  }

  /** No unfinished request has the path. */
  predicate FreshPath(s: State, path: Path) {
    forall id :: 0 <= id < |s.requests| && Unfinished(s.requests[id].pc) ==> s.requests[id].path != path
  }

  lemma DistinctPathsOnRegister(s: State, path: Path)
    requires DistinctPaths(s) && FreshPath(s, path)
    ensures DistinctPaths(Apply(s, Register(path)))
  {
  }

  lemma DistinctPathsUntouched(s: State, e: Event)
    requires DistinctPaths(s) && Enabled(s, e) && !e.Register?
    ensures DistinctPaths(Apply(s, e))
  {
    var s' := Apply(s, e);
    assert |s'.requests| == |s.requests|;
    assert forall id :: 0 <= id < |s.requests| ==>
      s'.requests[id].path == s.requests[id].path
      && (Unfinished(s'.requests[id].pc) ==> Unfinished(s.requests[id].pc));
  }

  lemma DistinctPathsKept(s: State, e: Event)
    requires DistinctPaths(s) && Enabled(s, e) && (e.Register? ==> FreshPath(s, e.path))
    ensures DistinctPaths(Apply(s, e))
  {
    if e.Register? {
      DistinctPathsOnRegister(s, e.path);
    } else {
      DistinctPathsUntouched(s, e);
    }
  }

  lemma GoneAreFlaggedKept(s: State, e: Event)
    requires GoneAreFlagged(s) && LiveInRows(s) && Enabled(s, e)
    ensures GoneAreFlagged(Apply(s, e))
  {
  }

  lemma OrderOnRegister(s: State, path: Path)
    requires RowsLive(s) && RowsOrdered(s)
    ensures RowsOrdered(Apply(s, Register(path)))
  {
    var s' := Apply(s, Register(path));
    forall client | client in s'.table
      ensures Ascending(s'.table[client])
    {
      if client in s.table {
        assert forall i :: 0 <= i < |s.table[client]| ==> s.table[client][i].handle < |s.requests|;
      }
    }
  }

  lemma LiveOnRegister(s: State, path: Path)
    requires LiveInRows(s)
    ensures LiveInRows(Apply(s, Register(path)))
  {
    var s' := Apply(s, Register(path));
    forall id | 0 <= id < |s'.requests| && Live(s'.requests[id])
      ensures Slot(s'.requests[id].path, id) in Row(s'.table, s'.requests[id].path.client)
    {
      if id < |s.requests| {
        assert Slot(s.requests[id].path, id) in Row(s.table, s.requests[id].path.client);
      }
    }
  }

  lemma RowsOnRegister(s: State, path: Path)
    requires RowsLive(s)
    ensures RowsLive(Apply(s, Register(path)))
  {
  }

  lemma ExactOnRegister(s: State, path: Path)
    requires Exact(s)
    ensures Exact(Apply(s, Register(path)))
  {
    RowsOnRegister(s, path);
    OrderOnRegister(s, path);
    LiveOnRegister(s, path);
  }

  lemma ExactOnVanish(s: State, client: Client)
    requires Exact(s)
    ensures Exact(Apply(s, Vanish(client)))
  {
  }

  lemma AscendingCons(first: Slot<nat>, rest: seq<Slot<nat>>)
    requires Ascending(rest) && forall slot :: slot in rest ==> first.handle < slot.handle
    ensures Ascending([first] + rest)
  {
  }

  lemma {:induction false} WithoutOrdered(row: seq<Slot<nat>>, path: Path)
    requires Ascending(row)
    ensures Ascending(Without(row, path))
  {
    if |row| > 0 {
      var rest := Without(row[1..], path);
      WithoutOrdered(row[1..], path);
      forall slot | slot in rest
        ensures row[0].handle < slot.handle
      {
        var k :| 0 <= k < |row[1..]| && row[1..][k] == slot;
        assert row[k + 1] == slot;
      }
      AscendingCons(row[0], rest);
    }
  }

  /** The two steps that call `release`: a request's last, and a duplicate's. */
  predicate Releases(e: Event) {
    e.Release? || e.Reject?
  }

  lemma OrderOnRelease(s: State, e: Event)
    requires RowsOrdered(s) && Enabled(s, e) && Releases(e)
    ensures RowsOrdered(Apply(s, e))
  {
    var path := s.requests[e.id].path;
    if path.client in s.table {
      WithoutOrdered(s.table[path.client], path);
    }
    var s' := Apply(s, e);
    forall client | client in s'.table
      ensures Ascending(s'.table[client])
    {
      assert s'.table[client] == if client == path.client then Without(s.table[client], path) else s.table[client];
    }
  }

  lemma RowsOnRelease(s: State, e: Event)
    requires RowsLive(s) && Enabled(s, e) && Releases(e)
    ensures RowsLive(Apply(s, e))
  {
    var path, s' := s.requests[e.id].path, Apply(s, e);
    forall client, i | client in s'.table && 0 <= i < |s'.table[client]|
      ensures var slot := s'.table[client][i];
        && slot.handle < |s'.requests|
        && s'.requests[slot.handle].path == slot.path && slot.path.client == client
        && Live(s'.requests[slot.handle])
    {
      var slot := s'.table[client][i];
      assert slot in s.table[client];
      var k :| 0 <= k < |s.table[client]| && s.table[client][k] == slot;
      assert slot.path != path;
    }
  }

  lemma LiveOnRelease(s: State, e: Event)
    requires LiveInRows(s) && Enabled(s, e) && Releases(e)
    requires forall other: nat :: !SharesPath(s, e.id, other)
    ensures LiveInRows(Apply(s, e))
  {
    var s' := Apply(s, e);
    forall other | 0 <= other < |s'.requests| && Live(s'.requests[other])
      ensures Slot(s'.requests[other].path, other) in Row(s'.table, s'.requests[other].path.client)
    {
      assert !SharesPath(s, e.id, other);
      assert Slot(s.requests[other].path, other) in Row(s.table, s.requests[other].path.client);
    }
  }

  lemma ExactOnPublish(s: State, id: nat)
    requires Exact(s) && Enabled(s, Publish(id, false))
    ensures Exact(Apply(s, Publish(id, false)))
  {
  }

  lemma ExactUntouched(s: State, e: Event)
    requires Exact(s) && Enabled(s, e)
    requires !e.Register? && !e.Vanish? && !e.Release? && !e.Publish? && !e.Reject?
    ensures Exact(Apply(s, e))
  {
  }

  ghost function LiveOf(s: State, client: Client): set<nat> {
    set id | 0 <= id < |s.requests| && Live(s.requests[id]) && s.requests[id].path.client == client
  }

  lemma {:induction false} HandlesCount(row: seq<Slot<nat>>)
    requires Ascending(row)
    ensures |set i | 0 <= i < |row| :: row[i].handle| == |row|
  {
    if |row| > 0 {
      var last := |row| - 1;
      HandlesCount(row[..last]);
      assert (set i | 0 <= i < |row| :: row[i].handle)
          == (set i | 0 <= i < last :: row[..last][i].handle) + {row[last].handle};
    }
  }

  /** While the table is exact the cap bounds what really runs: a client has at most eight live requests. */
  lemma LiveRequestsCapped(s: State, client: Client)
    requires Exact(s) && Capped(s.table)
    ensures |LiveOf(s, client)| == |Row(s.table, client)| <= 8
  {
    var row := Row(s.table, client);
    if client in s.table {
      assert Ascending(row);
    }
    HandlesCount(row);
    forall id
      ensures id in LiveOf(s, client) <==> exists i :: 0 <= i < |row| && row[i].handle == id
    {
      if id in LiveOf(s, client) {
        assert Slot(s.requests[id].path, id) in row;
      }
    }
    assert LiveOf(s, client) == set i | 0 <= i < |row| :: row[i].handle;
  }

  // ----- When the table stops being exact

  /** Another live request has the same path. */
  predicate SharesPath(s: State, id: nat, other: nat)
    requires id < |s.requests|
  {
    other < |s.requests| && other != id && Live(s.requests[other]) && s.requests[other].path == s.requests[id].path
  }

  lemma StepExactIff(s: State, e: Event)
    requires Exact(s) && Enabled(s, e) && Releases(e)
    ensures Exact(Apply(s, e)) <==> forall other: nat :: !SharesPath(s, e.id, other)
  {
    var s' := Apply(s, e);
    if other: nat :| SharesPath(s, e.id, other) {
      var slot := Slot(s.requests[other].path, other);
      assert slot in Row(s.table, slot.path.client);
      assert slot !in Row(s'.table, slot.path.client);
      assert Live(s'.requests[other]) && s'.requests[other].path == slot.path;
    } else {
      assert forall other: nat :: !SharesPath(s, e.id, other);
      RowsOnRelease(s, e);
      OrderOnRelease(s, e);
      LiveOnRelease(s, e);
    }
  }

  /**
    Releasing a request keeps the table exact exactly when no other live request has its
    path: `release` drops every slot with that path.
   */
  lemma ReleaseExactIff(s: State, id: nat)
    requires Exact(s) && Enabled(s, Release(id))
    ensures Exact(Apply(s, Release(id))) <==> forall other: nat :: !SharesPath(s, id, other)
  {
    StepExactIff(s, Release(id));
  }

  /** So it is for the release on behalf of a request whose token was still in use. */
  lemma RejectExactIff(s: State, id: nat)
    requires Exact(s) && Enabled(s, Reject(id))
    ensures Exact(Apply(s, Reject(id))) <==> forall other: nat :: !SharesPath(s, id, other)
  {
    StepExactIff(s, Reject(id));
  }

  /** A failure to publish leaves a slot that no live request owns, unless the client is gone already. */
  lemma FailedPublishLeaks(s: State, id: nat)
    requires Exact(s) && Enabled(s, Publish(id, true))
    ensures Exact(Apply(s, Publish(id, true))) <==> s.requests[id].gone
  {
    var s' := Apply(s, Publish(id, true));
    if s.requests[id].gone {
      assert forall other :: 0 <= other < |s.requests| ==> (Live(s'.requests[other]) <==> Live(s.requests[other]));
    } else {
      var slot := Slot(s.requests[id].path, id);
      assert slot in Row(s.table, slot.path.client);
      var k :| 0 <= k < |s.table[slot.path.client]| && s.table[slot.path.client][k] == slot;
      assert s'.table[slot.path.client][k].handle == id && !Live(s'.requests[id]);
    }
  }

  /** What breaks exactness: a release while another live request has the path, or a publication that fails. */
  predicate Breaks(s: State, e: Event)
    requires Enabled(s, e)
  {
    || (Releases(e) && exists other | 0 <= other < |s.requests| :: SharesPath(s, e.id, other))
    || (e.Publish? && e.fails && !s.requests[e.id].gone)
  }

  /** Nothing else does. */
  lemma BreaksIff(s: State, e: Event)
    requires Exact(s) && Enabled(s, e)
    ensures Exact(Apply(s, e)) <==> !Breaks(s, e)
  {
    if Releases(e) {
      StepExactIff(s, e);
    } else if e.Publish? && e.fails {
      FailedPublishLeaks(s, e.id);
    } else if e.Publish? {
      ExactOnPublish(s, e.id);
    } else if e.Register? {
      ExactOnRegister(s, e.path);
    } else if e.Vanish? {
      ExactOnVanish(s, e.client);
    } else {
      ExactUntouched(s, e);
    }
  }

  /**
    A client that reuses its token as soon as it has its response, which goes out before the
    slot is released, loses the slot of the new request while that one runs.
   */
  lemma TokenReuseLosesSlot(s: State, id: nat)
    requires Inv(s) && Enabled(s, Release(id))
    requires s.requests[id].path !in s.objects
    requires |Row(s.table, s.requests[id].path.client)| < MAX_REQUESTS_PER_CLIENT
    ensures var path, again := s.requests[id].path, |s.requests|;
      var reuse := Run(s, [Register(path), Publish(again, false), Release(id)]);
      && reuse.Some?
      && |reuse.value.requests| == again + 1
      && reuse.value.requests[again] == Request(path, Running, false, false)
      && Slot(path, again) !in Row(reuse.value.table, path.client)
  {
    var path, again := s.requests[id].path, |s.requests|;
    var s1 := Apply(s, Register(path));
    var s2 := Apply(s1, Publish(again, false));
    var s3 := Apply(s2, Release(id));
    assert Run(s2, [Release(id)]) == Some(s3);
    assert [Publish(again, false), Release(id)][1..] == [Release(id)];
    assert Run(s1, [Publish(again, false), Release(id)]) == Some(s3);
    assert [Register(path), Publish(again, false), Release(id)][1..] == [Publish(again, false), Release(id)];
  }

  // ----- What a client reaches by using a token twice

  lemma RunOne(s: State, e: Event)
    requires Enabled(s, e)
    ensures Run(s, [e]) == Some(Apply(s, e))
  {
    assert [e][1..] == [];
  }

  lemma {:induction false} RunConcat(s: State, a: seq<Event>, b: seq<Event>)
    requires Run(s, a).Some?
    ensures Run(s, a + b) == Run(Run(s, a).value, b)
    decreases |a|
  {
    if |a| == 0 {
      assert a + b == b;
    } else {
      assert (a + b)[1..] == a[1..] + b;
      RunConcat(Apply(s, a[0]), a[1..], b);
    }
  }

  lemma RunThree(s: State, s1: State, s2: State, s3: State, e1: Event, e2: Event, e3: Event)
    requires Enabled(s, e1) && s1 == Apply(s, e1) && Enabled(s1, e2) && s2 == Apply(s1, e2)
    requires Enabled(s2, e3) && s3 == Apply(s2, e3)
    ensures Run(s, [e1, e2, e3]) == Some(s3)
  {
    RunOne(s, e1);
    RunOne(s1, e2);
    RunOne(s2, e3);
    RunConcat(s1, [e2], [e3]);
    RunConcat(s, [e1], [e2] + [e3]);
    assert [e1] + ([e2] + [e3]) == [e1, e2, e3];
  }

  /** A request, and a second one with the same token while the first runs. */
  function Twice(path: Path, id: nat): seq<Event> {
    [Register(path), Publish(id, false)] + [Register(path), Publish(id + 1, false), Reject(id + 1)]
  }

  /** The first request keeps running, and nothing in the table knows of it. */
  lemma TwiceUnslots(s: State, path: Path)
    requires path.client !in s.table && path !in s.objects
    ensures Run(s, Twice(path, |s.requests|)) ==
      Some(s.(requests := s.requests + [Request(path, Running, false, false), Request(path, Refused, false, false)],
              objects := s.objects[path := |s.requests|]))
  {
    var id := |s.requests|;
    var s1 := Apply(s, Register(path));
    var s2 := Apply(s1, Publish(id, false));
    assert Row(s.table, path.client) + [Slot(path, id)] == [Slot(path, id)];
    assert s2.requests == s.requests + [Request(path, Running, false, false)];
    assert s2 == s.(requests := s.requests + [Request(path, Running, false, false)],
                    objects := s.objects[path := id], table := s.table[path.client := [Slot(path, id)]]);
    RunOne(s, Register(path));
    RunOne(s1, Publish(id, false));
    RunConcat(s, [Register(path)], [Publish(id, false)]);
    assert [Register(path)] + [Publish(id, false)] == [Register(path), Publish(id, false)];
    RejectedAgain(s, s2, path, id);
    RunConcat(s, [Register(path), Publish(id, false)], [Register(path), Publish(id + 1, false), Reject(id + 1)]);
  }

  lemma BothGone(path: Path, id: nat)
    ensures Without([Slot(path, id), Slot(path, id + 1)], path) == []
  {
    var row := [Slot(path, id), Slot(path, id + 1)];
    assert row[1..] == [Slot(path, id + 1)] && row[1..][1..] == [];
  }

  lemma RejectedAgain(s: State, s2: State, path: Path, id: nat)
    requires id == |s.requests| && path.client !in s.table
    requires s2 == s.(requests := s.requests + [Request(path, Running, false, false)],
                      objects := s.objects[path := id], table := s.table[path.client := [Slot(path, id)]])
    ensures Run(s2, [Register(path), Publish(id + 1, false), Reject(id + 1)]) ==
      Some(s2.(requests := s.requests + [Request(path, Running, false, false), Request(path, Refused, false, false)],
               table := s.table))
  {
    var s3 := Apply(s2, Register(path));
    var s4 := Apply(s3, Publish(id + 1, false));
    var s5 := Apply(s4, Reject(id + 1));
    assert |s2.requests| == id + 1 && s2.table[path.client] == [Slot(path, id)];
    assert Row(s2.table, path.client) + [Slot(path, id + 1)] == [Slot(path, id), Slot(path, id + 1)];
    assert s3.table == s2.table[path.client := [Slot(path, id), Slot(path, id + 1)]];
    assert s4.requests[id + 1] == Request(path, Rejecting, false, false) && s4.table == s3.table;
    assert s4.table[path.client] == [Slot(path, id), Slot(path, id + 1)];
    BothGone(path, id);
    assert |Without(s4.table[path.client], path)| == 0;
    assert s5.table == Released(s4.table, path.client, path);
    assert s5.table == s4.table - {path.client};
    assert s5.table == s.table;
    var running := s.requests + [Request(path, Running, false, false)];
    assert s3.requests == running + [Request(path, Reserved, false, false)];
    assert s4.requests == running + [Request(path, Rejecting, false, false)];
    assert s5.requests == running + [Request(path, Refused, false, false)];
    assert s5.requests == s.requests + [Request(path, Running, false, false), Request(path, Refused, false, false)];
    RunThree(s2, s3, s4, s5, Register(path), Publish(id + 1, false), Reject(id + 1));
  }

  /** `valid_token`. */
  predicate ValidToken(token: string) {
    && 1 <= |token| <= 128
    && forall i :: 0 <= i < |token| ==>
         'a' <= token[i] <= 'z' || 'A' <= token[i] <= 'Z' || '0' <= token[i] <= '9' || token[i] == '_'
  }

  function Token(n: nat): (token: string)
    ensures |token| == n
    ensures 1 <= n <= 128 ==> ValidToken(token)
  {
    seq(n, i => 'a')
  }

  /** `n` times over, with tokens of one to `n` letters. */
  function Flood(client: Client, n: nat): seq<Event> {
    if n == 0 then [] else Flood(client, n - 1) + Twice(Path(client, Token(n)), 2 * (n - 1))
  }

  /** So many requests run, none of them with a slot. */
  predicate Flooded(s: State, client: Client, n: nat) {
    && client !in s.table && |s.requests| == 2 * n
    && (forall id :: 0 <= id < 2 * n ==> s.requests[id].path.client == client && !s.requests[id].gone && !s.requests[id].flag)
    && (forall id :: 0 <= id < 2 * n ==> if id % 2 == 0 then s.requests[id].pc.Running? else s.requests[id].pc.Refused?)
    && (forall path :: path in s.objects ==> |path.token| <= n)
  }

  lemma FloodStep(s: State, s': State, client: Client, n: nat)
    requires Flooded(s, client, n)
    requires var path := Path(client, Token(n + 1));
      s' == s.(requests := s.requests + [Request(path, Running, false, false), Request(path, Refused, false, false)],
               objects := s.objects[path := |s.requests|])
    ensures Flooded(s', client, n + 1)
  {
    assert forall id :: 0 <= id < 2 * n ==> s'.requests[id] == s.requests[id];
  }

  lemma {:induction false} FloodRuns(client: Client, n: nat)
    ensures Run(Start, Flood(client, n)).Some?
    ensures Flooded(Run(Start, Flood(client, n)).value, client, n)
    ensures Run(Start, Flood(client, n)).value.condemned == {}
  {
    if n > 0 {
      FloodRuns(client, n - 1);
      var s := Run(Start, Flood(client, n - 1)).value;
      TwiceUnslots(s, Path(client, Token(n)));
      RunConcat(Start, Flood(client, n - 1), Twice(Path(client, Token(n)), 2 * (n - 1)));
      FloodStep(s, Run(Start, Flood(client, n)).value, client, n - 1);
    }
  }

  lemma {:induction false} EvenNumbers(n: nat)
    ensures |set id: nat | id < 2 * n && id % 2 == 0| == n
  {
    if n > 0 {
      EvenNumbers(n - 1);
      assert (set id: nat | id < 2 * n && id % 2 == 0) == (set id: nat | id < 2 * (n - 1) && id % 2 == 0) + {2 * (n - 1)};
    }
  }

  /**
    Neither the cap nor the disconnect reaches such requests: a client can have 128 of them
    running and still start a request, and when it vanishes none is flagged or about to be.
   */
  lemma CapDefeated(client: Client, n: nat)
    requires n <= 128
    ensures Run(Start, Flood(client, n)).Some?
    ensures var s := Run(Start, Flood(client, n)).value;
      && |LiveOf(s, client)| == n
      && |Row(s.table, client)| == 0
      && var s' := Apply(s, Vanish(client));
      && s'.condemned == {}
      && forall id :: id in LiveOf(s, client) ==> s'.requests[id].gone && !s'.requests[id].flag
  {
    FloodRuns(client, n);
    EvenNumbers(n);
    var s := Run(Start, Flood(client, n)).value;
    assert LiveOf(s, client) == set id: nat | id < 2 * n && id % 2 == 0;
  }

  /** A finished request up to its release, and the next one with its token. */
  function AndAgain(path: Path): seq<Event> {
    [Register(path), Publish(0, false), WorkDone(0, true), Decide(0), Emit(0, true), Remove(0)]
    + [Register(path), Publish(1, false), Release(0)]
  }

  lemma Begun(path: Path)
    ensures Run(Start, [Register(path), Publish(0, false), WorkDone(0, true)]) ==
      Some(State(map[path.client := [Slot(path, 0)]], map[path := 0], [Request(path, Deciding(true), false, false)],
                 {}, {}, [], {}))
  {
    var s1 := Apply(Start, Register(path));
    assert s1.requests == [Request(path, Reserved, false, false)];
    assert Row(Start.table, path.client) + [Slot(path, 0)] == [Slot(path, 0)];
    var s2 := Apply(s1, Publish(0, false));
    assert s2.requests == [Request(path, Running, false, false)] && s2.objects == map[path := 0];
    var s3 := Apply(s2, WorkDone(0, true));
    assert s3.requests == [Request(path, Deciding(true), false, false)];
    RunThree(Start, s1, s2, s3, Register(path), Publish(0, false), WorkDone(0, true));
  }

  lemma Ended(path: Path, s: State)
    requires s.requests == [Request(path, Deciding(true), false, false)] && s.objects == map[path := 0]
    ensures Run(s, [Decide(0), Emit(0, true), Remove(0)]) ==
      Some(s.(requests := [Request(path, Releasing(SUCCESS), false, false)], objects := map[],
              responses := s.responses + [Response(0, SUCCESS)]))
  {
    var s1 := Apply(s, Decide(0));
    assert s1.requests == [Request(path, Emitting(SUCCESS), false, false)];
    var s2 := Apply(s1, Emit(0, true));
    assert s2.requests == [Request(path, Removing(SUCCESS), false, false)];
    var s3 := Apply(s2, Remove(0));
    assert s3.requests == [Request(path, Releasing(SUCCESS), false, false)] && s3.objects == map[];
    RunThree(s, s1, s2, s3, Decide(0), Emit(0, true), Remove(0));
  }

  lemma Solo(path: Path, first: seq<Event>)
    requires first == [Register(path), Publish(0, false), WorkDone(0, true), Decide(0), Emit(0, true), Remove(0)]
    ensures Run(Start, first) ==
      Some(State(map[path.client := [Slot(path, 0)]], map[], [Request(path, Releasing(SUCCESS), false, false)],
                 {}, {}, [Response(0, SUCCESS)], {}))
  {
    var begin, end := [Register(path), Publish(0, false), WorkDone(0, true)], [Decide(0), Emit(0, true), Remove(0)];
    Begun(path);
    Ended(path, Run(Start, begin).value);
    RunConcat(Start, begin, end);
    assert first == begin + end;
    assert [] + [Response(0, SUCCESS)] == [Response(0, SUCCESS)];
  }

  /** The same loss from the start, by reusing a token right after the response. */
  lemma TokenReuseReached(path: Path)
    ensures Run(Start, AndAgain(path)).Some?
    ensures var s := Run(Start, AndAgain(path)).value;
      && |s.requests| == 2 && s.requests[1] == Request(path, Running, false, false)
      && Slot(path, 1) !in Row(s.table, path.client)
  {
    var first := [Register(path), Publish(0, false), WorkDone(0, true), Decide(0), Emit(0, true), Remove(0)];
    Solo(path, first);
    RunKeepsInv(Start, first);
    TokenReuseLosesSlot(Run(Start, first).value, 0);
    RunConcat(Start, first, [Register(path), Publish(1, false), Release(0)]);
  }

  // ----- Progress

  /** The task of a request that is published and done with its work always has a step. */
  lemma TaskNeverStuck(s: State, id: nat)
    requires id < |s.requests| && Unfinished(s.requests[id].pc) && !s.requests[id].pc.Running?
    ensures exists e :: Advances(s, e, id)
  {
    var e := match s.requests[id].pc
      case Reserved => Publish(id, false)
      case Rejecting => Reject(id)
      case Deciding(_) => Decide(id)
      case Emitting(_) => Emit(id, true)
      case Removing(_) => Remove(id)
      case _ => Release(id);
    assert Advances(s, e, id);
  }

  predicate Advances(s: State, e: Event, id: nat)
    requires id < |s.requests|
  {
    Enabled(s, e) && Rank(Apply(s, e).requests[id].pc) < Rank(s.requests[id].pc)
  }

  /** Steps a task has left. */
  function Rank(pc: Pc): nat {
    match pc
    case Reserved => 7
    case Rejecting => 1
    case Running => 5
    case Deciding(_) => 4
    case Emitting(_) => 3
    case Removing(_) => 2
    case Releasing(_) => 1
    case _ => 0
  }
}
