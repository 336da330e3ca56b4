/** The table against the clients that are still there, and what becomes of those that are not. */
module RequestConnections {
  import opened Options
  import opened RequestResults
  import opened RequestTable
  import opened Requests

  // ----- Who has left

  /** The clients whose disconnect has been handled. Their bus names do not come back. */
  function LeftBy(left: set<Client>, e: Event): set<Client> {
    if e.Vanish? then left + {e.client} else left
  }

  function LeftAfter(left: set<Client>, events: seq<Event>): set<Client>
    decreases |events|
  {
    if |events| == 0 then left else LeftAfter(LeftBy(left, events[0]), events[1..])
  }

  /** Every slot is an unfinished request of a client that has not left, oldest first. */
  predicate RowsConnected(s: State, left: set<Client>) {
    && RowsOrdered(s)
    && forall client, i :: client in s.table && 0 <= i < |s.table[client]| ==>
         var slot := s.table[client][i];
         && client !in left && slot.handle < |s.requests|
         && s.requests[slot.handle].path == slot.path && slot.path.client == client
         && Unfinished(s.requests[slot.handle].pc)
  }

  predicate ConnectedInRows(s: State, left: set<Client>) {
    forall id :: 0 <= id < |s.requests| && Unfinished(s.requests[id].pc) && s.requests[id].path.client !in left ==>
      Slot(s.requests[id].path, id) in Row(s.table, s.requests[id].path.client)
  }

  /** The table is the unfinished requests of the clients that have not left, and has no empty row. */
  predicate ConnectedExact(s: State, left: set<Client>) {
    RowsConnected(s, left) && ConnectedInRows(s, left) && Capped(s.table)
  }

  /** Every unfinished request of a client that has left is flagged or about to be. */
  predicate LeftFlagged(s: State, left: set<Client>) {
    forall id :: 0 <= id < |s.requests| && Unfinished(s.requests[id].pc) && s.requests[id].path.client in left ==>
      s.requests[id].flag || id in s.condemned
  }

  /** A request is marked as gone exactly if its client has left. */
  predicate Matched(s: State, left: set<Client>) {
    forall id :: 0 <= id < |s.requests| ==> (s.requests[id].gone <==> s.requests[id].path.client in left)
  }

  /** A call that was under way when its client left gets a slot after the disconnect was handled. */
  predicate Late(s: State, left: set<Client>, e: Event) {
    e.Register? && e.path.client in left && |Row(s.table, e.path.client)| < MAX_REQUESTS_PER_CLIENT
  }

  lemma ConnectedIsExact(s: State, left: set<Client>)
    requires Matched(s, left) && Capped(s.table)
    ensures ConnectedExact(s, left) <==> Exact(s)
  {
    if Exact(s) {
      forall client | client in s.table
        ensures client !in left
      {
        assert Live(s.requests[s.table[client][0].handle]);
      }
    }
  }

  // ----- Requests of clients that have left

  lemma FlaggedOnRegister(s: State, left: set<Client>, path: Path)
    requires InTimeKnown(s) && LeftFlagged(s, left)
    ensures LeftFlagged(Apply(s, Register(path)), left) <==> !Late(s, left, Register(path))
  {
    var s' := Apply(s, Register(path));
    if Late(s, left, Register(path)) {
      var id := |s.requests|;
      assert s'.requests[id] == Request(path, Reserved, false, false) && id !in s'.condemned;
    }
  }

  lemma FlaggedOnVanish(s: State, left: set<Client>, client: Client)
    requires LiveInRows(s) && GoneAreFlagged(s) && LeftFlagged(s, left)
    ensures LeftFlagged(Apply(s, Vanish(client)), left + {client})
  {
    var s' := Apply(s, Vanish(client));
    forall id | 0 <= id < |s'.requests| && Unfinished(s'.requests[id].pc) && s'.requests[id].path.client in left + {client}
      ensures s'.requests[id].flag || id in s'.condemned
    {
      if s.requests[id].path.client == client && !s.requests[id].gone {
        assert Slot(s.requests[id].path, id) in Row(s.table, client);
      }
    }
  }

  lemma FlaggedUntouched(s: State, left: set<Client>, e: Event)
    requires LeftFlagged(s, left) && Enabled(s, e) && !e.Register? && !e.Vanish?
    ensures LeftFlagged(Apply(s, e), left)
  {
    var s' := Apply(s, e);
    assert forall id :: 0 <= id < |s.requests| ==>
      && s'.requests[id].path == s.requests[id].path
      && (Unfinished(s'.requests[id].pc) ==> Unfinished(s.requests[id].pc))
      && (s.requests[id].flag ==> s'.requests[id].flag);
  }

  /**
    The requests of a client that has left are flagged or about to be after every step but one:
    a slot reserved too late, for a request nobody will flag.
   */
  lemma LateIff(s: State, left: set<Client>, e: Event)
    requires Inv(s) && LiveInRows(s) && GoneAreFlagged(s) && LeftFlagged(s, left) && Enabled(s, e)
    ensures LeftFlagged(Apply(s, e), LeftBy(left, e)) <==> !Late(s, left, e)
  {
    match e
    case Register(path) => FlaggedOnRegister(s, left, path);
    case Vanish(client) => FlaggedOnVanish(s, left, client);
    case _ => FlaggedUntouched(s, left, e);
  }

  /** Such a run: the request of a client that is gone runs unflagged, with a slot of its own. */
  lemma LateRequestRuns(path: Path)
    ensures Run(Start, [Vanish(path.client), Register(path), Publish(0, false)]) ==
      Some(Start.(table := map[path.client := [Slot(path, 0)]], requests := [Request(path, Running, false, false)],
                  objects := map[path := 0]))
    ensures LeftAfter({}, [Vanish(path.client), Register(path), Publish(0, false)]) == {path.client}
  {
    var s1 := Apply(Start, Vanish(path.client));
    assert s1.requests == [] && s1.table == map[] && s1.condemned == {};
    var s2 := Apply(s1, Register(path));
    assert Row(s1.table, path.client) + [Slot(path, 0)] == [Slot(path, 0)];
    assert s2.requests == [Request(path, Reserved, false, false)];
    var s3 := Apply(s2, Publish(0, false));
    assert s3.requests == [Request(path, Running, false, false)] && s3.objects == map[path := 0];
    RunThree(Start, s1, s2, s3, Vanish(path.client), Register(path), Publish(0, false));
    LeftOfThree({}, Vanish(path.client), Register(path), Publish(0, false));
  }

  lemma LeftOfThree(left: set<Client>, e1: Event, e2: Event, e3: Event)
    ensures LeftAfter(left, [e1, e2, e3]) == LeftBy(LeftBy(LeftBy(left, e1), e2), e3)
  {
    var l1, l2 := LeftBy(left, e1), LeftBy(LeftBy(left, e1), e2);
    assert [e1, e2, e3][1..] == [e2, e3] && [e2, e3][1..] == [e3] && [e3][1..] == [];
    assert LeftAfter(l2, [e3]) == LeftBy(l2, e3);
    assert LeftAfter(l1, [e2, e3]) == LeftBy(l2, e3);
  }

  // ----- The table, step by step

  lemma MatchedKept(s: State, left: set<Client>, e: Event)
    requires Matched(s, left) && Enabled(s, e) && !Late(s, left, e)
    ensures Matched(Apply(s, e), LeftBy(left, e))
  {
    var s' := Apply(s, e);
    assert forall id :: 0 <= id < |s.requests| ==> s'.requests[id].path == s.requests[id].path;
  }

  /** The table stays right exactly if the step neither breaks it nor reserves a slot too late. */
  lemma StepConnectedIff(s: State, left: set<Client>, e: Event)
    requires ConnectedExact(s, left) && Matched(s, left) && Enabled(s, e)
    ensures ConnectedExact(Apply(s, e), LeftBy(left, e)) <==> !Breaks(s, e) && !Late(s, left, e)
  {
    ConnectedIsExact(s, left);
    BreaksIff(s, e);
    CappedKept(s, e);
    if Late(s, left, e) {
      var row := Apply(s, e).table[e.path.client];
      assert row[|row| - 1].path == e.path;
    } else {
      MatchedKept(s, left, e);
      ConnectedIsExact(Apply(s, e), LeftBy(left, e));
    }
  }

  // ----- The table over whole runs

  /** The table is right before the run and after each of its steps. */
  predicate AlwaysExact(s: State, left: set<Client>, events: seq<Event>)
    requires Run(s, events).Some?
    decreases |events|
  {
    && ConnectedExact(s, left)
    && (|events| == 0 || AlwaysExact(Apply(s, events[0]), LeftBy(left, events[0]), events[1..]))
  }

  /** No step of the run breaks the table or reserves a slot too late. */
  predicate Harmless(s: State, left: set<Client>, events: seq<Event>)
    requires Run(s, events).Some?
    decreases |events|
  {
    || |events| == 0
    || (&& !Breaks(s, events[0]) && !Late(s, left, events[0])
        && Harmless(Apply(s, events[0]), LeftBy(left, events[0]), events[1..]))
  }

  lemma {:induction false} RunExactIff(s: State, left: set<Client>, events: seq<Event>)
    requires ConnectedExact(s, left) && Matched(s, left) && Run(s, events).Some?
    ensures AlwaysExact(s, left, events) <==> Harmless(s, left, events)
    decreases |events|
  {
    if |events| > 0 {
      var e, s' := events[0], Apply(s, events[0]);
      StepConnectedIff(s, left, e);
      if !Breaks(s, e) && !Late(s, left, e) {
        MatchedKept(s, left, e);
        RunExactIff(s', LeftBy(left, e), events[1..]);
      }
    }
  }

  /**
    From the start, the table is the unfinished requests of the clients that have not left in
    every state of a run exactly if no step of the run breaks it or is late.
   */
  lemma TableAlwaysExactIff(events: seq<Event>)
    requires Run(Start, events).Some?
    ensures AlwaysExact(Start, {}, events) <==> Harmless(Start, {}, events)
  {
    RunExactIff(Start, {}, events);
  }

  // ----- Runs in which this is so

  /**
    Tokens are not reused while their request is unfinished, publishing does not fail, and no call
    outlives its client.
   */
  predicate Clean(s: State, left: set<Client>, e: Event) {
    match e
    case Register(path) => FreshPath(s, path) && path.client !in left
    case Publish(_, fails) => !fails
    case _ => true
  }

  predicate CleanRun(s: State, left: set<Client>, events: seq<Event>)
    requires Run(s, events).Some?
    decreases |events|
  {
    || |events| == 0
    || (Clean(s, left, events[0]) && CleanRun(Apply(s, events[0]), LeftBy(left, events[0]), events[1..]))
  }

  predicate NoneRejected(s: State) {
    forall id :: 0 <= id < |s.requests| ==> !s.requests[id].pc.Rejecting?
  }

  predicate CleanInv(s: State, left: set<Client>) {
    && Inv(s) && ConnectedExact(s, left) && Matched(s, left) && LeftFlagged(s, left)
    && DistinctPaths(s) && GoneAreFlagged(s) && NoneRejected(s)
  }

  lemma NothingRejected(s: State, left: set<Client>, e: Event)
    requires DistinctPaths(s) && ObjectsMatch(s) && Enabled(s, e) && Clean(s, left, e) && NoneRejected(s)
    ensures NoneRejected(Apply(s, e))
  {
  }

  lemma CleanIsHarmless(s: State, left: set<Client>, e: Event)
    requires CleanInv(s, left) && Enabled(s, e) && Clean(s, left, e)
    ensures !Breaks(s, e) && !Late(s, left, e)
  {
  }

  lemma CleanStep(s: State, left: set<Client>, e: Event)
    requires CleanInv(s, left) && Enabled(s, e) && Clean(s, left, e)
    ensures CleanInv(Apply(s, e), LeftBy(left, e))
  {
    StepKeepsInv(s, e);
    ConnectedIsExact(s, left);
    CleanIsHarmless(s, left, e);
    StepConnectedIff(s, left, e);
    MatchedKept(s, left, e);
    LateIff(s, left, e);
    NothingRejected(s, left, e);
    DistinctPathsKept(s, e);
    GoneAreFlaggedKept(s, e);
  }

  lemma {:induction false} CleanRunKeepsInv(s: State, left: set<Client>, events: seq<Event>)
    requires CleanInv(s, left) && Run(s, events).Some? && CleanRun(s, left, events)
    ensures CleanInv(Run(s, events).value, LeftAfter(left, events))
    ensures Harmless(s, left, events)
    decreases |events|
  {
    if |events| > 0 {
      CleanIsHarmless(s, left, events[0]);
      CleanStep(s, left, events[0]);
      CleanRunKeepsInv(Apply(s, events[0]), LeftBy(left, events[0]), events[1..]);
    }
  }

  /**
    With distinct live tokens, publications that succeed and no call that outlives its client, the
    table is the unfinished requests of the connected clients after every interleaving, and those
    of the others are all flagged or about to be.
   */
  lemma TableIsExact(events: seq<Event>)
    requires Run(Start, events).Some? && CleanRun(Start, {}, events)
    ensures ConnectedExact(Run(Start, events).value, LeftAfter({}, events))
    ensures LeftFlagged(Run(Start, events).value, LeftAfter({}, events))
  {
    CleanRunKeepsInv(Start, {}, events);
  }
}
