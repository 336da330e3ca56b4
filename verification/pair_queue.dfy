/**
  The queue of one route with the code that fills and empties it, as it runs when nobody
  else acts in between. The interleavings are the business of the Scheduler modules.
 */
module PairQueues {
  import opened Engine
  import opened Options
  import opened Scheduler

  /** What the engine and the cancel flags will do during one drain, by reply channel. */
  datatype Weather = Weather(flags: set<nat>, faults: set<nat>)

  /** The one answer a job gets, however it is cut into chunks. */
  function Verdict(t: Translator, w: Weather, job: Job): Outcome {
    if job.id in w.flags then Failed(Cancelled)
    else if job.id in w.faults then Failed(EngineFailed)
    else Translated(job.done + Each(t, job.html, job.remaining))
  }

  /** The answers to a line of jobs. */
  function Answers(t: Translator, w: Weather, jobs: seq<Job>): (r: seq<Reply>)
    ensures |r| == |jobs|
    ensures forall i :: 0 <= i < |jobs| ==> r[i] == Reply(jobs[i].id, Verdict(t, w, jobs[i]))
  {
    seq(|jobs|, i requires 0 <= i < |jobs| => Reply(jobs[i].id, Verdict(t, w, jobs[i])))
  }

  lemma AnswersCons(t: Translator, w: Weather, job: Job, rest: seq<Job>)
    ensures Answers(t, w, [job] + rest) == [Reply(job.id, Verdict(t, w, job))] + Answers(t, w, rest)
  {
  }

  lemma Regroup<T>(a: seq<T>, b: seq<T>, c: seq<T>)
    ensures a + (b + c) == a + b + c
  {
  }

  /** Sending a chunk on its own does not change the verdict. */
  lemma ChunkKeepsVerdict(t: Translator, w: Weather, job: Job, n: nat)
    requires n <= |job.remaining| && job.id !in w.flags && job.id !in w.faults
    ensures Verdict(t, w, AfterChunk(t, job, n)) == Verdict(t, w, job)
  {
    var chunk, rest := job.remaining[..n], job.remaining[n..];
    assert chunk + rest == job.remaining;
    EachSplits(t, job.html, chunk, rest);
    Regroup(job.done, Each(t, job.html, chunk), Each(t, job.html, rest));
  }

  /** The job once the engine has translated its next `n` segments. */
  function AfterChunk(t: Translator, job: Job, n: nat): Job
    requires n <= |job.remaining|
  {
    job.(remaining := job.remaining[n..], done := job.done + Each(t, job.html, job.remaining[..n]))
  }

  /** Answering the job in front, or putting it back with its verdict unchanged, changes nothing overall. */
  lemma FrontServed(t: Translator, w: Weather, sent: seq<Reply>, job: Job, rest: seq<Job>)
    ensures sent + Answers(t, w, [job] + rest) == sent + [Reply(job.id, Verdict(t, w, job))] + Answers(t, w, rest)
  {
    AnswersCons(t, w, job, rest);
    Regroup(sent, [Reply(job.id, Verdict(t, w, job))], Answers(t, w, rest));
  }

  /** Segments still to translate, counting one more for each job. */
  function Owed(jobs: seq<Job>): nat {
    if |jobs| == 0 then 0 else |jobs[0].remaining| + 1 + Owed(jobs[1..])
  }

  lemma OwedCons(job: Job, rest: seq<Job>)
    ensures Owed([job] + rest) == |job.remaining| + 1 + Owed(rest)
  {
    assert ([job] + rest)[1..] == rest;
  }

  class PairQueue {
    var interactive: seq<Job>
    var batch: seq<Job>
    var closed: bool
    var active: nat
    var permit: bool
    var replies: seq<Reply>
    var channels: nat

    constructor ()
      ensures Valid() && Contents() == Queues([], [], false)
      ensures active == 0 && replies == [] && channels == 0 && !permit
    {
      interactive, batch, closed, active, permit, replies, channels := [], [], false, 0, false, [], 0;
    }

    function Contents(): Queues
      reads this
    {
      Queues(interactive, batch, closed)
    }

    /** The order in which the jobs are served if none is added. */
    function Line(): seq<Job>
      reads this
    {
      interactive + batch
    }

    predicate Valid()
      reads this
    {
      && active == |interactive| + |batch|
      && (forall job :: job in interactive ==> job.priority == Interactive && job.id < channels)
      && (forall job :: job in batch ==> job.priority == Batch && job.id < channels)
      && (forall i :: 0 <= i < |replies| ==> replies[i].id < channels)
    }

    /** Queues a job and opens its reply channel, unless the route was unloaded. */
    method Submit(segments: seq<string>, html: bool, priority: Priority) returns (receiver: Option<nat>)
      requires Valid()
      modifies this
      ensures Valid()
      ensures replies == old(replies)
      ensures receiver == if old(closed) then None else Some(old(channels))
      ensures old(closed) ==>
        && Contents() == old(Contents()) && active == old(active)
        && channels == old(channels) && permit == old(permit)
      ensures !old(closed) ==>
        && Contents() == PushBack(old(Contents()), Job(old(channels), segments, [], html, priority))
        && active == old(active) + 1
        && channels == old(channels) + 1
        && permit
    {
      if closed {
        return None;
      }
      var job := Job(channels, segments, [], html, priority);
      active := active + 1;
      if priority.Interactive? {
        interactive := interactive + [job];
      } else {
        batch := batch + [job];
      }
      receiver, channels := Some(channels), channels + 1;
      permit := true;
    }

    /** The last handle is dropped. */
    method Close()
      requires Valid()
      modifies this
      ensures Valid() && closed && permit
      ensures interactive == old(interactive) && batch == old(batch)
      ensures active == old(active) && replies == old(replies) && channels == old(channels)
    {
      closed := true;
      permit := true;
    }

    /** What will have been answered once the queue is empty. */
    ghost function Forecast(t: Translator, w: Weather): seq<Reply>
      reads this
    {
      replies + Answers(t, w, Line())
    }

    /** The next job, interactive before batch. */
    method Pop() returns (job: Job)
      requires Valid() && !Empty(Contents())
      modifies this`interactive, this`batch
      ensures Contents() == PopFront(old(Contents())) && job == Front(old(Contents()))
      ensures old(Line()) == [job] + Line()
      ensures job.id < channels && (job.priority == Batch ==> interactive == [])
    {
      if |interactive| > 0 {
        job, interactive := interactive[0], interactive[1..];
      } else {
        job, batch := batch[0], batch[1..];
      }
    }

    /** The final answer for an accepted job. */
    method Finish(id: nat, outcome: Outcome)
      requires active > 0
      modifies this`active, this`replies
      ensures active == old(active) - 1
      ensures replies == old(replies) + [Reply(id, outcome)]
    {
      active := active - 1;
      replies := replies + [Reply(id, outcome)];
    }

    /** Puts a batch job with segments left back to the front. */
    method Requeue(job: Job)
      requires job.priority == Batch && interactive == []
      modifies this`batch
      ensures Contents() == PushFront(old(Contents()), job)
      ensures Line() == [job] + old(Line())
    {
      batch := [job] + batch;
    }

    /** What the popped job comes to: its verdict, or a job with fewer segments and the same verdict. */
    method Work(t: Translator, w: Weather, job: Job) returns (outcome: Option<Outcome>, left: Job)
      ensures outcome.Some? ==> outcome.value == Verdict(t, w, job)
      ensures outcome.None? ==>
        && left.id == job.id && left.priority == job.priority == Batch
        && |left.remaining| < |job.remaining|
        && Verdict(t, w, left) == Verdict(t, w, job)
    {
      left := job;
      if job.id in w.flags {
        return Some(Failed(Cancelled)), left;
      }
      if job.id in w.faults {
        return Some(Failed(EngineFailed)), left;
      }
      var n := ChunkSize(job);
      ChunkKeepsVerdict(t, w, job, n);
      left := AfterChunk(t, job, n);
      if |left.remaining| == 0 {
        assert left.done + Each(t, job.html, left.remaining) == left.done;
        outcome := Some(Translated(left.done));
      } else {
        outcome := None;
      }
    }

    /** One turn of the scheduler loop. */
    method Turn(t: Translator, w: Weather)
      requires Valid() && !Empty(Contents())
      modifies this`interactive, this`batch, this`active, this`replies
      ensures Valid()
      ensures Forecast(t, w) == old(Forecast(t, w))
      ensures Owed(Line()) < old(Owed(Line()))
    {
      var job := Pop();
      FrontServed(t, w, replies, job, Line());
      OwedCons(job, Line());
      var outcome, left := Work(t, w, job);
      if outcome.Some? {
        Finish(job.id, outcome.value);
      } else {
        FrontServed(t, w, replies, left, Line());
        OwedCons(left, Line());
        Requeue(left);
      }
    }

    /**
      The scheduler loop, run until it finds the queue empty: there it waits without a permit, or
      leaves if the queue is closed. Interactive jobs are answered before batch jobs, each class in
      order, and every answer is the job's verdict although batch jobs go back to the front
      of their queue after each chunk.
     */
    method Drain(t: Translator, w: Weather) returns (leaves: bool)
      requires Valid()
      modifies this`interactive, this`batch, this`active, this`replies, this`permit
      ensures Valid()
      ensures Empty(Contents()) && active == 0
      ensures leaves == closed
      ensures permit == (closed && old(permit))
      ensures replies == old(replies) + Answers(t, w, old(Line()))
    {
      while |interactive| > 0 || |batch| > 0
        invariant Valid()
        invariant Forecast(t, w) == old(Forecast(t, w)) && permit == old(permit)
        decreases Owed(Line())
      {
        Turn(t, w);
      }
      if !closed && permit {
        // A stored permit wakes it once more, and it finds the queue empty again.
        permit := false;
      }
      assert Line() == [];
      assert Forecast(t, w) == replies;
      return closed;
    }

    /** Waits on a reply channel: the answer that carries its number, if one was sent. */
    method Await(receiver: nat) returns (answer: Option<Outcome>)
      ensures answer.None? ==> forall i :: 0 <= i < |replies| ==> replies[i].id != receiver
      ensures answer.Some? ==> Reply(receiver, answer.value) in replies
    {
      for i := 0 to |replies|
        invariant forall j :: 0 <= j < i ==> replies[j].id != receiver
      {
        if replies[i].id == receiver {
          return Some(replies[i].outcome);
        }
      }
      return None;
    }
  }

  /** A job of somebody else. */
  datatype Guest = Guest(segments: seq<string>, html: bool, priority: Priority)

  /** Others submit jobs after the scheduler has taken so many turns. */
  datatype Round = Round(turns: nat, guests: seq<Guest>)

  datatype Translated =
    | Ok(translations: seq<Translation>)
    | NotLoaded(reason: string)
    | RouteKeptUnloading
    | Refused(error: JobError)

  function FromOutcome(outcome: Outcome): Translated {
    match outcome
    case Translated(translations) => Ok(translations)
    case Failed(error) => Refused(error)
  }

  lemma PushedIn(q: Queues, job: Job)
    ensures var pushed := PushBack(q, job);
      forall other :: other in pushed.interactive + pushed.batch <==> other == job || other in q.interactive + q.batch
  {
  }

  /** Others submit their jobs to the same route. */
  method Admit(route: PairQueue, guests: seq<Guest>)
    requires route.Valid()
    modifies route
    ensures route.Valid() && route.closed == old(route.closed) && route.replies == old(route.replies)
    ensures forall job :: job in old(route.Line()) ==> job in route.Line()
    ensures forall job :: job in route.Line() && job.id < old(route.channels) ==> job in old(route.Line())
    ensures route.channels >= old(route.channels)
  {
    for i := 0 to |guests|
      invariant route.Valid() && route.closed == old(route.closed) && route.replies == old(route.replies)
      invariant forall job :: job in old(route.Line()) ==> job in route.Line()
      invariant forall job :: job in route.Line() && job.id < old(route.channels) ==> job in old(route.Line())
      invariant route.channels >= old(route.channels)
    {
      ghost var before, line := route.Contents(), route.Line();
      ghost var job := Job(route.channels, guests[i].segments, [], guests[i].html, guests[i].priority);
      var _ := route.Submit(guests[i].segments, guests[i].html, guests[i].priority);
      PushedIn(before, job);
      assert forall other :: other in route.Line() ==> other == job || other in line;
    }
  }

  /** The replies say this of the channel, and nothing else. */
  ghost predicate Says(replies: seq<Reply>, id: nat, outcome: Outcome) {
    && Reply(id, outcome) in replies
    && forall r :: r in replies && r.id == id ==> r == Reply(id, outcome)
  }

  /** More jobs on other channels change nothing about what will be said of this one. */
  lemma StillSays(t: Translator, w: Weather, sent: seq<Reply>, line: seq<Job>, line': seq<Job>, id: nat, outcome: Outcome)
    requires Says(sent + Answers(t, w, line), id, outcome)
    requires forall job :: job in line ==> job in line'
    requires forall job :: job in line' && job.id == id ==> job in line
    ensures Says(sent + Answers(t, w, line'), id, outcome)
  {
    forall reply: Reply | reply.id == id
      ensures reply in sent + Answers(t, w, line) <==> reply in sent + Answers(t, w, line')
    {
      AnswerOf(t, w, line, reply);
      AnswerOf(t, w, line', reply);
    }
  }

  lemma AnswerOf(t: Translator, w: Weather, line: seq<Job>, reply: Reply)
    ensures reply in Answers(t, w, line) <==> exists job :: job in line && reply == Reply(job.id, Verdict(t, w, job))
  {
    if reply in Answers(t, w, line) {
      var i :| 0 <= i < |line| && Answers(t, w, line)[i] == reply;
      assert line[i] in line && reply == Reply(line[i].id, Verdict(t, w, line[i]));
    }
    if job :| job in line && reply == Reply(job.id, Verdict(t, w, job)) {
      var i :| 0 <= i < |line| && line[i] == job;
      assert Answers(t, w, line)[i] == reply;
    }
  }

  /** The scheduler takes its turns, and others submit between them. */
  method Serve(t: Translator, w: Weather, rounds: seq<Round>, route: PairQueue, ghost id: nat, ghost outcome: Outcome)
    requires route.Valid() && !route.closed && id < route.channels && Says(route.Forecast(t, w), id, outcome)
    modifies route
    ensures route.Valid() && !route.closed && id < route.channels && Says(route.Forecast(t, w), id, outcome)
  {
    for k := 0 to |rounds|
      invariant route.Valid() && !route.closed && id < route.channels && Says(route.Forecast(t, w), id, outcome)
    {
      for n := 0 to rounds[k].turns
        invariant route.Valid() && !route.closed && id < route.channels && Says(route.Forecast(t, w), id, outcome)
      {
        if Empty(route.Contents()) {
          break;
        }
        route.Turn(t, w);
      }
      ghost var sent, line := route.replies, route.Line();
      Admit(route, rounds[k].guests);
      StillSays(t, w, sent, line, route.Line(), id, outcome);
    }
  }

  /**
    One attempt: None when the route was closed under the caller. Others may have queued jobs
    before, and queue more between any two turns of the scheduler; `others` says which of their
    jobs are cancelled or fail.
   */
  method Attempt(t: Translator, works: bool, others: Weather, rounds: seq<Round>, route: PairQueue, segments: seq<string>,
                 html: bool, priority: Priority) returns (answer: Option<Outcome>)
    requires route.Valid()
    modifies route
    ensures route.Valid() && route.closed == old(route.closed)
    ensures answer == if route.closed then None
                      else if works then Some(Translated(Each(t, html, segments)))
                      else Some(Failed(EngineFailed))
  {
    var receiver := route.Submit(segments, html, priority);
    if receiver.None? {
      return None;
    }
    var id := receiver.value;
    ghost var job := Job(id, segments, [], html, priority);
    assert job in route.Line();
    var weather := Weather(others.flags - {id}, if works then others.faults - {id} else others.faults + {id});
    OnlyAnswer(t, weather, route.replies, route.Line(), job);
    assert [] + Each(t, html, segments) == Each(t, html, segments);
    Serve(t, weather, rounds, route, id, Verdict(t, weather, job));
    var _ := route.Drain(t, weather);
    answer := route.Await(id);
  }

  /** What an attempt comes to, None if it has to be repeated; `failure` says why the route did not load, if so. */
  function Tried(t: Translator, works: bool, failure: Option<string>, closed: bool, segments: seq<string>, html: bool):
    Option<Translated>
  {
    if failure.Some? then Some(NotLoaded(failure.value))
    else if closed then None
    else if works then Some(Ok(Each(t, html, segments)))
    else Some(Refused(EngineFailed))
  }

  /**
    Translates the segments on the route, which is loaded again once if it was closed under
    the caller. Either load may fail. Chunking does not show: the answer is that of one engine call.
    `loads` counts how often the route was asked for.
   */
  method RunTranslation(t: Translator, works: bool, others: Weather, rounds: seq<Round>, failure: Option<string>,
                        first: PairQueue, failure': Option<string>, second: PairQueue, segments: seq<string>, html: bool,
                        priority: Priority) returns (result: Translated, loads: nat)
    requires first.Valid() && second.Valid()
    modifies first, second
    ensures first.Valid() && second.Valid()
    ensures first.closed == old(first.closed) && second.closed == old(second.closed)
    ensures result ==
      match Tried(t, works, failure, first.closed, segments, html)
      case Some(answer) => answer
      case None =>
        match Tried(t, works, failure', second.closed, segments, html)
        case Some(answer) => answer
        case None => RouteKeptUnloading
    ensures loads == if Tried(t, works, failure, first.closed, segments, html).Some? then 1 else 2
  {
    loads := 0;
    for k := 0 to 2
      invariant first.Valid() && second.Valid()
      invariant first.closed == old(first.closed) && second.closed == old(second.closed)
      invariant loads == k
      invariant k > 0 ==> Tried(t, works, failure, first.closed, segments, html).None?
      invariant k > 1 ==> Tried(t, works, failure', second.closed, segments, html).None?
    {
      var failed := if k == 0 then failure else failure';
      loads := loads + 1;
      if failed.Some? {
        return NotLoaded(failed.value), loads;
      }
      var answer := Attempt(t, works, others, rounds, if k == 0 then first else second, segments, html, priority);
      if answer.Some? {
        return FromOutcome(answer.value), loads;
      }
    }
    return RouteKeptUnloading, loads;
  }

  /** A channel number that was not in use before has exactly the job's own answer. */
  lemma OnlyAnswer(t: Translator, w: Weather, sent: seq<Reply>, line: seq<Job>, job: Job)
    requires job in line
    requires forall i :: 0 <= i < |sent| ==> sent[i].id != job.id
    requires forall other :: other in line && other != job ==> other.id != job.id
    ensures Reply(job.id, Verdict(t, w, job)) in sent + Answers(t, w, line)
    ensures forall r :: r in sent + Answers(t, w, line) && r.id == job.id ==> r == Reply(job.id, Verdict(t, w, job))
  {
    var k :| 0 <= k < |line| && line[k] == job;
    assert (sent + Answers(t, w, line))[|sent| + k] == Reply(job.id, Verdict(t, w, job));
  }
}
