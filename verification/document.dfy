/** Document translation: a greedy chunking of lines on top of the scheduler's own chunking. */
module Documents {
  import opened Engine
  import opened Limits
  import opened Options
  import opened PairQueues
  import opened Scheduler
  import opened Text

  const DOCUMENT_CHUNK_LINES: nat := 64

  /** Which characters are letters or digits is left open. */
  type CharClass = char -> bool

  /** `split('\n')`. */
  function Lines(text: string): (lines: seq<string>)
    ensures |lines| > 0
    ensures forall i :: 0 <= i < |lines| ==> '\n' !in lines[i]
  {
    Split('\n', text)
  }

  /** `join("\n")`. */
  function Unlines(lines: seq<string>): string {
    Join('\n', lines)
  }

  predicate HasWord(alnum: CharClass, line: string) {
    exists c :: c in line && alnum(c)
  }

  /** The plain specification: translate every line with a letter or digit, copy the others. */
  function LineWise(t: Translator, html: bool, alnum: CharClass, lines: seq<string>): (r: seq<string>)
    ensures |r| == |lines|
    ensures forall i :: 0 <= i < |lines| ==>
      r[i] == if exists c :: c in lines[i] && alnum(c) then t(lines[i], html).text else lines[i]
  {
    seq(|lines|, i requires 0 <= i < |lines| =>
      if HasWord(alnum, lines[i]) then t(lines[i], html).text else lines[i])
  }

  predicate Increasing(places: seq<nat>) {
    forall j, k :: 0 <= j < k < |places| ==> places[j] < places[k]
  }

  /** The places of the lines to translate, in order. */
  predicate IsWanted(alnum: CharClass, lines: seq<string>, wanted: seq<nat>) {
    && (forall k :: 0 <= k < |wanted| ==> wanted[k] < |lines| && HasWord(alnum, lines[wanted[k]]))
    && Increasing(wanted)
    && (forall i :: 0 <= i < |lines| && HasWord(alnum, lines[i]) ==> i in wanted)
  }

  /** Bytes of the wanted lines `from..end`. */
  function Bytes(lines: seq<string>, wanted: seq<nat>, from: nat, end: nat): nat
    requires from <= end <= |wanted|
    requires forall k :: 0 <= k < |wanted| ==> wanted[k] < |lines|
  {
    if from == end then 0 else Bytes(lines, wanted, from, end - 1) + ByteLen(lines[wanted[end - 1]])
  }

  /**
    A step of the document: at most 64 lines, within 1 MiB unless it is a single line, and
    no longer step from the same place would be allowed.
   */
  predicate IsStep(lines: seq<string>, wanted: seq<nat>, from: nat, end: nat)
    requires forall k :: 0 <= k < |wanted| ==> wanted[k] < |lines|
  {
    && from < end <= |wanted|
    && end - from <= 64
    && (Bytes(lines, wanted, from, end) <= 0x10_0000 || end == from + 1)
    && (end == |wanted| || end - from == 64 || Bytes(lines, wanted, from, end + 1) > 0x10_0000)
  }

  datatype Document = Written(text: string, lines: nat) | TooLarge | NotTranslated(cause: Translated)

  method FindWanted(alnum: CharClass, lines: seq<string>) returns (wanted: seq<nat>)
    ensures IsWanted(alnum, lines, wanted)
    ensures forall k: nat :: k in wanted <==> k < |lines| && exists c :: c in lines[k] && alnum(c)
  {
    wanted := [];
    for i := 0 to |lines|
      invariant forall k :: 0 <= k < |wanted| ==> wanted[k] < i && HasWord(alnum, lines[wanted[k]])
      invariant forall j, k :: 0 <= j < k < |wanted| ==> wanted[j] < wanted[k]
      invariant forall j :: 0 <= j < i && HasWord(alnum, lines[j]) ==> j in wanted
    {
      if exists c :: c in lines[i] && alnum(c) {
        wanted := wanted + [i];
      }
    }
  }

  /** The greedy choice of the next lines. */
  method NextStep(lines: seq<string>, wanted: seq<nat>, done: nat) returns (chunk: seq<nat>)
    requires done < |wanted| && forall k :: 0 <= k < |wanted| ==> wanted[k] < |lines|
    ensures done + |chunk| <= |wanted| && chunk == wanted[done..done + |chunk|]
    ensures IsStep(lines, wanted, done, done + |chunk|)
    ensures Increasing(wanted) ==> Increasing(chunk)
    ensures forall k :: 0 <= k < |chunk| ==> chunk[k] < |lines|
  {
    chunk := [];
    var bytes := 0;
    for k := done to |wanted|
      invariant chunk == wanted[done..k] && bytes == Bytes(lines, wanted, done, k)
      invariant |chunk| <= DOCUMENT_CHUNK_LINES
      invariant bytes <= MAX_TOTAL_BYTES || |chunk| == 1
    {
      var len := ByteLen(lines[wanted[k]]);
      if |chunk| == DOCUMENT_CHUNK_LINES || (|chunk| > 0 && bytes + len > MAX_TOTAL_BYTES) {
        return;
      }
      chunk := chunk + [wanted[k]];
      bytes := bytes + len;
    }
  }

  /** Puts the translations in the places of their lines. */
  method Replace(lines: seq<string>, chunk: seq<nat>, translations: seq<Translation>) returns (r: seq<string>)
    requires |chunk| == |translations| && forall k :: 0 <= k < |chunk| ==> chunk[k] < |lines|
    requires Increasing(chunk)
    ensures |r| == |lines|
    ensures forall k :: 0 <= k < |chunk| ==> r[chunk[k]] == translations[k].text
    ensures forall i :: 0 <= i < |lines| && i !in chunk ==> r[i] == lines[i]
  {
    r := lines;
    for k := 0 to |chunk|
      invariant |r| == |lines|
      invariant forall j :: 0 <= j < k ==> r[chunk[j]] == translations[j].text
      invariant forall i :: 0 <= i < |lines| && i !in chunk[..k] ==> r[i] == lines[i]
    {
      assert chunk[..k + 1] == chunk[..k] + [chunk[k]];
      r := r[chunk[k] := translations[k].text];
    }
  }

  /** The wanted lines before `done` have their translation; all other lines are untouched. */
  predicate Done(t: Translator, html: bool, origin: seq<string>, lines: seq<string>,
                 wanted: seq<nat>, done: nat)
  {
    && |lines| == |origin|
    && done <= |wanted|
    && (forall k :: 0 <= k < done ==> wanted[k] < |lines| && lines[wanted[k]] == t(origin[wanted[k]], html).text)
    && (forall i :: 0 <= i < |lines| && i !in wanted[..done] ==> lines[i] == origin[i])
  }

  lemma {:induction false} BytesAgree(lines: seq<string>, origin: seq<string>, wanted: seq<nat>, from: nat, end: nat)
    requires |lines| == |origin| && from <= end <= |wanted|
    requires forall k :: 0 <= k < |wanted| ==> wanted[k] < |lines|
    requires forall k :: from <= k < |wanted| ==> lines[wanted[k]] == origin[wanted[k]]
    ensures Bytes(lines, wanted, from, end) == Bytes(origin, wanted, from, end)
    decreases end
  {
    if from < end {
      BytesAgree(lines, origin, wanted, from, end - 1);
    }
  }

  /** The lines still to do are those of the document, so the next step is one of the document. */
  lemma StepOfOrigin(lines: seq<string>, origin: seq<string>, wanted: seq<nat>, from: nat, end: nat)
    requires |lines| == |origin|
    requires forall k :: 0 <= k < |wanted| ==> wanted[k] < |lines|
    requires forall k :: from <= k < |wanted| ==> lines[wanted[k]] == origin[wanted[k]]
    requires IsStep(lines, wanted, from, end)
    ensures IsStep(origin, wanted, from, end)
  {
    BytesAgree(lines, origin, wanted, from, end);
    if end < |wanted| {
      BytesAgree(lines, origin, wanted, from, end + 1);
    }
  }

  lemma Untouched(lines: seq<string>, origin: seq<string>, wanted: seq<nat>, done: nat)
    requires |lines| == |origin| && done <= |wanted|
    requires forall k :: 0 <= k < |wanted| ==> wanted[k] < |lines|
    requires Increasing(wanted)
    requires forall i :: 0 <= i < |lines| && i !in wanted[..done] ==> lines[i] == origin[i]
    ensures forall k :: done <= k < |wanted| ==> lines[wanted[k]] == origin[wanted[k]]
  {
    forall k | done <= k < |wanted|
      ensures wanted[k] !in wanted[..done]
    {
    }
  }

  /** Putting the translations of the next lines in place does those lines and no others. */
  lemma StepDone(t: Translator, html: bool, alnum: CharClass, origin: seq<string>, lines: seq<string>,
                 lines': seq<string>, wanted: seq<nat>, done: nat, chunk: seq<nat>)
    requires IsWanted(alnum, origin, wanted) && Done(t, html, origin, lines, wanted, done)
    requires done + |chunk| <= |wanted| && chunk == wanted[done..done + |chunk|]
    requires |lines'| == |lines|
    requires forall k :: 0 <= k < |chunk| ==> lines'[chunk[k]] == t(lines[chunk[k]], html).text
    requires forall i :: 0 <= i < |lines| && i !in chunk ==> lines'[i] == lines[i]
    ensures Done(t, html, origin, lines', wanted, done + |chunk|)
  {
    var done' := done + |chunk|;
    Untouched(lines, origin, wanted, done);
    assert wanted[..done'] == wanted[..done] + chunk;
    forall k | 0 <= k < done'
      ensures lines'[wanted[k]] == t(origin[wanted[k]], html).text
    {
      if k < done {
        assert wanted[k] !in chunk;
      } else {
        assert wanted[k] == chunk[k - done];
      }
    }
  }

  /**
    What happens around one step: whether the route has been evicted since the last one, why it
    cannot be loaded again, if so, whether the engine serves the request, and the jobs others
    queue meanwhile.
   */
  datatype World = World(
    evicted: bool,
    failure: Option<string>,
    works: bool,
    others: Weather,
    rounds: seq<Round>)

  predicate Serves(w: World) {
    w.works && (w.evicted ==> w.failure.None?)
  }

  /** Why a step that is not served fails. */
  function Cause(w: World): Translated {
    if w.evicted && w.failure.Some? then NotLoaded(w.failure.value) else Refused(EngineFailed)
  }

  /** `ensure_loaded`: the loaded route, a newly loaded one, or an error. */
  method EnsureLoaded(w: World, route: PairQueue) returns (failure: Option<string>, loaded: PairQueue)
    requires route.Valid() && !route.closed
    ensures failure == if w.evicted then w.failure else None
    ensures loaded.Valid() && !loaded.closed && (loaded == route || fresh(loaded))
  {
    failure, loaded := None, route;
    if w.evicted {
      failure := w.failure;
      if failure.None? {
        loaded := new PairQueue();
      }
    }
  }

  /** Sends the lines of one step as the segments of one request. */
  method TranslateLines(t: Translator, html: bool, priority: Priority, w: World, route: PairQueue,
                        lines: seq<string>, chunk: seq<nat>)
    returns (answer: Translated, route': PairQueue)
    requires route.Valid() && !route.closed
    requires forall k :: 0 <= k < |chunk| ==> chunk[k] < |lines|
    modifies route
    ensures route'.Valid() && !route'.closed && (route' == route || fresh(route'))
    ensures if Serves(w) then answer.Ok? else answer == Cause(w)
    ensures answer.Ok? ==>
      && |answer.translations| == |chunk|
      && forall k :: 0 <= k < |chunk| ==> answer.translations[k] == t(lines[chunk[k]], html)
  {
    var segments := seq(|chunk|, k requires 0 <= k < |chunk| => lines[chunk[k]]);
    var failure, loads;
    failure, route' := EnsureLoaded(w, route);
    answer, loads := RunTranslation(t, w.works, w.others, w.rounds, failure, route', failure, route', segments, html, priority);
  }

  /** The next step of the document, chosen from lines of which some are already translated. */
  method PickStep(t: Translator, html: bool, alnum: CharClass, ghost origin: seq<string>, lines: seq<string>,
                  wanted: seq<nat>, done: nat)
    returns (chunk: seq<nat>)
    requires IsWanted(alnum, origin, wanted) && done < |wanted|
    requires Done(t, html, origin, lines, wanted, done)
    ensures done + |chunk| <= |wanted| && chunk == wanted[done..done + |chunk|]
    ensures Increasing(chunk) && forall k :: 0 <= k < |chunk| ==> chunk[k] < |lines|
    ensures IsStep(origin, wanted, done, done + |chunk|)
  {
    Untouched(lines, origin, wanted, done);
    chunk := NextStep(lines, wanted, done);
    StepOfOrigin(lines, origin, wanted, done, done + |chunk|);
  }

  /** One step: translate the next lines and put them back, or report why not. */
  method DoStep(t: Translator, html: bool, priority: Priority, alnum: CharClass, w: World, route: PairQueue,
                ghost origin: seq<string>, lines: seq<string>, wanted: seq<nat>, done: nat)
    returns (answer: Translated, lines': seq<string>, done': nat, route': PairQueue)
    requires route.Valid() && !route.closed
    requires IsWanted(alnum, origin, wanted) && done < |wanted|
    requires Done(t, html, origin, lines, wanted, done)
    modifies route
    ensures route'.Valid() && !route'.closed && (route' == route || fresh(route'))
    ensures if Serves(w) then answer.Ok? else answer == Cause(w)
    ensures answer.Ok? ==> IsStep(origin, wanted, done, done')
    ensures answer.Ok? ==> Done(t, html, origin, lines', wanted, done')
  {
    var chunk := PickStep(t, html, alnum, origin, lines, wanted, done);
    answer, route' := TranslateLines(t, html, priority, w, route, lines, chunk);
    lines', done' := lines, done;
    if answer.Ok? {
      lines' := Replace(lines, chunk, answer.translations);
      done' := done + |chunk|;
      StepDone(t, html, alnum, origin, lines, lines', wanted, done, chunk);
    }
  }

  /** With every wanted line done, the lines are those of the line-wise map. */
  lemma AllDone(t: Translator, html: bool, alnum: CharClass, origin: seq<string>, lines: seq<string>, wanted: seq<nat>)
    requires IsWanted(alnum, origin, wanted)
    requires Done(t, html, origin, lines, wanted, |wanted|)
    ensures lines == LineWise(t, html, alnum, origin)
  {
    forall i | 0 <= i < |lines|
      ensures lines[i] == LineWise(t, html, alnum, origin)[i]
    {
      if HasWord(alnum, origin[i]) {
        var k :| 0 <= k < |wanted| && wanted[k] == i;
      } else {
        assert i !in wanted[..|wanted|];
      }
    }
  }

  /** `bounds` cuts the wanted lines before its last entry into steps, and all their requests were served. */
  predicate Served(origin: seq<string>, wanted: seq<nat>, worlds: nat -> World, bounds: seq<nat>)
    requires forall k :: 0 <= k < |wanted| ==> wanted[k] < |origin|
  {
    && |bounds| > 0 && bounds[0] == 0
    && (forall k :: 0 <= k < |bounds| ==> bounds[k] <= |wanted|)
    && (forall k :: 0 <= k < |bounds| - 1 ==> IsStep(origin, wanted, bounds[k], bounds[k + 1]) && Serves(worlds(k)))
  }

  lemma ServedNext(origin: seq<string>, wanted: seq<nat>, worlds: nat -> World, bounds: seq<nat>, next: nat)
    requires forall k :: 0 <= k < |wanted| ==> wanted[k] < |origin|
    requires Served(origin, wanted, worlds, bounds) && Serves(worlds(|bounds| - 1))
    requires next <= |wanted| && IsStep(origin, wanted, bounds[|bounds| - 1], next)
    ensures Served(origin, wanted, worlds, bounds + [next])
  {
  }

  /**
    Translates a document. `worlds(k)` is what happens around the k-th step. The steps taken are
    reported by their bounds in the list of wanted lines.
   */
  method TranslateDocument(t: Translator, html: bool, priority: Priority, alnum: CharClass, worlds: nat -> World,
                           route: PairQueue, text: string)
    returns (result: Document, wanted: seq<nat>, bounds: seq<nat>)
    requires route.Valid() && !route.closed
    modifies route
    ensures IsWanted(alnum, Lines(text), wanted)
    ensures Served(Lines(text), wanted, worlds, bounds)
    ensures result.TooLarge? <==> ByteLen(text) > 0x400_0000
    ensures result.Written? ==>
      && result.text == Unlines(LineWise(t, html, alnum, Lines(text)))
      && result.lines == |wanted| == bounds[|bounds| - 1]
    ensures result.NotTranslated? ==>
      && bounds[|bounds| - 1] < |wanted|
      && !Serves(worlds(|bounds| - 1)) && result.cause == Cause(worlds(|bounds| - 1))
  {
    var lines := Lines(text);
    wanted := FindWanted(alnum, lines);
    bounds := [0];
    if ByteLen(text) > MAX_DOCUMENT_BYTES {
      return TooLarge, wanted, bounds;
    }
    var done, current := 0, route;
    while done < |wanted|
      invariant current.Valid() && !current.closed && (current == route || fresh(current))
      invariant Done(t, html, Lines(text), lines, wanted, done)
      invariant Served(Lines(text), wanted, worlds, bounds) && bounds[|bounds| - 1] == done
    {
      var answer, lines', done', route' :=
        DoStep(t, html, priority, alnum, worlds(|bounds| - 1), current, Lines(text), lines, wanted, done);
      if !answer.Ok? {
        return NotTranslated(answer), wanted, bounds;
      }
      ServedNext(Lines(text), wanted, worlds, bounds, done');
      lines, done, current, bounds := lines', done', route', bounds + [done'];
    }
    AllDone(t, html, alnum, Lines(text), lines, wanted);
    return Written(Unlines(lines), |wanted|), wanted, bounds;
  }

  // ----- What the line-wise map gives

  /** An engine that returns its input leaves the document as it was, byte for byte. */
  lemma IdentityEngine(t: Translator, html: bool, alnum: CharClass, text: string)
    requires forall line, html :: t(line, html).text == line
    ensures Unlines(LineWise(t, html, alnum, Lines(text))) == text
  {
    assert LineWise(t, html, alnum, Lines(text)) == Lines(text);
    JoinSplit('\n', text);
  }

  /** The document keeps its number of lines exactly when no translation contains a line break. */
  lemma LineCountKept(t: Translator, html: bool, alnum: CharClass, text: string)
    ensures |Lines(Unlines(LineWise(t, html, alnum, Lines(text))))| == |Lines(text)| <==>
      forall line :: line in Lines(text) && HasWord(alnum, line) ==> '\n' !in t(line, html).text
  {
    var origin := Lines(text);
    var lines := LineWise(t, html, alnum, origin);
    SplitCounts('\n', Unlines(lines));
    JoinCounts('\n', lines);
    InnerCountZero('\n', lines);
    if forall i :: 0 <= i < |lines| ==> '\n' !in lines[i] {
      forall line | line in origin && HasWord(alnum, line)
        ensures '\n' !in t(line, html).text
      {
        var i :| 0 <= i < |origin| && origin[i] == line;
        assert lines[i] == t(line, html).text;
      }
    } else {
      var i :| 0 <= i < |lines| && '\n' in lines[i];
      assert origin[i] in origin && '\n' !in origin[i];
    }
  }

  /** The greedy cut is the only one: two cuts by steps agree as far as both go. */
  lemma StepIsUnique(lines: seq<string>, wanted: seq<nat>, from: nat, a: nat, b: nat)
    requires forall k :: 0 <= k < |wanted| ==> wanted[k] < |lines|
    requires IsStep(lines, wanted, from, a) && IsStep(lines, wanted, from, b)
    ensures a == b
  {
    if a < b {
      BytesGrow(lines, wanted, from, a + 1, b);
    } else if b < a {
      BytesGrow(lines, wanted, from, b + 1, a);
    }
  }

  lemma {:induction false} BytesGrow(lines: seq<string>, wanted: seq<nat>, from: nat, a: nat, b: nat)
    requires from <= a <= b <= |wanted|
    requires forall k :: 0 <= k < |wanted| ==> wanted[k] < |lines|
    ensures Bytes(lines, wanted, from, a) <= Bytes(lines, wanted, from, b)
    decreases b
  {
    if a < b {
      BytesGrow(lines, wanted, from, a, b - 1);
    }
  }
}
