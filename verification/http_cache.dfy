/**
  The ETag-revalidated cache of one URL: a body file and a tag file, read and overwritten by each
  get. Content may change and the server may be out of reach between any two gets; a get may fail
  to read or to write either file.
 */
module HttpCaches {
  import opened Options

  type Bytes = seq<nat>

  datatype Page = Page(bytes: Bytes, tag: Option<string>)

  datatype Server = Up(page: Page) | Down

  datatype Reply = NotModified | Fetched(page: Page) | Failed

  datatype Answer = Got(bytes: Bytes) | Error

  /** The two files. */
  datatype Copy = Copy(body: Option<Bytes>, tag: Option<string>)

  /** What one write did: everything, nothing, or it left a truncated file behind. */
  datatype Outcome<T> = Done | Kept | Torn(left: T)

  datatype Disk = Disk(readBody: bool, readTag: bool, body: Outcome<Bytes>, tag: Outcome<string>)

  const HEALTHY := Disk(true, true, Done, Done)

  /** One get: the server at that moment, whether it heeds the condition, and what the disk does. */
  datatype Visit = Visit(server: Server, heeds: bool, disk: Disk)

  // ----- The server

  /** The part of an entity tag that the weak comparison of section 8.8.3.2 of RFC 9110 looks at. */
  function Opaque(tag: string): string {
    if |tag| >= 2 && tag[0] == 'W' && tag[1] == '/' then tag[2..] else tag
  }

  /** A weak tag stands for what the strong one stands for, and different strong tags for different things. */
  lemma WeakAsStrong(tag: string, other: string)
    requires tag[..if |tag| < 2 then |tag| else 2] != "W/" && other[..if |other| < 2 then |other| else 2] != "W/"
    ensures Opaque("W/" + tag) == Opaque(tag)
    ensures Opaque(tag) == Opaque(other) ==> tag == other
  {
    assert ("W/" + tag)[2..] == tag;
  }

  /**
   * A server that follows sections 13.1.2 and 15.4.5 of RFC 9110: it answers "not modified" only
   * to a tag that matches the current one.
   */
  function ReplyTo(v: Visit, sent: Option<string>): Reply {
    match v.server
    case Down => Failed
    case Up(page) =>
      if v.heeds && sent.Some? && page.tag.Some? && Opaque(sent.value) == Opaque(page.tag.value) then NotModified
      else Fetched(page)
  }

  /** Section 8.8.3 of RFC 9110: a tag identifies the content; `means` says which. */
  predicate Lawful(means: string -> Bytes, server: Server) {
    server.Up? && server.page.tag.Some? ==> server.page.bytes == means(Opaque(server.page.tag.value))
  }

  // ----- One get

  /** The tag that goes out: none without a body to fall back on. */
  function SentTag(c: Copy, disk: Disk): Option<string> {
    if disk.readBody && c.body.Some? && disk.readTag then c.tag else None
  }

  function Write<T>(file: Option<T>, content: T, outcome: Outcome<T>): Option<T> {
    match outcome
    case Done => Some(content)
    case Kept => file
    case Torn(left) => Some(left)
  }

  /** The tag file after a fetch: rewritten, or removed when the page has no tag. */
  function WriteTag(file: Option<string>, tag: Option<string>, outcome: Outcome<string>): Option<string> {
    if tag.Some? then Write(file, tag.value, outcome) else if outcome.Done? then None else file
  }

  function AnswerTo(c: Copy, v: Visit): Answer {
    match ReplyTo(v, SentTag(c, v.disk))
    case Fetched(page) => Got(page.bytes)
    case _ => if v.disk.readBody && c.body.Some? then Got(c.body.value) else Error
  }

  function After(c: Copy, v: Visit): Copy {
    match ReplyTo(v, SentTag(c, v.disk))
    case Fetched(page) => Copy(Write(c.body, page.bytes, v.disk.body), WriteTag(c.tag, page.tag, v.disk.tag))
    case _ => c
  }

  class HttpCache {
    var bodyFile: Option<Bytes>
    var tagFile: Option<string>

    constructor ()
      ensures Files() == Copy(None, None)
    {
      bodyFile, tagFile := None, None;
    }

    function Files(): Copy
      reads this
    {
      Copy(bodyFile, tagFile)
    }

    method CachedGet(v: Visit) returns (answer: Answer)
      modifies this
      ensures Files() == After(old(Files()), v)
      ensures answer == AnswerTo(old(Files()), v)
    {
      var cachedBody := if v.disk.readBody then bodyFile else None;
      var cachedTag := if v.disk.readTag then tagFile else None;
      var sent := if cachedBody.Some? then cachedTag else None;
      var reply := ReplyTo(v, sent);
      match reply
      case NotModified =>
        // A tag was only sent with a cached body.
        answer := Got(cachedBody.value);
      case Fetched(page) =>
        match v.disk.body {
          case Done => bodyFile := Some(page.bytes);
          case Kept =>
          case Torn(left) => bodyFile := Some(left);
        }
        if page.tag.Some? {
          match v.disk.tag {
            case Done => tagFile := page.tag;
            case Kept =>
            case Torn(left) => tagFile := Some(left);
          }
        } else if v.disk.tag.Done? {
          tagFile := None;
        }
        answer := Got(page.bytes);
      case Failed =>
        answer := if cachedBody.Some? then Got(cachedBody.value) else Error;
    }
  }

  // ----- Whole runs

  function AfterAll(c: Copy, visits: seq<Visit>): Copy {
    if |visits| == 0 then c else After(AfterAll(c, visits[..|visits| - 1]), visits[|visits| - 1])
  }

  /** The content of the last visit that reached the server, or what was there before. */
  function LastFetched(before: Option<Bytes>, visits: seq<Visit>): Option<Bytes> {
    if |visits| == 0 then before
    else
      var last := visits[|visits| - 1].server;
      if last.Up? then Some(last.page.bytes) else LastFetched(before, visits[..|visits| - 1])
  }

  /** The tag on disk, if any, is the tag of the body on disk. */
  predicate Faithful(means: string -> Bytes, c: Copy) {
    c.body.Some? && c.tag.Some? ==> c.body.value == means(Opaque(c.tag.value))
  }

  predicate Clean(means: string -> Bytes, visits: seq<Visit>) {
    forall i :: 0 <= i < |visits| ==> Lawful(means, visits[i].server) && visits[i].disk == HEALTHY
  }

  /** While the disk works, the cache holds the content last fetched, under its own tag. */
  lemma {:induction false} RunStaysFaithful(means: string -> Bytes, c: Copy, visits: seq<Visit>)
    requires Faithful(means, c) && Clean(means, visits)
    ensures Faithful(means, AfterAll(c, visits))
    ensures AfterAll(c, visits).body == LastFetched(c.body, visits)
  {
    if |visits| > 0 {
      var before := visits[..|visits| - 1];
      assert visits[|visits| - 1].disk == HEALTHY;
      RunStaysFaithful(means, c, before);
    }
  }

  /**
   * In every run with a working disk, a reachable server's current content is what a get returns;
   * out of reach, the last content fetched, and an error only if there is none.
   */
  lemma GetsAreCoherent(means: string -> Bytes, c: Copy, visits: seq<Visit>, k: nat)
    requires Faithful(means, c) && Clean(means, visits) && k < |visits|
    ensures AnswerTo(AfterAll(c, visits[..k]), visits[k])
            == match visits[k].server
               case Up(page) => Got(page.bytes)
               case Down =>
                 var last := LastFetched(c.body, visits[..k]);
                 if last.Some? then Got(last.value) else Error
  {
    RunStaysFaithful(means, c, visits[..k]);
    assert visits[k].disk == HEALTHY;
  }

  // ----- When the disk does not work

  /** Whatever the server holds and the disk does next, a reachable server's content is returned. */
  ghost predicate AlwaysCurrent(means: string -> Bytes, c: Copy) {
    forall v: Visit :: v.server.Up? && Lawful(means, v.server) ==> AnswerTo(c, v) == Got(v.server.page.bytes)
  }

  /** The exact condition on the two files. */
  lemma AlwaysCurrentIff(means: string -> Bytes, c: Copy)
    ensures AlwaysCurrent(means, c) <==> Faithful(means, c)
  {
    if AlwaysCurrent(means, c) && c.body.Some? && c.tag.Some? {
      var v := Visit(Up(Page(means(Opaque(c.tag.value)), c.tag)), true, HEALTHY);
      assert AnswerTo(c, v) == Got(v.server.page.bytes);
    }
  }

  /** The body on disk stayed, and yet the new tag does not lie about it. */
  predicate KeptBodyFits(c: Copy, page: Page) {
    page.tag.None? || c.body.None? || c.body.value == page.bytes
  }

  /** The tag on disk stayed, and yet it does not lie about the new body. */
  predicate KeptTagFits(means: string -> Bytes, c: Copy, page: Page) {
    c.tag.None? || means(Opaque(c.tag.value)) == page.bytes
  }

  /**
   * After a fetch over a sound cache, the cache is sound exactly if both files were written or
   * neither was, or the one that was not fits all the same. To write an untagged page's tag is to
   * remove the tag file.
   */
  lemma LostWriteIff(means: string -> Bytes, c: Copy, v: Visit)
    requires Faithful(means, c) && Lawful(means, v.server)
    requires ReplyTo(v, SentTag(c, v.disk)).Fetched?
    requires !v.disk.body.Torn? && !v.disk.tag.Torn?
    ensures var page := v.server.page;
            AlwaysCurrent(means, After(c, v)) <==>
              || (v.disk.body.Done? <==> v.disk.tag.Done?)
              || (v.disk.body.Kept? && KeptBodyFits(c, page))
              || (v.disk.tag.Kept? && KeptTagFits(means, c, page))
  {
    AlwaysCurrentIff(means, After(c, v));
  }

  /** What a truncated body file does: it is sound exactly if it is not taken for tagged content. */
  lemma TornBodyIff(means: string -> Bytes, c: Copy, v: Visit)
    requires Faithful(means, c) && Lawful(means, v.server)
    requires ReplyTo(v, SentTag(c, v.disk)).Fetched?
    requires v.disk.body.Torn? && !v.disk.tag.Torn?
    ensures var page, left := v.server.page, v.disk.body.left;
            AlwaysCurrent(means, After(c, v)) <==>
              if v.disk.tag.Done? then page.tag.None? || left == page.bytes
              else c.tag.None? || left == means(Opaque(c.tag.value))
  {
    AlwaysCurrentIff(means, After(c, v));
  }

  /** A truncated tag file: sound exactly if what is left of the tag happens to stand for the body on disk. */
  lemma TornTagIff(means: string -> Bytes, c: Copy, v: Visit)
    requires ReplyTo(v, SentTag(c, v.disk)).Fetched?
    requires v.disk.tag.Torn? && v.server.page.tag.Some?
    ensures var body := Write(c.body, v.server.page.bytes, v.disk.body);
            AlwaysCurrent(means, After(c, v)) <==> body.None? || body.value == means(Opaque(v.disk.tag.left))
  {
    AlwaysCurrentIff(means, After(c, v));
  }

  /** The stale answer itself: the body write is lost, the tag is written, the next get is current no more. */
  lemma StaleAfterLostBody(means: string -> Bytes, previous: Page, current: Page)
    requires Lawful(means, Up(previous)) && Lawful(means, Up(current))
    requires previous.tag.Some? && current.tag.Some? && previous.bytes != current.bytes
    ensures var lost := Visit(Up(current), true, HEALTHY.(body := Kept));
            var later := Visit(Up(current), true, HEALTHY);
            AnswerTo(AfterAll(Copy(None, None), [Visit(Up(previous), true, HEALTHY), lost]), later) == Got(previous.bytes)
  {
    var first := Visit(Up(previous), true, HEALTHY);
    var lost := Visit(Up(current), true, HEALTHY.(body := Kept));
    var run := [first, lost];
    assert run[..1] == [first] && run[..1][..0] == [];
    assert AfterAll(Copy(None, None), [first]) == Copy(Some(previous.bytes), previous.tag) by {
      assert AfterAll(Copy(None, None), []) == Copy(None, None);
    }
  }
}
