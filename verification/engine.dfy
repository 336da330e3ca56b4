/**
  The translation engine as the daemon sees it: one output per input segment, and an
  output that depends only on its own segment and on the HTML option. What a segment
  becomes is a parameter of every statement in this project.
 */
module Engine {

  /** A byte range `start..end`. */
  datatype Span = Span(start: nat, end: nat)

  datatype SentencePair = SentencePair(source: Span, target: Span)

  datatype Translation = Translation(text: string, sentences: seq<SentencePair>)

  type Translator = (string, bool) -> Translation

  /** One engine call: every segment on its own, in order. */
  function Each(t: Translator, html: bool, segments: seq<string>): (r: seq<Translation>)
    ensures |r| == |segments|
    ensures forall i :: 0 <= i < |r| ==> r[i] == t(segments[i], html)
  {
    seq(|segments|, i requires 0 <= i < |segments| => t(segments[i], html))
  }

  /** Two calls in a row give what one call on both parts gives. */
  lemma EachSplits(t: Translator, html: bool, a: seq<string>, b: seq<string>)
    ensures Each(t, html, a + b) == Each(t, html, a) + Each(t, html, b)
  {
    assert forall i :: 0 <= i < |a + b| ==>
      Each(t, html, a + b)[i] == (Each(t, html, a) + Each(t, html, b))[i];
  }
}

module Options {
  datatype Option<+T> = None | Some(value: T)
}

/** What the service accepts in one request. */
module Limits {
  const MAX_SEGMENTS: nat := 256
  const MAX_TOTAL_BYTES: nat := 0x10_0000
  const MAX_DOCUMENT_BYTES: nat := 0x400_0000
}
