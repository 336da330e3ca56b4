/**
  Sentence ranges: the splitter of the fake engine, the target ranges it derives, and the
  conversion from byte offsets to code points with which the daemon reports them.
 */
module Sentences {
  import opened Engine
  import opened Limits
  import opened Options
  import opened Text

  const U32: nat := 0x1_0000_0000

  // ----- Byte offsets of characters

  /** Byte offset of the character at index `k`. */
  function Off(text: string, k: nat): nat
    requires k <= |text|
  {
    if k == 0 then 0 else Off(text, k - 1) + CharLen(text[k - 1])
  }

  lemma {:induction false} OffIsBytes(text: string, k: nat)
    requires k <= |text|
    ensures Off(text, k) == ByteLen(text[..k])
  {
    if k > 0 {
      OffIsBytes(text, k - 1);
      assert text[..k][..k - 1] == text[..k - 1];
    }
  }

  lemma {:induction false} AllBytes(text: string)
    ensures Off(text, |text|) == ByteLen(text)
  {
    OffIsBytes(text, |text|);
    assert text[..|text|] == text;
  }

  lemma {:induction false} OffIncreases(text: string, i: nat, j: nat)
    requires i <= j <= |text|
    ensures Off(text, i) + (j - i) <= Off(text, j)
  {
    if i < j {
      OffIncreases(text, i, j - 1);
    }
  }

  lemma {:induction false} OffOrder(text: string, i: nat, j: nat)
    requires i <= |text| && j <= |text|
    ensures Off(text, i) < Off(text, j) <==> i < j
    ensures Off(text, i) == Off(text, j) <==> i == j
  {
    OffIncreases(text, if i < j then i else j, if i < j then j else i);
  }

  predicate BeginsAt(text: string, k: nat, byte: nat) {
    k <= |text| && Off(text, k) == byte
  }

  predicate IsBoundary(text: string, byte: nat) {
    exists k | 0 <= k <= |text| :: BeginsAt(text, k, byte)
  }

  /** The last of the first `n` boundaries that is not after byte offset `byte`. */
  function LastUpTo(text: string, n: nat, byte: nat): (k: nat)
    requires n <= |text|
    ensures k <= n
  {
    if n == 0 || Off(text, n) <= byte then n else LastUpTo(text, n - 1, byte)
  }

  /** Characters that lie wholly before byte offset `byte`. */
  function Before(text: string, byte: nat): (k: nat)
    ensures k <= |text|
  {
    LastUpTo(text, |text|, byte)
  }

  lemma {:induction false} LastUpToIs(text: string, n: nat, byte: nat)
    requires n <= |text|
    ensures Off(text, LastUpTo(text, n, byte)) <= byte
    ensures LastUpTo(text, n, byte) < n ==> byte < Off(text, LastUpTo(text, n, byte) + 1)
  {
    if n > 0 && Off(text, n) > byte {
      LastUpToIs(text, n - 1, byte);
    }
  }

  /** `Before` is the last character boundary not after the offset. */
  lemma {:induction false} BeforeIsLast(text: string, byte: nat)
    ensures Off(text, Before(text, byte)) <= byte
    ensures Before(text, byte) < |text| ==> byte < Off(text, Before(text, byte) + 1)
  {
    LastUpToIs(text, |text|, byte);
  }

  lemma {:induction false} BeforeExact(text: string, k: nat)
    requires k <= |text|
    ensures Before(text, Off(text, k)) == k
  {
    var b := Before(text, Off(text, k));
    BeforeIsLast(text, Off(text, k));
    OffOrder(text, b, k);
    if b < k {
      OffIncreases(text, b + 1, k);
    }
  }

  lemma {:induction false} BeforeMonotone(text: string, a: nat, b: nat)
    requires a <= b
    ensures Before(text, a) <= Before(text, b)
  {
    var x, y := Before(text, a), Before(text, b);
    BeforeIsLast(text, a);
    BeforeIsLast(text, b);
    if y < x {
      OffIncreases(text, y + 1, x);
    }
  }

  // ----- Code points

  /** Past the end there is nothing more. */
  lemma {:induction false} BeforeClipped(text: string, byte: nat)
    ensures Before(text, if byte <= ByteLen(text) then byte else ByteLen(text)) == Before(text, byte)
  {
    AllBytes(text);
    BeforeExact(text, |text|);
    if byte > ByteLen(text) {
      BeforeIsLast(text, byte);
      OffIncreases(text, if Before(text, byte) < |text| then Before(text, byte) + 1 else |text|, |text|);
    }
  }

  /** Steps back to a character boundary and counts the characters before it, in 32 bits. */
  method CodePoints(text: string, byte: nat) returns (count: nat)
    ensures count == Before(text, byte) % U32
  {
    var clipped := if byte <= ByteLen(text) then byte else ByteLen(text);
    AllBytes(text);
    BeforeClipped(text, byte);
    BeforeIsLast(text, clipped);
    assert BeginsAt(text, Before(text, byte), Off(text, Before(text, byte)));
    var boundary := clipped;
    while !IsBoundary(text, boundary)
      invariant Off(text, Before(text, byte)) <= boundary <= clipped
      decreases boundary
    {
      boundary := boundary - 1;
    }
    ghost var k :| 0 <= k <= |text| && BeginsAt(text, k, boundary);
    BeforeExact(text, k);
    BeforeMonotone(text, boundary, clipped);
    OffOrder(text, Before(text, byte), k);
    count := Before(text, boundary) % U32;
  }

  /** The 32-bit count is the true count at every offset exactly when the text is short enough. */
  lemma {:induction false} CountExactIff(text: string)
    ensures (forall byte: nat :: Before(text, byte) % U32 == Before(text, byte)) <==> |text| < 0x1_0000_0000
  {
    BeforeExact(text, |text|);
    if forall byte: nat :: Before(text, byte) % U32 == Before(text, byte) {
      assert Before(text, Off(text, |text|)) % U32 == |text|;
    }
  }

  lemma {:induction false} CharactersFitBytes(text: string)
    ensures |text| <= ByteLen(text)
  {
    AllBytes(text);
    OffIncreases(text, 0, |text|);
  }

  /** In a text within the limit of a request every count is exact, whatever the offset. */
  lemma {:induction false} RequestCountsExact(text: string, byte: nat)
    requires ByteLen(text) <= MAX_TOTAL_BYTES
    ensures Before(text, byte) % U32 == Before(text, byte) <= byte
  {
    CharactersFitBytes(text);
    BeforeIsLast(text, byte);
    OffIncreases(text, 0, Before(text, byte));
  }

  // ----- What a sentence is

  /** A full stop and its kin before white space or the end. */
  predicate Ends(text: string, k: nat)
    requires k < |text|
  {
    text[k] in ".!?" && (k + 1 == |text| || IsSpace(text[k + 1]))
  }

  ghost predicate Blank(text: string, from: nat, to_: nat)
    requires from <= to_ <= |text|
  {
    forall k :: from <= k < to_ ==> IsSpace(text[k])
  }

  ghost predicate Unbroken(text: string, from: nat, to_: nat)
    requires from <= to_ <= |text|
  {
    forall k: nat :: from <= k < to_ ==> !Ends(text, k)
  }

  /** Only white space from `e` to `i`, and `e` is the beginning or follows the end of a sentence. */
  ghost predicate GapFrom(text: string, e: nat, i: nat)
    requires i <= |text|
  {
    e <= i && (e == 0 || Ends(text, e - 1)) && Blank(text, e, i)
  }

  ghost predicate AfterGap(text: string, i: nat)
    requires i <= |text|
  {
    exists e: nat :: GapFrom(text, e, i)
  }

  ghost predicate Begins(text: string, i: nat) {
    i < |text| && !IsSpace(text[i]) && AfterGap(text, i)
  }

  /**
   * From the first visible character after a gap to the next ending, or to the last visible
   * character when no ending follows.
   */
  ghost predicate IsPiece(text: string, i: nat, j: nat) {
    && Begins(text, i) && i < j <= |text| && Unbroken(text, i, j - 1)
    && (Ends(text, j - 1) || (!IsSpace(text[j - 1]) && Blank(text, j, |text|)))
  }

  ghost predicate IsSentence(alnum: char -> bool, text: string, i: nat, j: nat) {
    IsPiece(text, i, j) && exists k :: i <= k < j && alnum(text[k])
  }

  lemma SameBeginning(text: string, i: nat, other: nat, j: nat)
    requires Begins(text, i) && Begins(text, other) && i <= other < j <= |text|
    requires Unbroken(text, i, j - 1)
    ensures i == other
  {
    var e: nat :| GapFrom(text, e, other);
    assert e == 0 || Ends(text, e - 1);
    assert !(i <= e - 1 < j - 1);
    assert forall k :: e <= k < other ==> IsSpace(text[k]);
  }

  // ----- The splitter

  datatype Piece = Piece(first: nat, past: nat)

  predicate Fits(text: string, pieces: seq<Piece>) {
    forall n :: 0 <= n < |pieces| ==> pieces[n].first < pieces[n].past <= |text|
  }

  predicate Ordered(pieces: seq<Piece>) {
    forall n, m :: 0 <= n < m < |pieces| ==> pieces[n].past <= pieces[m].first
  }

  function Bytes(text: string, p: Piece): Span
    requires p.first <= |text| && p.past <= |text|
  {
    Span(Off(text, p.first), Off(text, p.past))
  }

  /** `pieces` lists exactly the pieces that end at an ending before `k`, in order. */
  ghost predicate Listed(text: string, k: nat, pieces: seq<Piece>)
    requires k <= |text|
  {
    && Fits(text, pieces) && Ordered(pieces)
    && (forall n :: 0 <= n < |pieces| ==> pieces[n].past <= k && IsPiece(text, pieces[n].first, pieces[n].past))
    && (forall i, j :: 0 <= i < j <= k && IsPiece(text, i, j) && Ends(text, j - 1) ==> Piece(i, j) in pieces)
  }

  ghost predicate Inside(pieces: seq<Piece>, k: nat) {
    exists n :: 0 <= n < |pieces| && pieces[n].first <= k < pieces[n].past
  }

  /** Every visible character before `k` is in a listed piece. */
  ghost predicate Covered(text: string, k: nat, pieces: seq<Piece>)
    requires k <= |text|
  {
    forall m: nat {:trigger Inside(pieces, m)} :: m < k && !IsSpace(text[m]) ==> Inside(pieces, m)
  }

  /** Before character `k`, between pieces. */
  ghost predicate Between(text: string, k: nat, pieces: seq<Piece>)
    requires k <= |text|
  {
    AfterGap(text, k) && Listed(text, k, pieces) && Covered(text, k, pieces)
  }

  /** Before character `k`, in the piece that begins at `first`. */
  ghost predicate Within(text: string, k: nat, pieces: seq<Piece>, first: nat)
    requires k <= |text|
  {
    && first <= k && Begins(text, first) && Unbroken(text, first, k)
    && Listed(text, k, pieces) && Covered(text, first, pieces)
    && forall n :: 0 <= n < |pieces| ==> pieces[n].past <= first
  }

  lemma Opened(text: string, k: nat, pieces: seq<Piece>)
    requires k < |text| && Between(text, k, pieces) && !IsSpace(text[k])
    ensures Within(text, k, pieces, k)
  {
  }

  lemma StaysBetween(text: string, k: nat, pieces: seq<Piece>)
    requires k < |text| && Between(text, k, pieces) && IsSpace(text[k])
    ensures Between(text, k + 1, pieces)
  {
    var e: nat :| GapFrom(text, e, k);
    assert GapFrom(text, e, k + 1);
  }

  lemma StaysWithin(text: string, k: nat, pieces: seq<Piece>, first: nat)
    requires k < |text| && Within(text, k, pieces, first) && !Ends(text, k)
    ensures Within(text, k + 1, pieces, first)
  {
  }

  lemma InsideMore(pieces: seq<Piece>, p: Piece, k: nat)
    ensures Inside(pieces + [p], k) <==> Inside(pieces, k) || p.first <= k < p.past
  {
    var more := pieces + [p];
    if Inside(pieces, k) {
      var n :| 0 <= n < |pieces| && pieces[n].first <= k < pieces[n].past;
      assert more[n] == pieces[n];
    }
    assert more[|pieces|] == p;
  }

  /** Adding the piece `first..past` that was open at `k`. */
  lemma Extended(text: string, k: nat, pieces: seq<Piece>, first: nat, past: nat)
    requires k <= |text| && Within(text, k, pieces, first)
    requires k <= past <= |text| && IsPiece(text, first, past)
    requires forall i: nat, j: nat :: k < j <= past && IsPiece(text, i, j) && Ends(text, j - 1) ==> j == past
    ensures Listed(text, past, pieces + [Piece(first, past)])
    ensures Covered(text, past, pieces + [Piece(first, past)])
  {
    var p := Piece(first, past);
    forall i, j | 0 <= i < j <= past && IsPiece(text, i, j) && Ends(text, j - 1)
      ensures Piece(i, j) in pieces + [p]
    {
      if j > k {
        SameStart(text, i, first, past);
      }
    }
    forall m: nat | m < past && !IsSpace(text[m])
      ensures Inside(pieces + [p], m)
    {
      InsideMore(pieces, p, m);
    }
  }

  lemma SameStart(text: string, i: nat, other: nat, j: nat)
    requires IsPiece(text, i, j) && IsPiece(text, other, j)
    ensures i == other
  {
    if i <= other {
      SameBeginning(text, i, other, j);
    } else {
      SameBeginning(text, other, i, j);
    }
  }

  lemma Closed(text: string, k: nat, pieces: seq<Piece>, first: nat)
    requires k < |text| && Within(text, k, pieces, first) && Ends(text, k)
    ensures Between(text, k + 1, pieces + [Piece(first, k + 1)])
  {
    Extended(text, k, pieces, first, k + 1);
    assert GapFrom(text, k + 1, k + 1);
  }

  /** Nothing but the listed pieces once the text is used up between pieces. */
  lemma AllListed(text: string, pieces: seq<Piece>)
    requires Between(text, |text|, pieces)
    ensures forall i: nat, j: nat :: IsPiece(text, i, j) ==> Piece(i, j) in pieces
  {
    var e: nat :| GapFrom(text, e, |text|);
    assert e > 0 ==> !IsSpace(text[e - 1]);
    assert forall k: nat :: e <= k < |text| ==> IsSpace(text[k]);
    forall i: nat, j: nat | IsPiece(text, i, j)
      ensures Ends(text, j - 1)
    {
      assert e == 0 || Ends(text, e - 1);
    }
  }

  /** Length of the text without the white space at its end. */
  function Trimmed(text: string): (n: nat)
    ensures n <= |text|
    ensures n > 0 ==> !IsSpace(text[n - 1])
    ensures Blank(text, n, |text|)
  {
    if |text| == 0 then 0
    else if IsSpace(text[|text| - 1]) then
      var n := Trimmed(text[..|text| - 1]);
      assert forall k :: n <= k < |text| - 1 ==> text[k] == text[..|text| - 1][k];
      n
    else |text|
  }

  /** The piece still open at the end reaches to the last visible character. */
  lemma LastPiece(text: string, pieces: seq<Piece>, first: nat)
    requires Within(text, |text|, pieces, first)
    ensures first < Trimmed(text) && IsPiece(text, first, Trimmed(text))
    ensures var more := pieces + [Piece(first, Trimmed(text))];
            && Fits(text, more) && Ordered(more)
            && (forall n :: 0 <= n < |more| ==> IsPiece(text, more[n].first, more[n].past))
            && (forall i: nat, j: nat :: IsPiece(text, i, j) ==> Piece(i, j) in more)
            && Covered(text, |text|, more)
  {
    var n := Trimmed(text);
    var more := pieces + [Piece(first, n)];
    assert first < n;
    assert IsPiece(text, first, n);
    forall i: nat, j: nat | IsPiece(text, i, j)
      ensures Piece(i, j) in more
    {
      if !Ends(text, j - 1) {
        assert j == n;
        SameStart(text, i, first, n);
      }
    }
    forall m: nat | m < |text| && !IsSpace(text[m])
      ensures Inside(more, m)
    {
      InsideMore(pieces, Piece(first, n), m);
    }
  }

  /** Span by span the byte range of the piece. */
  ghost predicate SpansOf(text: string, pieces: seq<Piece>, spans: seq<Span>) {
    && Fits(text, pieces) && |spans| == |pieces|
    && forall n :: 0 <= n < |pieces| ==> spans[n] == Bytes(text, pieces[n])
  }

  lemma SpansMore(text: string, pieces: seq<Piece>, spans: seq<Span>, p: Piece, span: Span)
    requires SpansOf(text, pieces, spans)
    requires p.first < p.past <= |text| && span == Bytes(text, p)
    ensures SpansOf(text, pieces + [p], spans + [span])
  {
  }

  /** The splitter's first loop: all pieces, the last one possibly without an ending. */
  method Pieces(text: string) returns (spans: seq<Span>, ghost pieces: seq<Piece>)
    ensures Fits(text, pieces) && Ordered(pieces)
    ensures forall n :: 0 <= n < |pieces| ==> IsPiece(text, pieces[n].first, pieces[n].past)
    ensures forall i: nat, j: nat :: IsPiece(text, i, j) ==> Piece(i, j) in pieces
    ensures Covered(text, |text|, pieces)
    ensures SpansOf(text, pieces, spans) && Increasing(spans)
    ensures forall i: nat, j: nat :: IsPiece(text, i, j) ==> Bytes(text, Piece(i, j)) in spans
  {
    spans, pieces := [], [];
    var open := false;
    var start, at: nat := 0, 0;
    ghost var first: nat := 0;
    assert GapFrom(text, 0, 0);
    for k := 0 to |text|
      invariant at == Off(text, k)
      invariant open ==> Within(text, k, pieces, first) && start == Off(text, first)
      invariant !open ==> Between(text, k, pieces)
      invariant SpansOf(text, pieces, spans)
    {
      var c := text[k];
      if !open && !IsSpace(c) {
        open, start, first := true, at, k;
        Opened(text, k, pieces);
      }
      if Ends(text, k) {
        if open {
          Closed(text, k, pieces, first);
          SpansMore(text, pieces, spans, Piece(first, k + 1), Span(start, at + CharLen(c)));
          spans := spans + [Span(start, at + CharLen(c))];
          pieces := pieces + [Piece(first, k + 1)];
          open := false;
        }
      } else if open {
        StaysWithin(text, k, pieces, first);
      } else {
        StaysBetween(text, k, pieces);
      }
      at := at + CharLen(c);
    }
    if open {
      LastPiece(text, pieces, first);
      OffIsBytes(text, Trimmed(text));
      SpansMore(text, pieces, spans, Piece(first, Trimmed(text)), Span(start, ByteLen(text[..Trimmed(text)])));
      spans := spans + [Span(start, ByteLen(text[..Trimmed(text)]))];
      pieces := pieces + [Piece(first, Trimmed(text))];
    } else {
      AllListed(text, pieces);
    }
    SpansIncrease(text, pieces, spans);
    forall i: nat, j: nat | IsPiece(text, i, j)
      ensures Bytes(text, Piece(i, j)) in spans
    {
      var n :| 0 <= n < |pieces| && pieces[n] == Piece(i, j);
      assert spans[n] == Bytes(text, pieces[n]);
    }
  }

  // ----- Keeping the sentences

  /** The text in a byte range. */
  function Slice(text: string, span: Span): string
    requires span.start <= span.end
  {
    BeforeMonotone(text, span.start, span.end);
    text[Before(text, span.start)..Before(text, span.end)]
  }

  lemma {:induction false} SliceBytes(text: string, p: Piece)
    requires p.first <= p.past <= |text|
    ensures Bytes(text, p).start <= Bytes(text, p).end
    ensures Slice(text, Bytes(text, p)) == text[p.first..p.past]
  {
    OffIncreases(text, p.first, p.past);
    BeforeExact(text, p.first);
    BeforeExact(text, p.past);
  }

  predicate AnyAlnum(alnum: char -> bool, text: string) {
    exists k :: 0 <= k < |text| && alnum(text[k])
  }

  /** The byte range of a sentence. */
  ghost predicate IsSentenceSpan(alnum: char -> bool, text: string, span: Span) {
    exists i: nat, j: nat :: IsSentence(alnum, text, i, j) && span == Bytes(text, Piece(i, j))
  }

  /** Not empty, increasing and disjoint. */
  ghost predicate Increasing(spans: seq<Span>) {
    && (forall n :: 0 <= n < |spans| ==> spans[n].start < spans[n].end)
    && forall n, m :: 0 <= n < m < |spans| ==> spans[n].end <= spans[m].start
  }

  predicate Contains(span: Span, byte: nat) {
    span.start <= byte < span.end
  }

  ghost predicate OnlyAt(spans: seq<Span>, n: nat, byte: nat) {
    && n < |spans| && Contains(spans[n], byte)
    && forall m :: 0 <= m < |spans| && Contains(spans[m], byte) ==> m == n
  }

  ghost predicate InOne(spans: seq<Span>, byte: nat) {
    exists n: nat :: OnlyAt(spans, n, byte)
  }

  /** The sentences of a text, all of them, in order. */
  ghost predicate AreSentences(alnum: char -> bool, text: string, spans: seq<Span>) {
    && Increasing(spans)
    && (forall n {:trigger IsSentenceSpan(alnum, text, spans[n])} :: 0 <= n < |spans| ==> IsSentenceSpan(alnum, text, spans[n]))
    && forall i: nat, j: nat :: IsSentence(alnum, text, i, j) ==> Bytes(text, Piece(i, j)) in spans
  }

  lemma {:induction false} SpansIncrease(text: string, pieces: seq<Piece>, spans: seq<Span>)
    requires SpansOf(text, pieces, spans) && Ordered(pieces)
    ensures Increasing(spans)
  {
    forall n | 0 <= n < |spans|
      ensures spans[n].start < spans[n].end
    {
      OffIncreases(text, pieces[n].first, pieces[n].past);
    }
    forall n, m | 0 <= n < m < |spans|
      ensures spans[n].end <= spans[m].start
    {
      OffIncreases(text, pieces[n].past, pieces[m].first);
    }
  }

  /** The splitter's `retain`: the ranges with a letter or digit, in the order they were. */
  method Retain(alnum: char -> bool, text: string, spans: seq<Span>) returns (kept: seq<Span>)
    requires Increasing(spans)
    ensures Increasing(kept)
    ensures forall m :: 0 <= m < |kept| ==> kept[m] in spans && AnyAlnum(alnum, Slice(text, kept[m]))
    ensures forall n :: 0 <= n < |spans| && AnyAlnum(alnum, Slice(text, spans[n])) ==> spans[n] in kept
  {
    kept := [];
    for n := 0 to |spans|
      invariant Increasing(kept)
      invariant forall m :: 0 <= m < |kept| ==> kept[m] in spans && AnyAlnum(alnum, Slice(text, kept[m]))
      invariant forall m :: 0 <= m < |kept| && n < |spans| ==> kept[m].end <= spans[n].start
      invariant forall m :: 0 <= m < n && AnyAlnum(alnum, Slice(text, spans[m])) ==> spans[m] in kept
    {
      if AnyAlnum(alnum, Slice(text, spans[n])) {
        kept := kept + [spans[n]];
      }
    }
  }

  /** Splits into sentences and drops those without a letter or digit. */
  method SplitSentences(alnum: char -> bool, text: string) returns (sentences: seq<Span>)
    ensures AreSentences(alnum, text, sentences)
    ensures forall k: nat :: k < |text| && alnum(text[k]) && !IsSpace(text[k]) ==> InOne(sentences, Off(text, k))
  {
    var spans;
    ghost var pieces;
    spans, pieces := Pieces(text);
    sentences := Retain(alnum, text, spans);
    forall m | 0 <= m < |sentences|
      ensures IsSentenceSpan(alnum, text, sentences[m])
    {
      var n :| 0 <= n < |spans| && spans[n] == sentences[m];
      SpanByLetter(alnum, text, pieces, spans, n);
    }
    forall i: nat, j: nat | IsSentence(alnum, text, i, j)
      ensures Bytes(text, Piece(i, j)) in sentences
    {
      assert Piece(i, j) in pieces;
      var n :| 0 <= n < |pieces| && pieces[n] == Piece(i, j);
      SpanByLetter(alnum, text, pieces, spans, n);
    }
    forall k: nat | k < |text| && alnum(text[k]) && !IsSpace(text[k])
      ensures InOne(sentences, Off(text, k))
    {
      assert Inside(pieces, k);
      var n :| 0 <= n < |pieces| && pieces[n].first <= k < pieces[n].past;
      assert IsSentence(alnum, text, pieces[n].first, pieces[n].past);
      LetterInOne(text, pieces[n], sentences, k);
    }
  }

  /** The one kept range that holds a letter. */
  lemma {:induction false} LetterInOne(text: string, p: Piece, kept: seq<Span>, k: nat)
    requires p.first <= k < p.past <= |text|
    requires Increasing(kept) && Bytes(text, p) in kept
    ensures InOne(kept, Off(text, k))
  {
    OffIncreases(text, p.first, k);
    OffIncreases(text, k, k + 1);
    OffIncreases(text, k + 1, p.past);
    var m :| 0 <= m < |kept| && kept[m] == Bytes(text, p);
    OnlyOne(kept, m, Off(text, k));
  }

  lemma OnlyOne(spans: seq<Span>, m: nat, byte: nat)
    requires Increasing(spans) && m < |spans| && Contains(spans[m], byte)
    ensures InOne(spans, byte)
  {
    forall other | 0 <= other < |spans| && Contains(spans[other], byte)
      ensures other == m
    {
    }
    assert OnlyAt(spans, m, byte);
  }

  lemma SpanByLetter(alnum: char -> bool, text: string, pieces: seq<Piece>, spans: seq<Span>, n: nat)
    requires SpansOf(text, pieces, spans) && n < |spans| && IsPiece(text, pieces[n].first, pieces[n].past)
    ensures spans[n].start <= spans[n].end
    ensures AnyAlnum(alnum, Slice(text, spans[n])) <==> IsSentence(alnum, text, pieces[n].first, pieces[n].past)
    ensures AnyAlnum(alnum, Slice(text, spans[n])) ==> IsSentenceSpan(alnum, text, spans[n])
  {
    SliceBytes(text, pieces[n]);
    SentenceByLetter(alnum, text, pieces[n].first, pieces[n].past);
  }

  lemma SentenceByLetter(alnum: char -> bool, text: string, i: nat, j: nat)
    requires IsPiece(text, i, j)
    ensures AnyAlnum(alnum, text[i..j]) <==> IsSentence(alnum, text, i, j)
  {
    if AnyAlnum(alnum, text[i..j]) {
      var k :| 0 <= k < |text[i..j]| && alnum(text[i..j][k]);
      assert alnum(text[i + k]);
    }
    if IsSentence(alnum, text, i, j) {
      var k :| i <= k < j && alnum(text[k]);
      assert alnum(text[i..j][k - i]);
    }
  }

  // ----- Target ranges

  /** The output is the input behind a prefix: ranges move by it, and the first one takes it in. */
  function Targets(prefix: string, sentences: seq<Span>): (r: seq<SentencePair>)
    ensures |r| == |sentences|
  {
    var shift := ByteLen(prefix);
    seq(|sentences|, n requires 0 <= n < |sentences| =>
      SentencePair(sentences[n], Span(if n == 0 then 0 else sentences[n].start + shift, sentences[n].end + shift)))
  }

  method FakeTranslate(alnum: char -> bool, prefix: string, segment: string) returns (t: Translation)
    ensures t.text == prefix + segment
    ensures exists sentences :: AreSentences(alnum, segment, sentences) && t.sentences == Targets(prefix, sentences)
  {
    var sentences := SplitSentences(alnum, segment);
    t := Translation(prefix + segment, Targets(prefix, sentences));
  }

  lemma {:induction false} OffInPrefix(prefix: string, whole: string, k: nat)
    requires prefix <= whole && k <= |prefix|
    ensures Off(whole, k) == Off(prefix, k)
  {
    if k > 0 {
      OffInPrefix(prefix, whole, k - 1);
    }
  }

  lemma {:induction false} OffBehind(prefix: string, text: string, whole: string, k: nat)
    requires whole == prefix + text && k <= |text|
    ensures Off(whole, |prefix| + k) == ByteLen(prefix) + Off(text, k)
  {
    if k == 0 {
      OffInPrefix(prefix, whole, |prefix|);
      AllBytes(prefix);
    } else {
      OffBehind(prefix, text, whole, k - 1);
    }
  }

  lemma {:induction false} Behind(prefix: string, text: string, whole: string, k: nat, byte: nat)
    requires whole == prefix + text && k <= |text| && byte == ByteLen(prefix) + Off(text, k)
    ensures Before(whole, byte) == |prefix| + k && IsBoundary(whole, byte)
  {
    OffBehind(prefix, text, whole, k);
    assert Off(whole, |prefix| + k) == byte;
    BeforeExact(whole, |prefix| + k);
    assert BeginsAt(whole, |prefix| + k, byte);
  }

  lemma {:induction false} AtStart(text: string)
    ensures Before(text, 0) == 0 && IsBoundary(text, 0)
  {
    assert BeginsAt(text, 0, 0);
    BeforeExact(text, 0);
  }

  lemma SameText(prefix: string, text: string, whole: string, p: Piece)
    requires whole == prefix + text && p.first <= p.past <= |text|
    ensures whole[|prefix| + p.first..|prefix| + p.past] == text[p.first..p.past]
    ensures whole[..|prefix| + p.past] == prefix + text[..p.past]
  {
  }

  lemma {:induction false} SliceAt(text: string, span: Span, i: nat, j: nat)
    requires span.start <= span.end && Before(text, span.start) == i && Before(text, span.end) == j
    ensures i <= j <= |text| && Slice(text, span) == text[i..j]
  {
    BeforeMonotone(text, span.start, span.end);
  }

  /** Where a piece lies in the source. */
  lemma {:induction false} SourcePlaces(text: string, p: Piece, source: Span)
    requires p.first <= p.past <= |text| && source == Bytes(text, p)
    ensures source.start <= source.end
    ensures Before(text, source.start) == p.first && Before(text, source.end) == p.past
    ensures Slice(text, source) == text[p.first..p.past]
  {
    OffIncreases(text, p.first, p.past);
    BeforeExact(text, p.first);
    BeforeExact(text, p.past);
    SliceAt(text, source, p.first, p.past);
  }

  /** The first target range: the prefix and the text up to the end of the piece. */
  lemma {:induction false} FirstTarget(text: string, prefix: string, whole: string, p: Piece, target: Span)
    requires whole == prefix + text && p.first <= p.past <= |text|
    requires target == Span(0, Off(text, p.past) + ByteLen(prefix))
    ensures IsBoundary(whole, target.start) && IsBoundary(whole, target.end)
    ensures Before(whole, target.start) == 0 && Before(whole, target.end) == |prefix| + p.past
    ensures Slice(whole, target) == whole[..|prefix| + p.past] == prefix + text[..p.past]
  {
    AtStart(whole);
    Behind(prefix, text, whole, p.past, target.end);
    SliceAt(whole, target, 0, |prefix| + p.past);
    SameText(prefix, text, whole, p);
  }

  /** Any other target range: the text of the piece. */
  lemma {:induction false} LaterText(text: string, prefix: string, whole: string, p: Piece, target: Span)
    requires whole == prefix + text && p.first <= p.past <= |text| && target.start <= target.end
    requires Before(whole, target.start) == |prefix| + p.first && Before(whole, target.end) == |prefix| + p.past
    ensures Slice(whole, target) == whole[|prefix| + p.first..|prefix| + p.past] == text[p.first..p.past]
  {
    SliceAt(whole, target, |prefix| + p.first, |prefix| + p.past);
    SameText(prefix, text, whole, p);
  }

  lemma {:induction false} LaterPlaces(text: string, prefix: string, whole: string, p: Piece, target: Span)
    requires whole == prefix + text && p.first <= p.past <= |text|
    requires target == Span(Off(text, p.first) + ByteLen(prefix), Off(text, p.past) + ByteLen(prefix))
    ensures target.start <= target.end
    ensures IsBoundary(whole, target.start) && IsBoundary(whole, target.end)
    ensures Before(whole, target.start) == |prefix| + p.first && Before(whole, target.end) == |prefix| + p.past
  {
    OffIncreases(text, p.first, p.past);
    Behind(prefix, text, whole, p.first, target.start);
    Behind(prefix, text, whole, p.past, target.end);
  }

  /**
   * Every target range lies on character boundaries; after the first it selects the text of its
   * source range, and the first selects the prefix and everything up to the end of its sentence.
   */
  lemma {:induction false} TargetsSelect(alnum: char -> bool, prefix: string, text: string, whole: string, sentences: seq<Span>, n: nat)
    requires n < |sentences| && IsSentenceSpan(alnum, text, sentences[n]) && whole == prefix + text
    ensures var p := Targets(prefix, sentences)[n];
            && p.source == sentences[n] && p.source.start <= p.source.end && p.target.start <= p.target.end
            && IsBoundary(whole, p.target.start) && IsBoundary(whole, p.target.end)
            && (n > 0 ==> Slice(whole, p.target) == Slice(text, p.source))
            && (n == 0 ==> Slice(whole, p.target) == prefix + text[..Before(text, p.source.end)])
  {
    var i: nat, j: nat :| IsSentence(alnum, text, i, j) && sentences[n] == Bytes(text, Piece(i, j));
    var p := Targets(prefix, sentences)[n];
    SourcePlaces(text, Piece(i, j), p.source);
    if n == 0 {
      FirstTarget(text, prefix, whole, Piece(i, j), p.target);
    } else {
      LaterPlaces(text, prefix, whole, Piece(i, j), p.target);
      LaterText(text, prefix, whole, Piece(i, j), p.target);
    }
  }

  /** Target ranges are increasing and disjoint as well. */
  lemma TargetsIncrease(prefix: string, sentences: seq<Span>)
    requires Increasing(sentences)
    ensures Increasing(seq(|sentences|, n requires 0 <= n < |sentences| => Targets(prefix, sentences)[n].target))
  {
  }

  // ----- Reported spans

  datatype Reported = Reported(sourceBegin: nat, sourceEnd: nat, targetBegin: nat, targetEnd: nat)

  /** Both ranges of a pair in characters. */
  function InCharacters(source: string, text: string, p: SentencePair): Reported {
    Reported(Before(source, p.source.start), Before(source, p.source.end),
             Before(text, p.target.start), Before(text, p.target.end))
  }

  function InWords(r: Reported): Reported {
    Reported(r.sourceBegin % U32, r.sourceEnd % U32, r.targetBegin % U32, r.targetEnd % U32)
  }

  method SentenceSpans(source: string, t: Translation) returns (spans: seq<Reported>)
    ensures |spans| == |t.sentences|
    ensures forall n :: 0 <= n < |spans| ==> spans[n] == InWords(InCharacters(source, t.text, t.sentences[n]))
    ensures |source| < U32 && |t.text| < U32 ==>
              forall n :: 0 <= n < |spans| ==> spans[n] == InCharacters(source, t.text, t.sentences[n])
  {
    spans := [];
    for n := 0 to |t.sentences|
      invariant |spans| == n
      invariant forall m :: 0 <= m < n ==> spans[m] == InWords(InCharacters(source, t.text, t.sentences[m]))
    {
      var p := t.sentences[n];
      var a := CodePoints(source, p.source.start);
      var b := CodePoints(source, p.source.end);
      var c := CodePoints(t.text, p.target.start);
      var d := CodePoints(t.text, p.target.end);
      spans := spans + [Reported(a, b, c, d)];
    }
  }

  /** Within the limits the counts in words are the counts. */
  lemma {:induction false} WordsAreExact(source: string, t: Translation, spans: seq<Reported>)
    requires |spans| == |t.sentences|
    requires forall n :: 0 <= n < |spans| ==> spans[n] == InWords(InCharacters(source, t.text, t.sentences[n]))
    ensures ByteLen(source) <= MAX_TOTAL_BYTES ==>
              forall n :: 0 <= n < |spans| ==> SourceExact(source, t.text, t.sentences[n], spans[n])
    ensures ByteLen(source) <= MAX_TOTAL_BYTES && |t.text| < U32 ==>
              forall n :: 0 <= n < |spans| ==> spans[n] == InCharacters(source, t.text, t.sentences[n])
  {
    if ByteLen(source) <= MAX_TOTAL_BYTES {
      forall n | 0 <= n < |spans|
        ensures SourceExact(source, t.text, t.sentences[n], spans[n])
      {
        RequestCountsExact(source, t.sentences[n].source.start);
        RequestCountsExact(source, t.sentences[n].source.end);
      }
    }
  }

  predicate SourceExact(source: string, text: string, p: SentencePair, r: Reported) {
    var exact := InCharacters(source, text, p);
    r.sourceBegin == exact.sourceBegin && r.sourceEnd == exact.sourceEnd
  }

  // ----- A whole request

  /** Bytes of all segments. */
  function TotalBytes(segments: seq<string>): nat {
    if |segments| == 0 then 0 else TotalBytes(segments[..|segments| - 1]) + ByteLen(segments[|segments| - 1])
  }

  lemma {:induction false} PartOfTotal(segments: seq<string>, i: nat)
    requires i < |segments|
    ensures ByteLen(segments[i]) <= TotalBytes(segments)
  {
    if i < |segments| - 1 {
      PartOfTotal(segments[..|segments| - 1], i);
    }
  }

  /**
   * The spans of a request: refused for too many segments, none at all or too many bytes, and
   * otherwise reported segment by segment. Source offsets are then always true counts; offsets in
   * a translation are for as long as it has fewer than 2^32 characters.
   */
  method RequestSpans(t: Translator, html: bool, segments: seq<string>) returns (spans: Option<seq<seq<Reported>>>)
    ensures spans.None? <==> |segments| == 0 || |segments| > 256 || TotalBytes(segments) > 0x10_0000
    ensures spans.Some? ==> |spans.value| == |segments|
    ensures spans.Some? ==> forall i :: 0 <= i < |segments| ==> ReportedFor(segments[i], t(segments[i], html), spans.value[i])
  {
    if |segments| == 0 || |segments| > MAX_SEGMENTS {
      return None;
    }
    var total := 0;
    for i := 0 to |segments|
      invariant total == TotalBytes(segments[..i])
    {
      assert segments[..i + 1][..i] == segments[..i];
      total := total + ByteLen(segments[i]);
    }
    assert segments[..|segments|] == segments;
    if total > MAX_TOTAL_BYTES {
      return None;
    }
    var reported: seq<seq<Reported>> := [];
    for i := 0 to |segments|
      invariant |reported| == i
      invariant forall k :: 0 <= k < i ==> ReportedFor(segments[k], t(segments[k], html), reported[k])
    {
      PartOfTotal(segments, i);
      var r := SentenceSpans(segments[i], t(segments[i], html));
      WordsAreExact(segments[i], t(segments[i], html), r);
      assert ReportedFor(segments[i], t(segments[i], html), r);
      reported := reported + [r];
    }
    return Some(reported);
  }

  /** One entry per sentence pair, exact on the source side, and on the other unless it is too long. */
  predicate ReportedFor(source: string, t: Translation, spans: seq<Reported>) {
    && |spans| == |t.sentences|
    && forall n :: 0 <= n < |spans| ==>
         && SourceExact(source, t.text, t.sentences[n], spans[n])
         && (|t.text| < U32 ==> spans[n] == InCharacters(source, t.text, t.sentences[n]))
  }

  /**
   * For any engine, however its ranges lie: what ends no later than another range begins is still
   * reported so, every range stays in order, and nothing exceeds the text.
   */
  lemma {:induction false} ReportKeepsOrder(source: string, text: string, a: SentencePair, b: SentencePair)
    requires a.source.start <= a.source.end <= b.source.start
    requires a.target.start <= a.target.end <= b.target.start
    ensures var x, y := InCharacters(source, text, a), InCharacters(source, text, b);
            && x.sourceBegin <= x.sourceEnd <= y.sourceBegin <= |source|
            && x.targetBegin <= x.targetEnd <= y.targetBegin <= |text|
  {
    BeforeMonotone(source, a.source.start, a.source.end);
    BeforeMonotone(source, a.source.end, b.source.start);
    BeforeMonotone(text, a.target.start, a.target.end);
    BeforeMonotone(text, a.target.end, b.target.start);
  }

  /**
   * What a client cuts out with the reported spans of the fake engine's output: a whole sentence
   * of the source, the same text in the translation, and for the first one the prefix before it.
   */
  lemma {:induction false} ReportSelects(alnum: char -> bool, prefix: string, text: string, whole: string, sentences: seq<Span>, n: nat)
    requires n < |sentences| && IsSentenceSpan(alnum, text, sentences[n]) && whole == prefix + text
    ensures var r := InCharacters(text, whole, Targets(prefix, sentences)[n]);
            && r.sourceBegin <= r.sourceEnd <= |text| && r.targetBegin <= r.targetEnd <= |whole|
            && IsSentence(alnum, text, r.sourceBegin, r.sourceEnd)
            && (n > 0 ==> whole[r.targetBegin..r.targetEnd] == text[r.sourceBegin..r.sourceEnd])
            && (n == 0 ==> whole[r.targetBegin..r.targetEnd] == prefix + text[..r.sourceEnd])
  {
    var i: nat, j: nat :| IsSentence(alnum, text, i, j) && sentences[n] == Bytes(text, Piece(i, j));
    var p := Targets(prefix, sentences)[n];
    SourcePlaces(text, Piece(i, j), p.source);
    if n == 0 {
      FirstTarget(text, prefix, whole, Piece(i, j), p.target);
    } else {
      LaterPlaces(text, prefix, whole, Piece(i, j), p.target);
      LaterText(text, prefix, whole, Piece(i, j), p.target);
    }
  }
}
