/** Mozilla toolkit versions: parsing, printing and the padded order. */
module Versions {
  import opened Options
  import opened Text

  const U64: nat := 0x1_0000_0000_0000_0000

  /** One dot-separated part; without letters it sorts after any with letters. */
  datatype Part = Part(number: nat, isFinal: bool, alpha: string, preNumber: nat)

  type Version = seq<Part>

  datatype Ordering = Lt | Eq | Gt

  // ----- Parsing

  predicate IsDigit(c: char) {
    '0' <= c <= '9'
  }

  predicate IsLetter(c: char) {
    'A' <= c <= 'Z' || 'a' <= c <= 'z'
  }

  predicate AllDigits(s: string) {
    forall i :: 0 <= i < |s| ==> IsDigit(s[i])
  }

  /** The length of the leading run of digits. */
  function DigitRun(s: string): (n: nat)
    ensures n <= |s| && AllDigits(s[..n]) && (n < |s| ==> !IsDigit(s[n]))
  {
    if |s| > 0 && IsDigit(s[0]) then 1 + DigitRun(s[1..]) else 0
  }

  function LetterRun(s: string): (n: nat)
    ensures n <= |s| && (forall i :: 0 <= i < n ==> IsLetter(s[i])) && (n < |s| ==> !IsLetter(s[n]))
  {
    if |s| > 0 && IsLetter(s[0]) then 1 + LetterRun(s[1..]) else 0
  }

  function Value(digits: string): nat
    requires AllDigits(digits)
  {
    if |digits| == 0 then 0
    else 10 * Value(digits[..|digits| - 1]) + (digits[|digits| - 1] as int - '0' as int)
  }

  function ParseU64(digits: string): Option<nat>
    requires AllDigits(digits)
  {
    if Value(digits) < U64 then Some(Value(digits)) else None
  }

  /** The part made of a number, letters and an optional second number. */
  function PartOf(digits: string, letters: string, pre: string): Option<Part>
    requires AllDigits(digits)
  {
    if |digits| == 0 || !AllDigits(pre) || ParseU64(digits).None? then None
    else if |pre| == 0 then Some(Part(ParseU64(digits).value, |letters| == 0, letters, 0))
    else if ParseU64(pre).None? then None
    else Some(Part(ParseU64(digits).value, |letters| == 0, letters, ParseU64(pre).value))
  }

  function ParsePart(piece: string): Option<Part> {
    var d := DigitRun(piece);
    var a := LetterRun(piece[d..]);
    PartOf(piece[..d], piece[d..][..a], piece[d..][a..])
  }

  function ParseParts(pieces: seq<string>): Option<Version> {
    if |pieces| == 0 then Some([])
    else
      match (ParseParts(pieces[..|pieces| - 1]), ParsePart(pieces[|pieces| - 1]))
      case (Some(parts), Some(part)) => Some(parts + [part])
      case _ => None
  }

  /** `MozVersion::parse`. */
  function Parse(raw: string): Option<Version> {
    ParseParts(Split('.', raw))
  }

  method ParseVersion(raw: string) returns (version: Option<Version>)
    ensures version == Parse(raw)
  {
    var pieces, parts := Split('.', raw), [];
    for i := 0 to |pieces|
      invariant ParseParts(pieces[..i]) == Some(parts)
    {
      assert pieces[..i + 1][..i] == pieces[..i];
      match ParsePart(pieces[i])
      case None =>
        NoPartNoVersion(pieces, i + 1);
        return None;
      case Some(part) =>
        parts := parts + [part];
    }
    assert pieces[..|pieces|] == pieces;
    return Some(parts);
  }

  lemma {:induction false} NoPartNoVersion(pieces: seq<string>, n: nat)
    requires n <= |pieces| && ParseParts(pieces[..n]).None?
    ensures ParseParts(pieces).None?
    decreases |pieces|
  {
    if n < |pieces| {
      assert pieces[..|pieces| - 1][..n] == pieces[..n];
      NoPartNoVersion(pieces[..|pieces| - 1], n);
    } else {
      assert pieces[..n] == pieces;
    }
  }

  /** The parts a version can have. */
  predicate WellFormedPart(part: Part) {
    && part.number < U64 && part.preNumber < U64
    && (forall i :: 0 <= i < |part.alpha| ==> IsLetter(part.alpha[i]))
    && (part.isFinal <==> |part.alpha| == 0)
    && (part.isFinal ==> part.preNumber == 0)
  }

  predicate WellFormed(version: Version) {
    |version| > 0 && forall i :: 0 <= i < |version| ==> WellFormedPart(version[i])
  }

  lemma {:induction false} ParsedIsWellFormed(pieces: seq<string>)
    requires ParseParts(pieces).Some?
    ensures |ParseParts(pieces).value| == |pieces|
    ensures forall i :: 0 <= i < |pieces| ==> WellFormedPart(ParseParts(pieces).value[i])
  {
    if |pieces| > 0 {
      ParsedIsWellFormed(pieces[..|pieces| - 1]);
    }
  }

  // ----- Printing

  function Digits(n: nat): (s: string)
    ensures |s| > 0 && AllDigits(s)
  {
    var last := ['0' + (n % 10) as char];
    if n < 10 then last else Digits(n / 10) + last
  }

  lemma {:induction false} ValueOfDigits(n: nat)
    ensures Value(Digits(n)) == n
  {
    var s := Digits(n);
    if n < 10 {
      assert s[..0] == "";
    } else {
      ValueOfDigits(n / 10);
      assert s[..|s| - 1] == Digits(n / 10);
    }
  }

  function PrintPart(part: Part): string {
    Digits(part.number) + part.alpha + if part.preNumber == 0 then "" else Digits(part.preNumber)
  }

  function PrintParts(version: Version): (r: seq<string>)
    ensures |r| == |version|
    ensures forall i :: 0 <= i < |r| ==> r[i] == PrintPart(version[i])
  {
    seq(|version|, i requires 0 <= i < |version| => PrintPart(version[i]))
  }

  /** The canonical text of a version. */
  function Print(version: Version): string {
    Join('.', PrintParts(version))
  }

  lemma {:induction false} DigitRunOf(digits: string, rest: string)
    requires AllDigits(digits) && (|rest| > 0 ==> !IsDigit(rest[0]))
    ensures DigitRun(digits + rest) == |digits|
  {
    if |digits| == 0 {
      assert digits + rest == rest;
    } else {
      assert (digits + rest)[1..] == digits[1..] + rest;
      DigitRunOf(digits[1..], rest);
    }
  }

  lemma {:induction false} LetterRunOf(letters: string, rest: string)
    requires forall i :: 0 <= i < |letters| ==> IsLetter(letters[i])
    requires |rest| > 0 ==> !IsLetter(rest[0])
    ensures LetterRun(letters + rest) == |letters|
  {
    if |letters| == 0 {
      assert letters + rest == rest;
    } else {
      assert (letters + rest)[1..] == letters[1..] + rest;
      LetterRunOf(letters[1..], rest);
    }
  }

  /** The three runs of a part are found again. */
  lemma ParsePieces(digits: string, letters: string, pre: string)
    requires AllDigits(digits) && AllDigits(pre) && (forall i :: 0 <= i < |letters| ==> IsLetter(letters[i]))
    requires |letters| == 0 ==> |pre| == 0
    ensures ParsePart(digits + (letters + pre)) == PartOf(digits, letters, pre)
  {
    var rest := letters + pre;
    DigitRunOf(digits, rest);
    LetterRunOf(letters, pre);
    assert (digits + rest)[..|digits|] == digits && (digits + rest)[|digits|..] == rest;
    assert rest[..|letters|] == letters && rest[|letters|..] == pre;
  }

  /** Digits, then letters, then, only behind letters, digits again; both numbers fit in 64 bits. */
  predicate Shaped(digits: string, letters: string, pre: string) {
    && |digits| > 0 && (|letters| == 0 ==> |pre| == 0)
    && (forall i :: 0 <= i < |digits| ==> '0' <= digits[i] <= '9')
    && (forall i :: 0 <= i < |letters| ==> 'A' <= letters[i] <= 'Z' || 'a' <= letters[i] <= 'z')
    && (forall i :: 0 <= i < |pre| ==> '0' <= pre[i] <= '9')
    && AllDigits(digits) && Value(digits) < 0x1_0000_0000_0000_0000
    && AllDigits(pre) && Value(pre) < 0x1_0000_0000_0000_0000
  }

  /** A piece of this shape is read as it stands. */
  lemma ShapeParses(digits: string, letters: string, pre: string)
    requires Shaped(digits, letters, pre)
    ensures ParsePart(digits + (letters + pre)) == Some(Part(Value(digits), |letters| == 0, letters, Value(pre)))
  {
    ParsePieces(digits, letters, pre);
  }

  /** No other piece is accepted. */
  lemma ParsedHasShape(piece: string) returns (digits: string, letters: string, pre: string)
    requires ParsePart(piece).Some?
    ensures piece == digits + (letters + pre) && Shaped(digits, letters, pre)
  {
    var d := DigitRun(piece);
    var rest := piece[d..];
    var l := LetterRun(rest);
    digits, letters, pre := piece[..d], rest[..l], rest[l..];
  }

  lemma ParsePrintedPart(part: Part)
    requires WellFormedPart(part)
    ensures ParsePart(PrintPart(part)) == Some(part)
  {
    var digits, letters := Digits(part.number), part.alpha;
    var pre := if part.preNumber == 0 then "" else Digits(part.preNumber);
    assert PrintPart(part) == digits + (letters + pre);
    ParsePieces(digits, letters, pre);
    ValueOfDigits(part.number);
    ValueOfDigits(part.preNumber);
  }

  lemma {:induction false} ParseEach(pieces: seq<string>, parts: Version)
    requires |pieces| == |parts| && forall i :: 0 <= i < |parts| ==> ParsePart(pieces[i]) == Some(parts[i])
    ensures ParseParts(pieces) == Some(parts)
  {
    if |parts| > 0 {
      var last := |parts| - 1;
      ParseEach(pieces[..last], parts[..last]);
      assert parts == parts[..last] + [parts[last]];
    }
  }

  lemma NoDotInPart(part: Part)
    requires WellFormedPart(part)
    ensures '.' !in PrintPart(part)
  {
  }

  /** Parsing the canonical text of a version gives the version back. */
  lemma ParsePrinted(version: Version)
    requires WellFormed(version)
    ensures Parse(Print(version)) == Some(version)
  {
    forall i | 0 <= i < |version|
      ensures '.' !in PrintParts(version)[i] && ParsePart(PrintParts(version)[i]) == Some(version[i])
    {
      NoDotInPart(version[i]);
      ParsePrintedPart(version[i]);
    }
    SplitJoin('.', PrintParts(version));
    ParseEach(PrintParts(version), version);
  }

  /** Whatever parses is a version the canonical text of which parses to the same. */
  lemma PrintParsed(raw: string)
    requires Parse(raw).Some?
    ensures WellFormed(Parse(raw).value)
    ensures Parse(Print(Parse(raw).value)) == Parse(raw)
  {
    ParsedIsWellFormed(Split('.', raw));
    ParsePrinted(Parse(raw).value);
  }

  // ----- Order

  const ZERO := Part(0, true, "", 0)

  /** Missing trailing parts count as zero. */
  function At(v: Version, i: nat): Part {
    if i < |v| then v[i] else ZERO
  }

  predicate PartLess(a: Part, b: Part) {
    if a.number != b.number then a.number < b.number
    else if a.isFinal != b.isFinal then b.isFinal
    else if a.alpha != b.alpha then StringLess(a.alpha, b.alpha)
    else a.preNumber < b.preNumber
  }

  /** The versions agree in the first `n` parts. */
  predicate AgreeUpTo(a: Version, b: Version, n: nat) {
    forall i :: 0 <= i < n ==> At(a, i) == At(b, i)
  }

  predicate LessAt(a: Version, b: Version, i: nat) {
    AgreeUpTo(a, b, i) && PartLess(At(a, i), At(b, i))
  }

  /** The padded lexicographic order. */
  ghost predicate Less(a: Version, b: Version) {
    exists i: nat :: LessAt(a, b, i)
  }

  ghost predicate Same(a: Version, b: Version) {
    forall i: nat :: At(a, i) == At(b, i)
  }

  // ----- Which of two versions is the newer

  /** The first difference decides, and the other way round is excluded. */
  lemma DecidedAt(a: Version, b: Version, i: nat)
    requires AgreeUpTo(a, b, i) && PartLess(At(a, i), At(b, i))
    ensures Less(a, b) && !Less(b, a) && !Same(a, b)
  {
    assert LessAt(a, b, i);
    PartOrder(At(a, i), At(b, i), At(a, i));
    OneWay(b, a, i);
    OneWay(a, b, i);
  }

  /** A smaller number is an older version, whatever follows. */
  lemma NumberDecides(a: Version, b: Version, i: nat)
    requires AgreeUpTo(a, b, i) && At(a, i).number < At(b, i).number
    ensures Less(a, b) && !Less(b, a)
  {
    DecidedAt(a, b, i);
  }

  /** With equal numbers a part with letters is older than one without: a pre-release precedes its release. */
  lemma LettersPrecede(a: Version, b: Version, i: nat)
    requires AgreeUpTo(a, b, i) && At(a, i).number == At(b, i).number && !At(a, i).isFinal && At(b, i).isFinal
    ensures Less(a, b) && !Less(b, a)
  {
    DecidedAt(a, b, i);
  }

  /** Then the letters decide in the order of the alphabet, and after them the second number. */
  lemma LettersDecide(a: Version, b: Version, i: nat)
    requires AgreeUpTo(a, b, i) && At(a, i).number == At(b, i).number && At(a, i).isFinal == At(b, i).isFinal
    requires StringLess(At(a, i).alpha, At(b, i).alpha)
          || (At(a, i).alpha == At(b, i).alpha && At(a, i).preNumber < At(b, i).preNumber)
    ensures Less(a, b) && !Less(b, a)
  {
    StringOrder(At(a, i).alpha, At(b, i).alpha, At(a, i).alpha);
    DecidedAt(a, b, i);
  }

  lemma DigitText(n: nat, text: string)
    requires n < 10 && |text| == 1 && text[0] == '0' + n as char
    ensures Digits(n) == text
  {
  }

  /** `<number>.<second><letters><pre>` is read as these two parts. */
  lemma ParseTwoParts(text: string, n: nat, second: Part)
    requires n < 10 && second.number < 10 && second.preNumber < 10 && WellFormedPart(second)
    requires text == ['0' + n as char, '.', '0' + second.number as char] + second.alpha
                     + if second.preNumber == 0 then [] else ['0' + second.preNumber as char]
    ensures Parse(text) == Some([Part(n, true, [], 0), second])
  {
    var parts := [Part(n, true, [], 0), second];
    DigitText(n, ['0' + n as char]);
    DigitText(second.number, ['0' + second.number as char]);
    DigitText(second.preNumber, ['0' + second.preNumber as char]);
    var texts := PrintParts(parts);
    assert texts[0] == ['0' + n as char];
    assert texts[1..] == [PrintPart(second)];
    assert Print(parts) == texts[0] + ['.'] + Join('.', texts[1..]);
    assert Print(parts) == text;
    ParsePrinted(parts);
  }

  /** The second parts of 3.0a, 3.0a1, 3.0a2, 3.0 and 3.1. */
  predicate ToolkitParts(parts: seq<Part>) {
    && |parts| == 5
    && parts[0] == Part(0, false, ['a'], 0) && parts[1] == Part(0, false, ['a'], 1) && parts[2] == Part(0, false, ['a'], 2)
    && parts[3] == Part(0, true, [], 0) && parts[4] == Part(1, true, [], 0)
  }

  lemma ToolkitLess(parts: seq<Part>, three: Part, i: nat)
    requires ToolkitParts(parts) && i < 4
    ensures Less([three, parts[i]], [three, parts[i + 1]]) && !Less([three, parts[i + 1]], [three, parts[i]])
  {
    var a, b := [three, parts[i]], [three, parts[i + 1]];
    if i < 2 {
      LettersDecide(a, b, 1);
    } else if i == 2 {
      LettersPrecede(a, b, 1);
    } else {
      NumberDecides(a, b, 1);
    }
  }

  lemma ToolkitParse(text: string, parts: seq<Part>, i: nat)
    requires ToolkitParts(parts) && i < 5
    requires text == if i == 0 then "3.0a" else if i == 1 then "3.0a1" else if i == 2 then "3.0a2" else if i == 3 then "3.0" else "3.1"
    ensures Parse(text) == Some([Part(3, true, [], 0), parts[i]])
  {
    ParseTwoParts(text, 3, parts[i]);
  }

  /** The order of the toolkit's documentation, on texts: 3.0a < 3.0a1 < 3.0a2 < 3.0 < 3.1. */
  lemma ToolkitOrder(texts: seq<string>, i: nat)
    requires texts == ["3.0a", "3.0a1", "3.0a2", "3.0", "3.1"] && i < 4
    ensures Parse(texts[i]).Some? && Parse(texts[i + 1]).Some?
    ensures Less(Parse(texts[i]).value, Parse(texts[i + 1]).value)
    ensures !Less(Parse(texts[i + 1]).value, Parse(texts[i]).value)
  {
    var parts := [Part(0, false, ['a'], 0), Part(0, false, ['a'], 1), Part(0, false, ['a'], 2), Part(0, true, [], 0),
                  Part(1, true, [], 0)];
    ToolkitParse(texts[i], parts, i);
    ToolkitParse(texts[i + 1], parts, i + 1);
    ToolkitLess(parts, Part(3, true, [], 0), i);
  }

  method Cmp(a: Version, b: Version) returns (ord: Ordering)
    ensures ord == Lt <==> Less(a, b)
    ensures ord == Eq <==> Same(a, b)
    ensures ord == Gt <==> Less(b, a)
  {
    var len := if |a| < |b| then |b| else |a|;
    for i := 0 to len
      invariant AgreeUpTo(a, b, i)
    {
      var x, y := At(a, i), At(b, i);
      PartOrder(x, y, y);
      if x != y {
        OneWay(a, b, i);
        if PartLess(x, y) {
          assert LessAt(a, b, i);
          return Lt;
        }
        assert LessAt(b, a, i);
        return Gt;
      }
    }
    assert Same(a, b);
    NotLessThanItself(a, b);
    return Eq;
  }

  lemma PartOrder(a: Part, b: Part, c: Part)
    ensures !PartLess(a, a)
    ensures PartLess(a, b) || a == b || PartLess(b, a)
    ensures !(PartLess(a, b) && PartLess(b, a))
    ensures PartLess(a, b) && PartLess(b, c) ==> PartLess(a, c)
  {
    StringOrder(a.alpha, b.alpha, c.alpha);
  }

  lemma NotLessThanItself(a: Version, b: Version)
    requires Same(a, b)
    ensures !Less(a, b) && !Less(b, a)
  {
    forall i: nat
      ensures !LessAt(a, b, i) && !LessAt(b, a, i)
    {
      PartOrder(At(a, i), At(b, i), At(a, i));
    }
  }

  /** The first difference decides, so only one way round can hold. */
  lemma OneWay(a: Version, b: Version, i: nat)
    requires AgreeUpTo(a, b, i) && At(a, i) != At(b, i)
    ensures !Same(a, b)
    ensures Less(a, b) <==> PartLess(At(a, i), At(b, i))
    ensures Less(b, a) <==> PartLess(At(b, i), At(a, i))
  {
    forall k: nat
      ensures LessAt(a, b, k) ==> k == i
      ensures LessAt(b, a, k) ==> k == i
    {
      PartOrder(At(a, k), At(b, k), At(a, k));
    }
    assert PartLess(At(a, i), At(b, i)) ==> LessAt(a, b, i);
    assert PartLess(At(b, i), At(a, i)) ==> LessAt(b, a, i);
  }

  /** Exactly one of less, same and greater holds. */
  lemma Trichotomy(a: Version, b: Version)
    ensures Less(a, b) || Same(a, b) || Less(b, a)
    ensures !(Less(a, b) && Same(a, b)) && !(Less(a, b) && Less(b, a))
  {
    if i: nat :| At(a, i) != At(b, i) {
      var first := FirstDifference(a, b, i);
      PartOrder(At(a, first), At(b, first), At(a, first));
      OneWay(a, b, first);
    } else {
      NotLessThanItself(a, b);
    }
  }

  lemma {:induction false} FirstDifference(a: Version, b: Version, i: nat) returns (first: nat)
    requires At(a, i) != At(b, i)
    ensures AgreeUpTo(a, b, first) && At(a, first) != At(b, first)
  {
    if k: nat :| k < i && At(a, k) != At(b, k) {
      first := FirstDifference(a, b, k);
    } else {
      first := i;
    }
  }

  lemma LessTransitive(a: Version, b: Version, c: Version)
    requires Less(a, b) && Less(b, c)
    ensures Less(a, c)
  {
    var i: nat :| LessAt(a, b, i);
    var j: nat :| LessAt(b, c, j);
    var k := if i < j then i else j;
    PartOrder(At(a, k), At(b, k), At(c, k));
    assert LessAt(a, c, k);
  }

  /** Equal versions compare alike with every other version. */
  lemma SameComparesAlike(a: Version, b: Version, c: Version)
    requires Same(a, b)
    ensures Less(a, c) <==> Less(b, c)
    ensures Less(c, a) <==> Less(c, b)
    ensures Same(a, c) <==> Same(b, c)
  {
    forall i: nat
      ensures LessAt(a, c, i) <==> LessAt(b, c, i)
      ensures LessAt(c, a, i) <==> LessAt(c, b, i)
    {
      assert forall k: nat :: At(a, k) == At(b, k);
    }
  }

  /** Not being newer is transitive, and only equal versions come full circle. */
  lemma NotNewerChain(a: Version, b: Version, c: Version)
    requires !Less(b, a) && !Less(c, b)
    ensures !Less(c, a)
    ensures Same(a, c) ==> Same(a, b) && Same(b, c)
  {
    Trichotomy(a, b);
    Trichotomy(b, c);
    Trichotomy(c, a);
    if Same(a, b) {
      SameComparesAlike(a, b, c);
    } else if Same(b, c) {
      SameComparesAlike(b, c, a);
    } else {
      LessTransitive(a, b, c);
    }
  }

  lemma ParseZero(piece: string)
    requires piece == "0"
    ensures ParsePart(piece) == Some(ZERO)
  {
    var none: string := [];
    assert AllDigits(piece) && piece[..1] == piece && piece[1..] == none && Value(none) == 0;
    assert piece[..|piece| - 1] == none;
    assert Value(piece) == 0;
    ParsePieces(piece, none, none);
    assert piece + (none + none) == piece;
  }

  /** Appending `.0` to a text keeps it well-formed or malformed, and gives an equal version. */
  lemma AppendZero(raw: string, longer: string)
    requires longer == raw + ".0"
    ensures Parse(longer).Some? <==> Parse(raw).Some?
    ensures Parse(raw).Some? ==> Same(Parse(raw).value, Parse(longer).value)
    ensures Parse(raw).Some? ==> Parse(longer).value == Parse(raw).value + [ZERO]
  {
    var zero := "0";
    ParseZero(zero);
    assert longer == raw + ['.'] + zero;
    SplitSuffix('.', raw, zero);
    var pieces := Split('.', raw);
    assert (pieces + [zero])[..|pieces|] == pieces;
    if Parse(raw).Some? {
      PaddedIsSame(Parse(raw).value);
    }
  }

  lemma PaddedIsSame(v: Version)
    ensures Same(v, v + [ZERO])
  {
  }
}
