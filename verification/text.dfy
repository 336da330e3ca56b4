/** Strings as the daemon measures them: characters are Unicode scalar values stored as UTF-8. */
module Text {

  /** Bytes of one character in UTF-8. */
  function CharLen(c: char): (n: nat)
    ensures 1 <= n <= 4
  {
    if c as int < 0x80 then 1 else if c as int < 0x800 then 2 else if c as int < 0x1_0000 then 3 else 4
  }

  /** The shortest form of section 3 of RFC 3629: `n` bytes hold the code points below these bounds. */
  lemma ShortestForm(c: char, bounds: seq<int>)
    requires bounds == [0, 0x80, 0x800, 0x1_0000, 0x11_0000]
    ensures bounds[CharLen(c) - 1] <= c as int < bounds[CharLen(c)]
  {
  }

  function ByteLen(s: string): nat {
    if |s| == 0 then 0 else ByteLen(s[..|s| - 1]) + CharLen(s[|s| - 1])
  }

  lemma {:induction false} ByteLenConcat(a: string, b: string)
    ensures ByteLen(a + b) == ByteLen(a) + ByteLen(b)
    decreases |b|
  {
    if |b| == 0 {
      assert a + b == a;
    } else {
      var last := |b| - 1;
      ByteLenConcat(a, b[..last]);
      assert (a + b)[..|a + b| - 1] == a + b[..last];
    }
  }

  /** Unicode White_Space. */
  predicate IsSpace(c: char) {
    var n := c as int;
    || 0x09 <= n <= 0x0D || n == 0x20 || n == 0x85 || n == 0xA0 || n == 0x1680
    || 0x2000 <= n <= 0x200A || n == 0x2028 || n == 0x2029 || n == 0x202F || n == 0x205F || n == 0x3000
  }

  /** The twenty-five code points with that property. */
  lemma SpaceIs(c: char)
    ensures IsSpace(c) <==>
      c as int in {0x09, 0x0A, 0x0B, 0x0C, 0x0D, 0x20, 0x85, 0xA0, 0x1680, 0x2000, 0x2001, 0x2002, 0x2003, 0x2004, 0x2005,
                   0x2006, 0x2007, 0x2008, 0x2009, 0x200A, 0x2028, 0x2029, 0x202F, 0x205F, 0x3000}
  {
  }

  /** Splitting at a character: always at least one part, none of which contains it. */
  function Split(sep: char, text: string): (parts: seq<string>)
    ensures |parts| > 0
    ensures forall i :: 0 <= i < |parts| ==> sep !in parts[i]
  {
    if |text| == 0 then [""]
    else
      var rest := Split(sep, text[1..]);
      if text[0] == sep then [""] + rest else [[text[0]] + rest[0]] + rest[1..]
  }

  function Join(sep: char, parts: seq<string>): string {
    if |parts| == 0 then ""
    else if |parts| == 1 then parts[0]
    else parts[0] + [sep] + Join(sep, parts[1..])
  }

  function Count(c: char, text: string): nat {
    if |text| == 0 then 0 else (if text[0] == c then 1 else 0) + Count(c, text[1..])
  }

  lemma JoinPrepend(sep: char, c: char, head: string, tail: seq<string>)
    ensures Join(sep, [[c] + head] + tail) == [c] + Join(sep, [head] + tail)
  {
    assert ([[c] + head] + tail)[1..] == tail && ([head] + tail)[1..] == tail;
    if |tail| > 0 {
      assert [c] + head + [sep] + Join(sep, tail) == [c] + (head + [sep] + Join(sep, tail));
    }
  }

  /** Splitting loses nothing. */
  lemma {:induction false} JoinSplit(sep: char, text: string)
    ensures Join(sep, Split(sep, text)) == text
  {
    if |text| > 0 {
      var rest := Split(sep, text[1..]);
      JoinSplit(sep, text[1..]);
      if text[0] == sep {
        assert ([""] + rest)[1..] == rest;
        assert "" + [sep] + Join(sep, rest) == [sep] + text[1..] == text;
      } else {
        JoinPrepend(sep, text[0], rest[0], rest[1..]);
        assert [rest[0]] + rest[1..] == rest;
      }
    }
  }

  /** A part without separators in front of a split text is its first part. */
  lemma {:induction false} SplitPrefix(sep: char, part: string, text: string)
    requires sep !in part
    ensures Split(sep, part) == [part]
    ensures Split(sep, part + [sep] + text) == [part] + Split(sep, text)
  {
    if |part| == 0 {
      assert part + [sep] + text == [sep] + text && ([sep] + text)[1..] == text;
    } else {
      SplitPrefix(sep, part[1..], text);
      assert (part + [sep] + text)[1..] == part[1..] + [sep] + text;
      assert ([part[1..]] + Split(sep, text))[1..] == Split(sep, text);
      assert [part[0]] + part[1..] == part;
    }
  }

  /** A part without separators behind a text is its last part. */
  lemma {:induction false} SplitSuffix(sep: char, text: string, part: string)
    requires sep !in part
    ensures Split(sep, text + [sep] + part) == Split(sep, text) + [part]
  {
    var whole := text + [sep] + part;
    if |text| == 0 {
      assert whole[1..] == part;
      SplitPrefix(sep, part, "");
    } else {
      SplitSuffix(sep, text[1..], part);
      assert whole[1..] == text[1..] + [sep] + part;
      var rest := Split(sep, text[1..]);
      assert (rest + [part])[0] == rest[0] && (rest + [part])[1..] == rest[1..] + [part];
    }
  }

  /** Joining loses nothing either, as long as no part contains the separator. */
  lemma {:induction false} SplitJoin(sep: char, parts: seq<string>)
    requires |parts| > 0 && forall i :: 0 <= i < |parts| ==> sep !in parts[i]
    ensures Split(sep, Join(sep, parts)) == parts
  {
    SplitPrefix(sep, parts[0], Join(sep, parts[1..]));
    if |parts| > 1 {
      SplitJoin(sep, parts[1..]);
      assert Split(sep, Join(sep, parts)) == [parts[0]] + parts[1..];
      assert [parts[0]] + parts[1..] == parts;
    } else {
      assert parts == [parts[0]];
    }
  }

  lemma {:induction false} CountConcat(c: char, a: string, b: string)
    ensures Count(c, a + b) == Count(c, a) + Count(c, b)
  {
    if |a| == 0 {
      assert a + b == b;
    } else {
      CountConcat(c, a[1..], b);
      assert (a + b)[1..] == a[1..] + b;
    }
  }

  lemma {:induction false} SplitCounts(sep: char, text: string)
    ensures |Split(sep, text)| == Count(sep, text) + 1
  {
    if |text| > 0 {
      SplitCounts(sep, text[1..]);
    }
  }

  lemma {:induction false} CountZero(c: char, text: string)
    ensures Count(c, text) == 0 <==> c !in text
  {
    if |text| > 0 {
      CountZero(c, text[1..]);
      assert text == [text[0]] + text[1..];
    }
  }

  /** Separators inside the parts. */
  function InnerCount(sep: char, parts: seq<string>): nat {
    if |parts| == 0 then 0 else Count(sep, parts[0]) + InnerCount(sep, parts[1..])
  }

  lemma {:induction false} JoinCounts(sep: char, parts: seq<string>)
    requires |parts| > 0
    ensures Count(sep, Join(sep, parts)) == |parts| - 1 + InnerCount(sep, parts)
  {
    if |parts| > 1 {
      JoinCounts(sep, parts[1..]);
      CountConcat(sep, parts[0] + [sep], Join(sep, parts[1..]));
      CountConcat(sep, parts[0], [sep]);
      assert Count(sep, [sep]) == 1 + Count(sep, [sep][1..]);
    }
  }

  lemma {:induction false} InnerCountZero(sep: char, parts: seq<string>)
    ensures InnerCount(sep, parts) == 0 <==> forall i :: 0 <= i < |parts| ==> sep !in parts[i]
  {
    if |parts| > 0 {
      InnerCountZero(sep, parts[1..]);
      CountZero(sep, parts[0]);
      assert forall i :: 1 <= i < |parts| ==> parts[i] == parts[1..][i - 1];
    }
  }

  // ----- Order

  /** Lexicographic order of strings by character. */
  predicate StringLess(a: string, b: string) {
    if |b| == 0 then false
    else if |a| == 0 then true
    else if a[0] != b[0] then a[0] < b[0]
    else StringLess(a[1..], b[1..])
  }

  lemma {:induction false} StringOrder(a: string, b: string, c: string)
    ensures !StringLess(a, a)
    ensures StringLess(a, b) || a == b || StringLess(b, a)
    ensures !(StringLess(a, b) && StringLess(b, a))
    ensures StringLess(a, b) && StringLess(b, c) ==> StringLess(a, c)
    decreases |a| + |b| + |c|
  {
    var a', b', c' := if |a| > 0 then a[1..] else a, if |b| > 0 then b[1..] else b, if |c| > 0 then c[1..] else c;
    if |a| > 0 && |b| > 0 {
      StringOrder(a', b', c');
      assert a == [a[0]] + a' && b == [b[0]] + b';
    } else if |a| > 0 {
      StringOrder(a', b', c');
    }
  }
}
