/** The base64 decoder of the memory-pressure protocol against the encoding of section 4 of RFC 4648. */
module Base64 {
  import opened Options

  const U32: nat := 0x1_0000_0000

  type Byte = b: nat | b < 256

  type Sextet = v: nat | v < 64

  // ----- The alphabet

  function CharOf(v: Sextet): char {
    if v < 26 then 'A' + v as char
    else if v < 52 then 'a' + (v - 26) as char
    else if v < 62 then '0' + (v - 52) as char
    else if v == 62 then '+'
    else '/'
  }

  function ValueOf(c: char): Option<Sextet> {
    if 'A' <= c <= 'Z' then Some(c as int - 'A' as int)
    else if 'a' <= c <= 'z' then Some(c as int - 'a' as int + 26)
    else if '0' <= c <= '9' then Some(c as int - '0' as int + 52)
    else if c == '+' then Some(62)
    else if c == '/' then Some(63)
    else None
  }

  predicate Skipped(c: char) {
    c == '=' || c == '\n'
  }

  lemma AlphabetInverts(v: Sextet)
    ensures ValueOf(CharOf(v)) == Some(v) && !Skipped(CharOf(v))
  {
  }

  // ----- Encoding

  /** The six-bit groups of a byte string, the last one filled up with zero bits. */
  function Groups(bytes: seq<Byte>): seq<Sextet> {
    if |bytes| == 0 then []
    else if |bytes| == 1 then [bytes[0] / 4, bytes[0] % 4 * 16]
    else if |bytes| == 2 then [bytes[0] / 4, bytes[0] % 4 * 16 + bytes[1] / 16, bytes[1] % 16 * 4]
    else
      [bytes[0] / 4, bytes[0] % 4 * 16 + bytes[1] / 16, bytes[1] % 16 * 4 + bytes[2] / 64, bytes[2] % 64]
      + Groups(bytes[3..])
  }

  function Chars(values: seq<Sextet>): (r: string)
    ensures |r| == |values|
    ensures forall i :: 0 <= i < |r| ==> r[i] == CharOf(values[i])
  {
    seq(|values|, i requires 0 <= i < |values| => CharOf(values[i]))
  }

  /** The encoding with its padding to a multiple of four. */
  function Encode(bytes: seq<Byte>): string {
    Chars(Groups(bytes)) + if |bytes| % 3 == 1 then "==" else if |bytes| % 3 == 2 then "=" else ""
  }

  // ----- Decoding

  /** The input without padding and line breaks. */
  function Stripped(input: string): string {
    if |input| == 0 then ""
    else (if Skipped(input[0]) then "" else [input[0]]) + Stripped(input[1..])
  }

  predicate Known(input: string) {
    forall i :: 0 <= i < |input| ==> Skipped(input[i]) || ValueOf(input[i]).Some?
  }

  /** The values of the characters that count. */
  function Values(input: string): seq<Sextet>
    requires Known(input)
  {
    if |input| == 0 then []
    else (if Skipped(input[0]) then [] else [ValueOf(input[0]).value]) + Values(input[1..])
  }

  /** The powers of two that occur: 2^bits for 0, 2, 4 and 6. */
  function Pow2(bits: nat): (r: nat)
    ensures r > 0
  {
    if bits == 0 then 1 else if bits == 2 then 4 else if bits == 4 then 16 else 64
  }

  function BitsAfter(bits: nat): (r: nat)
    requires bits in {0, 2, 4, 6}
    ensures r in {0, 2, 4, 6}
  {
    if bits == 0 then 6 else bits - 2
  }

  /** The byte that a value completes, if any. */
  function Emitted(v: Sextet, held: nat, bits: nat): seq<Byte>
    requires bits in {0, 2, 4, 6} && held < Pow2(bits)
  {
    if bits == 0 then []
    else if bits == 2 then [held * 64 + v]
    else if bits == 4 then [held * 16 + v / 4]
    else [held * 4 + v / 16]
  }

  /** The low bits of the value that wait for the next one. */
  function LeftOver(v: Sextet, bits: nat): (r: nat)
    requires bits in {0, 2, 4, 6}
    ensures r < Pow2(BitsAfter(bits))
  {
    if bits == 0 then v else if bits == 2 then 0 else if bits == 4 then v % 4 else v % 16
  }

  /** The whole bytes in a stream of six-bit groups behind `bits` bits held back. */
  function Unpack(values: seq<Sextet>, held: nat, bits: nat): seq<Byte>
    requires bits in {0, 2, 4, 6} && held < Pow2(bits)
  {
    if |values| == 0 then []
    else Emitted(values[0], held, bits) + Unpack(values[1..], LeftOver(values[0], bits), BitsAfter(bits))
  }

  /** The first byte of a group of three, with the top of the second. */
  lemma UnpackFirst(b: Byte, top: nat, rest: seq<Sextet>)
    requires top < 16
    ensures Unpack([b / 4, b % 4 * 16 + top] + rest, 0, 0) == [b] + Unpack(rest, top, 4)
  {
    var g := [b / 4, b % 4 * 16 + top] + rest;
    assert g[1..] == [b % 4 * 16 + top] + rest && g[1..][1..] == rest;
    assert Emitted(g[1], g[0], 6) == [b];
  }

  lemma UnpackSecond(b: Byte, top: nat, rest: seq<Sextet>)
    requires top < 4
    ensures Unpack([b % 16 * 4 + top] + rest, b / 16, 4) == [b] + Unpack(rest, top, 2)
  {
    assert ([b % 16 * 4 + top] + rest)[1..] == rest;
    assert Emitted(b % 16 * 4 + top, b / 16, 4) == [b];
  }

  lemma UnpackThird(b: Byte, rest: seq<Sextet>)
    ensures Unpack([b % 64] + rest, b / 64, 2) == [b] + Unpack(rest, 0, 0)
  {
    assert ([b % 64] + rest)[1..] == rest;
  }

  lemma UnpackThree(a: Byte, b: Byte, c: Byte, rest: seq<Sextet>)
    ensures Unpack([a / 4, a % 4 * 16 + b / 16, b % 16 * 4 + c / 64, c % 64] + rest, 0, 0)
            == [a, b, c] + Unpack(rest, 0, 0)
  {
    var last := [c % 64] + rest;
    var later := [b % 16 * 4 + c / 64] + last;
    UnpackFirst(a, b / 16, later);
    UnpackSecond(b, c / 64, last);
    UnpackThird(c, rest);
    assert [a / 4, a % 4 * 16 + b / 16, b % 16 * 4 + c / 64, c % 64] + rest == [a / 4, a % 4 * 16 + b / 16] + later;
  }

  lemma UnpackTwo(a: Byte, b: Byte)
    ensures Unpack([a / 4, a % 4 * 16 + b / 16, b % 16 * 4], 0, 0) == [a, b]
  {
    UnpackFirst(a, b / 16, [b % 16 * 4]);
    UnpackSecond(b, 0, []);
    assert [a / 4, a % 4 * 16 + b / 16] + [b % 16 * 4] == [a / 4, a % 4 * 16 + b / 16, b % 16 * 4];
    assert [b % 16 * 4 + 0] + [] == [b % 16 * 4];
  }

  /** Unpacking undoes grouping. */
  lemma {:induction false} UnpackGroups(bytes: seq<Byte>)
    ensures Unpack(Groups(bytes), 0, 0) == bytes
  {
    if |bytes| == 1 {
      UnpackFirst(bytes[0], 0, []);
      assert Groups(bytes) + [] == Groups(bytes) && bytes == [bytes[0]];
    } else if |bytes| == 2 {
      UnpackTwo(bytes[0], bytes[1]);
      assert bytes == [bytes[0], bytes[1]];
    } else if |bytes| > 2 {
      UnpackGroups(bytes[3..]);
      UnpackThree(bytes[0], bytes[1], bytes[2], Groups(bytes[3..]));
      assert bytes == [bytes[0], bytes[1], bytes[2]] + bytes[3..];
    }
  }

  /** The buffer after shifting a value in: the six highest bits fall out. */
  function Shifted(buffer: nat, v: Sextet): (r: nat)
    ensures r < U32
    ensures r == buffer % 0x400_0000 * 64 + v
  {
    assert buffer * 64 % U32 == (buffer % 0x400_0000) * 64;
    buffer * 64 % U32 + v
  }

  /** The byte above the `bits` lowest bits of the buffer. */
  function Taken(buffer: nat, bits: nat): (r: Byte) {
    buffer / Pow2(bits) % 256
  }

  function HeldBack(buffer: nat, bits: nat): (r: nat)
    ensures r < Pow2(bits)
  {
    buffer % Pow2(bits)
  }

  lemma DivideFour(n: nat, above: nat, low: nat)
    requires low < 4 && n == 4 * above + low
    ensures n / 4 == above && n % 4 == low
  {
  }

  lemma DivideSixteen(n: nat, above: nat, low: nat)
    requires low < 16 && n == 16 * above + low
    ensures n / 16 == above && n % 16 == low
  {
  }

  lemma LowByte(q: nat, byte: Byte)
    ensures (256 * q + byte) % 256 == byte
  {
  }

  lemma ShiftTwo(buffer: nat, v: Sextet)
    ensures Taken(Shifted(buffer, v), 0) == HeldBack(buffer, 2) * 64 + v
  {
    var kept := buffer % 0x400_0000;
    var q, held := kept / 4, kept % 4;
    assert held == HeldBack(buffer, 2);
    assert Shifted(buffer, v) == 256 * q + (held * 64 + v);
    LowByte(q, held * 64 + v);
  }

  lemma ShiftFour(buffer: nat, v: Sextet)
    ensures Taken(Shifted(buffer, v), 2) == HeldBack(buffer, 4) * 16 + v / 4
    ensures HeldBack(Shifted(buffer, v), 2) == v % 4
  {
    var kept := buffer % 0x400_0000;
    var q, held := kept / 16, kept % 16;
    assert held == HeldBack(buffer, 4);
    var byte := held * 16 + v / 4;
    DivideFour(Shifted(buffer, v), 256 * q + byte, v % 4);
    LowByte(q, byte);
  }

  lemma ShiftSix(buffer: nat, v: Sextet)
    ensures Taken(Shifted(buffer, v), 4) == HeldBack(buffer, 6) * 4 + v / 16
    ensures HeldBack(Shifted(buffer, v), 4) == v % 16
  {
    var kept := buffer % 0x400_0000;
    var q, held := kept / 64, kept % 64;
    assert held == HeldBack(buffer, 6);
    var byte := held * 4 + v / 16;
    DivideSixteen(Shifted(buffer, v), 256 * q + byte, v % 16);
    LowByte(q, byte);
  }

  /**
   * One step of the 32-bit buffer. The bits above the `bits` held back are stale, and the shift
   * drops the highest of them; neither the byte taken out nor the new held bits depend on them.
   */
  lemma Absorb(buffer: nat, bits: nat, v: Sextet)
    requires bits in {0, 2, 4, 6}
    ensures HeldBack(Shifted(buffer, v), BitsAfter(bits)) == LeftOver(v, bits)
    ensures Emitted(v, HeldBack(buffer, bits), bits)
            == if bits == 0 then [] else [Taken(Shifted(buffer, v), bits - 2)]
  {
    if bits == 0 {
      assert HeldBack(Shifted(buffer, v), 6) == v;
    } else if bits == 2 {
      assert HeldBack(Shifted(buffer, v), 0) == 0;
      ShiftTwo(buffer, v);
    } else if bits == 4 {
      ShiftFour(buffer, v);
    } else {
      ShiftSix(buffer, v);
    }
  }

  /** What a well-formed input still yields in a decoder state. */
  ghost function Pending(input: string, buffer: nat, bits: nat): seq<Byte>
    requires Known(input) && bits in {0, 2, 4, 6}
  {
    Unpack(Values(input), HeldBack(buffer, bits), bits)
  }

  function Out(buffer: nat, bits: nat): (r: seq<Byte>)
    requires bits in {0, 2, 4, 6}
  {
    if bits == 0 then [] else [Taken(buffer, bits - 2)]
  }

  lemma PendingStep(input: string, buffer: nat, bits: nat)
    requires |input| > 0 && bits in {0, 2, 4, 6} && Known(input)
    ensures Known(input[1..])
    ensures Skipped(input[0]) ==> Pending(input, buffer, bits) == Pending(input[1..], buffer, bits)
    ensures !Skipped(input[0]) ==>
              var next := Shifted(buffer, ValueOf(input[0]).value);
              Pending(input, buffer, bits) == Out(next, bits) + Pending(input[1..], next, BitsAfter(bits))
  {
    if Skipped(input[0]) {
      assert Values(input) == Values(input[1..]);
    } else {
      var v := ValueOf(input[0]).value;
      Absorb(buffer, bits, v);
      assert Values(input) == [v] + Values(input[1..]);
      assert ([v] + Values(input[1..]))[1..] == Values(input[1..]);
    }
  }

  /** After `i` characters: the bytes so far and what is still to come make up the answer. */
  ghost predicate Decoding(input: string, i: nat, bytes: seq<Byte>, buffer: nat, bits: nat) {
    && i <= |input| && bits in {0, 2, 4, 6}
    && (Known(input[i..]) <==> Known(input))
    && (Known(input) ==> bytes + Pending(input[i..], buffer, bits) == Pending(input, 0, 0))
  }

  lemma DecodingStep(input: string, i: nat, bytes: seq<Byte>, buffer: nat, bits: nat)
    requires i < |input| && Decoding(input, i, bytes, buffer, bits)
    ensures Skipped(input[i]) ==> Decoding(input, i + 1, bytes, buffer, bits)
    ensures !Skipped(input[i]) && ValueOf(input[i]).Some? ==>
              var next := Shifted(buffer, ValueOf(input[i]).value);
              Decoding(input, i + 1, bytes + Out(next, bits), next, BitsAfter(bits))
    ensures !Skipped(input[i]) && ValueOf(input[i]).None? ==> !Known(input)
  {
    var c, rest := input[i], input[i..];
    assert rest[0] == c && rest[1..] == input[i + 1..];
    if Skipped(c) || ValueOf(c).Some? {
      assert forall j :: 0 < j < |rest| ==> rest[j] == rest[1..][j - 1];
      assert Known(rest[1..]) <==> Known(rest);
    }
    if Known(input) {
      PendingStep(rest, buffer, bits);
      if !Skipped(c) {
        var next := Shifted(buffer, ValueOf(c).value);
        var later := Pending(rest[1..], next, BitsAfter(bits));
        assert bytes + (Out(next, bits) + later) == (bytes + Out(next, bits)) + later;
      }
    }
  }

  /** Decoding: the bytes packed in the characters that count, or nothing if one is unknown. */
  method Decode(input: string) returns (out: Option<seq<Byte>>)
    ensures out == if Known(input) then Some(Unpack(Values(input), 0, 0)) else None
  {
    var bytes: seq<Byte> := [];
    var buffer: nat, bits: nat := 0, 0;
    assert input[0..] == input;
    for i := 0 to |input|
      invariant buffer < U32 && Decoding(input, i, bytes, buffer, bits)
    {
      DecodingStep(input, i, bytes, buffer, bits);
      var c := input[i];
      if Skipped(c) {
        continue;
      }
      var found := ValueOf(c);
      if found.None? {
        return None;
      }
      buffer := Shifted(buffer, found.value);
      bits := bits + 6;
      if bits >= 8 {
        bits := bits - 8;
        bytes := bytes + [Taken(buffer, bits)];
      }
    }
    assert input[|input|..] == "" && HeldBack(0, 0) == 0;
    assert bytes + [] == bytes;
    return Some(bytes);
  }

  // ----- The round trip

  lemma KnownHead(input: string)
    requires |input| > 0 && Known(input[1..]) && (Skipped(input[0]) || ValueOf(input[0]).Some?)
    ensures Known(input)
  {
    forall i | 0 <= i < |input| ensures Skipped(input[i]) || ValueOf(input[i]).Some? {
      if i > 0 {
        assert input[i] == input[1..][i - 1];
      }
    }
  }

  lemma {:induction false} StripChars(input: string, values: seq<Sextet>)
    requires Stripped(input) == Chars(values)
    ensures Known(input) && Values(input) == values
  {
    if |input| > 0 {
      if Skipped(input[0]) {
        assert Stripped(input) == Stripped(input[1..]);
        StripChars(input[1..], values);
        KnownHead(input);
      } else {
        assert Stripped(input)[1..] == Stripped(input[1..]);
        AlphabetInverts(values[0]);
        assert Chars(values)[1..] == Chars(values[1..]);
        StripChars(input[1..], values[1..]);
        KnownHead(input);
        assert values == [values[0]] + values[1..];
      }
    }
  }

  lemma {:induction false} StrippedConcat(a: string, b: string)
    ensures Stripped(a + b) == Stripped(a) + Stripped(b)
  {
    if |a| == 0 {
      assert a + b == b;
    } else {
      assert (a + b)[1..] == a[1..] + b;
      StrippedConcat(a[1..], b);
    }
  }

  lemma {:induction false} StrippedChars(values: seq<Sextet>)
    ensures Stripped(Chars(values)) == Chars(values)
  {
    if |values| > 0 {
      AlphabetInverts(values[0]);
      assert Chars(values)[1..] == Chars(values[1..]);
      StrippedChars(values[1..]);
    }
  }

  /** The encoding itself is one of the texts that decode to the bytes. */
  lemma EncodeStripped(bytes: seq<Byte>)
    ensures Stripped(Encode(bytes)) == Chars(Groups(bytes))
  {
    var pad := if |bytes| % 3 == 1 then "==" else if |bytes| % 3 == 2 then "=" else "";
    StrippedConcat(Chars(Groups(bytes)), pad);
    StrippedChars(Groups(bytes));
    assert Stripped("=") == "" && Stripped("==") == "";
  }

  /** Decoding undoes encoding, whatever padding and line breaks the text carries. */
  lemma RoundTrip(bytes: seq<Byte>, input: string)
    requires Stripped(input) == Stripped(Encode(bytes))
    ensures Known(input) && Unpack(Values(input), 0, 0) == bytes
  {
    EncodeStripped(bytes);
    StripChars(input, Groups(bytes));
    UnpackGroups(bytes);
  }
}
