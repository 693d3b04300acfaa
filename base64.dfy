/**
 * The base64 encoding of section 4 of RFC 4648 (alphabet `A-Z a-z 0-9 + /`,
 * padding `=`), the platform's `btoa` over a binary string, and a decoder
 * that undoes the encoding.
 */
module Base64 {
  import opened Wrappers

  type Byte = x: int | 0 <= x < 256

  /** The character for a 6-bit value (Table 1 of RFC 4648). */
  function Symbol(v: int): (c: char)
    requires 0 <= v < 64
  {
    if v < 26 then ('A' as int + v) as char
    else if v < 52 then ('a' as int + (v - 26)) as char
    else if v < 62 then ('0' as int + (v - 52)) as char
    else if v == 62 then '+'
    else '/'
  }

  /** The 6-bit value of an alphabet character; `None` for anything else, `=` included. */
  function ValueOf(c: char): (r: Option<int>)
    ensures r.Some? ==> 0 <= r.value < 64
  {
    if 'A' <= c <= 'Z' then Some(c as int - 'A' as int)
    else if 'a' <= c <= 'z' then Some(c as int - 'a' as int + 26)
    else if '0' <= c <= '9' then Some(c as int - '0' as int + 52)
    else if c == '+' then Some(62)
    else if c == '/' then Some(63)
    else None
  }

  lemma ValueOfSymbol(v: int)
    requires 0 <= v < 64
    ensures ValueOf(Symbol(v)) == Some(v)
  {
  }

  /** Four characters for the 24 bits of three bytes. */
  function EncodeGroup(b0: Byte, b1: Byte, b2: Byte): string
  {
    [Symbol(b0 / 4), Symbol((b0 % 4) * 16 + b1 / 16), Symbol((b1 % 16) * 4 + b2 / 64), Symbol(b2 % 64)]
  }

  /** Base64 of `b`, with `=` padding for a final group of one or two bytes. */
  function Encode(b: seq<Byte>): (r: string)
    ensures |r| == 4 * ((|b| + 2) / 3)
  {
    if |b| == 0 then ""
    else if |b| == 1 then [Symbol(b[0] / 4), Symbol((b[0] % 4) * 16), '=', '=']
    else if |b| == 2 then [Symbol(b[0] / 4), Symbol((b[0] % 4) * 16 + b[1] / 16), Symbol((b[1] % 16) * 4), '=']
    else EncodeGroup(b[0], b[1], b[2]) + Encode(b[3..])
  }

  /** Decodes one group of four characters; `last` tells whether padding may appear. */
  function DecodeGroup(c: string, last: bool): Option<seq<Byte>>
    requires |c| == 4
  {
    var v0, v1, v2, v3 := ValueOf(c[0]), ValueOf(c[1]), ValueOf(c[2]), ValueOf(c[3]);
    if v0.None? || v1.None? then None
    else if last && c[2] == '=' && c[3] == '=' then
      Some([v0.value * 4 + v1.value / 16])
    else if v2.None? then None
    else if last && c[3] == '=' then
      Some([v0.value * 4 + v1.value / 16, (v1.value % 16) * 16 + v2.value / 4])
    else if v3.None? then None
    else
      Some([v0.value * 4 + v1.value / 16, (v1.value % 16) * 16 + v2.value / 4, (v2.value % 4) * 64 + v3.value])
  }

  /** Base64 decoding; `None` for a string that is not a padded base64 text. */
  function Decode(s: string): (r: Option<seq<Byte>>)
    decreases |s|
  {
    if s == [] then Some([])
    else if |s| < 4 then None
    else
      match DecodeGroup(s[..4], |s| == 4)
      case None => None
      case Some(g) =>
        match Decode(s[4..])
        case None => None
        case Some(rest) => Some(g + rest)
  }

  lemma GroupRoundTrip(b0: Byte, b1: Byte, b2: Byte, last: bool)
    ensures DecodeGroup(EncodeGroup(b0, b1, b2), last) == Some([b0, b1, b2])
  {
    var v0, v1, v2, v3 := b0 / 4, (b0 % 4) * 16 + b1 / 16, (b1 % 16) * 4 + b2 / 64, b2 % 64;
    ValueOfSymbol(v0);
    ValueOfSymbol(v1);
    ValueOfSymbol(v2);
    ValueOfSymbol(v3);
    assert v1 / 16 == b0 % 4 && v1 % 16 == b1 / 16;
    assert v2 / 4 == b1 % 16 && v2 % 4 == b2 / 64;
  }

  /** Decoding a final group: the four characters are the whole rest of the text. */
  lemma DecodeLastGroup(e: string, g: seq<Byte>)
    requires |e| == 4 && DecodeGroup(e, true) == Some(g)
    ensures Decode(e) == Some(g)
  {
    assert e[..4] == e;
    assert Decode(e[4..]) == Some([]);
    assert g + [] == g;
  }

  lemma OneByteRoundTrip(b0: Byte)
    ensures Decode(Encode([b0])) == Some([b0])
  {
    ValueOfSymbol(b0 / 4);
    ValueOfSymbol((b0 % 4) * 16);
    var e := [Symbol(b0 / 4), Symbol((b0 % 4) * 16), '=', '='];
    assert Encode([b0]) == e;
    assert ((b0 % 4) * 16) / 16 == b0 % 4;
    assert DecodeGroup(e, true) == Some([b0]);
    DecodeLastGroup(e, [b0]);
  }

  lemma TwoByteRoundTrip(b0: Byte, b1: Byte)
    ensures Decode(Encode([b0, b1])) == Some([b0, b1])
  {
    var v1 := (b0 % 4) * 16 + b1 / 16;
    var v2 := (b1 % 16) * 4;
    ValueOfSymbol(b0 / 4);
    ValueOfSymbol(v1);
    ValueOfSymbol(v2);
    var e := [Symbol(b0 / 4), Symbol(v1), Symbol(v2), '='];
    assert Encode([b0, b1]) == e;
    assert v1 / 16 == b0 % 4 && v1 % 16 == b1 / 16 && v2 / 4 == b1 % 16;
    assert DecodeGroup(e, true) == Some([b0, b1]);
    DecodeLastGroup(e, [b0, b1]);
  }

  /** Decoding an encoding gives the bytes back. */
  lemma {:induction false} DecodeEncode(b: seq<Byte>)
    ensures Decode(Encode(b)) == Some(b)
    decreases |b|
  {
    if |b| == 1 {
      assert b == [b[0]];
      OneByteRoundTrip(b[0]);
    } else if |b| == 2 {
      assert b == [b[0], b[1]];
      TwoByteRoundTrip(b[0], b[1]);
    } else if |b| >= 3 {
      DecodeEncode(b[3..]);
      DecodeEncodeStep(b);
    }
  }

  /** The step of the round trip: a full first group in front of a text that decodes. */
  lemma DecodeEncodeStep(b: seq<Byte>)
    requires |b| >= 3 && Decode(Encode(b[3..])) == Some(b[3..])
    ensures Decode(Encode(b)) == Some(b)
  {
    var g := EncodeGroup(b[0], b[1], b[2]);
    var rest := Encode(b[3..]);
    EncodeSplit(b);
    GroupRoundTrip(b[0], b[1], b[2], |g + rest| == 4);
    DecodeFirstGroup(g, rest, [b[0], b[1], b[2]], b[3..]);
  }

  lemma EncodeSplit(b: seq<Byte>)
    requires |b| >= 3
    ensures Encode(b) == EncodeGroup(b[0], b[1], b[2]) + Encode(b[3..])
    ensures [b[0], b[1], b[2]] + b[3..] == b
  {
    SplitThree(b);
  }

  lemma SplitThree(b: seq<Byte>)
    requires |b| >= 3
    ensures [b[0], b[1], b[2]] + b[3..] == b
  {
    assert b[..3] == [b[0], b[1], b[2]];
    assert b == b[..3] + b[3..];
  }

  /** Decoding a text group by group: the first group's bytes, then the rest's. */
  lemma DecodeFirstGroup(g: string, rest: string, x: seq<Byte>, y: seq<Byte>)
    requires |g| == 4 && DecodeGroup(g, |g + rest| == 4) == Some(x) && Decode(rest) == Some(y)
    ensures Decode(g + rest) == Some(x + y)
  {
    var e := g + rest;
    assert e[..4] == g;
    assert e[4..] == rest;
  }

  /** Every character of an encoding is an alphabet character or padding. */
  lemma {:induction false} EncodeAlphabet(b: seq<Byte>)
    ensures forall i :: 0 <= i < |Encode(b)| ==> Encode(b)[i] == '=' || ValueOf(Encode(b)[i]).Some?
    decreases |b|
  {
    if |b| == 1 {
      ValueOfSymbol(b[0] / 4);
      ValueOfSymbol((b[0] % 4) * 16);
    } else if |b| == 2 {
      ValueOfSymbol(b[0] / 4);
      ValueOfSymbol((b[0] % 4) * 16 + b[1] / 16);
      ValueOfSymbol((b[1] % 16) * 4);
    } else if |b| >= 3 {
      EncodeAlphabet(b[3..]);
      ValueOfSymbol(b[0] / 4);
      ValueOfSymbol((b[0] % 4) * 16 + b[1] / 16);
      ValueOfSymbol((b[1] % 16) * 4 + b[2] / 64);
      ValueOfSymbol(b[2] % 64);
    }
  }

  /** A "binary string": each character stands for one byte. */
  predicate IsBinary(s: string)
  {
    forall i :: 0 <= i < |s| ==> s[i] as int < 256
  }

  /** The binary string of `b`, as `String.fromCharCode` builds it. */
  function Latin1(b: seq<Byte>): (s: string)
    ensures |s| == |b| && IsBinary(s)
  {
    seq(|b|, i requires 0 <= i < |b| => b[i] as char)
  }

  lemma Latin1Append(a: seq<Byte>, b: seq<Byte>)
    ensures Latin1(a + b) == Latin1(a) + Latin1(b)
  {
  }

  /** `btoa(s)`: base64 of a binary string; the platform throws for any character above 255. */
  function Btoa(s: string): (r: Option<string>)
    ensures r.Some? <==> IsBinary(s)
  {
    if IsBinary(s) then Some(Encode(seq(|s|, i requires 0 <= i < |s| => s[i] as int as Byte))) else None
  }

  lemma BtoaLatin1(b: seq<Byte>)
    ensures Btoa(Latin1(b)) == Some(Encode(b))
  {
    var s := Latin1(b);
    assert seq(|s|, i requires 0 <= i < |s| => s[i] as int as Byte) == b;
  }
}
