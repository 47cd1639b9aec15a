/**
 * Base64 with the standard alphabet and canonical padding, as in section 4 of
 * RFC 4648. This is the behaviour of the `base64` crate's STANDARD engine that
 * every cover line uses: encoding always pads to a multiple of four
 * characters, and decoding refuses a length that is not a multiple of four,
 * any character outside the alphabet, padding anywhere but at the end, and
 * non-zero bits left over in the last character.
 */
module Base64 {
  import opened Bytes
  import opened Wrappers

  type sextet = x: int | 0 <= x < 64

  /** The character that stands for a 6-bit value (Table 1 of RFC 4648). */
  function CharOf(v: sextet): char {
    if v < 26 then ('A' as int + v) as char
    else if v < 52 then ('a' as int + v - 26) as char
    else if v < 62 then ('0' as int + v - 52) as char
    else if v == 62 then '+'
    else '/'
  }

  /** The 6-bit value a character stands for; None for every other character, '=' included. */
  function ValueOf(c: char): (r: Option<sextet>)
    ensures r.Some? ==> CharOf(r.value) == c
  {
    if 'A' <= c <= 'Z' then Some(c as int - 'A' as int)
    else if 'a' <= c <= 'z' then Some(c as int - 'a' as int + 26)
    else if '0' <= c <= '9' then Some(c as int - '0' as int + 52)
    else if c == '+' then Some(62)
    else if c == '/' then Some(63)
    else None
  }

  lemma ValueOfCharOf(v: sextet)
    ensures ValueOf(CharOf(v)) == Some(v)
  {
  }

  /** A character that may appear in an encoding: the alphabet or the pad. */
  predicate IsEncodingChar(c: char) {
    ValueOf(c).Some? || c == '='
  }

  function EncodeGroup(b0: byte, b1: byte, b2: byte): (r: string)
    ensures |r| == 4 && forall i :: 0 <= i < 4 ==> ValueOf(r[i]).Some?
  {
    ValueOfCharOf(b0 / 4);
    ValueOfCharOf((b0 % 4) * 16 + b1 / 16);
    ValueOfCharOf((b1 % 16) * 4 + b2 / 64);
    ValueOfCharOf(b2 % 64);
    [CharOf(b0 / 4), CharOf((b0 % 4) * 16 + b1 / 16), CharOf((b1 % 16) * 4 + b2 / 64), CharOf(b2 % 64)]
  }

  /** `general_purpose::STANDARD.encode`. */
  function Encode(s: seq<byte>): (r: string)
    ensures |r| == (|s| + 2) / 3 * 4
    ensures forall i :: 0 <= i < |r| ==> IsEncodingChar(r[i])
  {
    if |s| == 0 then []
    else if |s| == 1 then
      ValueOfCharOf(s[0] / 4);
      ValueOfCharOf((s[0] % 4) * 16);
      [CharOf(s[0] / 4), CharOf((s[0] % 4) * 16), '=', '=']
    else if |s| == 2 then
      ValueOfCharOf(s[0] / 4);
      ValueOfCharOf((s[0] % 4) * 16 + s[1] / 16);
      ValueOfCharOf((s[1] % 16) * 4);
      [CharOf(s[0] / 4), CharOf((s[0] % 4) * 16 + s[1] / 16), CharOf((s[1] % 16) * 4), '=']
    else
      EncodeGroup(s[0], s[1], s[2]) + Encode(s[3..])
  }

  /** Four alphabet characters carry three whole bytes. */
  function DecodeGroup(c0: char, c1: char, c2: char, c3: char): Option<seq<byte>> {
    match (ValueOf(c0), ValueOf(c1), ValueOf(c2), ValueOf(c3))
    case (Some(v0), Some(v1), Some(v2), Some(v3)) =>
      var a: int, b: int, c: int, d: int := v0, v1, v2, v3;
      Some([a * 4 + b / 16, (b % 16) * 16 + c / 4, (c % 4) * 64 + d])
    case _ => None
  }

  /** The last group may end in one or two pads; the bits they leave over must be zero. */
  function DecodeLastGroup(c0: char, c1: char, c2: char, c3: char): Option<seq<byte>> {
    if c3 != '=' then DecodeGroup(c0, c1, c2, c3)
    else if c2 != '=' then
      match (ValueOf(c0), ValueOf(c1), ValueOf(c2))
      case (Some(v0), Some(v1), Some(v2)) =>
        var a: int, b: int, c: int := v0, v1, v2;
        if c % 4 == 0 then Some([a * 4 + b / 16, (b % 16) * 16 + c / 4]) else None
      case _ => None
    else
      match (ValueOf(c0), ValueOf(c1))
      case (Some(v0), Some(v1)) =>
        var a: int, b: int := v0, v1;
        if b % 16 == 0 then Some([a * 4 + b / 16]) else None
      case _ => None
  }

  /** `general_purpose::STANDARD.decode`; None stands for its `Err`. */
  function Decode(s: string): (r: Option<seq<byte>>)
    ensures r.Some? ==> |s| % 4 == 0 && |r.value| <= |s| / 4 * 3
  {
    if |s| == 0 then Some([])
    else if |s| < 4 then None
    else if |s| == 4 then DecodeLastGroup(s[0], s[1], s[2], s[3])
    else
      match DecodeGroup(s[0], s[1], s[2], s[3])
      case None => None
      case Some(head) =>
        match Decode(s[4..])
        case None => None
        case Some(tail) => Some(head + tail)
  }

  lemma GroupArithmetic(b0: byte, b1: byte, b2: byte)
    ensures var v1 := (b0 % 4) * 16 + b1 / 16;
            var v2 := (b1 % 16) * 4 + b2 / 64;
            && (b0 / 4) * 4 + v1 / 16 == b0
            && (v1 % 16) * 16 + v2 / 4 == b1
            && (v2 % 4) * 64 + b2 % 64 == b2
  {
  }

  lemma DecodeGroupEncodeGroup(b0: byte, b1: byte, b2: byte)
    ensures var g := EncodeGroup(b0, b1, b2);
            DecodeGroup(g[0], g[1], g[2], g[3]) == Some([b0, b1, b2])
  {
    var v0, v1, v2, v3 := b0 / 4, (b0 % 4) * 16 + b1 / 16, (b1 % 16) * 4 + b2 / 64, b2 % 64;
    ValueOfCharOf(v0);
    ValueOfCharOf(v1);
    ValueOfCharOf(v2);
    ValueOfCharOf(v3);
    GroupArithmetic(b0, b1, b2);
  }

  lemma DecodeEncodeOne(b0: byte)
    ensures Decode(Encode([b0])) == Some([b0])
  {
    ValueOfCharOf(b0 / 4);
    ValueOfCharOf((b0 % 4) * 16);
  }

  lemma DecodeEncodeTwo(b0: byte, b1: byte)
    ensures Decode(Encode([b0, b1])) == Some([b0, b1])
  {
    var v0, v1, v2 := b0 / 4, (b0 % 4) * 16 + b1 / 16, (b1 % 16) * 4;
    GroupArithmetic(b0, b1, 0);
    ValueOfCharOf(v0);
    ValueOfCharOf(v1);
    ValueOfCharOf(v2);
    assert Encode([b0, b1]) == [CharOf(v0), CharOf(v1), CharOf(v2), '='];
    assert CharOf(v2) != '=';
  }

  /** A full leading group decodes on its own, independently of what follows it. */
  lemma DecodeAppend(g: string, rest: string)
    requires |g| == 4 && |rest| > 0
    requires DecodeGroup(g[0], g[1], g[2], g[3]).Some? && Decode(rest).Some?
    ensures Decode(g + rest) == Some(DecodeGroup(g[0], g[1], g[2], g[3]).value + Decode(rest).value)
  {
    var e := g + rest;
    assert e[0] == g[0] && e[1] == g[1] && e[2] == g[2] && e[3] == g[3];
    assert e[4..] == rest;
  }

  lemma SplitThree<T>(s: seq<T>)
    requires |s| >= 3
    ensures [s[0], s[1], s[2]] + s[3..] == s
  {
  }

  lemma DecodeEncodeThree(s: seq<byte>)
    requires |s| == 3
    ensures Decode(Encode(s)) == Some(s)
  {
    var g := EncodeGroup(s[0], s[1], s[2]);
    DecodeGroupEncodeGroup(s[0], s[1], s[2]);
    assert Encode(s[3..]) == [];
    assert Encode(s) == g;
    assert g[3] != '=' by { assert ValueOf(g[3]).Some?; }
    assert s == [s[0], s[1], s[2]];
  }

  lemma DecodeEncodeStep(s: seq<byte>)
    requires |s| > 3 && Decode(Encode(s[3..])) == Some(s[3..])
    ensures Decode(Encode(s)) == Some(s)
  {
    var g := EncodeGroup(s[0], s[1], s[2]);
    DecodeGroupEncodeGroup(s[0], s[1], s[2]);
    var rest := Encode(s[3..]);
    assert Encode(s) == g + rest;
    assert DecodeGroup(g[0], g[1], g[2], g[3]) == Some([s[0], s[1], s[2]]);
    assert Decode(rest) == Some(s[3..]);
    DecodeAppend(g, rest);
    assert Decode(g + rest) == Some([s[0], s[1], s[2]] + s[3..]);
    SplitThree(s);
  }

  /** Decoding an encoding gives back the bytes. */
  lemma {:induction false} DecodeEncode(s: seq<byte>)
    ensures Decode(Encode(s)) == Some(s)
    decreases |s|
  {
    if |s| == 1 {
      assert s == [s[0]];
      DecodeEncodeOne(s[0]);
    } else if |s| == 2 {
      assert s == [s[0], s[1]];
      DecodeEncodeTwo(s[0], s[1]);
    } else if |s| == 3 {
      DecodeEncodeThree(s);
    } else if |s| > 3 {
      DecodeEncode(s[3..]);
      DecodeEncodeStep(s);
    }
  }

  lemma UngroupArithmetic(v0: sextet, v1: sextet, v2: sextet, v3: sextet)
    ensures var b0, b1, b2 := v0 * 4 + v1 / 16, (v1 % 16) * 16 + v2 / 4, (v2 % 4) * 64 + v3;
            && b0 / 4 == v0 && (b0 % 4) * 16 + b1 / 16 == v1
            && (b1 % 16) * 4 + b2 / 64 == v2 && b2 % 64 == v3
  {
    var a: int, b: int, c: int, d: int := v0, v1, v2, v3;
    assert (a * 4 + b / 16) / 4 == a && (a * 4 + b / 16) % 4 == b / 16;
    assert ((b % 16) * 16 + c / 4) / 16 == b % 16 && ((b % 16) * 16 + c / 4) % 16 == c / 4;
    assert ((c % 4) * 64 + d) / 64 == c % 4 && ((c % 4) * 64 + d) % 64 == d;
  }

  lemma EncodeGroupDecodeGroup(c0: char, c1: char, c2: char, c3: char)
    requires DecodeGroup(c0, c1, c2, c3).Some?
    ensures var b := DecodeGroup(c0, c1, c2, c3).value;
            |b| == 3 && EncodeGroup(b[0], b[1], b[2]) == [c0, c1, c2, c3]
  {
    var v0, v1, v2, v3 := ValueOf(c0).value, ValueOf(c1).value, ValueOf(c2).value, ValueOf(c3).value;
    UngroupArithmetic(v0, v1, v2, v3);
    var b := DecodeGroup(c0, c1, c2, c3).value;
    assert b[0] / 4 == v0 && (b[0] % 4) * 16 + b[1] / 16 == v1;
    assert (b[1] % 16) * 4 + b[2] / 64 == v2 && b[2] % 64 == v3;
    assert EncodeGroup(b[0], b[1], b[2]) == [CharOf(v0), CharOf(v1), CharOf(v2), CharOf(v3)];
  }

  lemma EncodeDecodeLastGroup(c0: char, c1: char, c2: char, c3: char)
    requires DecodeLastGroup(c0, c1, c2, c3).Some?
    ensures Encode(DecodeLastGroup(c0, c1, c2, c3).value) == [c0, c1, c2, c3]
  {
    if c3 != '=' {
      EncodeGroupDecodeGroup(c0, c1, c2, c3);
      var b := DecodeGroup(c0, c1, c2, c3).value;
      EncodeCons(b, []);
      assert b + [] == b;
    } else if c2 != '=' {
      EncodeDecodeOnePad(c0, c1, c2);
    } else {
      EncodeDecodeTwoPads(c0, c1);
    }
  }

  lemma EncodeDecodeOnePad(c0: char, c1: char, c2: char)
    requires DecodeLastGroup(c0, c1, c2, '=').Some? && c2 != '='
    ensures Encode(DecodeLastGroup(c0, c1, c2, '=').value) == [c0, c1, c2, '=']
  {
    var b := DecodeLastGroup(c0, c1, c2, '=').value;
    var v0: int, v1: int, v2: int := ValueOf(c0).value, ValueOf(c1).value, ValueOf(c2).value;
    var b0, b1 := v0 * 4 + v1 / 16, (v1 % 16) * 16 + v2 / 4;
    assert b0 / 4 == v0 && b0 % 4 == v1 / 16;
    assert b1 / 16 == v1 % 16 && (b1 % 16) * 4 == v2;
    assert b == [b0, b1];
  }

  lemma EncodeDecodeTwoPads(c0: char, c1: char)
    requires DecodeLastGroup(c0, c1, '=', '=').Some?
    ensures Encode(DecodeLastGroup(c0, c1, '=', '=').value) == [c0, c1, '=', '=']
  {
    var b := DecodeLastGroup(c0, c1, '=', '=').value;
    var v0: int, v1: int := ValueOf(c0).value, ValueOf(c1).value;
    var b0 := v0 * 4 + v1 / 16;
    assert b0 / 4 == v0 && (b0 % 4) * 16 == v1;
    assert b == [b0];
  }

  /** Three bytes in front encode as their group in front. */
  lemma EncodeCons(head: seq<byte>, tail: seq<byte>)
    requires |head| == 3
    ensures Encode(head + tail) == EncodeGroup(head[0], head[1], head[2]) + Encode(tail)
  {
    var s := head + tail;
    assert s[0] == head[0] && s[1] == head[1] && s[2] == head[2];
    assert s[3..] == tail;
  }

  /** Text longer than one group decodes group by group. */
  lemma DecodeUncons(s: string)
    requires |s| > 4 && Decode(s).Some?
    ensures DecodeGroup(s[0], s[1], s[2], s[3]).Some? && Decode(s[4..]).Some?
    ensures Decode(s).value == DecodeGroup(s[0], s[1], s[2], s[3]).value + Decode(s[4..]).value
  {
  }

  lemma EncodeDecodeStep(s: string)
    requires |s| > 4 && Decode(s).Some?
    requires Decode(s[4..]).Some? && Encode(Decode(s[4..]).value) == s[4..]
    ensures Encode(Decode(s).value) == s
  {
    DecodeUncons(s);
    var head := DecodeGroup(s[0], s[1], s[2], s[3]).value;
    var tail := Decode(s[4..]).value;
    EncodeGroupDecodeGroup(s[0], s[1], s[2], s[3]);
    EncodeCons(head, tail);
    SplitFour(s);
  }

  lemma SplitFour<T>(s: seq<T>)
    requires |s| >= 4
    ensures [s[0], s[1], s[2], s[3]] + s[4..] == s
  {
  }

  /**
   * Decoding accepts only canonical text: whatever decodes is exactly the
   * encoding of what it decodes to.
   */
  lemma {:induction false} EncodeDecode(s: string)
    requires Decode(s).Some?
    ensures Encode(Decode(s).value) == s
    decreases |s|
  {
    if |s| == 4 {
      EncodeDecodeLastGroup(s[0], s[1], s[2], s[3]);
      assert s == [s[0], s[1], s[2], s[3]];
    } else if |s| > 4 {
      EncodeDecode(s[4..]);
      EncodeDecodeStep(s);
    }
  }

  /** Encoding is injective: distinct byte strings never share an encoding. */
  lemma EncodeInjective(s: seq<byte>, t: seq<byte>)
    requires Encode(s) == Encode(t)
    ensures s == t
  {
    DecodeEncode(s);
    DecodeEncode(t);
  }

  /** An encoding never contains '&', the first character of the `&seq` marker. */
  lemma EncodeHasNoAmpersand(s: seq<byte>)
    ensures '&' !in Encode(s)
  {
    var r := Encode(s);
    forall i | 0 <= i < |r|
      ensures r[i] != '&'
    {
      assert IsEncodingChar(r[i]);
    }
  }

  /** Carriage return and line feed never occur in an encoding either. */
  lemma EncodeHasNoLineBreak(s: seq<byte>)
    ensures '\r' !in Encode(s) && '\n' !in Encode(s)
  {
    var r := Encode(s);
    forall i | 0 <= i < |r|
      ensures r[i] != '\r' && r[i] != '\n'
    {
      assert IsEncodingChar(r[i]);
    }
  }
}
