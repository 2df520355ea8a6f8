/** Base 64 encoding as defined in section 4 of RFC 4648 (alphabet
    A-Z a-z 0-9 + /, "=" padding), and the browser's `btoa`, which encodes a
    string whose characters are all at most U+00FF, byte per character. */
module Base64 {
  import opened Wrappers

  type byte = x: int | 0 <= x < 256

  /** The character for a 6-bit value, per Table 1 of RFC 4648. */
  function CharOf(v: int): (c: char)
    requires 0 <= v < 64
    ensures IsBase64Char(c)
  {
    if v < 26 then (65 + v) as char
    else if v < 52 then (97 + v - 26) as char
    else if v < 62 then (48 + v - 52) as char
    else if v == 62 then '+'
    else '/'
  }

  predicate IsBase64Char(c: char) {
    ('A' <= c <= 'Z') || ('a' <= c <= 'z') || ('0' <= c <= '9') || c == '+' || c == '/'
  }

  /** The 6-bit value of an alphabet character; None for anything else. */
  function ValueOf(c: char): (r: Option<int>)
    ensures r.Some? <==> IsBase64Char(c)
    ensures r.Some? ==> 0 <= r.value < 64 && CharOf(r.value) == c
  {
    if 'A' <= c <= 'Z' then Some(c as int - 65)
    else if 'a' <= c <= 'z' then Some(c as int - 97 + 26)
    else if '0' <= c <= '9' then Some(c as int - 48 + 52)
    else if c == '+' then Some(62)
    else if c == '/' then Some(63)
    else None
  }

  lemma ValueOfCharOf(v: int)
    requires 0 <= v < 64
    ensures ValueOf(CharOf(v)) == Some(v)
  {
  }

  /** Three bytes become four characters. */
  function EncodeGroup(b0: byte, b1: byte, b2: byte): string {
    [CharOf(b0 / 4), CharOf((b0 % 4) * 16 + b1 / 16), CharOf((b1 % 16) * 4 + b2 / 64), CharOf(b2 % 64)]
  }

  /** The encoding of `b`: full groups, then a final group of one or two bytes
      padded with "==" or "=". */
  function Encode(b: seq<byte>): (r: string)
    ensures |r| == 4 * ((|b| + 2) / 3)
    ensures forall i | 0 <= i < |r| :: IsBase64Char(r[i]) || r[i] == '='
    decreases |b|
  {
    if |b| == 0 then []
    else if |b| == 1 then [CharOf(b[0] / 4), CharOf((b[0] % 4) * 16), '=', '=']
    else if |b| == 2 then [CharOf(b[0] / 4), CharOf((b[0] % 4) * 16 + b[1] / 16), CharOf((b[1] % 16) * 4), '=']
    else
      assert (|b| - 3 + 2) / 3 == (|b| + 2) / 3 - 1;
      EncodeGroup(b[0], b[1], b[2]) + Encode(b[3..])
  }

  /** The three bytes of a full group of four 6-bit values. */
  function GroupBytes(v0: int, v1: int, v2: int, v3: int): seq<byte>
    requires 0 <= v0 < 64 && 0 <= v1 < 64 && 0 <= v2 < 64 && 0 <= v3 < 64
  {
    [v0 * 4 + v1 / 16, (v1 % 16) * 16 + v2 / 4, (v2 % 4) * 64 + v3]
  }

  /** Decoding of canonical base 64: a length that is a multiple of four,
      alphabet characters only, padding only in the last group and zero bits
      where padding drops them. None for anything else. */
  function Decode(s: string): Option<seq<byte>>
    decreases |s|
  {
    if |s| == 0 then Some([])
    else if |s| < 4 then None
    else
      var v0, v1, v2, v3 := ValueOf(s[0]), ValueOf(s[1]), ValueOf(s[2]), ValueOf(s[3]);
      if v0.None? || v1.None? then None
      else if |s| == 4 && s[2] == '=' && s[3] == '=' then
        if v1.value % 16 == 0 then Some([v0.value * 4 + v1.value / 16]) else None
      else if v2.None? then None
      else if |s| == 4 && s[3] == '=' then
        if v2.value % 4 == 0 then Some([v0.value * 4 + v1.value / 16, (v1.value % 16) * 16 + v2.value / 4])
        else None
      else if v3.None? then None
      else
        match Decode(s[4..])
        case None => None
        case Some(rest) => Some(GroupBytes(v0.value, v1.value, v2.value, v3.value) + rest)
  }

  lemma GroupRoundTrip(b0: byte, b1: byte, b2: byte)
    ensures GroupBytes(b0 / 4, (b0 % 4) * 16 + b1 / 16, (b1 % 16) * 4 + b2 / 64, b2 % 64) == [b0, b1, b2]
  {
  }

  /** Four alphabet characters decode as a full group. */
  lemma DecodeStep(s: string)
    requires |s| >= 4
    requires IsBase64Char(s[0]) && IsBase64Char(s[1]) && IsBase64Char(s[2]) && IsBase64Char(s[3])
    ensures Decode(s) ==
            match Decode(s[4..])
            case None => None
            case Some(r) => Some(GroupBytes(ValueOf(s[0]).value, ValueOf(s[1]).value, ValueOf(s[2]).value, ValueOf(s[3]).value) + r)
  {
  }

  /** A full group in front of an encoding decodes to its three bytes. */
  lemma DecodeFullGroup(b0: byte, b1: byte, b2: byte, rest: string)
    ensures Decode(EncodeGroup(b0, b1, b2) + rest) ==
            match Decode(rest)
            case None => None
            case Some(r) => Some([b0, b1, b2] + r)
  {
    var v0, v1, v2, v3 := b0 / 4, (b0 % 4) * 16 + b1 / 16, (b1 % 16) * 4 + b2 / 64, b2 % 64;
    var s := EncodeGroup(b0, b1, b2) + rest;
    assert s[0] == CharOf(v0) && s[1] == CharOf(v1) && s[2] == CharOf(v2) && s[3] == CharOf(v3);
    DecodeStep(s);
    ValueOfCharOf(v0);
    ValueOfCharOf(v1);
    ValueOfCharOf(v2);
    ValueOfCharOf(v3);
    GroupRoundTrip(b0, b1, b2);
    assert s[4..] == rest;
  }

  lemma DecodeOneByte(b0: byte)
    ensures Decode([CharOf(b0 / 4), CharOf((b0 % 4) * 16), '=', '=']) == Some([b0])
  {
    ValueOfCharOf(b0 / 4);
    ValueOfCharOf((b0 % 4) * 16);
    assert b0 / 4 * 4 + (b0 % 4) * 16 / 16 == b0;
  }

  lemma DecodeTwoBytes(b0: byte, b1: byte)
    ensures Decode([CharOf(b0 / 4), CharOf((b0 % 4) * 16 + b1 / 16), CharOf((b1 % 16) * 4), '=']) == Some([b0, b1])
  {
    var v0, v1, v2 := b0 / 4, (b0 % 4) * 16 + b1 / 16, (b1 % 16) * 4;
    ValueOfCharOf(v0);
    ValueOfCharOf(v1);
    ValueOfCharOf(v2);
    assert v0 * 4 + v1 / 16 == b0;
    assert (v1 % 16) * 16 + v2 / 4 == b1;
  }

  /** Decoding inverts encoding. */
  lemma {:induction false} DecodeEncode(b: seq<byte>)
    ensures Decode(Encode(b)) == Some(b)
    decreases |b|
  {
    if |b| == 0 {
    } else if |b| == 1 {
      DecodeOneByte(b[0]);
      assert [b[0]] == b;
    } else if |b| == 2 {
      DecodeTwoBytes(b[0], b[1]);
      assert [b[0], b[1]] == b;
    } else {
      DecodeEncodeGroups(b);
    }
  }

  lemma {:induction false} DecodeEncodeGroups(b: seq<byte>)
    requires |b| >= 3
    ensures Decode(Encode(b)) == Some(b)
    decreases |b|, 0
  {
    var rest := Encode(b[3..]);
    calc {
      Decode(Encode(b));
      Decode(EncodeGroup(b[0], b[1], b[2]) + rest);
      { DecodeFullGroup(b[0], b[1], b[2], rest); DecodeEncode(b[3..]); }
      Some([b[0], b[1], b[2]] + b[3..]);
      { assert b == [b[0], b[1], b[2]] + b[3..]; }
      Some(b);
    }
  }

  /** The one-byte-per-character image of `s`, when every character of it is
      at most U+00FF. */
  function Latin1Bytes(s: string): (r: Option<seq<byte>>)
    ensures r.Some? <==> forall i | 0 <= i < |s| :: s[i] as int < 256
    ensures r.Some? ==> |r.value| == |s| && forall i | 0 <= i < |s| :: r.value[i] == s[i] as int
    decreases |s|
  {
    if s == [] then Some([])
    else if s[0] as int >= 256 then None
    else
      match Latin1Bytes(s[1..])
      case None => None
      case Some(rest) => Some([s[0] as int] + rest)
  }

  /** `btoa(s)`: the encoding of the bytes of `s`; None where the browser
      throws because some character is above U+00FF. */
  function Btoa(s: string): (r: Option<string>)
    ensures r.Some? <==> forall i | 0 <= i < |s| :: s[i] as int < 256
  {
    match Latin1Bytes(s)
    case None => None
    case Some(b) => Some(Encode(b))
  }

  /** `btoa` loses nothing: decoding its output gives back the character codes. */
  lemma BtoaDecodes(s: string)
    requires Btoa(s).Some?
    ensures Decode(Btoa(s).value) == Latin1Bytes(s)
  {
    DecodeEncode(Latin1Bytes(s).value);
  }
}
