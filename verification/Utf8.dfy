/** The UTF-8 encoding of text (section 3 of RFC 3629). */
module Utf8 {

  /** The bytes of one character. */
  function EncodeChar(c: char): (r: seq<int>)
    ensures |r| > 0 && forall i | 0 <= i < |r| :: 0 <= r[i] < 0x100
  {
    var p := c as int;
    if p < 0x80 then [p]
    else if p < 0x800 then [0xC0 + p / 0x40, 0x80 + p % 0x40]
    else if p < 0x1_0000 then [0xE0 + p / 0x40 / 0x40, 0x80 + p / 0x40 % 0x40, 0x80 + p % 0x40]
    else [0xF0 + p / 0x40 / 0x40 / 0x40, 0x80 + p / 0x40 / 0x40 % 0x40, 0x80 + p / 0x40 % 0x40, 0x80 + p % 0x40]
  }

  function Encode(s: string): seq<int> {
    if s == "" then [] else EncodeChar(s[0]) + Encode(s[1..])
  }

  /** How many bytes the character takes that begins with this one. */
  function Extent(lead: int): nat {
    if lead < 0x80 then 1 else if lead < 0xE0 then 2 else if lead < 0xF0 then 3 else 4
  }

  /** The code point that the bytes of one character stand for. */
  function CodePoint(b: seq<int>): int
    requires 1 <= |b| <= 4
  {
    if |b| == 1 then b[0]
    else if |b| == 2 then (b[0] - 0xC0) * 0x40 + (b[1] - 0x80)
    else if |b| == 3 then (b[0] - 0xE0) * 0x1000 + (b[1] - 0x80) * 0x40 + (b[2] - 0x80)
    else (b[0] - 0xF0) * 0x4_0000 + (b[1] - 0x80) * 0x1000 + (b[2] - 0x80) * 0x40 + (b[3] - 0x80)
  }

  function Decode(bytes: seq<int>): seq<int>
    decreases |bytes|
  {
    if bytes == [] then []
    else
      var n := Extent(bytes[0]);
      if n > |bytes| then [] else [CodePoint(bytes[..n])] + Decode(bytes[n..])
  }

  function CodePoints(s: string): (r: seq<int>)
    ensures |r| == |s| && forall i | 0 <= i < |s| :: r[i] == s[i] as int
  {
    seq(|s|, i requires 0 <= i < |s| => s[i] as int)
  }

  lemma EncodedChar(c: char)
    ensures 1 <= |EncodeChar(c)| <= 4 && Extent(EncodeChar(c)[0]) == |EncodeChar(c)|
    ensures CodePoint(EncodeChar(c)) == c as int
  {
  }

  /** The bytes give the text back. */
  lemma {:induction false} DecodesBack(s: string)
    ensures Decode(Encode(s)) == CodePoints(s)
  {
    if s != "" {
      var first, rest := EncodeChar(s[0]), Encode(s[1..]);
      EncodedChar(s[0]);
      DecodesBack(s[1..]);
      hide EncodeChar, CodePoint;
      assert (first + rest)[..|first|] == first && (first + rest)[|first|..] == rest;
      assert CodePoints(s) == [s[0] as int] + CodePoints(s[1..]);
    }
  }
}
