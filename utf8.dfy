/** UTF-8 as Node.js applies it: `new Buffer(text)` encodes a string as UTF-8,
    and `buffer.toString()` decodes bytes, replacing every ill-formed subsequence
    with U+FFFD as the WHATWG Encoding Standard's UTF-8 decoder does
    (one replacement per maximal subpart). */
module Utf8 {
  import opened Bytes

  const Replacement: char := '�'

  /** The bytes of one Unicode scalar value: 1 to 4 of them, by the ranges of
      table 3-6 of the Unicode Standard. */
  function EncodeChar(c: char): (bs: seq<byte>)
    ensures 1 <= |bs| <= 4
  {
    var n := c as int;
    if n < 0x80 then [n]
    else if n < 0x800 then [0xC0 + n / 64, 0x80 + n % 64]
    else if n < 0x10000 then [0xE0 + n / 4096, 0x80 + n / 64 % 64, 0x80 + n % 64]
    else [0xF0 + n / 0x40000, 0x80 + n / 4096 % 64, 0x80 + n / 64 % 64, 0x80 + n % 64]
  }

  /** The encoding of a whole string: the encodings of its characters, in order. */
  function Encode(s: string): (bs: seq<byte>)
    ensures |s| <= |bs| <= 4 * |s|
  {
    if s == [] then [] else EncodeChar(s[0]) + Encode(s[1..])
  }

  predicate IsContinuation(b: byte) { 0x80 <= b <= 0xBF }

  /** Decodes one character from the front of a non-empty byte sequence and says
      how many bytes it used. An ill-formed prefix yields U+FFFD and uses exactly
      the bytes of its maximal subpart (at least one). */
  function DecodeStep(bs: seq<byte>): (st: (char, nat))
    requires |bs| > 0
    ensures 1 <= st.1 <= |bs| && st.1 <= 4
  {
    var b0 := bs[0] as int;
    if b0 < 0x80 then
      (b0 as char, 1)
    else if 0xC2 <= b0 <= 0xDF then
      if |bs| < 2 || !IsContinuation(bs[1]) then (Replacement, 1)
      else (((b0 - 0xC0) * 64 + (bs[1] as int - 0x80)) as char, 2)
    else if 0xE0 <= b0 <= 0xEF then
      var lo := if b0 == 0xE0 then 0xA0 else 0x80;
      var hi := if b0 == 0xED then 0x9F else 0xBF;
      if |bs| < 2 || !(lo <= bs[1] <= hi) then (Replacement, 1)
      else if |bs| < 3 || !IsContinuation(bs[2]) then (Replacement, 2)
      else (((b0 - 0xE0) * 4096 + (bs[1] as int - 0x80) * 64 + (bs[2] as int - 0x80)) as char, 3)
    else if 0xF0 <= b0 <= 0xF4 then
      var lo := if b0 == 0xF0 then 0x90 else 0x80;
      var hi := if b0 == 0xF4 then 0x8F else 0xBF;
      if |bs| < 2 || !(lo <= bs[1] <= hi) then (Replacement, 1)
      else if |bs| < 3 || !IsContinuation(bs[2]) then (Replacement, 2)
      else if |bs| < 4 || !IsContinuation(bs[3]) then (Replacement, 3)
      else (((b0 - 0xF0) * 0x40000 + (bs[1] as int - 0x80) * 4096 + (bs[2] as int - 0x80) * 64 + (bs[3] as int - 0x80)) as char, 4)
    else
      (Replacement, 1)
  }

  /** `buffer.toString()`: never fails, and yields at most one character per byte. */
  function Decode(bs: seq<byte>): (s: string)
    ensures |s| <= |bs|
    decreases |bs|
  {
    if bs == [] then []
    else
      var st := DecodeStep(bs);
      [st.0] + Decode(bs[st.1..])
  }

  /** Splits a code point at or above 0x800 into 6-bit groups. */
  lemma Sextets(n: nat)
    ensures n / 64 == n / 4096 * 64 + n / 64 % 64
    ensures n / 4096 == n / 0x40000 * 64 + n / 4096 % 64
    ensures n == n / 64 * 64 + n % 64
  {
  }

  /** The decoder reads back exactly the character the encoder wrote, whatever follows it. */
  lemma DecodeStepEncodeChar(c: char, rest: seq<byte>)
    ensures DecodeStep(EncodeChar(c) + rest) == (c, |EncodeChar(c)|)
  {
    var n := c as int;
    var bs := EncodeChar(c) + rest;
    Sextets(n);
    if n < 0x80 {
    } else if n < 0x800 {
      assert bs[0] == 0xC0 + n / 64 && bs[1] == 0x80 + n % 64;
      assert (bs[0] as int - 0xC0) * 64 + (bs[1] as int - 0x80) == n;
    } else if n < 0x10000 {
      assert bs[0] == 0xE0 + n / 4096 && bs[1] == 0x80 + n / 64 % 64 && bs[2] == 0x80 + n % 64;
      assert (bs[0] as int - 0xE0) * 4096 + (bs[1] as int - 0x80) * 64 + (bs[2] as int - 0x80) == n;
    } else {
      assert bs[0] == 0xF0 + n / 0x40000 && bs[1] == 0x80 + n / 4096 % 64;
      assert bs[2] == 0x80 + n / 64 % 64 && bs[3] == 0x80 + n % 64;
      assert (bs[0] as int - 0xF0) * 0x40000 + (bs[1] as int - 0x80) * 4096 + (bs[2] as int - 0x80) * 64 + (bs[3] as int - 0x80) == n;
    }
  }

  /** Round trip: `new Buffer(s).toString() == s` for every string of scalar values. */
  lemma {:induction false} DecodeEncode(s: string)
    ensures Decode(Encode(s)) == s
  {
    if s != [] {
      var head := EncodeChar(s[0]);
      var tail := Encode(s[1..]);
      DecodeStepEncodeChar(s[0], tail);
      assert (head + tail)[|head|..] == tail;
      DecodeEncode(s[1..]);
    }
  }
}
