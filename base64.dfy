/** The "base64" encoding of section 4 of RFC 4648: the 64-character alphabet of
    its table 1 and `=` padding, as `buffer.toString('base64')` produces it. The
    decoder is the strict one of that section: it accepts only canonical text
    (length a multiple of 4, padding only at the end, zero pad bits, as
    RFC 4648 section 3.5 permits a decoder to require). */
module Base64 {
  import opened Bytes
  import opened Wrappers

  type sextet = v: int | 0 <= v < 64

  const Pad: char := '='

  /** The character that encodes a 6-bit value. */
  function CharOf(v: sextet): (c: char)
    ensures c != Pad
  {
    if v < 26 then ('A' as int + v) as char
    else if v < 52 then ('a' as int + (v - 26)) as char
    else if v < 62 then ('0' as int + (v - 52)) as char
    else if v == 62 then '+'
    else '/'
  }

  /** The 6-bit value a character encodes; None for a character outside the alphabet. */
  function ValueOf(c: char): (r: Option<sextet>)
    ensures r.Some? ==> CharOf(r.value) == c
  {
    if 'A' <= c <= 'Z' then Some(c as int - 'A' as int)
    else if 'a' <= c <= 'z' then Some(c as int - 'a' as int + 26)
    else if '0' <= c <= '9' then Some(c as int - '0' as int + 52)
    else if c == '+' then Some(62)
    else if c == '/' then Some(63)
    else None
  }

  /** ValueOf reads back what CharOf writes. */
  lemma ValueOfCharOf(v: sextet)
    ensures ValueOf(CharOf(v)) == Some(v)
  {
  }

  /** The four 6-bit values of a 24-bit group of three octets, most significant first. */
  function Split(a: byte, b: byte, c: byte): (vs: seq<sextet>)
    ensures |vs| == 4
  {
    [a / 4, a % 4 * 16 + b / 16, b % 16 * 4 + c / 64, c % 64]
  }

  /** The three octets of a 24-bit group given as four 6-bit values. */
  function Join(v0: sextet, v1: sextet, v2: sextet, v3: sextet): (bs: seq<byte>)
    ensures |bs| == 3
  {
    [v0 * 4 + v1 / 16, v1 % 16 * 16 + v2 / 4, v2 % 4 * 64 + v3]
  }

  lemma JoinSplit(a: byte, b: byte, c: byte)
    ensures var vs := Split(a, b, c); Join(vs[0], vs[1], vs[2], vs[3]) == [a, b, c]
  {
    var v1 := a % 4 * 16 + b / 16;
    var v2 := b % 16 * 4 + c / 64;
    assert v1 / 16 == a % 4 && v1 % 16 == b / 16;
    assert v2 / 4 == b % 16 && v2 % 4 == c / 64;
  }

  lemma SplitJoin(v0: sextet, v1: sextet, v2: sextet, v3: sextet)
    ensures var bs := Join(v0, v1, v2, v3); Split(bs[0], bs[1], bs[2]) == [v0, v1, v2, v3]
  {
    var a := v0 * 4 + v1 / 16;
    var b := v1 % 16 * 16 + v2 / 4;
    var c := v2 % 4 * 64 + v3;
    assert a / 4 == v0 && a % 4 == v1 / 16;
    assert b / 16 == v1 % 16 && b % 16 == v2 / 4;
    assert c / 64 == v2 % 4 && c % 64 == v3;
  }

  /** Three octets as four characters (RFC 4648 section 4, one full 24-bit group). */
  function EncodeGroup(a: byte, b: byte, c: byte): (t: seq<char>)
    ensures |t| == 4
  {
    var vs := Split(a, b, c);
    [CharOf(vs[0]), CharOf(vs[1]), CharOf(vs[2]), CharOf(vs[3])]
  }

  function Pads(k: nat): (t: seq<char>)
    requires k <= 2
    ensures |t| == k && forall i :: 0 <= i < k ==> t[i] == Pad
  {
    if k == 0 then [] else if k == 1 then [Pad] else [Pad, Pad]
  }

  /** The four characters for a chunk of one to three octets: the group with the
      missing octets taken as zero bits, cut after the characters those octets
      touch, and padded with `=` back to four. */
  function EncodeChunk(g: seq<byte>): (t: seq<char>)
    requires 1 <= |g| <= 3
    ensures |t| == 4
  {
    var chars := EncodeGroup(g[0], if |g| > 1 then g[1] else 0, if |g| > 2 then g[2] else 0);
    chars[..|g| + 1] + Pads(3 - |g|)
  }

  /** The number of characters for `n` octets, one group at a time. */
  lemma GroupCount(n: nat)
    ensures n == 0 ==> (n + 2) / 3 * 4 == 0
    ensures 1 <= n <= 3 ==> (n + 2) / 3 * 4 == 4
    ensures n > 3 ==> (n + 2) / 3 * 4 == (n - 3 + 2) / 3 * 4 + 4
  {
  }

  /** The text for a byte sequence: one 4-character group per 3 octets, the last
      group padded with `=` when 1 or 2 octets remain. */
  function Encode(s: seq<byte>): (t: seq<char>)
    ensures |t| == (|s| + 2) / 3 * 4
    decreases |s|
  {
    GroupCount(|s|);
    if |s| == 0 then []
    else if |s| <= 3 then EncodeChunk(s)
    else EncodeChunk(s[..3]) + Encode(s[3..])
  }

  /** Decodes a group of four characters. Only the last group of the text may end
      in one or two pad characters, and then the bits they leave over must be zero. */
  function DecodeChunk(c0: char, c1: char, c2: char, c3: char, last: bool): (r: Option<seq<byte>>)
    ensures r.Some? ==> 1 <= |r.value| <= 3 && (!last ==> |r.value| == 3)
  {
    var pads := if !last || c3 != Pad then 0 else if c2 == Pad then 2 else 1;
    var v0, v1 := ValueOf(c0), ValueOf(c1);
    var v2 := if pads == 2 then Some(0) else ValueOf(c2);
    var v3 := if pads >= 1 then Some(0) else ValueOf(c3);
    if v0.None? || v1.None? || v2.None? || v3.None? then None
    else if pads == 2 && v1.value % 16 != 0 then None
    else if pads == 1 && v2.value % 4 != 0 then None
    else Some(Join(v0.value, v1.value, v2.value, v3.value)[..3 - pads])
  }

  /** The octets a text encodes, or None when the text is not canonical base64. */
  function Decode(t: seq<char>): (r: Option<seq<byte>>)
    decreases |t|
  {
    if |t| == 0 then Some([])
    else if |t| < 4 then None
    else
      match DecodeChunk(t[0], t[1], t[2], t[3], |t| == 4)
      case None => None
      case Some(g) =>
        match Decode(t[4..])
        case None => None
        case Some(rest) => Some(g + rest)
  }

  lemma OneOctetChunk(a: byte)
    ensures var vs := Split(a, 0, 0);
      && EncodeChunk([a]) == [CharOf(vs[0]), CharOf(vs[1]), Pad, Pad]
      && DecodeChunk(CharOf(vs[0]), CharOf(vs[1]), Pad, Pad, true) == Some([a])
  {
    var vs := Split(a, 0, 0);
    ValueOfCharOf(vs[0]);
    ValueOfCharOf(vs[1]);
    JoinSplit(a, 0, 0);
    assert vs[2] == 0 && vs[3] == 0 && vs[1] % 16 == 0;
    assert Join(vs[0], vs[1], 0, 0)[..1] == [a];
  }

  lemma TwoOctetsChunk(a: byte, b: byte)
    ensures var vs := Split(a, b, 0);
      && EncodeChunk([a, b]) == [CharOf(vs[0]), CharOf(vs[1]), CharOf(vs[2]), Pad]
      && DecodeChunk(CharOf(vs[0]), CharOf(vs[1]), CharOf(vs[2]), Pad, true) == Some([a, b])
  {
    var vs := Split(a, b, 0);
    ValueOfCharOf(vs[0]);
    ValueOfCharOf(vs[1]);
    ValueOfCharOf(vs[2]);
    JoinSplit(a, b, 0);
    assert vs[3] == 0 && vs[2] % 4 == 0;
    assert Join(vs[0], vs[1], vs[2], 0)[..2] == [a, b];
  }

  lemma ThreeOctetsChunk(a: byte, b: byte, c: byte, last: bool)
    ensures EncodeChunk([a, b, c]) == EncodeGroup(a, b, c)
    ensures var t := EncodeGroup(a, b, c); DecodeChunk(t[0], t[1], t[2], t[3], last) == Some([a, b, c])
  {
    var vs := Split(a, b, c);
    ValueOfCharOf(vs[0]);
    ValueOfCharOf(vs[1]);
    ValueOfCharOf(vs[2]);
    ValueOfCharOf(vs[3]);
    JoinSplit(a, b, c);
    var t := EncodeGroup(a, b, c);
    assert t == [CharOf(vs[0]), CharOf(vs[1]), CharOf(vs[2]), CharOf(vs[3])];
    assert t[3] != Pad;
    assert Join(vs[0], vs[1], vs[2], vs[3])[..3] == [a, b, c];
  }

  /** A chunk is read back from its four characters; a short chunk only as the last one. */
  lemma ChunkRoundTrip(g: seq<byte>, last: bool)
    requires 1 <= |g| <= 3 && (|g| < 3 ==> last)
    ensures var t := EncodeChunk(g); DecodeChunk(t[0], t[1], t[2], t[3], last) == Some(g)
  {
    if |g| == 1 {
      assert g == [g[0]];
      OneOctetChunk(g[0]);
    } else if |g| == 2 {
      assert g == [g[0], g[1]];
      TwoOctetsChunk(g[0], g[1]);
    } else {
      assert g == [g[0], g[1], g[2]];
      ThreeOctetsChunk(g[0], g[1], g[2], last);
    }
  }

  /** A chunk DecodeChunk accepts is re-encoded to the same four characters. */
  lemma ChunkReencodes(c0: char, c1: char, c2: char, c3: char, last: bool)
    requires DecodeChunk(c0, c1, c2, c3, last).Some?
    ensures EncodeChunk(DecodeChunk(c0, c1, c2, c3, last).value) == [c0, c1, c2, c3]
  {
    var g := DecodeChunk(c0, c1, c2, c3, last).value;
    var pads := if !last || c3 != Pad then 0 else if c2 == Pad then 2 else 1;
    var v0, v1 := ValueOf(c0).value, ValueOf(c1).value;
    var v2 := if pads == 2 then 0 else ValueOf(c2).value;
    var v3 := if pads >= 1 then 0 else ValueOf(c3).value;
    var bs := Join(v0, v1, v2, v3);
    SplitJoin(v0, v1, v2, v3);
    assert g == bs[..3 - pads];
    if pads == 2 {
      assert Split(bs[0], 0, 0)[1] == v1;
    } else if pads == 1 {
      assert Split(bs[0], bs[1], 0)[2] == v2;
    }
  }

  /** Decoding text that starts with a group: the group's octets, then the rest's. */
  lemma DecodeCons(chunk: seq<char>, rest: seq<char>)
    requires |chunk| == 4
    ensures Decode(chunk + rest)
         == match DecodeChunk(chunk[0], chunk[1], chunk[2], chunk[3], rest == [])
            case None => None
            case Some(g) => match Decode(rest) { case None => None case Some(r) => Some(g + r) }
  {
    var t := chunk + rest;
    assert t[0] == chunk[0] && t[1] == chunk[1] && t[2] == chunk[2] && t[3] == chunk[3];
    assert t[4..] == rest;
  }

  /** Encoding a chunk in front of more octets: its group, then the rest's text. */
  lemma EncodeCons(g: seq<byte>, rest: seq<byte>)
    requires 1 <= |g| <= 3 && (|g| < 3 ==> rest == [])
    ensures Encode(g + rest) == EncodeChunk(g) + Encode(rest)
  {
    var s := g + rest;
    assert s[..|g|] == g && s[|g|..] == rest;
  }

  /** Decoding undoes encoding, for every byte sequence. */
  lemma {:induction false} DecodeEncode(s: seq<byte>)
    ensures Decode(Encode(s)) == Some(s)
    decreases |s|
  {
    if |s| > 0 {
      var n := if |s| < 3 then |s| else 3;
      var g, rest := s[..n], s[n..];
      assert s == g + rest;
      EncodeCons(g, rest);
      DecodeEncode(rest);
      ChunkRoundTrip(g, rest == []);
      DecodeCons(EncodeChunk(g), Encode(rest));
      assert Encode(rest) == [] <==> rest == [];
    }
  }

  /** One step of Decode on a text it accepts: a first group, then a text it also accepts. */
  lemma DecodeAccepted(t: seq<char>)
    requires |t| > 0 && Decode(t).Some?
    ensures |t| >= 4
    ensures DecodeChunk(t[0], t[1], t[2], t[3], |t| == 4).Some?
    ensures Decode(t[4..]).Some?
    ensures |t| == 4 ==> Decode(t[4..]) == Some([])
    ensures Decode(t).value == DecodeChunk(t[0], t[1], t[2], t[3], |t| == 4).value + Decode(t[4..]).value
  {
  }

  /** A text whose first group is the encoding of a chunk and whose tail is the
      encoding of the rest is the encoding of the chunk followed by the rest. */
  lemma Reassemble(t: seq<char>, g: seq<byte>, rest: seq<byte>)
    requires |t| >= 4 && 1 <= |g| <= 3 && (|g| < 3 ==> rest == [])
    requires EncodeChunk(g) == [t[0], t[1], t[2], t[3]] && Encode(rest) == t[4..]
    ensures Encode(g + rest) == t
  {
    EncodeCons(g, rest);
    assert t == [t[0], t[1], t[2], t[3]] + t[4..];
  }

  /** The decoder accepts only what the encoder writes: canonical text has exactly one reading. */
  lemma {:induction false} EncodeDecode(t: seq<char>, s: seq<byte>)
    requires Decode(t) == Some(s)
    ensures Encode(s) == t
    decreases |t|
  {
    if |t| > 0 {
      DecodeAccepted(t);
      var g := DecodeChunk(t[0], t[1], t[2], t[3], |t| == 4).value;
      var rest := Decode(t[4..]).value;
      ChunkReencodes(t[0], t[1], t[2], t[3], |t| == 4);
      EncodeDecode(t[4..], rest);
      Reassemble(t, g, rest);
    }
  }
}
