/**
 * Bytes on the wire, and the UTF-8 encoding (RFC 3629, section 3) that
 * `str.encode('utf-8')` applies to text before it is written to a socket.
 */
module Encoding {

  newtype byte = x: int | 0 <= x < 0x100

  type Bytes = seq<byte>

  /** A UTF-8 continuation byte, 10xxxxxx. */
  predicate IsContinuation(b: byte) {
    0x80 <= b < 0xC0
  }

  /** Number of bytes UTF-8 uses for a scalar value. */
  function EncodedLength(c: char): (n: nat)
    ensures 1 <= n <= 4
  {
    var v := c as int;
    if v < 0x80 then 1 else if v < 0x800 then 2 else if v < 0x1_0000 then 3 else 4
  }

  /**
   * The UTF-8 encoding of one scalar value: a lead byte whose high bits give
   * the length, then 6-bit continuation bytes.
   */
  function EncodeChar(c: char): (r: Bytes)
    ensures |r| == EncodedLength(c)
    ensures |r| == 1 ==> r[0] as int == c as int
    ensures |r| == 2 ==> 0xC0 <= r[0] < 0xE0
    ensures |r| == 3 ==> 0xE0 <= r[0] < 0xF0
    ensures |r| == 4 ==> 0xF0 <= r[0] < 0xF8
    ensures forall i :: 1 <= i < |r| ==> IsContinuation(r[i])
  {
    var v := c as int;
    if v < 0x80 then
      [v as byte]
    else if v < 0x800 then
      [(0xC0 + v / 0x40) as byte, (0x80 + v % 0x40) as byte]
    else if v < 0x1_0000 then
      [(0xE0 + v / 0x1000) as byte, (0x80 + (v / 0x40) % 0x40) as byte, (0x80 + v % 0x40) as byte]
    else
      [(0xF0 + v / 0x4_0000) as byte, (0x80 + (v / 0x1000) % 0x40) as byte,
       (0x80 + (v / 0x40) % 0x40) as byte, (0x80 + v % 0x40) as byte]
  }

  /** The scalar value a well-formed 1- to 4-byte UTF-8 sequence stands for. */
  function CodePoint(r: Bytes): int
  {
    if |r| == 1 then r[0] as int
    else if |r| == 2 then (r[0] as int - 0xC0) * 0x40 + (r[1] as int - 0x80)
    else if |r| == 3 then
      ((r[0] as int - 0xE0) * 0x40 + (r[1] as int - 0x80)) * 0x40 + (r[2] as int - 0x80)
    else if |r| == 4 then
      (((r[0] as int - 0xF0) * 0x40 + (r[1] as int - 0x80)) * 0x40 + (r[2] as int - 0x80)) * 0x40
        + (r[3] as int - 0x80)
    else -1
  }

  /** Decoding a character's encoding gives the character back. */
  lemma EncodeCharRoundTrip(c: char)
    ensures CodePoint(EncodeChar(c)) == c as int
  {
    var v := c as int;
    var r := EncodeChar(c);
    if v < 0x80 {
    } else if v < 0x800 {
      assert v == (v / 0x40) * 0x40 + v % 0x40;
    } else if v < 0x1_0000 {
      var hi, lo := v / 0x40, v % 0x40;
      assert v == hi * 0x40 + lo;
      assert hi == (hi / 0x40) * 0x40 + hi % 0x40;
      assert hi / 0x40 == v / 0x1000;
    } else {
      var hi, lo := v / 0x40, v % 0x40;
      var top := hi / 0x40;
      assert v == hi * 0x40 + lo;
      assert hi == top * 0x40 + hi % 0x40;
      assert top == v / 0x1000;
      assert top == (top / 0x40) * 0x40 + top % 0x40;
      assert top / 0x40 == v / 0x4_0000;
    }
  }

  /** `s.encode('utf-8')`. */
  function Encode(s: string): (r: Bytes)
    ensures |r| >= |s|
  {
    if s == [] then [] else EncodeChar(s[0]) + Encode(s[1..])
  }

  /** Encoding distributes over concatenation. */
  lemma {:induction false} EncodeAppend(s: string, t: string)
    ensures Encode(s + t) == Encode(s) + Encode(t)
  {
    if s == [] {
      assert s + t == t;
    } else {
      assert (s + t)[1..] == s[1..] + t;
      EncodeAppend(s[1..], t);
    }
  }

  /** Text made only of ASCII characters encodes to one byte per character, with the same code. */
  lemma {:induction false} EncodeAscii(s: string)
    requires forall i :: 0 <= i < |s| ==> s[i] as int < 0x80
    ensures |Encode(s)| == |s|
    ensures forall i :: 0 <= i < |s| ==> Encode(s)[i] as int == s[i] as int
  {
    if s != [] {
      EncodeAscii(s[1..]);
    }
  }
}
