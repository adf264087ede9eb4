/** Bytes and the text-to-bytes conversion the service relies on: Python's
    `str.encode()` (UTF-8) and `b''.join(...)`. */
module Bytes {

  newtype byte = b: int | 0 <= b < 256

  /** The line feed byte, b'\n'. */
  const LF: byte := 10

  /** The UTF-8 encoding of one Unicode scalar value. */
  function EncodeChar(c: char): (r: seq<byte>)
    ensures 1 <= |r| <= 4
    ensures c as int < 0x80 ==> r == [c as int as byte]
    ensures c as int >= 0x80 ==> forall i :: 0 <= i < |r| ==> r[i] >= 0x80
  {
    var n := c as int;
    if n < 0x80 then [n as byte]
    else if n < 0x800 then
      [(0xC0 + n / 0x40) as byte, (0x80 + n % 0x40) as byte]
    else if n < 0x1_0000 then
      [(0xE0 + n / 0x1000) as byte, (0x80 + (n / 0x40) % 0x40) as byte, (0x80 + n % 0x40) as byte]
    else
      [(0xF0 + n / 0x4_0000) as byte, (0x80 + (n / 0x1000) % 0x40) as byte,
       (0x80 + (n / 0x40) % 0x40) as byte, (0x80 + n % 0x40) as byte]
  }

  /** `s.encode()`: the UTF-8 encoding of a string. */
  function Encode(s: string): (r: seq<byte>)
    ensures |s| <= |r| <= 4 * |s|
  {
    if s == [] then [] else EncodeChar(s[0]) + Encode(s[1..])
  }

  /** Encoding is a homomorphism: encoding a concatenation concatenates the encodings. */
  lemma {:induction false} EncodeAppend(a: string, b: string)
    ensures Encode(a + b) == Encode(a) + Encode(b)
  {
    if a == [] {
      assert a + b == b;
    } else {
      assert (a + b)[0] == a[0];
      assert (a + b)[1..] == a[1..] + b;
      EncodeAppend(a[1..], b);
    }
  }

  /** An ASCII byte occurs in an encoding only where the string has that
      character: every byte of a multi-byte UTF-8 sequence is at least 0x80.
      So text without '\n' or '\r' encodes without b'\n' or b'\r'. */
  lemma {:induction false} EncodeOmits(s: string, c: char)
    requires c as int < 0x80 && c !in s
    ensures (c as int as byte) !in Encode(s)
  {
    if s != [] {
      assert s[0] != c;
      assert (c as int as byte) !in EncodeChar(s[0]);
      EncodeOmits(s[1..], c);
    }
  }

  /** A non-empty string has a non-empty encoding whose first byte comes from its first character. */
  lemma EncodeFirst(s: string)
    requires s != []
    ensures Encode(s) != [] && Encode(s)[0] == EncodeChar(s[0])[0]
  {
  }

  /** `b''.join(chunks)`: the chunks of a byte stream laid end to end. */
  function Concat(chunks: seq<seq<byte>>): (r: seq<byte>)
  {
    if chunks == [] then [] else chunks[0] + Concat(chunks[1..])
  }

  /** Laying out a split stream gives the two layouts one after the other. */
  lemma {:induction false} ConcatAppend(a: seq<seq<byte>>, b: seq<seq<byte>>)
    ensures Concat(a + b) == Concat(a) + Concat(b)
  {
    if a == [] {
      assert a + b == b;
    } else {
      assert (a + b)[0] == a[0];
      assert (a + b)[1..] == a[1..] + b;
      ConcatAppend(a[1..], b);
    }
  }
}
