/** UTF-8 as Python's `str.encode("utf-8")` and `bytes.decode("utf-8", "replace")` do it.
    A Dafny `char` is a Unicode scalar value, so every string has an encoding. */
module Utf8 {

  newtype byte = b: int | 0 <= b < 256

  /** U+FFFD, which the "replace" error handler puts in place of a bad sequence. */
  const Replacement: char := 0xFFFD as char

  predicate IsContinuation(b: byte)
  {
    0x80 <= b <= 0xBF
  }

  /** The one to four bytes that encode `c`. */
  function EncodeChar(c: char): (bs: seq<byte>)
    ensures 1 <= |bs| <= 4
    ensures |bs| == 1 <==> c as int < 0x80
    ensures |bs| == 1 ==> bs[0] as int == c as int
    ensures !IsContinuation(bs[0])
    ensures forall k :: 1 <= k < |bs| ==> IsContinuation(bs[k])
  {
    var n := c as int;
    var q1, r0 := n / 64, n % 64;
    var q2, r1 := q1 / 64, q1 % 64;
    var q3, r2 := q2 / 64, q2 % 64;
    if n < 0x80 then [n as byte]
    else if n < 0x800 then [(0xC0 + q1) as byte, (0x80 + r0) as byte]
    else if n < 0x10000 then [(0xE0 + q2) as byte, (0x80 + r1) as byte, (0x80 + r0) as byte]
    else [(0xF0 + q3) as byte, (0x80 + r2) as byte, (0x80 + r1) as byte, (0x80 + r0) as byte]
  }

  /** `s.encode("utf-8")` */
  function Encode(s: string): (bs: seq<byte>)
    ensures |bs| >= |s|
  {
    if s == [] then [] else EncodeChar(s[0]) + Encode(s[1..])
  }

  /** One step of the decoder: the character decoded from the front of `bs` and the
      number of bytes it used. A byte that cannot start a sequence, or the longest
      prefix of a sequence that breaks off, becomes one U+FFFD. */
  function DecodeStep(bs: seq<byte>): (r: (char, nat))
    requires bs != []
    ensures 1 <= r.1 <= |bs|
  {
    var b0 := bs[0] as int;
    if b0 < 0x80 then (b0 as char, 1)
    else if 0xC2 <= b0 <= 0xDF then
      if |bs| >= 2 && IsContinuation(bs[1]) then
        (((b0 - 0xC0) * 64 + (bs[1] as int - 0x80)) as char, 2)
      else (Replacement, 1)
    else if 0xE0 <= b0 <= 0xEF then
      var lo := if b0 == 0xE0 then 0xA0 else 0x80;
      var hi := if b0 == 0xED then 0x9F else 0xBF;
      if |bs| >= 2 && lo <= bs[1] as int <= hi then
        if |bs| >= 3 && IsContinuation(bs[2]) then
          var cp := ((b0 - 0xE0) * 64 + (bs[1] as int - 0x80)) * 64 + (bs[2] as int - 0x80);
          (cp as char, 3)
        else (Replacement, 2)
      else (Replacement, 1)
    else if 0xF0 <= b0 <= 0xF4 then
      var lo := if b0 == 0xF0 then 0x90 else 0x80;
      var hi := if b0 == 0xF4 then 0x8F else 0xBF;
      if |bs| >= 2 && lo <= bs[1] as int <= hi then
        if |bs| >= 3 && IsContinuation(bs[2]) then
          if |bs| >= 4 && IsContinuation(bs[3]) then
            var cp := (((b0 - 0xF0) * 64 + (bs[1] as int - 0x80)) * 64 + (bs[2] as int - 0x80)) * 64
                      + (bs[3] as int - 0x80);
            (cp as char, 4)
          else (Replacement, 3)
        else (Replacement, 2)
      else (Replacement, 1)
    else (Replacement, 1)
  }

  /** `bs.decode("utf-8", "replace")` */
  function Decode(bs: seq<byte>): (s: string)
    ensures |s| <= |bs|
    decreases |bs|
  {
    if bs == [] then []
    else
      var (c, n) := DecodeStep(bs);
      [c] + Decode(bs[n..])
  }

  /** The decoder reads back exactly the character the encoder wrote, whatever follows. */
  lemma DecodeStepEncodeChar(c: char, rest: seq<byte>)
    ensures DecodeStep(EncodeChar(c) + rest) == (c, |EncodeChar(c)|)
  {
    var n := c as int;
    var q1, r0 := n / 64, n % 64;
    var q2, r1 := q1 / 64, q1 % 64;
    var q3, r2 := q2 / 64, q2 % 64;
    assert n == q1 * 64 + r0;
    assert q1 == q2 * 64 + r1;
    assert q2 == q3 * 64 + r2;
    var bs := EncodeChar(c) + rest;
    if n < 0x80 {
    } else if n < 0x800 {
      assert bs[0] as int == 0xC0 + q1 && bs[1] as int == 0x80 + r0;
    } else if n < 0x10000 {
      assert bs[0] as int == 0xE0 + q2 && bs[1] as int == 0x80 + r1 && bs[2] as int == 0x80 + r0;
      assert q2 == 0 ==> r1 >= 32;
      assert q2 == 13 ==> r1 < 32;
    } else {
      assert bs[0] as int == 0xF0 + q3 && bs[1] as int == 0x80 + r2;
      assert bs[2] as int == 0x80 + r1 && bs[3] as int == 0x80 + r0;
      assert q3 == 0 ==> r2 >= 16;
      assert q3 == 4 ==> r2 < 16;
    }
  }

  /** Decoding an encoding gives the string back. */
  lemma {:induction false} DecodeEncode(s: string)
    ensures Decode(Encode(s)) == s
  {
    if s != [] {
      var e := EncodeChar(s[0]);
      var rest := Encode(s[1..]);
      DecodeStepEncodeChar(s[0], rest);
      assert (e + rest)[|e|..] == rest;
      DecodeEncode(s[1..]);
    }
  }

  /** The encoding of a concatenation is the concatenation of the encodings. */
  lemma {:induction false} EncodeAppend(a: string, b: string)
    ensures Encode(a + b) == Encode(a) + Encode(b)
  {
    if a == [] {
      assert a + b == b;
    } else {
      assert (a + b)[0] == a[0] && (a + b)[1..] == a[1..] + b;
      EncodeAppend(a[1..], b);
      assert Encode(a + b) == EncodeChar(a[0]) + (Encode(a[1..]) + Encode(b));
    }
  }
}
