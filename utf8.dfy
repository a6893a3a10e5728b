/**
 * UTF-8, as Python's `str.encode("utf-8")` produces it: the bytes that
 * dataset_signature feeds to the hasher. The decoder is the inverse used to
 * show that the encoding loses nothing.
 */
module Utf8 {
  import opened Wrappers

  type byte = b: int | 0 <= b < 256

  /** The continuation byte that carries the low six bits of `x`. */
  function Continuation(x: nat): byte
  {
    0x80 + x % 64
  }

  /** The UTF-8 encoding of one Unicode scalar value: one to four bytes. */
  function EncodeChar(c: char): seq<byte>
  {
    var n := c as int;
    if n < 0x80 then [n]
    else if n < 0x800 then [0xC0 + n / 64, Continuation(n)]
    else if n < 0x10000 then [0xE0 + n / 64 / 64, Continuation(n / 64), Continuation(n)]
    else [0xF0 + n / 64 / 64 / 64, Continuation(n / 64 / 64), Continuation(n / 64), Continuation(n)]
  }

  /** `s.encode("utf-8")`. */
  function Encode(s: string): seq<byte>
  {
    if s == [] then [] else EncodeChar(s[0]) + Encode(s[1..])
  }

  /** The length of the sequence a lead byte announces; 0 for a byte that cannot lead. */
  function SequenceLength(b: byte): nat
  {
    if b < 0x80 then 1
    else if 0xC0 <= b < 0xE0 then 2
    else if 0xE0 <= b < 0xF0 then 3
    else if 0xF0 <= b < 0xF8 then 4
    else 0
  }

  predicate IsContinuation(b: byte)
  {
    0x80 <= b < 0xC0
  }

  predicate IsScalarValue(n: int)
  {
    (0 <= n < 0xD800) || (0xE000 <= n < 0x110000)
  }

  /** Decodes one complete sequence whose length its lead byte announces. */
  function DecodeChar(bs: seq<byte>): Option<char>
    requires 1 <= |bs| <= 4 && SequenceLength(bs[0]) == |bs|
  {
    if exists k :: 1 <= k < |bs| && !IsContinuation(bs[k]) then None
    else
      var b: seq<int> := bs;
      var n: int :=
        if |bs| == 1 then b[0]
        else if |bs| == 2 then (b[0] - 0xC0) * 64 + (b[1] - 0x80)
        else if |bs| == 3 then ((b[0] - 0xE0) * 64 + (b[1] - 0x80)) * 64 + (b[2] - 0x80)
        else (((b[0] - 0xF0) * 64 + (b[1] - 0x80)) * 64 + (b[2] - 0x80)) * 64 + (b[3] - 0x80);
      if IsScalarValue(n) then Some(n as char) else None
  }

  /** Decodes a byte sequence; None when it is not well-formed. */
  function Decode(bs: seq<byte>): Option<string>
    decreases |bs|
  {
    if bs == [] then Some([])
    else
      var len := SequenceLength(bs[0]);
      if len == 0 || |bs| < len then None
      else match DecodeChar(bs[..len])
        case None => None
        case Some(c) =>
          match Decode(bs[len..])
          case None => None
          case Some(rest) => Some([c] + rest)
  }

  /** Every character is encoded by a sequence its own lead byte delimits, and decodes back. */
  lemma {:induction false} EncodeCharDecodes(c: char)
    ensures 1 <= |EncodeChar(c)| <= 4
    ensures SequenceLength(EncodeChar(c)[0]) == |EncodeChar(c)|
    ensures DecodeChar(EncodeChar(c)) == Some(c)
  {
    var n := c as int;
    var e := EncodeChar(c);
    assert forall k :: 1 <= k < |e| ==> IsContinuation(e[k]);
    assert n == n / 64 * 64 + n % 64;
    assert n / 64 == n / 64 / 64 * 64 + n / 64 % 64;
    assert n / 64 / 64 == n / 64 / 64 / 64 * 64 + n / 64 / 64 % 64;
  }

  /** Decoding an encoded string gives the string back. */
  lemma {:induction false} DecodeEncode(s: string)
    ensures Decode(Encode(s)) == Some(s)
  {
    if s != [] {
      var e, rest := EncodeChar(s[0]), Encode(s[1..]);
      var bs := e + rest;
      EncodeCharDecodes(s[0]);
      DecodeEncode(s[1..]);
      assert bs[0] == e[0] && bs[..|e|] == e && bs[|e|..] == rest;
      assert s == [s[0]] + s[1..];
    }
  }

  /** The encoding is injective. */
  lemma {:induction false} EncodeInjective(s: string, t: string)
    requires Encode(s) == Encode(t)
    ensures s == t
  {
    DecodeEncode(s);
    DecodeEncode(t);
  }

  /** The byte 0 appears in an encoding only for the character NUL. */
  lemma {:induction false} EncodeHasNoZero(s: string)
    requires '\0' !in s
    ensures 0 !in Encode(s)
  {
    if s != [] {
      assert s[0] != '\0';
      assert s[1..] <= s || '\0' !in s[1..];
      EncodeHasNoZero(s[1..]);
      assert forall k :: 0 <= k < |EncodeChar(s[0])| ==> EncodeChar(s[0])[k] != 0;
    }
  }
}
