/**
 * UTF-8 encoding of text (what Python's `str.encode()` does with its default
 * codec). Dafny's `char` is a Unicode scalar value, so every string encodes.
 */
module Utf8 {
  import opened Wrappers

  newtype Byte = b: int | 0 <= b < 256
  type Bytes = seq<Byte>

  /** True when every character is in the 7-bit ASCII range. */
  predicate IsAscii(s: string) {
    forall i :: 0 <= i < |s| ==> s[i] as int < 0x80
  }

  predicate IsContinuation(b: Byte) { 0x80 <= b < 0xC0 }

  /** The bytes of one character. */
  function EncodeChar(c: char): (r: Bytes)
    ensures 1 <= |r| <= 4
    // shortest form: the length is fixed by the code point's range, never longer
    ensures |r| == 1 <==> c as int < 0x80
    ensures |r| == 2 <==> 0x80 <= c as int < 0x800
    ensures |r| == 3 <==> 0x800 <= c as int < 0x10000
    ensures |r| == 1 ==> r[0] as int == c as int
    ensures |r| == 2 ==> 0xC0 <= r[0] < 0xE0
    ensures |r| == 3 ==> 0xE0 <= r[0] < 0xF0
    ensures |r| == 4 ==> 0xF0 <= r[0] < 0xF8
    ensures forall i :: 1 <= i < |r| ==> IsContinuation(r[i])
  {
    var cp := c as int;
    if cp < 0x80 then
      [cp as Byte]
    else if cp < 0x800 then
      [(0xC0 + cp / 64) as Byte, (0x80 + cp % 64) as Byte]
    else if cp < 0x10000 then
      [(0xE0 + cp / 4096) as Byte, (0x80 + (cp / 64) % 64) as Byte, (0x80 + cp % 64) as Byte]
    else
      [(0xF0 + cp / 262144) as Byte, (0x80 + (cp / 4096) % 64) as Byte,
       (0x80 + (cp / 64) % 64) as Byte, (0x80 + cp % 64) as Byte]
  }

  /** The UTF-8 encoding of a whole string, character by character. */
  function Encode(s: string): (r: Bytes)
    ensures |s| <= |r| <= 4 * |s|
  {
    if s == [] then [] else EncodeChar(s[0]) + Encode(s[1..])
  }

  /** Number of bytes announced by a lead byte, or 0 for a byte that cannot lead. */
  function SequenceLength(lead: Byte): nat {
    if lead < 0x80 then 1
    else if 0xC0 <= lead < 0xE0 then 2
    else if 0xE0 <= lead < 0xF0 then 3
    else if 0xF0 <= lead < 0xF8 then 4
    else 0
  }

  predicate IsScalar(cp: int) {
    (0 <= cp < 0xD800) || (0xE000 <= cp <= 0x10FFFF)
  }

  /** The code point carried by one complete sequence `bs`. */
  function CodePoint(bs: Bytes): int
    requires 1 <= |bs| <= 4
  {
    if |bs| == 1 then bs[0] as int
    else if |bs| == 2 then (bs[0] as int - 0xC0) * 64 + (bs[1] as int - 0x80)
    else if |bs| == 3 then (bs[0] as int - 0xE0) * 4096 + (bs[1] as int - 0x80) * 64 + (bs[2] as int - 0x80)
    else (bs[0] as int - 0xF0) * 262144 + (bs[1] as int - 0x80) * 4096 + (bs[2] as int - 0x80) * 64 + (bs[3] as int - 0x80)
  }

  /** Decodes a byte string; `None` for anything that is not well-formed UTF-8 text. */
  function Decode(bs: Bytes): (r: Option<string>)
    decreases |bs|
  {
    if bs == [] then Some("")
    else
      var n := SequenceLength(bs[0]);
      if n == 0 || |bs| < n then None
      else if exists i :: 1 <= i < n && !IsContinuation(bs[i]) then None
      else
        var cp := CodePoint(bs[..n]);
        if !IsScalar(cp) then None
        else match Decode(bs[n..])
          case None => None
          case Some(rest) => Some([cp as char] + rest)
  }

  lemma DecodeEncodeChar(c: char)
    ensures var e := EncodeChar(c); SequenceLength(e[0]) == |e| && CodePoint(e) == c as int
  {
    var cp := c as int;
    var e := EncodeChar(c);
    if cp < 0x80 {
    } else if cp < 0x800 {
      assert e[0] as int == 0xC0 + cp / 64 && e[1] as int == 0x80 + cp % 64;
      assert CodePoint(e) == (cp / 64) * 64 + cp % 64;
    } else if cp < 0x10000 {
      var q := cp / 64;
      assert q == (cp / 4096) * 64 + q % 64 by { assert q / 64 == cp / 4096; }
      assert e[0] as int == 0xE0 + cp / 4096 && e[1] as int == 0x80 + q % 64 && e[2] as int == 0x80 + cp % 64;
      assert CodePoint(e) == (cp / 4096) * 4096 + (q % 64) * 64 + cp % 64;
    } else {
      var q, r := cp / 64, cp / 4096;
      assert q == r * 64 + q % 64 by { assert q / 64 == r; }
      assert r == (cp / 262144) * 64 + r % 64 by { assert r / 64 == cp / 262144; }
      assert e[0] as int == 0xF0 + cp / 262144 && e[1] as int == 0x80 + r % 64;
      assert e[2] as int == 0x80 + q % 64 && e[3] as int == 0x80 + cp % 64;
      assert CodePoint(e) == (cp / 262144) * 262144 + (r % 64) * 4096 + (q % 64) * 64 + cp % 64;
    }
  }

  /** Encoding distributes over concatenation. */
  lemma {:induction false} EncodeAppend(a: string, b: string)
    ensures Encode(a + b) == Encode(a) + Encode(b)
  {
    if a == [] {
      assert a + b == b;
    } else {
      assert (a + b)[0] == a[0];
      assert (a + b)[1..] == a[1..] + b;
      EncodeAppend(a[1..], b);
    }
  }

  /** On ASCII text the encoding is the identity on code points. */
  lemma {:induction false} EncodeAscii(s: string)
    requires IsAscii(s)
    ensures |Encode(s)| == |s|
    ensures forall i :: 0 <= i < |s| ==> Encode(s)[i] as int == s[i] as int
  {
    if s != [] {
      assert IsAscii(s[1..]) by {
        forall i | 0 <= i < |s[1..]| ensures s[1..][i] as int < 0x80 {
          assert s[1..][i] == s[i + 1];
        }
      }
      EncodeAscii(s[1..]);
    }
  }

  /** Decoding undoes encoding, so the encoding is injective. */
  lemma {:induction false} DecodeEncode(s: string)
    ensures Decode(Encode(s)) == Some(s)
  {
    if s != [] {
      var e := EncodeChar(s[0]);
      var bs := Encode(s);
      assert bs == e + Encode(s[1..]);
      DecodeEncodeChar(s[0]);
      assert bs[..|e|] == e;
      assert bs[|e|..] == Encode(s[1..]);
      assert forall i :: 1 <= i < |e| ==> bs[i] == e[i];
      DecodeEncode(s[1..]);
      assert [CodePoint(e) as char] + s[1..] == s;
    }
  }

  lemma EncodeInjective(a: string, b: string)
    requires Encode(a) == Encode(b)
    ensures a == b
  {
    DecodeEncode(a);
    DecodeEncode(b);
  }
}
