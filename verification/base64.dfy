/**
 * Base64 with the standard alphabet and `=` padding, as in section 4 of
 * RFC 4648 (Python's `base64.b64encode(...).decode()`).
 */
module Base64 {
  import opened Wrappers
  import opened Utf8

  /** The character for a 6-bit value. */
  function AlphabetChar(v: int): (c: char)
    requires 0 <= v < 64
    ensures c as int < 0x80 && c != '='
  {
    if v < 26 then ('A' as int + v) as char
    else if v < 52 then ('a' as int + (v - 26)) as char
    else if v < 62 then ('0' as int + (v - 52)) as char
    else if v == 62 then '+'
    else '/'
  }

  /** The 6-bit value of an alphabet character; `None` for `=` and every other character. */
  function AlphabetIndex(c: char): (r: Option<int>)
    ensures r.Some? ==> 0 <= r.value < 64
  {
    if 'A' <= c <= 'Z' then Some(c as int - 'A' as int)
    else if 'a' <= c <= 'z' then Some(c as int - 'a' as int + 26)
    else if '0' <= c <= '9' then Some(c as int - '0' as int + 52)
    else if c == '+' then Some(62)
    else if c == '/' then Some(63)
    else None
  }

  lemma AlphabetRoundTrip(v: int)
    requires 0 <= v < 64
    ensures AlphabetIndex(AlphabetChar(v)) == Some(v)
  {
  }

  /** Four characters for three bytes. */
  function EncodeGroup(b0: Byte, b1: Byte, b2: Byte): string {
    [AlphabetChar(b0 as int / 4),
     AlphabetChar((b0 as int % 4) * 16 + b1 as int / 16),
     AlphabetChar((b1 as int % 16) * 4 + b2 as int / 64),
     AlphabetChar(b2 as int % 64)]
  }

  /** The encoding of a byte string: one group per three bytes, the last one padded. */
  function Encode(bs: Bytes): (r: string)
    ensures |r| == 4 * ((|bs| + 2) / 3)
    decreases |bs|
  {
    if |bs| == 0 then ""
    else if |bs| == 1 then EncodeGroup(bs[0], 0, 0)[..2] + "=="
    else if |bs| == 2 then EncodeGroup(bs[0], bs[1], 0)[..3] + "="
    else EncodeGroup(bs[0], bs[1], bs[2]) + Encode(bs[3..])
  }

  /** Three bytes from four 6-bit values. */
  function DecodeGroup(s0: int, s1: int, s2: int, s3: int): (r: Bytes)
    requires 0 <= s0 < 64 && 0 <= s1 < 64 && 0 <= s2 < 64 && 0 <= s3 < 64
    ensures |r| == 3
  {
    [(s0 * 4 + s1 / 16) as Byte, ((s1 % 16) * 16 + s2 / 4) as Byte, ((s2 % 4) * 64 + s3) as Byte]
  }

  /** Decoding of padded text; `None` when the text is not a sequence of four-character groups. */
  function Decode(s: string): (r: Option<Bytes>)
    decreases |s|
  {
    if |s| == 0 then Some([])
    else if |s| < 4 then None
    else
      var i0, i1 := AlphabetIndex(s[0]), AlphabetIndex(s[1]);
      if i0.None? || i1.None? then None
      else if |s| == 4 && s[2] == '=' && s[3] == '=' then
        Some(DecodeGroup(i0.value, i1.value, 0, 0)[..1])
      else
        var i2 := AlphabetIndex(s[2]);
        if i2.None? then None
        else if |s| == 4 && s[3] == '=' then
          Some(DecodeGroup(i0.value, i1.value, i2.value, 0)[..2])
        else
          var i3 := AlphabetIndex(s[3]);
          if i3.None? then None
          else match Decode(s[4..])
            case None => None
            case Some(rest) => Some(DecodeGroup(i0.value, i1.value, i2.value, i3.value) + rest)
  }

  lemma GroupRoundTrip(b0: Byte, b1: Byte, b2: Byte)
    ensures DecodeGroup(b0 as int / 4, (b0 as int % 4) * 16 + b1 as int / 16,
                        (b1 as int % 16) * 4 + b2 as int / 64, b2 as int % 64) == [b0, b1, b2]
  {
    var s1 := (b0 as int % 4) * 16 + b1 as int / 16;
    var s2 := (b1 as int % 16) * 4 + b2 as int / 64;
    assert s1 / 16 == b0 as int % 4 && s1 % 16 == b1 as int / 16;
    assert s2 / 4 == b1 as int % 16 && s2 % 4 == b2 as int / 64;
  }

  /** Every encoding is ASCII text, so it can be compared with `hmac.compare_digest`. */
  lemma {:induction false} EncodeIsAscii(bs: Bytes)
    ensures IsAscii(Encode(bs))
    decreases |bs|
  {
    if |bs| >= 3 {
      EncodeIsAscii(bs[3..]);
      var g := EncodeGroup(bs[0], bs[1], bs[2]);
      var r := Encode(bs);
      assert r == g + Encode(bs[3..]);
      forall i | 0 <= i < |r| ensures r[i] as int < 0x80 {
        if i >= 4 { assert r[i] == Encode(bs[3..])[i - 4]; }
      }
    }
  }

  lemma DecodeEncodeOne(b0: Byte)
    ensures Decode(Encode([b0])) == Some([b0])
  {
    var s := Encode([b0]);
    var g := EncodeGroup(b0, 0, 0);
    assert s == g[..2] + "==";
    GroupRoundTrip(b0, 0, 0);
    AlphabetRoundTrip(b0 as int / 4);
    AlphabetRoundTrip((b0 as int % 4) * 16);
    assert s[0] == AlphabetChar(b0 as int / 4) && s[1] == AlphabetChar((b0 as int % 4) * 16);
    assert s[2] == '=' && s[3] == '=' && |s| == 4;
    assert DecodeGroup(b0 as int / 4, (b0 as int % 4) * 16, 0, 0) == [b0, 0, 0];
    assert Decode(s) == Some(DecodeGroup(b0 as int / 4, (b0 as int % 4) * 16, 0, 0)[..1]);
    var z: Byte := 0;
    assert [b0, z, z][..1] == [b0];
  }

  lemma DecodeEncodeTwo(b0: Byte, b1: Byte)
    ensures Decode(Encode([b0, b1])) == Some([b0, b1])
  {
    var s := Encode([b0, b1]);
    var g := EncodeGroup(b0, b1, 0);
    assert s == g[..3] + "=";
    assert s[2] == g[2] && s[2] != '=' && s[3] == '=';
    GroupRoundTrip(b0, b1, 0);
    AlphabetRoundTrip(b0 as int / 4);
    AlphabetRoundTrip((b0 as int % 4) * 16 + b1 as int / 16);
    AlphabetRoundTrip((b1 as int % 16) * 4);
    assert s[0] == AlphabetChar(b0 as int / 4);
    assert s[1] == AlphabetChar((b0 as int % 4) * 16 + b1 as int / 16);
    assert s[2] == AlphabetChar((b1 as int % 16) * 4);
    assert DecodeGroup(b0 as int / 4, (b0 as int % 4) * 16 + b1 as int / 16, (b1 as int % 16) * 4, 0) == [b0, b1, 0];
    assert Decode(s) == Some(DecodeGroup(b0 as int / 4, (b0 as int % 4) * 16 + b1 as int / 16, (b1 as int % 16) * 4, 0)[..2]);
    var z: Byte := 0;
    assert [b0, b1, z][..2] == [b0, b1];
  }

  lemma DecodeEncodeGroup(b0: Byte, b1: Byte, b2: Byte, rest: string)
    ensures Decode(EncodeGroup(b0, b1, b2) + rest) ==
      match Decode(rest)
      case None => None
      case Some(r) => Some([b0, b1, b2] + r)
  {
    var g := EncodeGroup(b0, b1, b2);
    var s := g + rest;
    assert s[..4] == g && s[4..] == rest;
    GroupRoundTrip(b0, b1, b2);
    AlphabetRoundTrip(b0 as int / 4);
    AlphabetRoundTrip((b0 as int % 4) * 16 + b1 as int / 16);
    AlphabetRoundTrip((b1 as int % 16) * 4 + b2 as int / 64);
    AlphabetRoundTrip(b2 as int % 64);
  }

  /** Decoding undoes encoding. */
  lemma {:induction false} DecodeEncode(bs: Bytes)
    ensures Decode(Encode(bs)) == Some(bs)
    decreases |bs|
  {
    if |bs| == 1 {
      assert bs == [bs[0]];
      DecodeEncodeOne(bs[0]);
    } else if |bs| == 2 {
      assert bs == [bs[0], bs[1]];
      DecodeEncodeTwo(bs[0], bs[1]);
    } else if |bs| >= 3 {
      DecodeEncode(bs[3..]);
      DecodeEncodeGroup(bs[0], bs[1], bs[2], Encode(bs[3..]));
      assert [bs[0], bs[1], bs[2]] + bs[3..] == bs;
    }
  }

  /** Two byte strings with the same encoding are equal. */
  lemma EncodeInjective(a: Bytes, b: Bytes)
    requires Encode(a) == Encode(b)
    ensures a == b
  {
    DecodeEncode(a);
    DecodeEncode(b);
  }

  /** A 64-byte digest encodes to 88 characters ending in `==`. */
  lemma {:induction false} EncodeDigestShape(bs: Bytes)
    requires |bs| == 64
    ensures |Encode(bs)| == 88
    ensures Encode(bs)[86..] == "=="
  {
    EncodeSuffix(bs);
  }

  lemma {:induction false} EncodeSuffix(bs: Bytes)
    requires |bs| % 3 == 1
    ensures Encode(bs)[|Encode(bs)| - 2..] == "=="
    decreases |bs|
  {
    if |bs| > 1 {
      EncodeSuffix(bs[3..]);
      var g := EncodeGroup(bs[0], bs[1], bs[2]);
      assert Encode(bs) == g + Encode(bs[3..]);
    }
  }
}
