/**
 * The character encodings the server relies on: java.lang.String holds UTF-16 code
 * units (so String.length() counts those), while String.getBytes and new String(byte[])
 * use UTF-8, the default charset of current JDKs.
 *
 * Dafny strings are sequences of Unicode scalar values, so a Java string without
 * unpaired surrogates is exactly a Dafny string.
 */
module Unicode {
  import opened JavaIo

  /** U+FFFD, what a decoder puts in place of malformed input. */
  const Replacement: char := '�'

  predicate IsAscii(s: string)
  {
    forall i :: 0 <= i < |s| ==> s[i] as int < 0x80
  }

  // ---------------------------------------------------------------------------
  // UTF-16: what String.length() counts

  /** The UTF-16 code units of one character: a surrogate pair above U+FFFF. */
  function CharUnits(c: char): (r: seq<int>)
    ensures IsUnits(r) && 1 <= |r| <= 2
  {
    var cp := c as int;
    if cp < 0x10000 then [cp]
    else [0xD800 + (cp - 0x10000) / 1024, 0xDC00 + (cp - 0x10000) % 1024]
  }

  function Utf16Units(s: string): (r: seq<int>)
    ensures IsUnits(r)
  {
    if s == [] then [] else CharUnits(s[0]) + Utf16Units(s[1..])
  }

  /** String.length(). */
  function Utf16Length(s: string): nat
  {
    |Utf16Units(s)|
  }

  // ---------------------------------------------------------------------------
  // UTF-8 encoding: String.getBytes(UTF_8)

  function EncodeChar(c: char): (r: seq<Byte>)
    ensures 1 <= |r| <= 4
  {
    var cp := c as int;
    if cp < 0x80 then [cp]
    else if cp < 0x800 then [0xC0 + cp / 64, 0x80 + cp % 64]
    else if cp < 0x10000 then [0xE0 + cp / 4096, 0x80 + cp / 64 % 64, 0x80 + cp % 64]
    else [0xF0 + cp / 0x40000, 0x80 + cp / 4096 % 64, 0x80 + cp / 64 % 64, 0x80 + cp % 64]
  }

  function Utf8Encode(s: string): seq<Byte>
  {
    if s == [] then [] else EncodeChar(s[0]) + Utf8Encode(s[1..])
  }

  // ---------------------------------------------------------------------------
  // UTF-8 decoding: new String(bytes, UTF_8)

  /**
   * One step of a decoder that replaces each maximal ill-formed subpart with U+FFFD:
   * the character decoded and the number of bytes consumed.
   */
  function DecodeStep(bs: seq<Byte>): (r: (char, nat))
    requires |bs| > 0
    ensures 1 <= r.1 <= |bs|
  {
    var b0: int := bs[0];
    if b0 < 0x80 then (b0 as char, 1)
    else if 0xC2 <= b0 <= 0xDF then
      if |bs| < 2 || !IsContinuation(bs[1]) then (Replacement, 1)
      else (((b0 - 0xC0) * 64 + (bs[1] as int - 0x80)) as char, 2)
    else if 0xE0 <= b0 <= 0xEF then
      var lo := if b0 == 0xE0 then 0xA0 else 0x80;
      var hi := if b0 == 0xED then 0x9F else 0xBF;
      if |bs| < 2 || !(lo <= bs[1] <= hi) then (Replacement, 1)
      else if |bs| < 3 || !IsContinuation(bs[2]) then (Replacement, 2)
      else (((b0 - 0xE0) * 4096 + (bs[1] as int - 0x80) * 64 + (bs[2] as int - 0x80)) as char, 3)
    else if 0xF0 <= b0 <= 0xF4 then
      var lo := if b0 == 0xF0 then 0x90 else 0x80;
      var hi := if b0 == 0xF4 then 0x8F else 0xBF;
      if |bs| < 2 || !(lo <= bs[1] <= hi) then (Replacement, 1)
      else if |bs| < 3 || !IsContinuation(bs[2]) then (Replacement, 2)
      else if |bs| < 4 || !IsContinuation(bs[3]) then (Replacement, 3)
      else
        (((b0 - 0xF0) * 0x40000 + (bs[1] as int - 0x80) * 4096
          + (bs[2] as int - 0x80) * 64 + (bs[3] as int - 0x80)) as char, 4)
    else (Replacement, 1)
  }

  function Utf8Decode(bs: seq<Byte>): string
    decreases |bs|
  {
    if bs == [] then []
    else
      var step := DecodeStep(bs);
      [step.0] + Utf8Decode(bs[step.1..])
  }

  // ---------------------------------------------------------------------------
  // Properties

  lemma DecodeStepEncodeChar(c: char, tail: seq<Byte>)
    ensures DecodeStep(EncodeChar(c) + tail) == (c, |EncodeChar(c)|)
  {
    var cp := c as int;
    if cp < 0x80 {
    } else if cp < 0x800 {
      DecodeTwoBytes(c, tail);
    } else if cp < 0x10000 {
      DecodeThreeBytes(c, tail);
    } else {
      DecodeFourBytes(c, tail);
    }
  }

  lemma DecodeTwoBytes(c: char, tail: seq<Byte>)
    requires 0x80 <= c as int < 0x800
    ensures DecodeStep(EncodeChar(c) + tail) == (c, 2)
  {
    var cp := c as int;
    var bs := EncodeChar(c) + tail;
    assert bs[0] == 0xC0 + cp / 64 && bs[1] == 0x80 + cp % 64;
    assert (cp / 64) * 64 + cp % 64 == cp;
  }

  lemma DecodeThreeBytes(c: char, tail: seq<Byte>)
    requires 0x800 <= c as int < 0x10000
    ensures DecodeStep(EncodeChar(c) + tail) == (c, 3)
  {
    var cp := c as int;
    var bs := EncodeChar(c) + tail;
    assert bs[0] == 0xE0 + cp / 4096 && bs[1] == 0x80 + cp / 64 % 64 && bs[2] == 0x80 + cp % 64;
    assert cp / 64 == (cp / 4096) * 64 + cp / 64 % 64;
    assert (cp / 4096) * 4096 + (cp / 64 % 64) * 64 + cp % 64 == cp;
  }

  lemma DecodeFourBytes(c: char, tail: seq<Byte>)
    requires 0x10000 <= c as int
    ensures DecodeStep(EncodeChar(c) + tail) == (c, 4)
  {
    var cp := c as int;
    var bs := EncodeChar(c) + tail;
    assert bs[0] == 0xF0 + cp / 0x40000 && bs[1] == 0x80 + cp / 4096 % 64;
    assert bs[2] == 0x80 + cp / 64 % 64 && bs[3] == 0x80 + cp % 64;
    assert cp / 64 == (cp / 4096) * 64 + cp / 64 % 64;
    assert cp / 4096 == (cp / 0x40000) * 64 + cp / 4096 % 64;
    assert (cp / 0x40000) * 0x40000 + (cp / 4096 % 64) * 4096 + (cp / 64 % 64) * 64 + cp % 64 == cp;
  }

  /** Decoding the UTF-8 of any string gives the string back. */
  lemma {:induction false} Utf8DecodeEncode(s: string)
    ensures Utf8Decode(Utf8Encode(s)) == s
  {
    if s != [] {
      var e, rest := EncodeChar(s[0]), Utf8Encode(s[1..]);
      DecodeStepEncodeChar(s[0], rest);
      assert (e + rest)[|e|..] == rest;
      Utf8DecodeEncode(s[1..]);
      assert [s[0]] + s[1..] == s;
    }
  }

  lemma {:induction false} Utf8EncodeAppend(a: string, b: string)
    ensures Utf8Encode(a + b) == Utf8Encode(a) + Utf8Encode(b)
  {
    if a != [] {
      assert (a + b)[1..] == a[1..] + b;
      Utf8EncodeAppend(a[1..], b);
    } else {
      assert a + b == b;
    }
  }

  /** The UTF-8 of an ASCII string is its character codes, one byte each. */
  lemma {:induction false} Utf8EncodeAscii(s: string)
    requires IsAscii(s)
    ensures |Utf8Encode(s)| == |s|
    ensures forall i :: 0 <= i < |s| ==> Utf8Encode(s)[i] == s[i] as int
  {
    if s != [] {
      Utf8EncodeAscii(s[1..]);
    }
  }

  /** Outside ASCII every encoded byte has its high bit set, so an ASCII byte occurs only where its character does. */
  lemma {:induction false} Utf8EncodeAsciiByte(s: string, c: char)
    requires c as int < 0x80 && c !in s
    ensures c as int !in Utf8Encode(s)
  {
    if s != [] {
      Utf8EncodeAsciiByte(s[1..], c);
      assert Utf8Encode(s) == EncodeChar(s[0]) + Utf8Encode(s[1..]);
    }
  }

  /**
   * String.length() never exceeds the UTF-8 byte count, and the two agree exactly
   * when the string is ASCII.
   */
  lemma {:induction false} Utf16LengthVersusUtf8(s: string)
    ensures Utf16Length(s) <= |Utf8Encode(s)|
    ensures Utf16Length(s) == |Utf8Encode(s)| <==> IsAscii(s)
  {
    if s != [] {
      Utf16LengthVersusUtf8(s[1..]);
      assert Utf16Length(s) == |CharUnits(s[0])| + Utf16Length(s[1..]);
      assert |Utf8Encode(s)| == |EncodeChar(s[0])| + |Utf8Encode(s[1..])|;
      if IsAscii(s) {
        assert IsAscii(s[1..]);
      } else if s[0] as int < 0x80 {
        assert !IsAscii(s[1..]) by {
          if IsAscii(s[1..]) {
            forall i | 0 <= i < |s| ensures s[i] as int < 0x80 {
              if i > 0 { assert s[i] == s[1..][i - 1]; }
            }
          }
        }
      }
    }
  }
}
