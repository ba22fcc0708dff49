/**
 * The byte-level primitives of java.io.DataOutputStream and java.io.DataInputStream
 * that the snapshot codec uses: big-endian 2-, 4- and 8-byte integers, single bytes,
 * booleans, byte runs, and the length-prefixed modified UTF-8 of writeUTF/readUTF.
 *
 * An input stream is modelled by the bytes it has not delivered yet; every reader
 * returns the value it read together with the unread rest, or reports end of file.
 */
module JavaIo {
  import opened Wrappers

  type Byte = b: int | 0 <= b < 256

  const TwoTo31: int := 0x8000_0000
  const TwoTo32: int := 0x1_0000_0000
  const TwoTo63: int := 0x8000_0000_0000_0000
  const TwoTo64: int := 0x1_0000_0000_0000_0000

  predicate IsInt32(x: int) { -TwoTo31 <= x < TwoTo31 }
  predicate IsInt64(x: int) { -TwoTo63 <= x < TwoTo63 }

  function Pow256(n: nat): (p: nat)
    ensures p > 0
  {
    if n == 0 then 1 else 256 * Pow256(n - 1)
  }

  // ---------------------------------------------------------------------------
  // Big-endian integers

  /** The n low-order bytes of x, most significant first (two's complement for negative x). */
  function BigEndian(x: int, n: nat): (r: seq<Byte>)
    ensures |r| == n
    decreases n
  {
    if n == 0 then [] else BigEndian(x / 256, n - 1) + [x % 256]
  }

  /** The bytes read as an unsigned big-endian number. */
  function Unsigned(bs: seq<Byte>): nat
  {
    if bs == [] then 0 else Unsigned(bs[..|bs| - 1]) * 256 + bs[|bs| - 1]
  }

  /** x shifted right (arithmetically) by n bytes. */
  function High(x: int, n: nat): int
    decreases n
  {
    if n == 0 then x else High(x / 256, n - 1)
  }

  /** Writing the n low-order bytes and reading them back unsigned loses exactly the high part. */
  lemma {:induction false} BigEndianSplits(x: int, n: nat)
    ensures 0 <= Unsigned(BigEndian(x, n)) < Pow256(n)
    ensures x == Unsigned(BigEndian(x, n)) + Pow256(n) * High(x, n)
    decreases n
  {
    if n > 0 {
      var bs := BigEndian(x, n);
      assert bs[..n - 1] == BigEndian(x / 256, n - 1);
      BigEndianSplits(x / 256, n - 1);
      var u, p, h := Unsigned(BigEndian(x / 256, n - 1)), Pow256(n - 1), High(x / 256, n - 1);
      assert Unsigned(bs) == u * 256 + x % 256;
      assert x / 256 == u + p * h;
      calc {
        x;
        256 * (x / 256) + x % 256;
        256 * (u + p * h) + x % 256;
        (u * 256 + x % 256) + (256 * p) * h;
      }
    }
  }

  /** DataOutputStream.writeShort/writeInt/writeLong: the low 16/32/64 bits of x. */
  function WriteShort(x: int): (r: seq<Byte>) ensures |r| == 2 { BigEndian(x, 2) }
  function WriteInt(x: int): (r: seq<Byte>) ensures |r| == 4 { BigEndian(x, 4) }
  function WriteLong(x: int): (r: seq<Byte>) ensures |r| == 8 { BigEndian(x, 8) }

  /** The four bytes read as a two's complement 32-bit int. */
  function Int32Of(bs: seq<Byte>): (x: int)
    requires |bs| == 4
    ensures IsInt32(x)
  {
    assert Pow256(4) == TwoTo32;
    var u := Unsigned(bs);
    UnsignedBound(bs);
    if u < TwoTo31 then u else u - TwoTo32
  }

  /** The eight bytes read as a two's complement 64-bit long. */
  function Int64Of(bs: seq<Byte>): (x: int)
    requires |bs| == 8
    ensures IsInt64(x)
  {
    assert Pow256(8) == TwoTo64;
    var u := Unsigned(bs);
    UnsignedBound(bs);
    if u < TwoTo63 then u else u - TwoTo64
  }

  lemma {:induction false} UnsignedBound(bs: seq<Byte>)
    ensures Unsigned(bs) < Pow256(|bs|)
  {
    if bs != [] {
      UnsignedBound(bs[..|bs| - 1]);
    }
  }

  /** readInt inverts writeInt on every int. */
  lemma Int32OfWriteInt(x: int)
    requires IsInt32(x)
    ensures Int32Of(WriteInt(x)) == x
  {
    BigEndianSplits(x, 4);
    assert Pow256(4) == TwoTo32;
    var h := High(x, 4);
    assert h == 0 || h == -1;
  }

  /** readLong inverts writeLong on every long. */
  lemma Int64OfWriteLong(x: int)
    requires IsInt64(x)
    ensures Int64Of(WriteLong(x)) == x
  {
    BigEndianSplits(x, 8);
    assert Pow256(8) == TwoTo64;
    var h := High(x, 8);
    assert h == 0 || h == -1;
  }

  // ---------------------------------------------------------------------------
  // Readers over the unread rest of a stream

  /** What a DataInputStream read yields: a value and the unread rest, or an EOFException. */
  datatype Read<+T> = EndOfFile | Got(value: T, rest: seq<Byte>)

  /** readInt: four bytes, or EOF when fewer remain. */
  function ReadInt(s: seq<Byte>): (r: Read<int>)
    ensures r.Got? ==> |r.rest| == |s| - 4 && IsInt32(r.value)
  {
    if |s| < 4 then EndOfFile else Got(Int32Of(s[..4]), s[4..])
  }

  /** readLong: eight bytes, or EOF when fewer remain. */
  function ReadLong(s: seq<Byte>): (r: Read<int>)
    ensures r.Got? ==> |r.rest| == |s| - 8 && IsInt64(r.value)
  {
    if |s| < 8 then EndOfFile else Got(Int64Of(s[..8]), s[8..])
  }

  /** readBoolean: one byte, true when it is not zero. */
  function ReadBoolean(s: seq<Byte>): (r: Read<bool>)
    ensures r.Got? ==> |r.rest| == |s| - 1
  {
    if |s| < 1 then EndOfFile else Got(s[0] != 0, s[1..])
  }

  /** readNBytes(n): up to n bytes; fewer, without an exception, when the stream ends first. */
  function ReadNBytes(s: seq<Byte>, n: nat): (r: (seq<Byte>, seq<Byte>))
    ensures r.0 + r.1 == s
    ensures |r.0| == if n <= |s| then n else |s|
  {
    if n <= |s| then (s[..n], s[n..]) else (s, [])
  }

  lemma ReadIntWriteInt(x: int, tail: seq<Byte>)
    requires IsInt32(x)
    ensures ReadInt(WriteInt(x) + tail) == Got(x, tail)
  {
    var s := WriteInt(x) + tail;
    assert s[..4] == WriteInt(x);
    assert s[4..] == tail;
    Int32OfWriteInt(x);
  }

  lemma ReadLongWriteLong(x: int, tail: seq<Byte>)
    requires IsInt64(x)
    ensures ReadLong(WriteLong(x) + tail) == Got(x, tail)
  {
    var s := WriteLong(x) + tail;
    assert s[..8] == WriteLong(x);
    assert s[8..] == tail;
    Int64OfWriteLong(x);
  }

  // ---------------------------------------------------------------------------
  // writeUTF / readUTF: a 2-byte length, then modified UTF-8 of UTF-16 code units

  /** A sequence of UTF-16 code units (Java chars). */
  predicate IsUnits(us: seq<int>)
  {
    forall i :: 0 <= i < |us| ==> 0 <= us[i] < 0x10000
  }

  /** The modified UTF-8 bytes writeUTF emits for one code unit: NUL takes two bytes. */
  function ModifiedUtf8Unit(u: int): (r: seq<Byte>)
    requires 0 <= u < 0x10000
    ensures 1 <= |r| <= 3
  {
    if 1 <= u < 0x80 then [u]
    else if u < 0x800 then [0xC0 + u / 64, 0x80 + u % 64]
    else [0xE0 + u / 4096, 0x80 + u / 64 % 64, 0x80 + u % 64]
  }

  function ModifiedUtf8(us: seq<int>): seq<Byte>
    requires IsUnits(us)
  {
    if us == [] then [] else ModifiedUtf8Unit(us[0]) + ModifiedUtf8(us[1..])
  }

  /** Code units 1..0x7F are written as themselves. */
  lemma {:induction false} ModifiedUtf8Ascii(us: seq<int>)
    requires forall i :: 0 <= i < |us| ==> 1 <= us[i] < 0x80
    ensures ModifiedUtf8(us) == us
  {
    if us != [] {
      ModifiedUtf8Ascii(us[1..]);
      assert [us[0]] + us[1..] == us;
    }
  }

  /** writeUTF; None stands for the UTFDataFormatException thrown when the encoding exceeds 65535 bytes. */
  function WriteUtf(us: seq<int>): Option<seq<Byte>>
    requires IsUnits(us)
  {
    var body := ModifiedUtf8(us);
    if |body| > 65535 then None else Some(WriteShort(|body|) + body)
  }

  predicate IsContinuation(b: Byte) { 0x80 <= b < 0xC0 }

  /** The decoding loop of readUTF; None stands for its UTFDataFormatException. */
  function DecodeModifiedUtf8(bs: seq<Byte>): (r: Option<seq<int>>)
    ensures r.Some? ==> IsUnits(r.value)
    decreases |bs|
  {
    if bs == [] then Some([])
    else
      var c: int := bs[0];
      if c < 0x80 then
        var rest :- DecodeModifiedUtf8(bs[1..]);
        var u: int := c;
        Some([u] + rest)
      else if 0xC0 <= c < 0xE0 then
        if |bs| < 2 || !IsContinuation(bs[1]) then None
        else
          var rest :- DecodeModifiedUtf8(bs[2..]);
          var u := (c % 32) * 64 + bs[1] as int % 64;
          Some([u] + rest)
      else if 0xE0 <= c < 0xF0 then
        if |bs| < 3 || !IsContinuation(bs[1]) || !IsContinuation(bs[2]) then None
        else
          var rest :- DecodeModifiedUtf8(bs[3..]);
          var u := (c % 16) * 4096 + (bs[1] as int % 64) * 64 + bs[2] as int % 64;
          Some([u] + rest)
      else None
  }

  /** What readUTF yields: EOFException, UTFDataFormatException, or the code units and the unread rest. */
  datatype UtfRead = UtfEndOfFile | UtfMalformed | UtfGot(units: seq<int>, rest: seq<Byte>)

  function ReadUtf(s: seq<Byte>): UtfRead
  {
    if |s| < 2 then UtfEndOfFile
    else
      var n := Unsigned(s[..2]);
      if |s| - 2 < n then UtfEndOfFile
      else match DecodeModifiedUtf8(s[2..2 + n])
        case None => UtfMalformed
        case Some(us) => UtfGot(us, s[2 + n..])
  }

  lemma DecodeModifiedUtf8Unit(u: int, tail: seq<Byte>)
    requires 0 <= u < 0x10000
    ensures DecodeModifiedUtf8(ModifiedUtf8Unit(u) + tail)
         == (match DecodeModifiedUtf8(tail) case None => None case Some(rest) => Some([u] + rest))
  {
    if 1 <= u < 0x80 {
      DecodeOneByteUnit(u, tail);
    } else if u < 0x800 {
      DecodeTwoByteUnit(u, tail);
    } else {
      DecodeThreeByteUnit(u, tail);
    }
  }

  lemma DecodeOneByteUnit(u: int, tail: seq<Byte>)
    requires 1 <= u < 0x80
    ensures DecodeModifiedUtf8([u] + tail)
         == (match DecodeModifiedUtf8(tail) case None => None case Some(rest) => Some([u] + rest))
  {
    assert ([u] + tail)[1..] == tail;
  }

  lemma DecodeTwoByteUnit(u: int, tail: seq<Byte>)
    requires (u == 0 || 0x80 <= u) && u < 0x800
    ensures DecodeModifiedUtf8(ModifiedUtf8Unit(u) + tail)
         == (match DecodeModifiedUtf8(tail) case None => None case Some(rest) => Some([u] + rest))
  {
    var bs := ModifiedUtf8Unit(u) + tail;
    assert bs[0] == 0xC0 + u / 64 && bs[1] == 0x80 + u % 64;
    assert (0xC0 + u / 64) % 32 == u / 64;
    assert bs[2..] == tail;
  }

  lemma DecodeThreeByteUnit(u: int, tail: seq<Byte>)
    requires 0x800 <= u < 0x10000
    ensures DecodeModifiedUtf8(ModifiedUtf8Unit(u) + tail)
         == (match DecodeModifiedUtf8(tail) case None => None case Some(rest) => Some([u] + rest))
  {
    var bs := ModifiedUtf8Unit(u) + tail;
    assert bs[0] == 0xE0 + u / 4096 && bs[1] == 0x80 + u / 64 % 64 && bs[2] == 0x80 + u % 64;
    assert (0xE0 + u / 4096) % 16 == u / 4096;
    assert u / 64 == (u / 4096) * 64 + u / 64 % 64;
    assert bs[3..] == tail;
  }

  lemma {:induction false} DecodeModifiedUtf8Inverse(us: seq<int>)
    requires IsUnits(us)
    ensures DecodeModifiedUtf8(ModifiedUtf8(us)) == Some(us)
  {
    if us != [] {
      DecodeModifiedUtf8Inverse(us[1..]);
      DecodeModifiedUtf8Unit(us[0], ModifiedUtf8(us[1..]));
      assert [us[0]] + us[1..] == us;
    }
  }

  /** readUTF reads back exactly what writeUTF wrote, and leaves what follows unread. */
  lemma ReadUtfWriteUtf(us: seq<int>, tail: seq<Byte>)
    requires IsUnits(us) && WriteUtf(us).Some?
    ensures ReadUtf(WriteUtf(us).value + tail) == UtfGot(us, tail)
  {
    var body := ModifiedUtf8(us);
    var s := WriteShort(|body|) + body + tail;
    assert s[..2] == WriteShort(|body|);
    BigEndianSplits(|body|, 2);
    assert Unsigned(s[..2]) == |body|;
    assert s[2..2 + |body|] == body;
    assert s[2 + |body|..] == tail;
    DecodeModifiedUtf8Inverse(us);
  }
}
