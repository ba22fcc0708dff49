/**
 * The wire response types of RESP2 (the Redis serialization protocol, version 2):
 * bulk strings ("Bulk strings"), arrays ("Arrays") and simple errors ("Simple errors").
 *
 * toString() is the text of a value; serialize() is its bytes. For bulk strings and
 * arrays serialize() is the UTF-8 of toString(); an Error's serialize() adds a CRLF
 * (and a space when the message is null) that its toString() leaves out, and an
 * array renders its elements with toString().
 */
module Protocol {
  import opened Wrappers
  import opened JavaIo
  import opened Unicode
  import opened JavaText

  const CRLF: string := "\r\n"

  /** The concrete Error subclasses; each fixes a kind token and a numeric code. */
  datatype ErrorKind = IllegalArgument | InvalidCommand | Unexpected

  function ErrorToken(k: ErrorKind): string
  {
    match k
    case IllegalArgument => "ERR ILLEGAL ARGUMENT"
    case InvalidCommand => "ERR INVALID COMMAND"
    case Unexpected => "ERR UNEXPECTED ERROR"
  }

  function ErrorCode(k: ErrorKind): int
  {
    match k
    case IllegalArgument => 10001
    case InvalidCommand => 10003
    case Unexpected => 10001
  }

  /**
   * A response value: BulkString (null data allowed), Arrays, or an Error with its
   * kind and a message that may be null. An Error's code and creation timestamp
   * never reach the wire and are left out of the value.
   */
  datatype Resp =
    | Bulk(data: Option<string>)
    | Arr(elems: seq<Resp>)
    | Err(kind: ErrorKind, message: Option<string>)

  function IllegalArgumentError(message: Option<string>): Resp { Err(IllegalArgument, message) }
  function InvalidCommandError(message: Option<string>): Resp { Err(InvalidCommand, message) }
  function UnexpectedError(message: Option<string>): Resp { Err(Unexpected, message) }

  /** An error with a message is one line: '-', its kind token, a space and the message. */
  lemma ErrorLine(kind: ErrorKind, message: string, prefix: string)
    requires prefix == "-" + ErrorToken(kind) + " "
    ensures WireText(Err(kind, Some(message))) == prefix + message + CRLF
  {
  }

  /** IllegalArgumentError: code 10001, and the message after its kind token on one line. */
  lemma IllegalArgumentWire(message: string)
    ensures ErrorCode(IllegalArgument) == 10001
    ensures WireText(IllegalArgumentError(Some(message))) == "-ERR ILLEGAL ARGUMENT " + message + CRLF
  {
    ErrorLine(IllegalArgument, message, "-ERR ILLEGAL ARGUMENT ");
  }

  /** InvalidCommandError: code 10003, and the message after its kind token on one line. */
  lemma InvalidCommandWire(message: string)
    ensures ErrorCode(InvalidCommand) == 10003
    ensures WireText(InvalidCommandError(Some(message))) == "-ERR INVALID COMMAND " + message + CRLF
  {
    ErrorLine(InvalidCommand, message, "-ERR INVALID COMMAND ");
  }

  /** UnexpectedError: code 10001, and the message after its kind token on one line. */
  lemma UnexpectedWire(message: string)
    ensures ErrorCode(Unexpected) == 10001
    ensures WireText(UnexpectedError(Some(message))) == "-ERR UNEXPECTED ERROR " + message + CRLF
  {
    ErrorLine(Unexpected, message, "-ERR UNEXPECTED ERROR ");
  }

  /** The kind token tells the three errors apart; the code does not. */
  lemma ErrorKindsDistinguished(a: ErrorKind, b: ErrorKind)
    ensures ErrorToken(a) == ErrorToken(b) <==> a == b
    ensures ErrorCode(IllegalArgument) == ErrorCode(Unexpected)
  {
    if a != b {
      assert ErrorToken(a)[4] != ErrorToken(b)[4] || ErrorToken(a)[5] != ErrorToken(b)[5];
    }
  }

  /** toString(). */
  function ToText(r: Resp): string
  {
    match r
    case Bulk(None) => "$" + IntToDecimal(-1) + CRLF
    case Bulk(Some(s)) => "$" + IntToDecimal(Utf16Length(s)) + CRLF + s + CRLF
    case Arr(elems) => "*" + IntToDecimal(|elems|) + CRLF + ToTextAll(elems)
    case Err(kind, message) =>
      "-" + ErrorToken(kind) + (if message.Some? then " " + message.value else "")
  }

  /** The elements' toString() concatenated in order. */
  function ToTextAll(rs: seq<Resp>): string
  {
    if rs == [] then "" else ToText(rs[0]) + ToTextAll(rs[1..])
  }

  /** The text serialize() encodes. */
  function WireText(r: Resp): string
  {
    match r
    case Err(kind, message) =>
      "-" + ErrorToken(kind) + (if message.Some? then " " + message.value else " ") + CRLF
    case _ => ToText(r)
  }

  /**
   * The empty bulk string keeps a zero length and an empty body, unlike the null one,
   * and a fresh array is just its zero count.
   */
  lemma EmptyWireForms()
    ensures WireText(Bulk(Some(""))) == "$0\r\n\r\n"
    ensures WireText(Bulk(None)) == "$-1\r\n"
    ensures WireText(Bulk(Some(""))) != WireText(Bulk(None))
    ensures WireText(Arr([])) == "*0\r\n"
  {
    assert IntToDecimal(-1) == "-1";
    assert IntToDecimal(0) == "0";
  }

  /** serialize(): the bytes written to the client. */
  function Serialized(r: Resp): seq<Byte>
  {
    Utf8Encode(WireText(r))
  }

  /** The Arrays class: a list of response values that add() appends to. */
  class Arrays {
    var data: seq<Resp>

    constructor ()
      ensures data == []
    {
      data := [];
    }

    method Add(e: Resp)
      modifies this
      ensures data == old(data) + [e]
    {
      data := data + [e];
    }

    /** toString(): the count line, then each element's toString() in order. */
    method ToString() returns (s: string)
      ensures s == ToText(Arr(data))
    {
      ghost var header := "*" + IntToDecimal(|data|) + CRLF;
      s := "*" + IntToDecimal(|data|) + CRLF;
      for i := 0 to |data|
        invariant s == header + ToTextAll(data[..i])
      {
        ToTextAllSnoc(data[..i], data[i]);
        assert data[..i + 1] == data[..i] + [data[i]];
        SeqAssoc(header, ToTextAll(data[..i]), ToText(data[i]));
        s := s + ToText(data[i]);
      }
      assert data[..|data|] == data;
    }

    /** serialize(): the bytes of toString(). */
    method Serialize() returns (bytes: seq<Byte>)
      ensures bytes == Serialized(Arr(data))
    {
      var s := ToString();
      bytes := Utf8Encode(s);
    }
  }

  lemma {:induction false} ToTextAllSnoc(rs: seq<Resp>, r: Resp)
    ensures ToTextAll(rs + [r]) == ToTextAll(rs) + ToText(r)
  {
    if rs == [] {
      assert rs + [r] == [r];
    } else {
      assert (rs + [r])[1..] == rs[1..] + [r];
      ToTextAllSnoc(rs[1..], r);
    }
  }

  // A RESP2 reader, the partner of serialize(): what a client can recover from the bytes.

  /** The bytes before the first CR LF and the bytes after it; None when no CR LF follows. */
  function ReadLine(bs: seq<Byte>): (r: Option<(seq<Byte>, seq<Byte>)>)
    ensures r.Some? ==> |r.value.1| + 2 <= |bs|
  {
    if |bs| < 2 then None
    else if bs[0] == 13 && bs[1] == 10 then Some(([], bs[2..]))
    else
      match ReadLine(bs[1..])
      case None => None
      case Some((line, rest)) => Some(([bs[0]] + line, rest))
  }

  /** The error a "-" line carries: a kind token, a space, then the message. */
  function ErrorOfLine(line: string): Option<Resp>
  {
    if HasPrefix(line, ErrorToken(IllegalArgument) + " ") then
      Some(Err(IllegalArgument, Some(line[|ErrorToken(IllegalArgument)| + 1..])))
    else if HasPrefix(line, ErrorToken(InvalidCommand) + " ") then
      Some(Err(InvalidCommand, Some(line[|ErrorToken(InvalidCommand)| + 1..])))
    else if HasPrefix(line, ErrorToken(Unexpected) + " ") then
      Some(Err(Unexpected, Some(line[|ErrorToken(Unexpected)| + 1..])))
    else None
  }

  predicate HasPrefix(s: string, p: string)
  {
    |p| <= |s| && s[..|p|] == p
  }

  /** One value from the front of bs and the bytes after it; None when bs does not start with one. */
  function Parse(bs: seq<Byte>): (r: Option<(Resp, seq<Byte>)>)
    ensures r.Some? ==> |r.value.1| < |bs|
    decreases |bs|, 0
  {
    if bs == [] then None
    else
      match ReadLine(bs[1..])
      case None => None
      case Some((lineBytes, rest)) =>
        var line := Utf8Decode(lineBytes);
        if bs[0] == '$' as int then ParseBulkBody(line, rest)
        else if bs[0] == '*' as int then ParseArrBody(line, rest)
        else if bs[0] == '-' as int then
          match ErrorOfLine(line)
          case None => None
          case Some(e) => Some((e, rest))
        else None
  }

  /** A bulk string after its "$" line: "-1" is null, otherwise that many bytes and a CR LF. */
  function ParseBulkBody(line: string, rest: seq<Byte>): (r: Option<(Resp, seq<Byte>)>)
    ensures r.Some? ==> |r.value.1| <= |rest|
  {
    if line == "-1" then Some((Bulk(None), rest))
    else if line == [] || !IsDigits(line) then None
    else
      var n := DigitsValue(line);
      if |rest| < n + 2 || rest[n..n + 2] != [13, 10] then None
      else Some((Bulk(Some(Utf8Decode(rest[..n]))), rest[n + 2..]))
  }

  /** An array after its "*" line: that many values in a row. */
  function ParseArrBody(line: string, rest: seq<Byte>): (r: Option<(Resp, seq<Byte>)>)
    ensures r.Some? ==> |r.value.1| <= |rest|
    decreases |rest|, 2
  {
    if line == [] || !IsDigits(line) then None
    else
      match ParseMany(rest, DigitsValue(line))
      case None => None
      case Some((elems, after)) => Some((Arr(elems), after))
  }

  /** n values in a row from the front of bs. */
  function ParseMany(bs: seq<Byte>, n: nat): (r: Option<(seq<Resp>, seq<Byte>)>)
    ensures r.Some? ==> |r.value.0| == n && |r.value.1| <= |bs|
    decreases |bs|, 1, n
  {
    if n == 0 then Some(([], bs))
    else
      match Parse(bs)
      case None => None
      case Some((e, rest)) =>
        match ParseMany(rest, n - 1)
        case None => None
        case Some((es, after)) => Some(([e] + es, after))
  }

  /**
   * The values whose bytes read back: bulk strings whose toString() length prefix
   * counts bytes (ASCII), arrays holding no error at any depth (a nested error loses
   * its CRLF), and error messages without a CR.
   */
  predicate Transmittable(r: Resp)
  {
    match r
    case Bulk(d) => d.None? || IsAscii(d.value)
    case Arr(elems) => forall i :: 0 <= i < |elems| ==> !elems[i].Err? && Transmittable(elems[i])
    case Err(_, m) => m.None? || '\r' !in m.value
  }

  /** What the reader returns for r: a null error message reads back as the empty one. */
  function AsRead(r: Resp): Resp
  {
    if r.Err? && r.message.None? then Err(r.kind, Some("")) else r
  }

  lemma {:induction false} ReadLineSplits(line: seq<Byte>, tail: seq<Byte>)
    requires 13 !in line
    ensures ReadLine(line + [13, 10] + tail) == Some((line, tail))
  {
    if line != [] {
      assert (line + [13, 10] + tail)[1..] == line[1..] + [13, 10] + tail;
      ReadLineSplits(line[1..], tail);
      assert [line[0]] + line[1..] == line;
    } else {
      assert (line + [13, 10] + tail)[2..] == tail;
    }
  }

  /** Parse dispatches on the first byte once its line is read. */
  lemma ParseLine(c: Byte, lineBytes: seq<Byte>, rest: seq<Byte>)
    requires 13 !in lineBytes
    ensures Parse([c] + lineBytes + [13, 10] + rest)
         == if c == '$' as int then ParseBulkBody(Utf8Decode(lineBytes), rest)
            else if c == '*' as int then ParseArrBody(Utf8Decode(lineBytes), rest)
            else if c == '-' as int then
              (match ErrorOfLine(Utf8Decode(lineBytes))
               case None => None
               case Some(e) => Some((e, rest)))
            else None
  {
    var bs := [c] + lineBytes + [13, 10] + rest;
    assert bs[0] == c;
    assert bs[1..] == lineBytes + [13, 10] + rest;
    ReadLineSplits(lineBytes, rest);
  }

  lemma DecimalIsAscii(n: nat)
    ensures IsAscii(NatToDecimal(n)) && '\r' !in NatToDecimal(n)
  {
    var d := NatToDecimal(n);
    assert forall i :: 0 <= i < |d| ==> IsDigit(d[i]);
  }

  /** Every transmittable value reads back from its serialize() bytes, whatever follows. */
  lemma {:induction false} ParseSerialized(r: Resp, tail: seq<Byte>)
    requires Transmittable(r)
    ensures Parse(Serialized(r) + tail) == Some((AsRead(r), tail))
    decreases r, 2
  {
    match r
    case Bulk(None) => ParseNullBulk(tail);
    case Bulk(Some(s)) => ParseBulk(s, tail);
    case Arr(elems) => ParseArr(elems, tail);
    case Err(kind, m) => ParseErr(kind, m, tail);
  }

  lemma ParseNullBulk(tail: seq<Byte>)
    ensures Parse(Serialized(Bulk(None)) + tail) == Some((Bulk(None), tail))
  {
    assert WireText(Bulk(None)) == "$-1\r\n";
    assert Serialized(Bulk(None)) == [36, 45, 49, 13, 10];
    assert Serialized(Bulk(None)) + tail == [36] + [45, 49] + [13, 10] + tail;
    ParseLine(36, [45, 49], tail);
    assert Utf8Decode([45, 49]) == "-1";
  }

  /** The bytes of a count or length line "c<decimal>CRLF" followed by more. */
  lemma HeaderBytes(c: char, n: nat, more: string)
    requires c as int < 0x80
    ensures Utf8Encode([c] + NatToDecimal(n) + "\r\n" + more)
         == [c as int] + Utf8Encode(NatToDecimal(n)) + [13, 10] + Utf8Encode(more)
    ensures 13 !in Utf8Encode(NatToDecimal(n))
    ensures Utf8Decode(Utf8Encode(NatToDecimal(n))) == NatToDecimal(n)
  {
    var dec := NatToDecimal(n);
    DecimalIsAscii(n);
    Utf8EncodeAsciiByte(dec, '\r');
    Utf8EncodeAppend([c] + dec + "\r\n", more);
    Utf8EncodeAppend([c] + dec, "\r\n");
    Utf8EncodeAppend([c], dec);
    assert Utf8Encode("\r\n") == [13, 10];
    assert Utf8Encode([c]) == [c as int];
    Utf8DecodeEncode(dec);
  }

  lemma ParseBulk(s: string, tail: seq<Byte>)
    requires IsAscii(s)
    ensures Parse(Serialized(Bulk(Some(s))) + tail) == Some((Bulk(Some(s)), tail))
  {
    var dec := NatToDecimal(Utf16Length(s));
    assert WireText(Bulk(Some(s))) == ['$'] + dec + "\r\n" + (s + "\r\n");
    HeaderBytes('$', Utf16Length(s), s + "\r\n");
    Utf8EncodeAppend(s, "\r\n");
    assert Utf8Encode("\r\n") == [13, 10];
    var D, S := Utf8Encode(dec), Utf8Encode(s);
    var rest := S + [13, 10] + tail;
    assert Serialized(Bulk(Some(s))) + tail == [36] + D + [13, 10] + rest;
    ParseLine(36, D, rest);
    BulkBodyReads(s, tail);
  }

  lemma BulkBodyReads(s: string, tail: seq<Byte>)
    requires IsAscii(s)
    ensures ParseBulkBody(NatToDecimal(Utf16Length(s)), Utf8Encode(s) + [13, 10] + tail)
         == Some((Bulk(Some(s)), tail))
  {
    var dec := NatToDecimal(Utf16Length(s));
    var S := Utf8Encode(s);
    var rest := S + [13, 10] + tail;
    assert dec != "-1" by { assert IsDigit(dec[0]); }
    DigitsValueOfDecimal(Utf16Length(s));
    Utf16LengthVersusUtf8(s);
    assert rest[..|S|] == S && rest[|S|..|S| + 2] == [13, 10] && rest[|S| + 2..] == tail;
    Utf8DecodeEncode(s);
  }

  lemma {:induction false} ParseArr(elems: seq<Resp>, tail: seq<Byte>)
    requires Transmittable(Arr(elems))
    ensures Parse(Serialized(Arr(elems)) + tail) == Some((Arr(elems), tail))
    decreases elems, 1
  {
    var dec := NatToDecimal(|elems|);
    assert WireText(Arr(elems)) == ['*'] + dec + "\r\n" + ToTextAll(elems);
    HeaderBytes('*', |elems|, ToTextAll(elems));
    var D, E := Utf8Encode(dec), Utf8Encode(ToTextAll(elems));
    assert Serialized(Arr(elems)) + tail == [42] + D + [13, 10] + (E + tail);
    ParseLine(42, D, E + tail);
    DigitsValueOfDecimal(|elems|);
    ParseManySerialized(elems, tail);
  }

  lemma ParseErr(kind: ErrorKind, m: Option<string>, tail: seq<Byte>)
    requires m.None? || '\r' !in m.value
    ensures Parse(Serialized(Err(kind, m)) + tail) == Some((AsRead(Err(kind, m)), tail))
  {
    var msg := if m.Some? then m.value else "";
    var line := ErrorToken(kind) + " " + msg;
    ErrWireBytes(kind, m, line);
    NoCrInErrorLine(kind, msg);
    Utf8EncodeAsciiByte(line, '\r');
    var L := Utf8Encode(line);
    assert Serialized(Err(kind, m)) + tail == [45] + L + [13, 10] + tail;
    ParseLine(45, L, tail);
    Utf8DecodeEncode(line);
    ErrorOfLineReadsKind(kind, msg);
  }

  lemma ErrWireBytes(kind: ErrorKind, m: Option<string>, line: string)
    requires line == ErrorToken(kind) + " " + (if m.Some? then m.value else "")
    ensures Serialized(Err(kind, m)) == [45] + Utf8Encode(line) + [13, 10]
  {
    assert WireText(Err(kind, m)) == ['-'] + line + CRLF;
    LineBytes('-', line);
  }

  /** The bytes of a line that starts with an ASCII type character and ends in CR LF. */
  lemma LineBytes(c: char, line: string)
    requires c as int < 0x80
    ensures Utf8Encode([c] + line + CRLF) == [c as int] + Utf8Encode(line) + [13, 10]
  {
    Utf8EncodeAppend([c] + line, CRLF);
    Utf8EncodeAppend([c], line);
    assert Utf8Encode(CRLF) == [13, 10];
    assert Utf8Encode([c]) == [c as int];
  }

  lemma NoCrInErrorLine(kind: ErrorKind, msg: string)
    requires '\r' !in msg
    ensures '\r' !in ErrorToken(kind) + " " + msg
  {
    var line := ErrorToken(kind) + " " + msg;
    var k := |ErrorToken(kind)| + 1;
    assert forall i :: 0 <= i < k ==> line[i] != '\r';
    assert forall i :: k <= i < |line| ==> line[i] == msg[i - k];
  }

  lemma ErrorOfLineReadsKind(kind: ErrorKind, msg: string)
    ensures ErrorOfLine(ErrorToken(kind) + " " + msg) == Some(Err(kind, Some(msg)))
  {
    var line := ErrorToken(kind) + " " + msg;
    var t := ErrorToken(kind) + " ";
    assert line[..|t|] == t && line[|t|..] == msg;
    match kind
    case IllegalArgument =>
    case InvalidCommand =>
      assert line[5] == 'N';
    case Unexpected =>
      assert line[4] == 'U';
  }

  lemma {:induction false} ParseManySerialized(elems: seq<Resp>, tail: seq<Byte>)
    requires forall i :: 0 <= i < |elems| ==> !elems[i].Err? && Transmittable(elems[i])
    ensures ParseMany(Utf8Encode(ToTextAll(elems)) + tail, |elems|) == Some((elems, tail))
    decreases elems, 0
  {
    if elems != [] {
      var e := elems[0];
      var rest := Utf8Encode(ToTextAll(elems[1..]));
      Utf8EncodeAppend(ToText(e), ToTextAll(elems[1..]));
      assert Serialized(e) == Utf8Encode(ToText(e));
      var bs := Utf8Encode(ToTextAll(elems)) + tail;
      assert bs == Serialized(e) + (rest + tail);
      ParseSerialized(e, rest + tail);
      assert Parse(bs) == Some((e, rest + tail));
      ParseManySerialized(elems[1..], tail);
      assert ParseMany(rest + tail, |elems| - 1) == Some((elems[1..], tail));
      assert [e] + elems[1..] == elems;
      assert ParseMany(bs, |elems|) == Some(([e] + elems[1..], tail));
    } else {
      assert Utf8Encode(ToTextAll(elems)) + tail == tail;
    }
  }

  // What the reader cannot recover.

  /**
   * The length line of a bulk string counts UTF-16 units, not bytes, so a string
   * with a non-ASCII character announces fewer bytes than follow and no longer reads back.
   */
  lemma NonAsciiBulkUndercounts(s: string)
    requires !IsAscii(s)
    ensures Utf16Length(s) < |Utf8Encode(s)|
  {
    Utf16LengthVersusUtf8(s);
  }

  lemma NonAsciiBulkUnreadable()
    ensures Parse(Serialized(Bulk(Some("\U{E9}")))) == None
  {
    var rest: seq<Byte> := [0xC3, 0xA9, 13, 10];
    NonAsciiBulkBytes();
    HeaderBytes('$', 1, "");
    ParseLine(36, Utf8Encode(NatToDecimal(1)), rest);
    assert NatToDecimal(1) == "1";
    NonAsciiBulkBodyFails();
  }

  /** "\U{E9}" announces one unit and is followed by its two bytes and CR LF. */
  lemma NonAsciiBulkBytes()
    ensures Serialized(Bulk(Some("\U{E9}"))) == [36] + Utf8Encode(NatToDecimal(1)) + [13, 10] + [0xC3, 0xA9, 13, 10]
  {
    var s := "\U{E9}";
    assert Utf16Length(s) == 1;
    assert WireText(Bulk(Some(s))) == ['$'] + NatToDecimal(1) + "\r\n" + (s + "\r\n");
    HeaderBytes('$', 1, s + "\r\n");
    Utf8EncodeAppend(s, "\r\n");
    assert Utf8Encode("\r\n") == [13, 10];
    assert Utf8Encode(s) == [0xC3, 0xA9];
  }

  /** One byte is taken as the body, and the next two are not CR LF. */
  lemma NonAsciiBulkBodyFails()
    ensures ParseBulkBody("1", [0xC3, 0xA9, 13, 10]) == None
  {
    var rest: seq<Byte> := [0xC3, 0xA9, 13, 10];
    assert DigitsValue("1") == 1;
    assert rest[1..3] == [0xA9, 13];
  }

  lemma {:induction false} ReadLineNone(bs: seq<Byte>)
    requires 13 !in bs
    ensures ReadLine(bs) == None
  {
    if |bs| >= 2 {
      ReadLineNone(bs[1..]);
    }
  }

  /**
   * An error inside an array is rendered with toString(), which has no CR LF, so
   * the array's bytes never finish: no value can be read from them.
   */
  lemma NestedErrorUnterminated(kind: ErrorKind, m: string)
    requires '\r' !in m
    ensures ToText(Arr([Err(kind, Some(m))])) == "*1\r\n-" + (ErrorToken(kind) + " " + m)
    ensures Parse(Serialized(Arr([Err(kind, Some(m))]))) == None
  {
    var line := ErrorToken(kind) + " " + m;
    var e := Err(kind, Some(m));
    NestedErrorText(e, line);
    HeaderBytes('*', 1, "-" + line);
    NoCrInErrorLine(kind, m);
    Utf8EncodeAsciiByte(line, '\r');
    Utf8EncodeAppend("-", line);
    assert Utf8Encode("-") == [45];
    var E := [45] + Utf8Encode(line);
    assert Serialized(Arr([e])) == [42] + Utf8Encode(NatToDecimal(1)) + [13, 10] + E;
    ParseLine(42, Utf8Encode(NatToDecimal(1)), E);
    DigitsValueOfDecimal(1);
    assert E[1..] == Utf8Encode(line);
    ReadLineNone(E[1..]);
    assert Parse(E) == None;
    assert ParseMany(E, 1) == None;
  }

  lemma NestedErrorText(e: Resp, line: string)
    requires e.Err? && e.message.Some? && line == ErrorToken(e.kind) + " " + e.message.value
    ensures ToText(e) == "-" + line
    ensures WireText(Arr([e])) == ['*'] + NatToDecimal(1) + "\r\n" + ("-" + line)
    ensures ToText(Arr([e])) == "*1\r\n-" + line
  {
    assert ToTextAll([e]) == ToText(e) by {
      assert ToTextAll([e]) == ToText(e) + ToTextAll([]);
    }
    assert NatToDecimal(1) == "1";
    SeqAssoc("*1\r\n", "-", line);
  }

  /** A null error message and an empty one put the same bytes on the wire, though toString() differs. */
  lemma NullMessageWire(kind: ErrorKind)
    ensures Serialized(Err(kind, None)) == Serialized(Err(kind, Some("")))
    ensures ToText(Err(kind, None)) != ToText(Err(kind, Some("")))
  {
    assert WireText(Err(kind, None)) == WireText(Err(kind, Some("")));
    assert |ToText(Err(kind, None))| < |ToText(Err(kind, Some("")))|;
  }
}
