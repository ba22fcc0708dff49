/**
 * The java.lang.String and java.lang.Integer operations the command path uses:
 * trim, split on a single space, String.join, toUpperCase, decimal formatting of an
 * int (StringBuilder.append(int)) and Integer.parseInt.
 */
module JavaText {
  import opened Wrappers
  import opened JavaIo

  // ---------------------------------------------------------------------------
  // trim

  /** String.trim removes every character up to U+0020 from both ends. */
  predicate IsBlank(c: char) { c <= ' ' }

  predicate IsTrimmed(s: string)
  {
    s == [] || (!IsBlank(s[0]) && !IsBlank(s[|s| - 1]))
  }

  /** s[i..j] is s with only blanks cut off before i and after j. */
  predicate CutsBlanks(s: string, i: int, j: int)
  {
    0 <= i <= j <= |s|
    && (forall k :: 0 <= k < i ==> IsBlank(s[k]))
    && (forall k :: j <= k < |s| ==> IsBlank(s[k]))
  }

  function TrimStart(s: string): (r: string)
    ensures |r| <= |s| && r == s[|s| - |r|..]
    ensures forall k :: 0 <= k < |s| - |r| ==> IsBlank(s[k])
    ensures r == [] || !IsBlank(r[0])
  {
    if s != [] && IsBlank(s[0]) then TrimStart(s[1..]) else s
  }

  function TrimEnd(s: string): (r: string)
    ensures |r| <= |s| && r == s[..|r|]
    ensures forall k :: |r| <= k < |s| ==> IsBlank(s[k])
    ensures r == [] || !IsBlank(r[|r| - 1])
  {
    if s != [] && IsBlank(s[|s| - 1]) then TrimEnd(s[..|s| - 1]) else s
  }

  /** String.trim: the part of s left once its leading and trailing blanks are cut off. */
  function Trim(s: string): (r: string)
    ensures IsTrimmed(r)
  {
    TrimEnd(TrimStart(s))
  }

  /**
   * trim cuts only blanks, from both ends; with IsTrimmed this fixes its result: the
   * longest middle part of s that neither starts nor ends with a blank.
   */
  lemma TrimCutsBlanks(s: string)
    ensures exists i, j :: CutsBlanks(s, i, j) && Trim(s) == s[i..j]
  {
    var t := TrimStart(s);
    var r := TrimEnd(t);
    var i := |s| - |t|;
    assert r == s[i..i + |r|];
    forall k | i + |r| <= k < |s|
      ensures IsBlank(s[k])
    {
      assert s[k] == t[k - i];
    }
    assert CutsBlanks(s, i, i + |r|);
  }

  /** trim leaves a trimmed string as it is. */
  lemma TrimTrimmed(s: string)
    requires IsTrimmed(s)
    ensures Trim(s) == s
  {
  }

  // ---------------------------------------------------------------------------
  // split(" ") and String.join

  /** The pieces of s between single spaces: n spaces give n + 1 pieces, empty ones included. */
  function Pieces(s: string): (r: seq<string>)
    ensures |r| >= 1
    ensures forall i :: 0 <= i < |r| ==> ' ' !in r[i]
  {
    if s == [] then [""]
    else
      var rest := Pieces(s[1..]);
      if s[0] == ' ' then [""] + rest
      else [[s[0]] + rest[0]] + rest[1..]
  }

  function DropTrailingEmpty(ps: seq<string>): (r: seq<string>)
    ensures |r| <= |ps| && r == ps[..|r|]
  {
    if ps != [] && ps[|ps| - 1] == "" then DropTrailingEmpty(ps[..|ps| - 1]) else ps
  }

  /**
   * s.split(" "): the whole string when it holds no space; otherwise its pieces
   * with the trailing empty ones removed.
   */
  function Split(s: string): seq<string>
  {
    if ' ' !in s then [s] else DropTrailingEmpty(Pieces(s))
  }

  /** String.join(sep, parts). */
  function Join(sep: string, parts: seq<string>): string
  {
    if parts == [] then ""
    else if |parts| == 1 then parts[0]
    else parts[0] + sep + Join(sep, parts[1..])
  }

  /** Joining the pieces with single spaces rebuilds the string. */
  lemma {:induction false} JoinPieces(s: string)
    ensures Join(" ", Pieces(s)) == s
  {
    if s != [] {
      var rest := Pieces(s[1..]);
      JoinPieces(s[1..]);
      if s[0] == ' ' {
        assert ([""] + rest)[1..] == rest;
      } else {
        var ps := [[s[0]] + rest[0]] + rest[1..];
        assert ps[1..] == rest[1..];
        if |rest| > 1 {
          assert Join(" ", rest) == rest[0] + " " + Join(" ", rest[1..]);
        }
      }
      assert [s[0]] + s[1..] == s;
    }
  }

  lemma {:induction false} PiecesWithoutSpace(s: string)
    requires ' ' !in s
    ensures Pieces(s) == [s]
  {
    if s != [] {
      assert ' ' !in s[1..];
      PiecesWithoutSpace(s[1..]);
      assert [s[0]] + s[1..] == s;
    }
  }

  /** The pieces of a + " " + b are those of a followed by those of b. */
  lemma {:induction false} PiecesAppend(a: string, b: string)
    requires ' ' !in a
    ensures Pieces(a + " " + b) == [a] + Pieces(b)
  {
    if a == [] {
      assert a + " " + b == [' '] + b;
      assert ([' '] + b)[1..] == b;
    } else {
      var s := a + " " + b;
      assert s[1..] == a[1..] + " " + b;
      assert ' ' !in a[1..];
      PiecesAppend(a[1..], b);
      assert [a[0]] + a[1..] == a;
    }
  }

  /** When s does not end in a space its last piece is not empty. */
  lemma {:induction false} LastPieceNotEmpty(s: string)
    requires s != [] && s[|s| - 1] != ' '
    ensures Pieces(s)[|Pieces(s)| - 1] != ""
  {
    if |s| > 1 {
      assert s[1..][|s[1..]| - 1] == s[|s| - 1];
      LastPieceNotEmpty(s[1..]);
    }
  }

  /** On a trimmed line split(" ") drops nothing: it yields exactly the pieces. */
  lemma SplitTrimmed(t: string)
    requires IsTrimmed(t)
    ensures Split(t) == Pieces(t)
  {
    if ' ' !in t {
      PiecesWithoutSpace(t);
    } else {
      LastPieceNotEmpty(t);
    }
  }

  // ---------------------------------------------------------------------------
  // toUpperCase

  function UpperChar(c: char): char
  {
    if 'a' <= c <= 'z' then (c as int - 32) as char else c
  }

  function ToUpper(s: string): (r: string)
    ensures |r| == |s| && forall i :: 0 <= i < |s| ==> r[i] == UpperChar(s[i])
  {
    seq(|s|, i requires 0 <= i < |s| => UpperChar(s[i]))
  }

  predicate HasLowerCase(s: string)
  {
    exists i :: 0 <= i < |s| && 'a' <= s[i] <= 'z'
  }

  // ---------------------------------------------------------------------------
  // Decimal numbers

  predicate IsDigit(c: char) { '0' <= c <= '9' }

  predicate IsDigits(s: string)
  {
    forall i :: 0 <= i < |s| ==> IsDigit(s[i])
  }

  function DigitChar(d: int): (c: char)
    requires 0 <= d < 10
    ensures IsDigit(c)
  {
    ('0' as int + d) as char
  }

  /** The decimal digits of n, no sign and no leading zero. */
  function NatToDecimal(n: nat): (r: string)
    ensures |r| >= 1 && IsDigits(r)
  {
    if n < 10 then [DigitChar(n)] else NatToDecimal(n / 10) + [DigitChar(n % 10)]
  }

  /** Integer.toString(x), which StringBuilder.append(int) appends. */
  function IntToDecimal(x: int): string
  {
    if x < 0 then "-" + NatToDecimal(-x) else NatToDecimal(x)
  }

  function DigitsValue(s: string): nat
    requires IsDigits(s)
  {
    if s == [] then 0 else DigitsValue(s[..|s| - 1]) * 10 + (s[|s| - 1] as int - '0' as int)
  }

  lemma {:induction false} DigitsValueOfDecimal(n: nat)
    ensures DigitsValue(NatToDecimal(n)) == n
  {
    if n >= 10 {
      var r := NatToDecimal(n);
      assert r[..|r| - 1] == NatToDecimal(n / 10);
      DigitsValueOfDecimal(n / 10);
    }
  }

  /** An optional '+' or '-' followed by at least one decimal digit. */
  predicate IsSignedDecimal(s: string)
  {
    s != [] && (IsDigits(s) || ((s[0] == '-' || s[0] == '+') && |s| >= 2 && IsDigits(s[1..])))
  }

  /** The value a signed decimal denotes. */
  function SignedValue(s: string): int
    requires IsSignedDecimal(s)
  {
    var magnitude: int := if s[0] == '-' || s[0] == '+' then DigitsValue(s[1..]) else DigitsValue(s);
    if s[0] == '-' then -magnitude else magnitude
  }

  /**
   * Integer.parseInt(s): an optional '+' or '-' and at least one decimal digit, whose
   * value fits in an int; None stands for its NumberFormatException.
   */
  function ParseInt(s: string): (r: Option<int>)
    ensures r.Some? <==> IsSignedDecimal(s) && IsInt32(SignedValue(s))
    ensures r.Some? ==> r.value == SignedValue(s)
  {
    if s == [] then None
    else
      var digits := if s[0] == '-' || s[0] == '+' then s[1..] else s;
      if digits == [] || !IsDigits(digits) then None
      else
        var magnitude: int := DigitsValue(digits);
        var v := if s[0] == '-' then -magnitude else magnitude;
        if IsInt32(v) then Some(v) else None
  }

  /** parseInt reads back every int that Integer.toString writes. */
  lemma ParseIntDecimal(x: int)
    requires IsInt32(x)
    ensures ParseInt(IntToDecimal(x)) == Some(x)
  {
    if x < 0 {
      var d := NatToDecimal(-x);
      var s := "-" + d;
      assert s[0] == '-' && s[1..] == d;
      DigitsValueOfDecimal(-x);
    } else {
      var d := NatToDecimal(x);
      assert d[0] != '-' && d[0] != '+' by { assert IsDigit(d[0]); }
      DigitsValueOfDecimal(x);
    }
  }
}
