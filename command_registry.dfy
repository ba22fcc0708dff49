/**
 * The command registry: a table from verb name to handler, and the longest-prefix
 * dispatch of a command line against it.
 *
 * A line is trimmed and split on single spaces; the first i tokens joined by a
 * space and upper-cased form a candidate verb, tried from all tokens down to one.
 * The first candidate found in the table wins and the tokens after it are the
 * arguments.
 */
module Dispatch {
  import opened Wrappers
  import opened JavaText

  /** The handler objects the table holds, one per command class. */
  datatype Verb = Ping | Echo | Set | Get | Config | Keys | Info

  /** The record CommandMatchResult: the handler and the arguments after the verb. */
  datatype MatchResult = MatchResult(cmd: Verb, args: seq<string>)

  /** The verbs the constructor registers; INFO is not among them. */
  function DefaultTable(): map<string, Verb>
  {
    map["PING" := Ping, "ECHO" := Echo, "SET" := Set, "GET" := Get, "CONFIG" := Config, "KEYS" := Keys]
  }

  /** cmd.trim().split(" "). */
  function Tokens(line: string): seq<string>
  {
    Split(Trim(line))
  }

  /** The candidate verb made of the first n tokens, upper-cased. */
  function Candidate(parts: seq<string>, n: nat): string
    requires n <= |parts|
  {
    ToUpper(Join(" ", parts[..n]))
  }

  /** The first n tokens spell a verb the table holds. */
  ghost predicate Registered(registry: map<string, Verb>, parts: seq<string>, n: int)
  {
    1 <= n <= |parts| && Candidate(parts, n) in registry
  }

  /**
   * r is the answer longest-prefix dispatch owes: nothing when no prefix is
   * registered, otherwise the handler of the longest registered prefix together
   * with the tokens after it.
   */
  ghost predicate IsLongestMatch(registry: map<string, Verb>, parts: seq<string>, r: Option<MatchResult>)
  {
    match r
    case None => forall n :: !Registered(registry, parts, n)
    case Some(m) =>
      exists n ::
        Registered(registry, parts, n)
        && m == MatchResult(registry[Candidate(parts, n)], parts[n..])
        && forall j :: n < j ==> !Registered(registry, parts, j)
  }

  /** The first registered candidate among the prefix lengths n, n - 1, ..., 1. */
  function MatchWithin(registry: map<string, Verb>, parts: seq<string>, n: nat): (r: Option<MatchResult>)
    requires n <= |parts|
    ensures r.Some? ==> |parts| - n <= |r.value.args| < |parts|
    ensures r.Some? ==> r.value.args == parts[|parts| - |r.value.args|..]
  {
    if n == 0 then None
    else if Candidate(parts, n) in registry then
      Some(MatchResult(registry[Candidate(parts, n)], parts[n..]))
    else MatchWithin(registry, parts, n - 1)
  }

  function LongestMatch(registry: map<string, Verb>, parts: seq<string>): Option<MatchResult>
  {
    MatchWithin(registry, parts, |parts|)
  }

  class CommandRegistry {
    var registry: map<string, Verb>

    constructor ()
      ensures registry == DefaultTable()
    {
      registry := map[];
      new;
      Register("PING", Ping);
      Register("ECHO", Echo);
      Register("SET", Set);
      Register("GET", Get);
      Register("CONFIG", Config);
      Register("KEYS", Keys);
    }

    /** register: maps cmd to handler, replacing a handler under the same exact name. */
    method Register(cmd: string, handler: Verb)
      modifies this
      ensures registry == old(registry)[cmd := handler]
    {
      registry := registry[cmd := handler];
    }

    /** getHandler: an exact-case lookup; None stands for null. */
    function GetHandler(cmd: string): (h: Option<Verb>)
      reads this
      ensures h.Some? <==> cmd in registry
      ensures h.Some? ==> h.value == registry[cmd]
    {
      if cmd in registry then Some(registry[cmd]) else None
    }

    /** commandMatchResult: longest-prefix dispatch of a line; None stands for null. */
    method CommandMatchResult(cmd: string) returns (r: Option<MatchResult>)
      ensures IsLongestMatch(registry, Tokens(cmd), r)
      ensures r == LongestMatch(registry, Tokens(cmd))
    {
      var parts := Tokens(cmd);
      var i := |parts| - 1;
      while i >= 0
        invariant -1 <= i < |parts|
        invariant MatchWithin(registry, parts, i + 1) == LongestMatch(registry, parts)
      {
        var maybeCmd := Candidate(parts, i + 1);
        if maybeCmd in registry {
          var args := parts[i + 1..];
          r := Some(MatchResult(registry[maybeCmd], args));
          LongestMatchCharacterised(registry, parts, r);
          return;
        }
        i := i - 1;
      }
      r := None;
      LongestMatchCharacterised(registry, parts, r);
    }
  }

  // ---------------------------------------------------------------------------
  // Longest-prefix dispatch

  lemma {:induction false} MatchWithinLongest(registry: map<string, Verb>, parts: seq<string>, n: nat)
    requires n <= |parts|
    requires forall j :: n < j ==> !Registered(registry, parts, j)
    ensures IsLongestMatch(registry, parts, MatchWithin(registry, parts, n))
  {
    if n > 0 {
      if Candidate(parts, n) in registry {
        assert Registered(registry, parts, n);
      } else {
        MatchWithinLongest(registry, parts, n - 1);
      }
    }
  }

  /** The downward search finds exactly the longest registered prefix, and nothing else does. */
  lemma LongestMatchCharacterised(registry: map<string, Verb>, parts: seq<string>, r: Option<MatchResult>)
    ensures IsLongestMatch(registry, parts, r) <==> r == LongestMatch(registry, parts)
  {
    var l := LongestMatch(registry, parts);
    MatchWithinLongest(registry, parts, |parts|);
    if IsLongestMatch(registry, parts, r) {
      assert r.None? <==> forall n :: !Registered(registry, parts, n);
      assert l.None? <==> forall n :: !Registered(registry, parts, n);
      if r.Some? {
        var n1 :| Registered(registry, parts, n1)
          && r.value == MatchResult(registry[Candidate(parts, n1)], parts[n1..])
          && forall j :: n1 < j ==> !Registered(registry, parts, j);
        var n2 :| Registered(registry, parts, n2)
          && l.value == MatchResult(registry[Candidate(parts, n2)], parts[n2..])
          && forall j :: n2 < j ==> !Registered(registry, parts, j);
        assert !(n1 < n2) && !(n2 < n1);
      }
    }
  }

  /** A registered prefix of n tokens is matched, possibly by a longer one: a multi-word verb beats its first word. */
  lemma RegisteredPrefixMatches(registry: map<string, Verb>, parts: seq<string>, n: nat)
    requires Registered(registry, parts, n)
    ensures LongestMatch(registry, parts).Some?
    ensures |LongestMatch(registry, parts).value.args| <= |parts| - n
  {
    var l := LongestMatch(registry, parts);
    LongestMatchCharacterised(registry, parts, l);
    var k :| Registered(registry, parts, k)
      && l.value == MatchResult(registry[Candidate(parts, k)], parts[k..])
      && forall j :: k < j ==> !Registered(registry, parts, j);
  }

  /** Whatever is matched is a handler of the table. */
  lemma MatchedVerbRegistered(registry: map<string, Verb>, parts: seq<string>)
    requires LongestMatch(registry, parts).Some?
    ensures LongestMatch(registry, parts).value.cmd in registry.Values
  {
    var l := LongestMatch(registry, parts);
    LongestMatchCharacterised(registry, parts, l);
    var k :| Registered(registry, parts, k) && l.value == MatchResult(registry[Candidate(parts, k)], parts[k..]);
  }

  // ---------------------------------------------------------------------------
  // Case

  lemma ToUpperAppend(a: string, b: string)
    ensures ToUpper(a + b) == ToUpper(a) + ToUpper(b)
  {
    assert forall i :: 0 <= i < |a + b| ==> ToUpper(a + b)[i] == (ToUpper(a) + ToUpper(b))[i];
  }

  /** Lists of tokens equal up to case join to candidates equal after upper-casing. */
  lemma {:induction false} JoinCaseBlind(ps: seq<string>, qs: seq<string>)
    requires |ps| == |qs|
    requires forall i :: 0 <= i < |ps| ==> ToUpper(ps[i]) == ToUpper(qs[i])
    ensures ToUpper(Join(" ", ps)) == ToUpper(Join(" ", qs))
  {
    if |ps| > 1 {
      JoinCaseBlind(ps[1..], qs[1..]);
      ToUpperAppend(ps[0] + " ", Join(" ", ps[1..]));
      ToUpperAppend(qs[0] + " ", Join(" ", qs[1..]));
      ToUpperAppend(ps[0], " ");
      ToUpperAppend(qs[0], " ");
    }
  }

  lemma {:induction false} MatchWithinCaseBlind(registry: map<string, Verb>, parts: seq<string>, other: seq<string>, n: nat)
    requires n <= |parts| == |other|
    requires forall i :: 0 <= i < |parts| ==> ToUpper(parts[i]) == ToUpper(other[i])
    ensures MatchWithin(registry, other, n).Some? == MatchWithin(registry, parts, n).Some?
    ensures MatchWithin(registry, parts, n).Some? ==>
      var m := MatchWithin(registry, parts, n).value;
      MatchWithin(registry, other, n).value == MatchResult(m.cmd, other[|parts| - |m.args|..])
  {
    if n > 0 {
      JoinCaseBlind(parts[..n], other[..n]);
      if Candidate(parts, n) !in registry {
        MatchWithinCaseBlind(registry, parts, other, n - 1);
      }
    }
  }

  /**
   * The case of the input does not matter to the verb: lines whose tokens agree
   * after upper-casing reach the same handler at the same position, and the
   * arguments keep each line's own casing.
   */
  lemma MatchIgnoresCase(registry: map<string, Verb>, parts: seq<string>, other: seq<string>)
    requires |parts| == |other|
    requires forall i :: 0 <= i < |parts| ==> ToUpper(parts[i]) == ToUpper(other[i])
    ensures LongestMatch(registry, other).Some? == LongestMatch(registry, parts).Some?
    ensures LongestMatch(registry, parts).Some? ==>
      var m := LongestMatch(registry, parts).value;
      LongestMatch(registry, other).value == MatchResult(m.cmd, other[|parts| - |m.args|..])
  {
    MatchWithinCaseBlind(registry, parts, other, |parts|);
  }

  lemma {:induction false} MatchWithinSkipsName(
    registry: map<string, Verb>, parts: seq<string>, n: nat, name: string, handler: Verb)
    requires n <= |parts| && HasLowerCase(name)
    ensures MatchWithin(registry[name := handler], parts, n) == MatchWithin(registry, parts, n)
  {
    if n > 0 {
      assert Candidate(parts, n) != name by {
        assert !HasLowerCase(Candidate(parts, n));
      }
      MatchWithinSkipsName(registry, parts, n - 1, name, handler);
    }
  }

  /** A name registered with a lower-case letter in it can never be matched. */
  lemma LowerCaseNameNeverMatches(registry: map<string, Verb>, parts: seq<string>, name: string, handler: Verb)
    requires HasLowerCase(name)
    ensures LongestMatch(registry[name := handler], parts) == LongestMatch(registry, parts)
  {
    MatchWithinSkipsName(registry, parts, |parts|, name, handler);
  }

  // ---------------------------------------------------------------------------
  // Tokens

  /** The tokens hold no space and, joined by single spaces, rebuild the trimmed line. */
  lemma TokensRejoin(line: string)
    ensures |Tokens(line)| >= 1
    ensures forall i :: 0 <= i < |Tokens(line)| ==> ' ' !in Tokens(line)[i]
    ensures Join(" ", Tokens(line)) == Trim(line)
  {
    SplitTrimmed(Trim(line));
    JoinPieces(Trim(line));
  }

  lemma PiecesDoubleSpace(a: string, b: string)
    requires ' ' !in a
    ensures Pieces(a + "  " + b) == [a, ""] + Pieces(b)
  {
    var sb := [' '] + b;
    assert a + "  " + b == a + " " + sb;
    PiecesAppend(a, sb);
    assert sb[1..] == b;
  }

  /** Two spaces in a row inside the line yield an empty token between them. */
  lemma InteriorSpacesGiveEmptyToken(a: string, b: string)
    requires ' ' !in a && IsTrimmed(a + "  " + b)
    ensures Tokens(a + "  " + b) == [a, ""] + Pieces(b)
  {
    var t := a + "  " + b;
    TrimTrimmed(t);
    SplitTrimmed(t);
    PiecesDoubleSpace(a, b);
  }

  // ---------------------------------------------------------------------------
  // The default table

  lemma DefaultVerbs()
    ensures DefaultTable().Keys == {"PING", "ECHO", "SET", "GET", "CONFIG", "KEYS"}
    ensures Info !in DefaultTable().Values
    ensures forall name :: name in DefaultTable() ==> ' ' !in name
  {
  }

  /** No command line reaches the INFO handler, which the table does not hold. */
  lemma InfoUnreachable(line: string)
    ensures LongestMatch(DefaultTable(), Tokens(line)).Some? ==>
      LongestMatch(DefaultTable(), Tokens(line)).value.cmd != Info
  {
    if LongestMatch(DefaultTable(), Tokens(line)).Some? {
      MatchedVerbRegistered(DefaultTable(), Tokens(line));
      DefaultVerbs();
    }
  }
}
