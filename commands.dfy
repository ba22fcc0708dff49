/**
 * A command line taken through the default verb table to its handler: what the
 * connection loop does with each line it reads, apart from the socket I/O.
 */
module Commands {
  import opened Wrappers
  import opened JavaText
  import opened Protocol
  import opened Handler
  import opened Dispatch
  import EchoCommand
  import ConfigCommand

  /** The reply to a line no registered verb matches. */
  const NotFoundMessage: string := "command not found, everyone needs help at some point"
  const CommandNotFound: Resp := InvalidCommandError(Some(NotFoundMessage))

  lemma CommandNotFoundWire()
    ensures WireText(CommandNotFound) == "-ERR INVALID COMMAND " + NotFoundMessage + "\r\n"
  {
    assert "-" + ErrorToken(InvalidCommand) + " " == "-ERR INVALID COMMAND ";
  }

  /** A candidate of two or more tokens holds a space. */
  lemma MultiWordCandidateHasSpace(parts: seq<string>, n: nat)
    requires 2 <= n <= |parts|
    ensures ' ' in Candidate(parts, n)
  {
    var joined := Join(" ", parts[..n]);
    assert joined == parts[0] + " " + Join(" ", parts[1..n]) by {
      assert parts[..n][1..] == parts[1..n];
    }
    assert joined[|parts[0]|] == ' ';
    assert Candidate(parts, n)[|parts[0]|] == ' ';
  }

  /**
   * The default verbs are single words, so only the first token decides: it is
   * the verb when its upper-case form is in the table, and otherwise nothing
   * matches.
   */
  lemma FirstWordDecides(parts: seq<string>)
    requires parts != []
    ensures LongestMatch(DefaultTable(), parts)
         == if ToUpper(parts[0]) in DefaultTable()
            then Some(MatchResult(DefaultTable()[ToUpper(parts[0])], parts[1..]))
            else None
  {
    assert parts[..1] == [parts[0]];
    assert Candidate(parts, 1) == ToUpper(parts[0]);
    forall j | 1 < j
      ensures !Registered(DefaultTable(), parts, j)
    {
      if j <= |parts| {
        MultiWordCandidateHasSpace(parts, j);
        DefaultVerbs();
      }
    }
    if ToUpper(parts[0]) in DefaultTable() {
      assert Registered(DefaultTable(), parts, 1);
      LongestMatchCharacterised(DefaultTable(), parts,
        Some(MatchResult(DefaultTable()[ToUpper(parts[0])], parts[1..])));
    } else {
      LongestMatchCharacterised(DefaultTable(), parts, None);
    }
  }

  /** A line whose first token is no verb, in any case, is answered with CommandNotFound. */
  lemma UnknownFirstWord(line: string)
    ensures Tokens(line) != []
    ensures ToUpper(Tokens(line)[0]) !in DefaultTable() ==> LongestMatch(DefaultTable(), Tokens(line)) == None
  {
    TokensRejoin(line);
    FirstWordDecides(Tokens(line));
  }

  /**
   * With the default table a line whose first word names a verb, in any case,
   * dispatches to that verb with the rest of the line's pieces as arguments.
   */
  lemma DefaultDispatch(line: string, verb: string, rest: string)
    requires Trim(line) == verb + " " + rest && ' ' !in verb && ToUpper(verb) in DefaultTable()
    ensures LongestMatch(DefaultTable(), Tokens(line))
         == Some(MatchResult(DefaultTable()[ToUpper(verb)], Pieces(rest)))
  {
    var parts := Tokens(line);
    SplitTrimmed(Trim(line));
    PiecesAppend(verb, rest);
    assert parts == [verb] + Pieces(rest);
    FirstWordDecides(parts);
  }

  /** ECHO answers with exactly the trimmed line's text after the verb and its space. */
  lemma EchoRepliesRestOfLine(line: string, verb: string, rest: string)
    requires Trim(line) == verb + " " + rest && ' ' !in verb && ToUpper(verb) == "ECHO"
    ensures LongestMatch(DefaultTable(), Tokens(line)) == Some(MatchResult(Echo, Pieces(rest)))
    ensures EchoCommand.Execute(Pieces(rest)) == Value(Bulk(Some(rest)))
  {
    DefaultDispatch(line, verb, rest);
    JoinPieces(rest);
  }

  /**
   * "config get key" reaches the CONFIG handler with the sub-command in its own
   * case, so a lower-case "get" is refused as not a valid command.
   */
  lemma ConfigSubCommandKeepsCase(config: map<string, string>, line: string, verb: string, sub: string, key: string)
    requires Trim(line) == verb + " " + (sub + " " + key)
    requires ' ' !in verb && ' ' !in sub && ' ' !in key
    requires ToUpper(verb) == "CONFIG" && sub != "GET"
    ensures LongestMatch(DefaultTable(), Tokens(line)) == Some(MatchResult(Config, [sub, key]))
    ensures ConfigCommand.Execute(config, [sub, key]) == Text(Some(ConfigCommand.NotAValidCommand))
  {
    assert Pieces(sub + " " + key) == [sub, key] by {
      PiecesAppend(sub, key);
      PiecesWithoutSpace(key);
    }
    assert DefaultTable()[ToUpper(verb)] == Config;
    DefaultDispatch(line, verb, sub + " " + key);
    ConfigCommand.ConfigOutcomes(config, [sub, key]);
  }
}
