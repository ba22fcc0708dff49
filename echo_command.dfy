/** ECHO: answers with its arguments joined by single spaces, or the null bulk string. */
module EchoCommand {
  import opened Wrappers
  import opened JavaText
  import opened Protocol
  import opened Handler

  function Execute(args: seq<string>): Reply
  {
    if args != [] then Value(Bulk(Some(Join(" ", args)))) else Value(Bulk(None))
  }

  /** Every reply is a bulk string, null exactly when there are no arguments; one argument comes back unchanged. */
  lemma EchoReplies(args: seq<string>)
    ensures Execute(args).Value? && Execute(args).resp.Bulk?
    ensures Execute(args).resp.data.None? <==> args == []
    ensures |args| == 1 ==> Execute(args).resp.data == Some(args[0])
  {
  }

  /** No arguments serialise as the null bulk string "$-1\r\n". */
  lemma EchoNothingWire()
    ensures WireText(Execute([]).resp) == "$-1\r\n"
  {
    assert IntToDecimal(-1) == "-1";
  }

  /** Arguments without spaces are recovered by splitting the echoed text on single spaces. */
  lemma {:induction false} EchoSplitsBack(args: seq<string>)
    requires args != []
    requires forall i :: 0 <= i < |args| ==> ' ' !in args[i]
    ensures Pieces(Execute(args).resp.data.value) == args
  {
    if |args| == 1 {
      PiecesWithoutSpace(args[0]);
    } else {
      EchoSplitsBack(args[1..]);
      PiecesAppend(args[0], Join(" ", args[1..]));
      assert [args[0]] + args[1..] == args;
    }
  }
}
