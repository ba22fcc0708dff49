/** PING: answers with the bulk string "PONG" whatever its arguments. */
module PingCommand {
  import opened Wrappers
  import opened Unicode
  import opened JavaText
  import opened Protocol
  import opened Handler

  function Execute(args: seq<string>): Reply
  {
    Value(Bulk(Some("PONG")))
  }

  /** The reply does not depend on the arguments, and its wire form is "$4\r\nPONG\r\n". */
  lemma PingReply(args: seq<string>)
    ensures Execute(args) == Execute([])
    ensures Execute(args).Value?
    ensures WireText(Execute(args).resp) == "$4\r\nPONG\r\n"
  {
    assert IntToDecimal(4) == "4";
    assert Utf16Units("PONG") == [80, 79, 78, 71];
  }
}
