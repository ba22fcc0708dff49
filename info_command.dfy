/**
 * INFO: "replication" answers with the replication section; anything else, or no
 * argument at all, throws IllegalArgumentException.
 */
module InfoCommand {
  import opened Wrappers
  import opened Protocol
  import opened Handler

  /** The sections INFO knows. */
  datatype InfoArgs = Replication

  function GetReplicationInfo(): string
  {
    "role:master"
  }

  function GetInfo(which: InfoArgs): string
  {
    match which
    case Replication => GetReplicationInfo()
  }

  function Execute(args: seq<string>): Reply
  {
    if args == [] then Thrown(IllegalArgumentException("missing argument for INFO"))
    else if args[0] == "replication" then Value(Bulk(Some(GetInfo(Replication))))
    else Thrown(IllegalArgumentException("Invalid argument for INFO"))
  }

  /**
   * INFO succeeds exactly when its first argument is "replication" (case matters),
   * and then answers "role:master" whatever follows; every other call throws.
   */
  lemma InfoOutcomes(args: seq<string>)
    ensures !Execute(args).Thrown? <==> (args != [] && args[0] == "replication")
    ensures !Execute(args).Thrown? ==> Execute(args) == Value(Bulk(Some("role:master")))
    ensures args == [] ==> Execute(args) == Thrown(IllegalArgumentException("missing argument for INFO"))
    ensures args != [] && args[0] != "replication" ==>
      Execute(args) == Thrown(IllegalArgumentException("Invalid argument for INFO"))
  {
  }

  lemma UpperCaseSectionRejected(more: seq<string>)
    ensures Execute(["REPLICATION"] + more).Thrown?
  {
    assert (["REPLICATION"] + more)[0] == "REPLICATION";
  }
}
