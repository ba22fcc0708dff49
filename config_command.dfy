/**
 * CONFIG: "CONFIG GET key" answers with the configured value. The configuration
 * is a map passed in, read and never written.
 */
module ConfigCommand {
  import opened Wrappers
  import opened Handler

  const ArgsNotSatisfied: string := "--ERR Illegal Argument - args not satisfied"
  const NotAValidCommand: string := "--ERR Illegal Argument - not a valid command"
  const NoSuchConfig: string := "-ERR Illegal argument - no such config"

  function GetConfig(config: map<string, string>, key: string): string
  {
    if key in config then config[key] else NoSuchConfig
  }

  function Execute(config: map<string, string>, args: seq<string>): Reply
  {
    if |args| != 2 then Text(Some(ArgsNotSatisfied))
    else if args[0] == "GET" then Text(Some(GetConfig(config, args[1])))
    else Text(Some(NotAValidCommand))
  }

  /**
   * The reply is a configured value only for exactly two arguments, the first
   * being "GET" (case matters) and the second a configured key; otherwise it is
   * the error line for the first rule broken.
   */
  lemma ConfigOutcomes(config: map<string, string>, args: seq<string>)
    ensures Execute(config, args).Text? && Execute(config, args).text.Some?
    ensures |args| != 2 ==> Execute(config, args).text.value == ArgsNotSatisfied
    ensures |args| == 2 && args[0] != "GET" ==> Execute(config, args).text.value == NotAValidCommand
    ensures |args| == 2 && args[0] == "GET" ==>
      Execute(config, args).text.value == if args[1] in config then config[args[1]] else NoSuchConfig
  {
  }

  /** "get" in lower case is not the GET sub-command. */
  lemma LowerCaseGetRejected(config: map<string, string>, key: string)
    ensures Execute(config, ["get", key]) == Text(Some(NotAValidCommand))
  {
    assert ["get", key][0] != "GET" by {
      assert ["get", key][0][0] == 'g';
    }
  }
}
