/** GET key: the stored value, or null when the key is absent or expired. */
module GetCommand {
  import opened Wrappers
  import opened Database
  import opened Handler

  const NotEnoughArguments: string := "--ERR not enough arguments specified see help"

  /**
   * execute: without arguments an error line and the store untouched; otherwise
   * exactly what a read of the first argument answers, with the eviction it causes.
   */
  method Execute(db: DbMap, args: seq<string>, now: int) returns (reply: Reply)
    modifies db
    ensures args == [] ==> reply == Text(Some(NotEnoughArguments)) && db.entries == old(db.entries)
    ensures args != [] ==> reply == Text(Lookup(old(db.entries), args[0], now))
    ensures args != [] ==> db.entries == Evict(old(db.entries), args[0], now)
  {
    if args == [] {
      return Text(Some(NotEnoughArguments));
    }
    var key := args[0];
    var value := db.GetValue(key, now);
    return Text(value);
  }
}
