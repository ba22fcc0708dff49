/**
 * KEYS *: an array holding one bulk string per key of the store, in the store's
 * iteration order. Expired entries not yet evicted are listed too. Any other
 * pattern answers with the four-character bulk string "null".
 */
module KeysCommand {
  import opened Wrappers
  import opened Database
  import opened Protocol
  import opened Persist
  import opened Handler

  /** One bulk string per key, in order. */
  function KeyBulks(order: seq<string>): (r: seq<Resp>)
    ensures |r| == |order|
    ensures forall i :: 0 <= i < |order| ==> r[i] == Bulk(Some(order[i]))
  {
    if order == [] then [] else [Bulk(Some(order[0]))] + KeyBulks(order[1..])
  }

  /**
   * execute: an empty argument list makes getFirst() throw; "*" lists every key
   * once, in some iteration order of the map; anything else answers "null". The
   * store is only read.
   */
  method Execute(db: DbMap, args: seq<string>) returns (reply: Reply)
    ensures args == [] ==> reply == Thrown(NoSuchElementException)
    ensures args != [] && args[0] != "*" ==> reply == Value(Bulk(Some("null")))
    ensures args != [] && args[0] == "*" ==>
      exists order :: Enumerates(order, db.entries.Keys) && reply == Value(Arr(KeyBulks(order)))
  {
    if args == [] {
      return Thrown(NoSuchElementException);
    }
    if args[0] != "*" {
      return Value(Bulk(Some("null")));
    }
    var arrays := new Arrays();
    var entries := db.EntrySet();
    var rest := entries.Keys;
    ghost var order: seq<string> := [];
    while rest != {}
      invariant arrays.data == KeyBulks(order)
      invariant rest <= entries.Keys
      invariant forall k :: k in order <==> k in entries && k !in rest
      invariant forall i, j :: 0 <= i < j < |order| ==> order[i] != order[j]
      decreases rest
    {
      var key :| key in rest;
      arrays.Add(Bulk(Some(key)));
      order := order + [key];
      rest := rest - {key};
    }
    return Value(Arr(arrays.data));
  }

  /**
   * The listed keys are exactly the stored ones, expired or not, each once, so
   * the array is as long as the map.
   */
  lemma KeysListing(m: map<string, Data>, order: seq<string>)
    requires Enumerates(order, m.Keys)
    ensures |KeyBulks(order)| == |m|
    ensures forall k :: k in m <==> Bulk(Some(k)) in KeyBulks(order)
    ensures forall i, j :: 0 <= i < j < |order| ==> KeyBulks(order)[i] != KeyBulks(order)[j]
  {
    EnumerationSize(order, m.Keys);
    forall k
      ensures k in m <==> Bulk(Some(k)) in KeyBulks(order)
    {
      if k in m {
        var i :| 0 <= i < |order| && order[i] == k;
        assert KeyBulks(order)[i] == Bulk(Some(k));
      }
    }
  }
}
