/**
 * SET key value [... px seconds ...]: stores value under key, with an expiry that
 * many seconds from now when a "px" token after the key is followed by an int.
 * The reply is a plain text line.
 */
module SetCommand {
  import opened Wrappers
  import opened JavaText
  import opened Database
  import opened Handler

  const Ok: string := "OK"
  const PxMissing: string := "--ERR illegal argument for -px expiry"
  const PxNotANumber: string := "-ERR illegal argument px expiry needs to be a number"
  const NotEnoughArguments: string := "--ERR not enough arguments specified "

  /** List.indexOf: the first position of x, or -1. */
  function IndexOf(args: seq<string>, x: string): (r: int)
    ensures -1 <= r < |args|
    ensures r == -1 <==> x !in args
    ensures r >= 0 ==> args[r] == x && x !in args[..r]
  {
    if args == [] then -1
    else if args[0] == x then 0
    else
      var i := IndexOf(args[1..], x);
      if i == -1 then -1 else i + 1
  }

  /** What execute makes of its arguments: a store, with an expiry in seconds from now or none, or a refusal. */
  datatype Decision =
    | Store(key: string, value: string, seconds: Option<int>)
    | Refuse(message: string)

  function Decide(args: seq<string>): Decision
  {
    var expiryIndex := IndexOf(args, "px");
    if expiryIndex > 0 then
      var expiry := expiryIndex + 1;
      if expiry < |args| then
        match ParseInt(args[expiry])
        case Some(seconds) => Store(args[0], args[1], Some(seconds))
        case None => Refuse(PxNotANumber)
      else Refuse(PxMissing)
    else if |args| < 2 then Refuse(NotEnoughArguments)
    else Store(args[0], args[1], None)
  }

  function ReplyText(d: Decision): string
  {
    match d
    case Store(_, _, _) => Ok
    case Refuse(message) => message
  }

  /** The store after the decision is carried out at time now. */
  function Applied(m: map<string, Data>, d: Decision, now: int): map<string, Data>
  {
    match d
    case Store(key, value, seconds) =>
      m[key := Data(if seconds.Some? then Some(now + seconds.value) else None, Some(value))]
    case Refuse(_) => m
  }

  /** execute: the reply line, and the store changed only when the reply is "OK". */
  method Execute(db: DbMap, args: seq<string>, now: int) returns (reply: Reply)
    modifies db
    ensures reply == Text(Some(ReplyText(Decide(args))))
    ensures db.entries == Applied(old(db.entries), Decide(args), now)
  {
    var expiryIndex := IndexOf(args, "px");
    if expiryIndex > 0 {
      var expiry := expiryIndex + 1;
      if expiry < |args| {
        var expirySeconds := ParseInt(args[expiry]);
        if expirySeconds.None? {
          return Text(Some(PxNotANumber));
        }
        db.PutValue(args[0], args[1], Some(now + expirySeconds.value));
        return Text(Some(Ok));
      } else {
        return Text(Some(PxMissing));
      }
    }
    if |args| < 2 {
      return Text(Some(NotEnoughArguments));
    }
    db.PutValue(args[0], args[1], None);
    return Text(Some(Ok));
  }

  // ---------------------------------------------------------------------------
  // Properties

  /**
   * A store always takes the first argument as key and the second as value, with an
   * expiry exactly when the first "px" comes after the key. Each refusal has one cause:
   * too few arguments without a px flag, a px flag as the last argument, or a token
   * after it that parseInt rejects.
   */
  lemma DecideOutcomes(args: seq<string>)
    ensures Decide(args).Store? ==> |args| >= 2 && Decide(args).key == args[0] && Decide(args).value == args[1]
    ensures Decide(args).Store? ==> (Decide(args).seconds.Some? <==> IndexOf(args, "px") > 0)
    ensures Decide(args).Refuse? ==> Decide(args).message in {PxMissing, PxNotANumber, NotEnoughArguments}
    ensures Decide(args) == Refuse(NotEnoughArguments) <==> IndexOf(args, "px") <= 0 && |args| < 2
    ensures Decide(args) == Refuse(PxMissing) <==> 0 < IndexOf(args, "px") == |args| - 1
    ensures Decide(args) == Refuse(PxNotANumber)
        <==> 0 < IndexOf(args, "px") < |args| - 1 && ParseInt(args[IndexOf(args, "px") + 1]).None?
    ensures Decide(args).Store? && Decide(args).seconds.Some?
        ==> Decide(args).seconds == ParseInt(args[IndexOf(args, "px") + 1])
  {
    var i := IndexOf(args, "px");
    if 0 < i < |args| - 1 {
      assert Decide(args) == match ParseInt(args[i + 1])
        case Some(seconds) => Store(args[0], args[1], Some(seconds))
        case None => Refuse(PxNotANumber);
    }
    assert PxMissing != PxNotANumber && PxMissing != NotEnoughArguments && PxNotANumber != NotEnoughArguments;
  }

  /** "px" in the key position is a key, not a flag. */
  lemma KeyNamedPx(value: string, rest: seq<string>)
    ensures Decide(["px", value] + rest) == Store("px", value, None)
  {
    assert (["px", value] + rest)[0] == "px";
  }

  /** For "k px n" the value stored is the literal "px". */
  lemma PxRightAfterKey(key: string, n: string, more: seq<string>)
    requires key != "px"
    ensures Decide([key, "px", n] + more)
         == match ParseInt(n) case Some(s) => Store(key, "px", Some(s)) case None => Refuse(PxNotANumber)
  {
    var args := [key, "px", n] + more;
    assert args[0] == key && args[1] == "px" && args[2] == n;
    assert IndexOf(args, "px") == 1 by {
      assert IndexOf(args[1..], "px") == 0;
    }
  }

  /**
   * A first "px" after the key with nothing following it is refused, whatever comes
   * between: "SET k px" and "SET k v px" alike.
   */
  lemma ValuePxRefused(args: seq<string>)
    requires 0 < IndexOf(args, "px") == |args| - 1
    ensures Decide(args) == Refuse(PxMissing)
  {
  }

  /** "SET k v px": the flag as the last of three arguments. */
  lemma TrailingPxRefused(key: string, value: string)
    requires key != "px" && value != "px"
    ensures Decide([key, value, "px"]) == Refuse(PxMissing)
  {
    var args := [key, value, "px"];
    assert IndexOf(args, "px") == 2 by {
      assert args[1..] == [value, "px"] && args[1..][1..] == ["px"];
    }
    ValuePxRefused(args);
  }

  /**
   * "SET k v px n": the value is readable up to and including now + n seconds and gone
   * after; a token n that parseInt rejects is refused and leaves the store as it was.
   */
  lemma SetWithExpiry(m: map<string, Data>, key: string, value: string, n: string, now: int, at: int)
    requires key != "px" && value != "px"
    ensures ParseInt(n).Some? ==>
      Lookup(Applied(m, Decide([key, value, "px", n]), now), key, at)
        == if at <= now + ParseInt(n).value then Some(value) else None
    ensures ParseInt(n).None? ==>
      Decide([key, value, "px", n]) == Refuse(PxNotANumber) && Applied(m, Decide([key, value, "px", n]), now) == m
  {
    var args := [key, value, "px", n];
    assert IndexOf(args, "px") == 2 by {
      assert args[1..] == [value, "px", n] && args[1..][1..] == ["px", n];
      assert IndexOf(["px", n], "px") == 0;
      assert IndexOf(args[1..], "px") == 1;
    }
    assert args[0] == key && args[1] == value && args[3] == n;
  }

  lemma {:induction false} IndexOfAppend(args: seq<string>, more: seq<string>, x: string)
    requires x in args
    ensures IndexOf(args + more, x) == IndexOf(args, x)
  {
    if args[0] != x {
      assert (args + more)[1..] == args[1..] + more;
      IndexOfAppend(args[1..], more, x);
    }
  }

  /**
   * Tokens after a successful SET change nothing, unless they bring the first
   * "px" of the line.
   */
  lemma ExtraArgumentsIgnored(args: seq<string>, more: seq<string>)
    requires Decide(args).Store?
    requires "px" in args || "px" !in more
    ensures Decide(args + more) == Decide(args)
  {
    var all := args + more;
    if "px" in args {
      IndexOfAppend(args, more, "px");
    } else {
      assert "px" !in all;
    }
    assert all[..|args|] == args;
  }

  /**
   * An expiry of n seconds keeps the key readable up to and including now + n and
   * gone after; a negative n stores an entry that is already expired.
   */
  lemma ExpiryWindow(m: map<string, Data>, args: seq<string>, now: int, at: int)
    requires Decide(args).Store? && Decide(args).seconds.Some?
    ensures var d := Decide(args);
      Lookup(Applied(m, d, now), d.key, at) == if at <= now + d.seconds.value then Some(d.value) else None
    ensures var d := Decide(args);
      d.seconds.value < 0 ==> Lookup(Applied(m, d, now), d.key, now) == None
  {
  }

  /** "SET k v" followed by a GET of k at any later time reads v, unless v is "px". */
  lemma SetThenGet(m: map<string, Data>, key: string, value: string, now: int, later: int)
    requires value != "px"
    ensures Lookup(Applied(m, Decide([key, value]), now), key, later) == Some(value)
  {
    assert IndexOf([key, value], "px") <= 0 by {
      if key != "px" {
        assert [key, value][1..] == [value];
      }
    }
  }
}
