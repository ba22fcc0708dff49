# build-your-own-redis: a verified model of the store, the snapshot file and the command path

This project models the core of a small Redis-like server written in Java. It covers four
pieces.

- **The expiring key-value store** `DbMap` (module `Database`, class `Database.DbMap`).
  It maps a key to `Data(expiry, data)`. `getValue` evicts lazily: it removes an entry whose
  expiry is strictly before now and reports it absent. `putValue` replaces an entry
  unconditionally.
- **The snapshot codec** `SerializeProtocol` (module `Persist`). A file is a byte sequence.
  `saveToFile` writes the `writeUTF("BYDRDB")` header, the map size and one record per
  written entry, in the map's iteration order. `loadDbMapFromCacheFile` reads the header,
  the count and the records, and puts each record into the store. `Persist.Load` gives the
  puts a file produces and how the preload ends. The Java stream primitives it relies on
  are modelled with their exact byte layouts:
  - `writeInt`/`readInt`, `writeLong`/`readLong`, `readBoolean` and `readNBytes`;
  - `writeUTF`/`readUTF` with modified UTF-8 (module `JavaIo`);
  - `String.getBytes`/`new String(bytes)` as UTF-8, and `String.length()` in UTF-16 units
    (module `Unicode`).
- **The command dispatcher and handlers** (modules `Dispatch`, `Commands`, and one module per
  handler).
  - `CommandRegistry.commandMatchResult` trims the line, splits it on single spaces and tries
    the longest token prefix first. The candidate verb is upper-cased; the arguments keep
    their case.
  - SET, GET, KEYS, CONFIG, ECHO, PING and INFO are modelled branch for branch, with their
    literal reply strings. A handler's result is a `Handler.Reply`: returned text (possibly
    null), a response value, or a thrown exception.
  - The store, the configuration map and the current time are passed in explicitly; the
    source reaches them through static singletons.
- **RESP2 response values** (module `Protocol`) follow the Redis serialization protocol RESP2,
  sections "Bulk strings", "Arrays" and "Simple errors". `Resp` is
  `Bulk(Option<string>) | Arr(seq<Resp>) | Err(kind, Option<string>)`.
  - `ToText` is `toString()`; `WireText`/`Serialized` is `serialize()`.
  - `Arrays` is a class whose `Add` appends to its list and whose `ToString` loops over the
    elements.
  - A RESP2 reader (`Protocol.Parse`) is the partner of `serialize()`. The round-trip lemmas
    show which values come back and which do not.

Time is a whole number of seconds since the epoch, with the system zone taken as UTC. The
Java `HashMap`'s iteration order is unspecified. The loops that walk the map (`saveToFile`,
KEYS) pick any remaining key, and their contracts hold for some enumeration order of the
keys.

Where the specification and the code disagree, the model follows the code:
- The snapshot's value length is `String.length()`, a UTF-16 unit count, not a byte count
  (`persist/SerializeProtocol.java:132`).
- The expiry is written as epoch seconds but read back as epoch milliseconds
  (`persist/SerializeProtocol.java:145`, `persist/SerializeProtocol.java:189-190`).
- SET, GET and CONFIG return a `String` although `CommandHandler.execute` returns a response
  value (`tcp/cmd/CommandHandler.java:17`). Their replies are kept as `Handler.Text`.
- The registry builds `new KeysCommand()`, but the class's only constructor takes a
  `SerializeProtocol`. `KeysCommand.Execute` takes the store it would read.

## Model

| member | source | states |
|---|---|---|
| Database.DbMap.constructor | src/main/java/build/your/own/database/DbMap.java:34-36 | a new store holds no entries |
| Database.DbMap.GetValue | src/main/java/build/your/own/database/DbMap.java:58-68 | answers `Lookup` of the old map (the value of a present, unexpired key; null otherwise); the new map is `Evict` of the old one: only an expired entry under that key is removed |
| Database.DbMap.PutData | src/main/java/build/your/own/database/DbMap.java:77-79 | the map becomes the old map with the key bound to the given Data |
| Database.DbMap.PutValue | src/main/java/build/your/own/database/DbMap.java:88-90 | the map becomes the old map with the key bound to `Data(exp, val)` |
| Database.DbMap.EntrySet | src/main/java/build/your/own/database/DbMap.java:93-95 | exposes every stored key with its Data, expired or not |
| Database.GetMissing | src/main/java/build/your/own/database/DbMap.java:59-60 | a missing key reads as null and leaves the map as it is |
| Database.GetExpired | src/main/java/build/your/own/database/DbMap.java:61-67 | an entry whose expiry is before now reads as null and is the only entry removed |
| Database.GetLive | src/main/java/build/your/own/database/DbMap.java:61-66 | with no expiry, or an expiry not before now (equal counts as live), the stored data is returned and nothing changes |
| Database.GetIdempotent | src/main/java/build/your/own/database/DbMap.java:58-68 | for a fixed now a second read gives the same answer and removes nothing more |
| Database.PutOnlyTouchesKey | src/main/java/build/your/own/database/DbMap.java:88-90 | a put leaves what every other key reads unchanged, and the key then reads as the new Data allows |
| Database.PutWithoutExpiryThenGet | src/main/java/build/your/own/database/DbMap.java:88-90 | after a put with no expiry the key reads as the value at any time |
| Database.ExpiryIsFinal | src/main/java/build/your/own/database/DbMap.java:61-62 | an entry expired at some time stays unreadable at every later time, evicted or not |
| Persist.SerializeProtocol.WriteHeadersToCache | src/main/java/build/your/own/persist/SerializeProtocol.java:70-79 | the file becomes `StampHeader` of its old contents: an empty file gets the header bytes, any other file is left unchanged |
| Persist.StampHeaderIdempotent | src/main/java/build/your/own/persist/SerializeProtocol.java:70-79 | stamping twice is stamping once, and a non-empty file is never touched |
| Persist.MagicHeaderReadsBack | src/main/java/build/your/own/persist/SerializeProtocol.java:58-75 | `writeUTF("BYDRDB")` is exactly the bytes 00 06 'B' 'Y' 'D' 'R' 'D' 'B', and `readUTF` takes them back off the front of any file |
| Persist.StampedEmptyFileLoadsNothing | src/main/java/build/your/own/persist/SerializeProtocol.java:175-200 | a header-only file preloads nothing: the missing count ends the load at EOF, which is swallowed |
| Persist.SerializeProtocol.SaveToFile | src/main/java/build/your/own/persist/SerializeProtocol.java:85-117 | for some enumeration order of the keys, the file is the header, the map size and the record of each written entry in that order, and the two counters are the processed and skipped counts of that order |
| Persist.SaveStep | src/main/java/build/your/own/persist/SerializeProtocol.java:95-110 | one more entry appends its record exactly when its value is non-null and its expiry is absent or after now, adds one to processed when its value is non-null, and adds one to skipped when it is not written |
| Persist.CountersOverlap | src/main/java/build/your/own/persist/SerializeProtocol.java:95-110 | processed plus skipped is at least the number of entries, with equality exactly when no entry with a value is skipped as expired |
| Persist.ExpiryAtNowNotSaved | src/main/java/build/your/own/persist/SerializeProtocol.java:96-100 | an entry whose expiry is exactly now still reads as live, yet is not saved |
| Persist.ReadEntryRecord | src/main/java/build/your/own/persist/SerializeProtocol.java:119-152 | the record saveEntryToFile writes for an ASCII value reads back as the key's and value's UTF-8 bytes and the expiry as the reader sees it, leaving the bytes after it |
| Persist.ReadExpiryRecord | src/main/java/build/your/own/persist/SerializeProtocol.java:142-152 | the expiry flag 0 reads back as no expiry; flag 1 and the eight-byte seconds read back as that number divided by 1000 |
| Persist.AsciiLengths | src/main/java/build/your/own/persist/SerializeProtocol.java:130-135 | for an ASCII value the written length (UTF-16 units), the UTF-8 byte count and the character count agree |
| Persist.SerializeProtocol.LoadDbMapFromCacheFile | src/main/java/build/your/own/persist/SerializeProtocol.java:154-202 | ends with `Load`'s outcome for the file (completed, EOF, wrong header, malformed header, negative length), and the store is the old store with `Load`'s puts applied in order |
| Persist.LoadStops | src/main/java/build/your/own/persist/SerializeProtocol.java:177-200 | a record that cannot be read completely ends the load (at EOF, or on a negative length) and puts nothing more; the partial record is never inserted |
| Persist.LoadContinues | src/main/java/build/your/own/persist/SerializeProtocol.java:177-197 | a record read completely is put, and the load goes on with one entry fewer from the bytes after it |
| Persist.LoadSaveImage | src/main/java/build/your/own/persist/SerializeProtocol.java:85-202 | loading a saved file puts the written entries in the order they were saved; it completes when nothing was skipped and otherwise stops at EOF, because the count written is the map size |
| Persist.SaveThenLoad | src/main/java/build/your/own/persist/SerializeProtocol.java:85-202 | saving at now and preloading into an empty store gives exactly the entries that had a value and were live after now, with their values, and expiry e coming back as e / 1000 |
| Persist.ReloadedEntryExpiresEarly | src/main/java/build/your/own/persist/SerializeProtocol.java:142-192 | a saved entry live at time t, with e / 1000 < t <= e, reads as absent at t once reloaded: seconds written, milliseconds read |
| Persist.NonAsciiValueLost | src/main/java/build/your/own/persist/SerializeProtocol.java:130-136 | the entry "k" to "é" is saved with length 1 but two value bytes; the reader falls out of step and the preload stops at EOF with nothing put |
| Persist.LastPutWins | src/main/java/build/your/own/persist/SerializeProtocol.java:175-197 | when a key is put several times, the store holds the last put's value and expiry |
| Persist.UntouchedKeyKept | src/main/java/build/your/own/persist/SerializeProtocol.java:175-197 | a key the file never puts keeps what the store held before the preload |
| JavaIo.ReadIntWriteInt | src/main/java/build/your/own/persist/SerializeProtocol.java:175-182 | readInt takes back any int that writeInt wrote, as four big-endian bytes, and leaves the following bytes |
| JavaIo.ReadLongWriteLong | src/main/java/build/your/own/persist/SerializeProtocol.java:188 | readLong takes back any long that writeLong wrote, as eight big-endian bytes |
| JavaIo.ReadNBytes | src/main/java/build/your/own/persist/SerializeProtocol.java:180-183 | readNBytes splits the input without loss and takes n bytes, or all that is left when fewer remain |
| JavaIo.ReadUtfWriteUtf | src/main/java/build/your/own/persist/SerializeProtocol.java:159 | readUTF takes back any string writeUTF could write (two-byte length, modified UTF-8) |
| JavaIo.DecodeModifiedUtf8Inverse | src/main/java/build/your/own/persist/SerializeProtocol.java:159 | decoding modified UTF-8 inverts encoding for every sequence of UTF-16 units |
| Unicode.Utf8DecodeEncode | src/main/java/build/your/own/persist/SerializeProtocol.java:195 | `new String(bytes)` gives back the string whose `getBytes` produced those bytes |
| Unicode.Utf16LengthVersusUtf8 | src/main/java/build/your/own/persist/SerializeProtocol.java:132-134 | `String.length()` is at most the UTF-8 byte count, and equals it exactly for ASCII text |
| Dispatch.CommandRegistry.constructor | src/main/java/build/your/own/tcp/cmd/CommandRegistry.java:13-22 | the registry is the default verb table |
| Dispatch.DefaultVerbs | src/main/java/build/your/own/tcp/cmd/CommandRegistry.java:15-20 | the table registers exactly PING, ECHO, SET, GET, CONFIG and KEYS, none of them INFO, and no name holds a space |
| Dispatch.InfoUnreachable | src/main/java/build/your/own/tcp/cmd/CommandRegistry.java:15-20 | no command line dispatches to INFO |
| Dispatch.CommandRegistry.Register | src/main/java/build/your/own/tcp/cmd/CommandRegistry.java:28-31 | the registry becomes the old one with the name bound to the handler, replacing any earlier handler under that exact name |
| Dispatch.CommandRegistry.GetHandler | src/main/java/build/your/own/tcp/cmd/CommandRegistry.java:33-39 | an exact-case lookup: a handler exactly when the name is registered, and then the registered one |
| Dispatch.CommandRegistry.CommandMatchResult | src/main/java/build/your/own/tcp/cmd/CommandRegistry.java:41-58 | the result is the longest match: the longest registered upper-cased token prefix with its handler and the remaining tokens, or null when no prefix is registered |
| Dispatch.MatchWithin | src/main/java/build/your/own/tcp/cmd/CommandRegistry.java:45-53 | a match found among the first n prefixes leaves at least the tokens beyond n, and fewer than all tokens, as its arguments, and they are a suffix of the tokens |
| Dispatch.LongestMatchCharacterised | src/main/java/build/your/own/tcp/cmd/CommandRegistry.java:45-57 | the countdown's result is the longest match, and the longest match is the only result with that property |
| Dispatch.RegisteredPrefixMatches | src/main/java/build/your/own/tcp/cmd/CommandRegistry.java:45-53 | when some n-token prefix is registered the line matches, and at least n tokens are taken by the verb |
| Dispatch.MatchedVerbRegistered | src/main/java/build/your/own/tcp/cmd/CommandRegistry.java:49-52 | a matched handler is one of the registered handlers |
| Dispatch.MatchIgnoresCase | src/main/java/build/your/own/tcp/cmd/CommandRegistry.java:48-50 | lines whose tokens differ only in letter case match the same handler, and the arguments are the line's own tokens in their own case |
| Dispatch.LowerCaseNameNeverMatches | src/main/java/build/your/own/tcp/cmd/CommandRegistry.java:48-49 | registering a name that holds a lower-case letter changes no match |
| Dispatch.TokensRejoin | src/main/java/build/your/own/tcp/cmd/CommandRegistry.java:42 | a line gives at least one token, no token holds a space, and joining the tokens with single spaces gives the trimmed line |
| Dispatch.InteriorSpacesGiveEmptyToken | src/main/java/build/your/own/tcp/cmd/CommandRegistry.java:42 | two spaces between words produce an empty token |
| Commands.FirstWordDecides | src/main/java/build/your/own/tcp/cmd/CommandRegistry.java:45-57 | with the default table only the first token, upper-cased, decides the handler, and all the other tokens are arguments |
| Commands.UnknownFirstWord | src/main/java/build/your/own/tcp/cmd/CommandRegistry.java:56-57 | a line whose first token is no default verb matches nothing |
| Commands.DefaultDispatch | src/main/java/build/your/own/tcp/cmd/CommandRegistry.java:41-58 | a trimmed line `verb rest` with a default verb dispatches to that verb with the single-space pieces of rest |
| Commands.CommandNotFoundWire | src/main/java/build/your/own/tcp/Process.java:66-67 | an unmatched line is answered with `-ERR INVALID COMMAND command not found, everyone needs help at some point` and CRLF |
| Commands.EchoRepliesRestOfLine | src/main/java/build/your/own/tcp/cmd/EchoCommand.java:16-17 | an ECHO line (any case) replies with the trimmed line's text after the verb and its space, unchanged |
| Commands.ConfigSubCommandKeepsCase | src/main/java/build/your/own/tcp/cmd/ConfigCommand.java:14-20 | `config get dir` (or any sub-command other than GET) dispatches with its own-case arguments and is refused as not a valid command |
| SetCommand.IndexOf | src/main/java/build/your/own/tcp/cmd/SetCommand.java:18 | `indexOf`: -1 exactly when absent, otherwise the first position holding the element |
| SetCommand.Execute | src/main/java/build/your/own/tcp/cmd/SetCommand.java:14-51 | replies with `Decide`'s text and applies `Decide`'s store to the old map (a px expiry of n seconds stored as now + n), leaving it unchanged on a refusal |
| SetCommand.DecideOutcomes | src/main/java/build/your/own/tcp/cmd/SetCommand.java:17-46 | a store always uses args[0] and args[1] and has an expiry exactly when "px" first occurs after index 0; a refusal is one of the three literal error texts, each exactly in its own case: not enough arguments when there is no px flag and fewer than 2 args, the px-expiry error when the first px after the key is the last token, not-a-number when the token after it does not parse; a stored expiry is exactly `parseInt` of the token after the first px, wherever that px stands after the key |
| SetCommand.KeyNamedPx | src/main/java/build/your/own/tcp/cmd/SetCommand.java:18-19 | a key literally named "px" is not a flag: the value is stored without expiry |
| SetCommand.PxRightAfterKey | src/main/java/build/your/own/tcp/cmd/SetCommand.java:20-25 | `k px n`: the stored value is the literal "px", with expiry n when n parses as an int, and refused as not a number otherwise |
| SetCommand.ValuePxRefused | src/main/java/build/your/own/tcp/cmd/SetCommand.java:26-29 | whenever the first "px" comes after the key and is the last token, the command is refused with the px-expiry error |
| SetCommand.TrailingPxRefused | src/main/java/build/your/own/tcp/cmd/SetCommand.java:19-29 | `SET k v px` is refused with the px-expiry error and stores nothing |
| SetCommand.SetWithExpiry | src/main/java/build/your/own/tcp/cmd/SetCommand.java:18-24 | `SET k v px n` keeps v readable up to and including now + n seconds and absent after; an n that parseInt rejects is refused and the store is unchanged |
| SetCommand.ExtraArgumentsIgnored | src/main/java/build/your/own/tcp/cmd/SetCommand.java:18-46 | trailing arguments change nothing once a store is decided, unless they bring the first "px" |
| SetCommand.ExpiryWindow | src/main/java/build/your/own/tcp/cmd/SetCommand.java:22-24 | with px n the key reads as the value up to and including now + n and as absent after it, so a negative n stores an entry that is already expired |
| SetCommand.SetThenGet | src/main/java/build/your/own/tcp/cmd/SetCommand.java:43-46 | `SET k v` (v not "px") makes k read as v at every time |
| GetCommand.Execute | src/main/java/build/your/own/tcp/cmd/GetCommand.java:12-24 | no arguments: the not-enough-arguments text and an untouched store; otherwise exactly what `getValue(args[0])` answers, including its eviction, with later arguments ignored |
| KeysCommand.Execute | src/main/java/build/your/own/tcp/cmd/KeysCommand.java:23-39 | empty args throw; a first arg other than "*" gives the bulk string "null"; "*" gives an array of one bulk string per key of the store in some enumeration order; the store is only read |
| KeysCommand.KeyBulks | src/main/java/build/your/own/tcp/cmd/KeysCommand.java:29-33 | one bulk string per listed key, in order |
| KeysCommand.KeysListing | src/main/java/build/your/own/tcp/cmd/KeysCommand.java:25-34 | the array's length is the map size, a key is listed exactly when it is stored (expired or not), and the listed keys are pairwise distinct |
| ConfigCommand.ConfigOutcomes | src/main/java/build/your/own/tcp/cmd/ConfigCommand.java:9-30 | any count but 2 gives the args-not-satisfied text; a first arg other than exactly "GET" gives not-a-valid-command; otherwise the configured value, or the no-such-config text for an unknown key |
| ConfigCommand.LowerCaseGetRejected | src/main/java/build/your/own/tcp/cmd/ConfigCommand.java:14-20 | `get` in lower case is refused as not a valid command |
| EchoCommand.EchoReplies | src/main/java/build/your/own/tcp/cmd/EchoCommand.java:13-22 | always a bulk string, null exactly when there are no args, and a single argument echoed unchanged |
| EchoCommand.EchoNothingWire | src/main/java/build/your/own/tcp/cmd/EchoCommand.java:20-21 | ECHO with no arguments is sent as `$-1` and CRLF |
| EchoCommand.EchoSplitsBack | src/main/java/build/your/own/tcp/cmd/EchoCommand.java:16-17 | splitting the echoed text on single spaces gives back the arguments, when none holds a space |
| PingCommand.PingReply | src/main/java/build/your/own/tcp/cmd/PingCommand.java:16-19 | the reply does not depend on the arguments, is a response value, and is sent as `$4`, CRLF, `PONG`, CRLF |
| InfoCommand.InfoOutcomes | src/main/java/build/your/own/tcp/cmd/InfoCommand.java:15-42 | no exception exactly when the first arg is "replication", which gives the bulk string "role:master"; empty args throw "missing argument for INFO", any other first arg "Invalid argument for INFO" |
| InfoCommand.UpperCaseSectionRejected | src/main/java/build/your/own/tcp/cmd/InfoCommand.java:22-27 | "REPLICATION" in upper case throws |
| Protocol.IllegalArgumentWire | src/main/java/build/your/own/resp/error/IllegalArgumentError.java:4-8 | code 10001, and the wire form `-ERR ILLEGAL ARGUMENT `, the message unchanged, CRLF |
| Protocol.InvalidCommandWire | src/main/java/build/your/own/resp/error/InvalidCommandError.java:4-9 | code 10003, and the wire form `-ERR INVALID COMMAND `, the message unchanged, CRLF |
| Protocol.UnexpectedWire | src/main/java/build/your/own/resp/error/UnexpectedError.java:4-9 | code 10001, and the wire form `-ERR UNEXPECTED ERROR `, the message unchanged, CRLF |
| Protocol.ErrorKindsDistinguished | src/main/java/build/your/own/resp/error/UnexpectedError.java:4-5 | the kind tokens tell the three errors apart (both directions), while the codes of IllegalArgumentError and UnexpectedError coincide |
| Protocol.NullMessageWire | src/main/java/build/your/own/resp/error/Error.java:22-30 | a null message is sent like the empty one (a trailing space before CRLF), though the two differ in `toString()` |
| Protocol.ErrorOfLineReadsKind | src/main/java/build/your/own/resp/error/Error.java:23 | an error line reads back as its kind and message |
| Protocol.ParseErr | src/main/java/build/your/own/resp/error/Error.java:22-25 | a serialized error whose message holds no CR reads back whole (a null message as the empty one) |
| Protocol.EmptyWireForms | src/main/java/build/your/own/resp/BulkString.java:13-27 | the empty bulk string is `$0` and two CRLFs, distinct from the null one `$-1` CRLF; an empty array is `*0` CRLF |
| Protocol.ParseNullBulk | src/main/java/build/your/own/resp/BulkString.java:22-24 | the null bulk string reads back as null |
| Protocol.ParseBulk | src/main/java/build/your/own/resp/BulkString.java:16-21 | an ASCII bulk string, CRs and LFs included, reads back from its length line and that many bytes |
| Protocol.NonAsciiBulkUndercounts | src/main/java/build/your/own/resp/BulkString.java:18 | for text that is not ASCII the length prefix is smaller than the number of bytes sent |
| Protocol.NonAsciiBulkUnreadable | src/main/java/build/your/own/resp/BulkString.java:16-21 | the bulk string "é" is announced as one byte and cannot be read back |
| Protocol.Arrays.constructor | src/main/java/build/your/own/resp/Arrays.java:19-21 | a new array holds no elements |
| Protocol.Arrays.Add | src/main/java/build/your/own/resp/Arrays.java:40-42 | the element is appended at the end, and the earlier elements keep their order |
| Protocol.Arrays.ToString | src/main/java/build/your/own/resp/Arrays.java:24-33 | the count line for the current elements, then each element's `toString()` in order |
| Protocol.Arrays.Serialize | src/main/java/build/your/own/resp/Arrays.java:36-38 | the bytes are the UTF-8 of `toString()` |
| Protocol.ParseArr | src/main/java/build/your/own/resp/Arrays.java:24-33 | an array with no error at any depth (and readable elements) reads back as the same array, nested arrays included |
| Protocol.ParseManySerialized | src/main/java/build/your/own/resp/Arrays.java:29-31 | the concatenated `toString()`s of readable elements read back as exactly those elements |
| Protocol.ParseSerialized | src/main/java/build/your/own/resp/BulkString.java:29-33 | every transmittable value reads back from its serialized bytes, followed by anything |
| Protocol.NestedErrorUnterminated | src/main/java/build/your/own/resp/Arrays.java:24-33 | an error inside an array is rendered by `toString()` without its CRLF, so the array's bytes do not read back |
| Protocol.NestedErrorText | src/main/java/build/your/own/resp/error/Error.java:28-30 | an element error contributes `-`, its kind and message, with no line end, to the array's text |
| JavaText.SplitTrimmed | src/main/java/build/your/own/tcp/cmd/CommandRegistry.java:42 | on a trimmed line `split(" ")` drops nothing: it gives all the pieces between single spaces |
| JavaText.JoinPieces | src/main/java/build/your/own/tcp/cmd/EchoCommand.java:17 | joining the single-space pieces of a string with " " rebuilds it |
| JavaText.TrimCutsBlanks | src/main/java/build/your/own/tcp/cmd/CommandRegistry.java:42 | `trim()` gives a middle part `s[i..j]` of the line, with only characters up to U+0020 cut before i and after j; with `Trim`'s own contract (the result neither starts nor ends with such a character) this fixes the result |
| JavaText.ToUpper | src/main/java/build/your/own/tcp/cmd/CommandRegistry.java:48 | same length, every letter a-z upper-cased and every other character kept |
| JavaText.ParseIntDecimal | src/main/java/build/your/own/tcp/cmd/SetCommand.java:22 | `Integer.parseInt` reads back every int in its decimal form |
| JavaText.ParseInt | src/main/java/build/your/own/tcp/cmd/SetCommand.java:22 | a value exactly when the token is an optional '+' or '-' and at least one digit 0-9 whose signed value fits in an int, and then that signed value; otherwise the NumberFormatException |

## Left out

- Main, Client and Process are not modelled: process start-up, the server socket, threads and
  socket streams. Process's per-line step appears only in what it means for one line: an
  unmatched line is answered with the InvalidCommandError of `Commands.CommandNotFound`
  (`Commands.CommandNotFoundWire`). The skip of empty lines, the write of the reply and the
  swallowing of exceptions are not modelled.
- The replies of SET, GET and CONFIG stay as text (`Handler.Text`). Their wire form is not
  modelled, because the source returns a `String` where a response value is expected and
  does not compile as written.
- Snapshot (a scheduled timer, which is concurrency), Logger (logging never affects results),
  SystemConfig and ServerState are not part of this model. The configuration is a
  `map<string, string>` parameter.
- File and stream I/O is left out. A file is its byte sequence. `FileNotFoundException`,
  other `IOException`s from the file system and `readAllBytes` are not modelled. The preload's
  end on a wrong header (`IllegalAccessError`), a malformed header or a negative length is an
  outcome value of `Persist.Load`.
- The clock is a parameter `now`, in whole seconds since the epoch, and the system zone is
  taken as UTC. `LocalDateTime` sub-second precision is dropped. So is the precision lost when
  a reloaded expiry, read as milliseconds, is turned back into a date.
  `saveToFile` reads the clock again for each entry; `SaveToFile` judges every entry against
  one `now`, so an entry that expires while a save is under way is not classified as Java
  would classify it.
- The Java `HashMap`'s iteration order is not modelled. `SaveToFile` and `KeysCommand.Execute`
  hold for some enumeration order of the keys, not a specific one.
- KeysCommand.Execute: the registry's `new KeysCommand()` has no matching constructor. The
  model reads the store directly instead of going through a `SerializeProtocol`.
- SetCommand.Execute: the `DateTimeException` branch (`--ERR date time exception`) and the
  `--ERR Unexpected error` branch are not modelled. With int seconds added to a date near the
  present, and with at least two arguments guaranteed on the store path, neither can be taken.
- `String.toUpperCase` is modelled for the letters a-z only. Locale rules and upper-casing
  outside ASCII are not part of this model.
- Unicode.Utf8Decode: `new String(bytes)` is modelled by a decoder that replaces each
  maximal ill-formed subpart with U+FFFD. Java's decoder differs on UTF-8-encoded surrogates:
  it turns the three bytes `ED A0 80` into one U+FFFD, where the model gives three. Every
  lemma about decoding is about valid encodings, where the two agree.
- JavaText.ParseInt: accepts only the digits 0-9. `Integer.parseInt` reads digits with
  `Character.digit(c, 10)`, so it also accepts the other Unicode decimal digits (for example
  U+0663, ARABIC-INDIC DIGIT THREE). For such a token after px, SET stores the entry where the
  model refuses with the not-a-number error. The Unicode digit tables are not part of this
  model.
- A `null` key and a `null` map value are not modelled. A `Data` with a null `data` field is
  (`Option`).
- `DbMap.size()`, which the snapshot's count uses, does not exist in the code as shown. It is
  taken to be the number of entries.
- The code and creation timestamp of an `Error` never reach the wire, so they are not part of
  the `Resp` value. The codes are stated by `Protocol.ErrorCode`.
- `Protocol.Parse` is a RESP2 reader, written only as the partner of `serialize()`. It reads
  exactly the values these classes produce, not the whole protocol.
