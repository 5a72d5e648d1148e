# pg_resp, modelled and verified in Dafny

pg_resp is a RESP2 cache server that runs inside Postgres. This project models its hard core and
proves what it promises, for every input, every run and every reachable state:

- **The wire** (`Decimal`, `Codec`, `CodecProofs`, `CodecStalls`, `WireLaws`): two printers and two incremental parsers. A
  command or reply survives printing and parsing whatever follows it; every cut of a printed one is
  `Incomplete`; on arbitrary bytes the parsers make progress and never change their mind, except
  for the line-length caps, where exactly the rejections that can still turn out well are known. Every
  reply, command, number, limit and refusal is also stated octet by octet.
- **The connection** (`Pipeline`, `Connection`): any split of a pipeline into reads, over any
  script of partial writes, runs exactly the commands sent, in order, and the client decodes
  exactly their answers, up to and including QUIT; no reply byte is lost, doubled or moved.
- **The client** (`Client`): results, sockets and transcripts of every command and session as a
  function of what the network does, against any peer; the retry rule, on the network's script alone;
  and against an honest server exactly when a call leaves the client out of step.
- **The store** (`StoreSpec`, `Store`, `StoreRuns`, `StoreLaws`): byte accounting, CLOCK eviction, lazy
  expiry and the sweep refine a plain map with deadlines that may lose keys, never the one just written;
  what each operation means to a client is stated key by key, and lifted to runs.
- **SCAN** (`Scan`, `ScanLaws`, `ScanRuns`, `Keyspace`, `ServerRuns`): under any interleaving with mutations,
  sweeps, other scans, idle expiry and cursor eviction, a finished scan shows exactly the stable
  keys its pattern selects, but for those someone else drew through its own cursor.
- **The post-commit queue** (`CommitQueue`, `Dispatch`, `Replay`): the flat, tagged queue refines a stack
  of lists, and a history of nested transactions puts exactly its surviving writes on the client's
  sockets, in order, each at most twice, counting as lost exactly those not acknowledged. The server
  reads each of them as the write that was queued, and a write received twice leaves what it leaves once.
- **Patterns, options, statistics** (`Glob`, `GlobLaws`, `SetOptions`, `OptionLaws`, `Info`): the matcher
  decides the token language, spelled out character by character; SET accepts exactly the legal lists of
  option words and does what each says; INFO and `resp.stats()` agree.

`dafny verify dfyconfig.toml` checks everything.

How the outside world appears: sockets are scripts of outcomes (`ReadResult`, `WriteResult`,
`ReadStep`, `WriteStep`), the command dispatcher is an arbitrary function of a state and a command,
clocks are parameters that never run backwards, and hash-map iteration takes keys in an arbitrary
order. Postgres appears as the sequence of events it delivers to a backend; exactly one of Commit
and Abort ends a transaction.

Where the code does not do what its comments say, the model follows the code:

- A parse error is described as permanent. Errors other than a line-length cap are
  (`CodecProofs.CommandExtends`, `CodecProofs.ReplyExtends`). A line rejected for its length can
  still become part of a complete command or reply: an inline command always
  (`CodecProofs.TooLongInlineRecovers`), a count or length line exactly when the number held so far
  is within its cap (`CodecStalls.TooLongCommandRecovers`), a line of a reply exactly when it is a
  simple string or error, or a number in the range of its kind and depth
  (`CodecStalls.TooLongReplyRecovers`). Such count lines exist (`CodecStalls.TooManyZerosRecover`).
- Processing is said to stop at QUIT. It stops for that wakeup; the next one runs what was behind
  QUIT and what arrives, exactly when the bytes owed after QUIT, backlog included, could not all be
  written in its own (`Connection.QuitStopsUnlessBlocked`).
- A fatal error is said to drop the client's connection. It does, except when the error is that of
  the retry and the retry got as far as its own socket (`Client.FatalErrorDrops`). The client is then
  out of step exactly when that retry reached the server and its answer was not read
  (`Client.CallInSync`), and the next request can receive that answer
  (`Client.StaleAnswerAfterFailedRetry`); a post-commit write that the cache refused can be
  acknowledged that way (`CommitQueue.RefusedButAcknowledged`).
- A cursor may be passed by any connection. A finished scan misses a stable key exactly when another
  caller drew it through this scan's cursor since the scan last restarted, and it had not been
  delivered before (`ScanRuns.ScanMissesExactly`); such a run exists (`ScanRuns.SharedCursorMisses`).

## Model

| member | source | states |
|---|---|---|
| `Decimal.ParsePrint` | crates/resp-proto/src/lib.rs:158-163 | Parsing a printed integer gives it back for all of i64, and fails for every integer outside it. |
| `Decimal.PrintParse` | crates/resp-proto/src/lib.rs:158-163 | Printing a parsed text gives the same text exactly when it has no plus sign, no redundant zero and no negative zero. |
| `Codec.WriteTo` | crates/resp-proto/src/lib.rs:71-106 | Appends exactly the printed reply to the buffer and keeps what was there; nested arrays print in item order. |
| `Codec.EncodeCommandInto` | crates/resp-proto/src/lib.rs:237-248 | Appends exactly the encoded command to the buffer. |
| `Codec.FindCrlfLoop` | crates/resp-proto/src/lib.rs:147-156 | The search loop computes the specification search. |
| `CodecProofs.FindCrlfIsFirst` | crates/resp-proto/src/lib.rs:147-156 | No CRLF pair lies before the one found, and none at all when nothing is found. |
| `Codec.ParseArgStep` | crates/resp-proto/src/lib.rs:186-217 | One turn of the argument loop computes the specified argument outcome, including each error. |
| `Codec.ParseArgsLoop` | crates/resp-proto/src/lib.rs:180-224 | The argument loop refines the recursive argument parser. |
| `Codec.ParseArrayCommandLoop` | crates/resp-proto/src/lib.rs:165-224 | The array-command parser refines its functional form, caps and errors included. |
| `Codec.ParseReplyLoop` | crates/resp-proto/src/lib.rs:322-425 | The reply parser with its item loop refines the recursive descent, caps and depth included. |
| `Codec.ParseItemsLoop` | crates/resp-proto/src/lib.rs:407-417 | The item loop refines the recursive item parser. |
| `CodecProofs.CommandProgress` | crates/resp-proto/src/lib.rs:136-145 | A complete command consumes at least one byte and no more than the buffer, on arbitrary bytes. |
| `CodecProofs.ReplyProgress` | crates/resp-proto/src/lib.rs:322-425 | A complete reply makes progress inside the buffer and respects every cap, at every depth. |
| `CodecProofs.CommandExtends` | crates/resp-proto/src/lib.rs:136-224 | Appending bytes changes neither a complete command nor an error other than a line-length cap. |
| `CodecProofs.ReplyExtends` | crates/resp-proto/src/lib.rs:283-425 | The same for replies. |
| `CodecProofs.TooLongInlineRecovers` | crates/resp-proto/src/lib.rs:427-444 | An inline command is only ever rejected for length, and every such rejection turns into acceptance when the line ends. |
| `CodecStalls.TooLongCommandRecovers` | crates/resp-proto/src/lib.rs:165-224 | An array command rejected for a long line can still be completed if and only if the number held on that line, count or length, is within its cap. |
| `CodecStalls.TooManyZerosRecover` | crates/resp-proto/src/lib.rs:165-180 | A count line of 65536 zeros or more is rejected for its length, and its CRLF turns it into the empty command. |
| `CodecStalls.TooLongReplyRecovers` | crates/resp-proto/src/lib.rs:306-425 | A reply rejected for a long line, at any nesting, can still be completed if and only if the line is a simple string or error, or its number is in the range its kind and depth allow. |
| `CodecProofs.CommandRoundTrip` | crates/resp-proto/src/lib.rs:165-248 | Every in-cap command parses back from its encoding, consuming exactly it, whatever follows. |
| `CodecProofs.ReplyRoundTrip` | crates/resp-proto/src/lib.rs:71-425 | A reply parses back from its printed form, whatever follows, if and only if it is within the caps and its lines hold no CRLF pair. |
| `CodecProofs.CommandCut` | crates/resp-proto/src/lib.rs:165-224 | Every strict prefix of an in-cap encoded command is `Incomplete`. |
| `CodecProofs.ReplyCutAt` | crates/resp-proto/src/lib.rs:306-425 | A strict prefix of a printed reply is `Incomplete`, or rejected for line length; with short lines always `Incomplete`. |
| `CodecProofs.ReplyCut` | crates/resp-proto/src/lib.rs:306-425 | All cuts of a printed reply are `Incomplete` if and only if every line payload stays under the cap. |
| `CodecProofs.EncodeIsArrayOfBulks` | crates/resp-proto/src/lib.rs:226-248 | An encoded command is the printed array of bulk strings with the same contents. |
| `CodecProofs.TokensOfSpaced` | crates/resp-proto/src/lib.rs:427-444 | Splitting a line on blanks recovers its words, however they are spaced. |
| `CodecProofs.InlineRoundTrip` | crates/resp-proto/src/lib.rs:427-444 | An inline line is read as its words and consumes exactly its line, whatever follows. |
| `WireLaws.NumberIs` | crates/resp-proto/src/lib.rs:71-106 | A number is printed with the digits `0` to `9`, each counting for its place, no leading zero, behind `-` if negative. |
| `WireLaws.NumberIsRead` | crates/resp-proto/src/lib.rs:158-163 | A text is read as a number if and only if it is an optional sign and at least one digit and its value fits 64 bits, and then as that value. |
| `WireLaws.ReplyIs` | crates/resp-proto/src/lib.rs:71-106 | Each kind of reply, octet by octet: its sigil, its payload or counted payload, CR LF; the two nulls are `$-1` and `*-1`; an array is its count and its items in order. |
| `WireLaws.CommandIs` | crates/resp-proto/src/lib.rs:237-248 | A command is `*`, how many arguments, CR LF, and each argument in order as `$`, its length, CR LF, its bytes, CR LF. |
| `WireLaws.CountLimit` | crates/resp-proto/src/lib.rs:165-178 | A count line: refused below 0 and above 1048576, the empty command at 0, otherwise the arguments are waited for. |
| `WireLaws.LengthLimit` | crates/resp-proto/src/lib.rs:198-206 | A length line, of an argument or a reply: refused above 536870912 and below 0, except that -1 is the null reply. |
| `WireLaws.LineLimit` | crates/resp-proto/src/lib.rs:427-444 | A line without its CRLF is waited for up to 65536 bytes and refused beyond, inline or counted. |
| `WireLaws.DepthLimit` | crates/resp-proto/src/lib.rs:322-329 | Array headers inside each other are followed 32 deep inside the outermost and refused beyond. |
| `WireLaws.Refusals` | crates/resp-proto/src/lib.rs:165-224 | Whatever follows: a header that is no number, a wrong or unknown sigil, and data without its CRLF are refused, each for its own reason. |
| `Pipeline.DrainSplit` | crates/pg_resp/src/lib.rs:737-776 | Draining a prefix and then the rest is draining everything at once, on arbitrary bytes. |
| `Pipeline.FragmentationInvariance` | crates/pg_resp/src/lib.rs:721-776 | Unless bytes follow a requested close, the split of the stream into reads is unobservable. |
| `Pipeline.DrainCut` | crates/pg_resp/src/lib.rs:737-776 | At any cut of encoded traffic, whole commands have run in order and the partial one waits. |
| `Pipeline.PipelineIsSequential` | crates/pg_resp/src/lib.rs:737-776 | Any fragmentation of encoded commands runs exactly those commands in order and owes their sequential answers. |
| `Pipeline.DecodeAllWritten` | crates/resp-proto/src/lib.rs:283-292 | Repeated reply parsing of a printed reply stream gives the replies in order. |
| `Pipeline.PipelineDecodes` | crates/pg_resp/src/lib.rs:737-776 | The client decodes the reply stream of any fragmented pipeline to the dispatch results in order. |
| `Pipeline.DrainThroughQuit` | crates/pg_resp/src/lib.rs:755-760 | QUIT is the last command a drain runs: what is in front of it runs with it, the bytes behind it stay in the buffer. |
| `Pipeline.PipelineToQuit` | crates/pg_resp/src/lib.rs:737-776 | Any fragmentation of a pipeline ending in QUIT closes exactly when all of it has arrived, having run and answered all of it. |
| `WireLaws.QuitIs` | crates/pg_resp/src/lib.rs:744-744 | A command quits if and only if its first argument is QUIT in some mix of ASCII cases. |
| `WireLaws.DrainBehind` | crates/pg_resp/src/lib.rs:737-776 | Ordinary commands are run and answered in order, and draining goes on behind them, whatever the bytes there. |
| `WireLaws.MalformedCloses` | crates/pg_resp/src/lib.rs:765-773 | Bytes that are no command: everything in front was run and answered, nothing behind is, and one error line beginning `-ERR Protocol error: ` is owed before the close. |
| `WireLaws.EmptyIsSilent` | crates/pg_resp/src/lib.rs:741-762 | A line of spaces and an array of none are passed over without running or answering anything. |
| `Connection.FlushedMeansAllSent` | crates/pg_resp/src/lib.rs:503-530 | A write script sends no more than is owed, and the flush ends drained exactly when it sends all of it. |
| `Connection.FlowStops` | crates/pg_resp/src/lib.rs:503-530 | A flush takes its writes one by one: it ends drained once they offer to take all that is owed, parked where one would block before, and failed at a write that fails or takes nothing. |
| `Connection.FlushEnds` | crates/pg_resp/src/lib.rs:503-530 | A flush fails if and only if its script reaches a write that fails or takes nothing before one that blocks and before all that is owed is taken; it parks if and only if it reaches one that blocks. |
| `Connection.GoneMeansEnds` | crates/pg_resp/src/lib.rs:727-735 | A read finds the peer gone if and only if its script reaches an end of stream or an error before it would block. |
| `Connection.Conn.FlushWrites` | crates/pg_resp/src/lib.rs:503-530 | Failed if and only if the script reaches a failed or empty write in time, parked if and only if it reaches one that blocks; sent plus unsent stays the bytes produced; a parked connection keeps under 64 KiB of dead prefix. |
| `Connection.Conn.Advance` | crates/pg_resp/src/lib.rs:506-508 | A partial write moves exactly the next bytes from unsent to sent. |
| `Connection.Conn.ReadAvailable` | crates/pg_resp/src/lib.rs:727-735 | Everything the socket delivers is appended in order; end of stream or an error means the peer is gone. |
| `Connection.Conn.DrainCommands` | crates/pg_resp/src/lib.rs:737-776 | The parse-and-dispatch loop computes exactly the specified drain and appends its replies behind what is owed. |
| `Connection.Conn.DrainOne` | crates/pg_resp/src/lib.rs:737-776 | One turn of that loop, with its break. |
| `Connection.Conn.Append` | crates/pg_resp/src/lib.rs:754-754 | A reply joins the end of the produced stream. |
| `Connection.Conn.Settle` | crates/pg_resp/src/lib.rs:778-798 | A connection more than 64 MiB behind is dropped unflushed; otherwise the flush decides. |
| `Connection.Conn.FlushAndDecide` | crates/pg_resp/src/lib.rs:656-672 | Kept, closed on request with every byte sent, or dropped on a broken pipe, as the write script says; a kept connection is bounded. |
| `Connection.Conn.ServiceConnection` | crates/pg_resp/src/lib.rs:721-798 | A readable wakeup drains old plus received bytes, conserves every reply byte, and its verdict is determined by the two scripts. |
| `Connection.Conn.ReconcileInterest` | crates/pg_resp/src/lib.rs:801-818 | Write interest is registered exactly when bytes are owed; a failed re-registration changes nothing. |
| `Connection.Wakeup` | crates/pg_resp/src/lib.rs:654-713 | One event, close pending or not, is exactly one turn of the run: what is served, what is sent, and whether the connection is kept and why not. |
| `Connection.Run` | crates/pg_resp/src/lib.rs:654-713 | Over any run of events, the scripts determine when and why the connection is dropped, what it has served and what it still owes: a broken pipe means a failed write was reached, too far behind means over 67108864 bytes, and each such event drops the connection; the bytes produced are exactly the replies owed for what arrived, and one closed on request has sent all of them. |
| `Connection.RuleIsWhy` | crates/pg_resp/src/lib.rs:656-709 | An event's verdict, by its scripts alone and both ways: peer gone, over 67108864 bytes behind, a failed write reached, closed on request with all of it taken, or kept. |
| `Connection.DroppedForAReason` | crates/pg_resp/src/lib.rs:654-713 | In a run the event that drops a connection is one whose scripts say so, for the reason recorded. |
| `Connection.RunIsReasoned` | crates/pg_resp/src/lib.rs:654-713 | A run ends kept, every event taken with reason to keep, or dropped at an event whose scripts give that verdict. |
| `Connection.RideServes` | crates/pg_resp/src/lib.rs:654-713 | The reference server of a run has served what the events taken delivered. |
| `Connection.FineRunKeeps` | crates/pg_resp/src/lib.rs:503-530 | When no read or write fails, a connection that answers at most 64 MiB in all and is not asked to close is kept. |
| `Connection.ServeEvent` | crates/pg_resp/src/lib.rs:654-713 | Only delivered bytes change what the server has served; writable wakeups do not. |
| `Connection.RunPipeline` | crates/pg_resp/src/lib.rs:654-798 | End to end over any sockets: the connection is kept exactly when the run says so, and on healthy sockets whenever the answers fit in 64 MiB; kept, it has consumed the pipeline, and sent plus owed bytes decode to its answers. |
| `Connection.RunPipelineToQuit` | crates/pg_resp/src/lib.rs:654-798 | With QUIT at the end, and the verdict that of the run: a connection closed on request has sent bytes that decode to all the answers, QUIT's included; one still kept owes or sent them. |
| `Connection.QuitStopsUnlessBlocked` | crates/pg_resp/src/lib.rs:721-798 | On any connection, with any buffer and backlog: after a wakeup that requested a close, the next runs what was left and what arrives if and only if the bytes then owed are at most 64 MiB and did not all go out. |
| `Connection.AroundQuit` | crates/pg_resp/src/lib.rs:737-776 | For encoded traffic: commands before QUIT run with it, those behind it run in the next drain once complete. |
| `Client.ReadLoopDelivers` | crates/resp-client/src/lib.rs:321-353 | Whatever the chunking, an answer is the first reply of the stream and everything behind it is kept. |
| `Client.RetryableMeansNothingRead` | crates/resp-client/src/lib.rs:322-369 | A retryable error is reported only if no reply byte was read. |
| `Client.SyncedRoundTrip` | crates/resp-client/src/lib.rs:299-353 | On a socket that owed nothing, an answer is the request's own and leaves nothing behind; without one, bytes are left exactly when the request was delivered. |
| `Client.RetryNeedsNothingRead` | crates/resp-client/src/lib.rs:299-369 | Against any peer, a round trip that fails retryably has left no byte read. |
| `Client.Client.constructor` | crates/resp-client/src/lib.rs:120-127 | An empty password means none. |
| `Client.Client.RoundTrip` | crates/resp-client/src/lib.rs:299-353 | Leftover bytes refuse the request unsent; otherwise one request goes out and the read loop's outcome is returned. |
| `Client.Client.AwaitReply` | crates/resp-client/src/lib.rs:321-353 | The parse-and-read loop computes the specified outcome, chunk by chunk. |
| `Client.Client.ReadMore` | crates/resp-client/src/lib.rs:335-351 | One read: the bytes move from the wire to the buffer, or the error is the one its kind and the buffer call for (`Client.FirstReadErrors`, `Client.MidReplyErrors`). |
| `Client.Client.EnsureConnected` | crates/resp-client/src/lib.rs:236-265 | Against any peer: a held socket is left alone; otherwise connected exactly when dialing and authentication succeed, with the precise error if not, and authentication is what was sent. |
| `Client.Client.TryOnce` | crates/resp-client/src/lib.rs:231-234 | Against any peer, from any state: result, socket and transcript are exactly those of `Attempt`. |
| `Client.Client.CommandNoRetry` | crates/resp-client/src/lib.rs:199-209 | Against any peer: exactly one attempt, its socket dropped after a fatal error. |
| `Client.Client.Command` | crates/resp-client/src/lib.rs:176-195 | Against any peer, from any state: result, socket and transcript are exactly those of `CommandTurn`, which the rows on retries, timeouts and fatal errors describe by the network's script. |
| `Client.RetryRule` | crates/resp-client/src/lib.rs:176-195 | The request goes out again if and only if a socket held before failed without one reply byte, and then on a new socket. |
| `Client.RetriedOnScript` | crates/resp-client/src/lib.rs:176-195 | On the network's script alone: a retry happens if and only if a socket is held with nothing read ahead and its write broke, or the first read found the peer gone; never after a timeout of either kind. |
| `Client.FirstReadErrors` | crates/resp-client/src/lib.rs:299-369 | What is reported when nothing was read: a timeout for a silent peer, on write or read; a broken write or reset is I/O, an end of stream closed. |
| `Client.MidReplyErrors` | crates/resp-client/src/lib.rs:335-369 | Once part of a reply was read, silence is a timeout, and the end of the peer a protocol error. |
| `Client.TimeoutIsFinal` | crates/resp-client/src/lib.rs:176-207 | A timeout on a held socket is reported after one request, and the socket is dropped. |
| `Client.LeftoverIsFatal` | crates/resp-client/src/lib.rs:299-310 | With bytes read ahead nothing is sent, the call is a protocol error, and the socket is dropped. |
| `Client.LoginFailures` | crates/resp-client/src/lib.rs:236-265 | No server: nothing is sent. A refused password: only the password is sent, and that is the error. |
| `Client.ErrorReplyKeepsSocket` | crates/resp-client/src/lib.rs:82-87 | An error reply is reported as such and leaves the socket held, in step. |
| `Client.NewSocketTranscript` | crates/resp-client/src/lib.rs:231-265 | A new socket is given authentication first if there is a password, then the request. |
| `Client.CallCarries` | crates/resp-client/src/lib.rs:176-209 | Against any peer a command puts its own request, and no other, on sockets at most twice, once if it may not be retried; an answered one at least once. |
| `Client.FatalErrorDrops` | crates/resp-client/src/lib.rs:178-207 | After a fatal error a socket is held if and only if the command retried and the retry got one. |
| `Client.CallInSync` | crates/resp-client/src/lib.rs:176-209 | Against an honest server, from a client in step: an answer is the call's own, and the client stays in step if and only if no delivered retry went unread. |
| `Client.Session` | crates/resp-client/src/lib.rs:176-209 | Any session against any peers is the fold of its calls: results, sockets and transcripts. |
| `Client.PlayAt` | crates/resp-client/src/lib.rs:176-209 | Each call of a session is one turn from where the calls before it leave the client. |
| `Client.CleanSession` | crates/resp-client/src/lib.rs:176-209 | Against an honest server, as long as no call was spoilt by an unread retry, the client is in step and every answer is that of its own call. |
| `Client.StaleAnswerAfterFailedRetry` | crates/resp-client/src/lib.rs:192-192 | A timed-out retry followed by another command returns the first command's answer to the second. |
| `Glob.MatchClass` | crates/pg_resp/src/glob.rs:77-123 | The class test agrees with its ranges and negation, and the pattern bytes consumed do not depend on the subject. |
| `Glob.GlobMatch` | crates/pg_resp/src/glob.rs:13-72 | The matcher accepts a text if and only if it splits into pieces matching the tokens of the pattern. |
| `Glob.MatchRun` | crates/pg_resp/src/glob.rs:19-33 | The star arm, with its collapsing of runs, decides the language of the pattern from the star on. |
| `Glob.MatchSomeSuffix` | crates/pg_resp/src/glob.rs:26-32 | The suffix loop succeeds exactly when some suffix is accepted. |
| `Glob.AcceptsIsDenotes` | crates/pg_resp/src/glob.rs:13-72 | Token recursion and splitting into pieces define the same language. |
| `Glob.StarsCollapse` | crates/pg_resp/src/glob.rs:20-22 | Two stars in a row mean one. |
| `Glob.EscapedMatchesOnlyItself` | crates/pg_resp/src/glob.rs:49-58 | Escaping every byte of a text gives a pattern that matches that text and nothing else. |
| `GlobLaws.Wildcards` | crates/pg_resp/src/glob.rs:19-40 | In front of any pattern, `*` stands for any bytes and `?` for any one byte. |
| `GlobLaws.PlainBytes` | crates/pg_resp/src/glob.rs:49-70 | A byte behind a backslash, and every byte but `*`, `?`, `[` and backslash, matches itself; a backslash at the end does too. |
| `GlobLaws.ClassReads` | crates/pg_resp/src/glob.rs:77-123 | A class body covers exactly the bytes its pieces cover, escapes, spans in either order and single bytes, and ends behind its bracket or with the pattern. |
| `GlobLaws.Classes` | crates/pg_resp/src/glob.rs:77-123 | `[…]` matches one byte that some piece covers, `[^…]` one that none covers, and then the pattern behind it. |
| `GlobLaws.UnclosedClasses` | crates/pg_resp/src/glob.rs:84-91 | A class that is never closed matches one byte, at the end. |
| `Scan.ScanRegistry.Scan` | crates/resp-store/src/scan.rs:41-64 | Resumes a usable cursor or restarts silently, as `ScanLaws` spells out; cursors stay nonzero, at most 64, strictly inside their snapshots. |
| `Scan.ScanRegistry.Start` | crates/resp-store/src/scan.rs:66-82 | Evicts, takes a fresh id and gives the first page of the snapshot, registering a cursor only if more is left. |
| `Scan.ScanRegistry.EvictStaleAndOverCapacity` | crates/resp-store/src/scan.rs:94-110 | Stale cursors go; of the rest the least recently used go, and only down to one free slot. |
| `Scan.ScanRegistry.Oldest` | crates/resp-store/src/scan.rs:98-102 | Some least recently used cursor, ties either way. |
| `ScanLaws.UnusableCursorRestarts` | crates/resp-store/src/scan.rs:48-82 | Cursor 0, an unknown cursor, or one not used for 60 s or more: the page lists keys live now, an idle cursor is gone, and a new one is handed out exactly if more is left. |
| `ScanLaws.YoungCursorResumes` | crates/resp-store/src/scan.rs:48-60 | A cursor used less than 60 s ago gives the next page of its own snapshot and is removed exactly when that was the last. |
| `ScanLaws.RestartEvictsOldest` | crates/resp-store/src/scan.rs:94-110 | A cursor in use is thrown out only with 64 of them, and then none kept was used before it. |
| `ScanLaws.RestartDropsIdle` | crates/resp-store/src/scan.rs:94-96 | No cursor idle for 60 s or more survives a restart. |
| `ScanRuns.RunKeeps` | crates/resp-store/src/scan.rs:41-110 | The registry invariant holds after every event of every run. |
| `ScanRuns.RunAccounts` | crates/resp-store/src/scan.rs:41-110 | Along every run the account adds up: what is behind the cursor was given to this scan or taken by others, never both, and a stable key is in the snapshot. |
| `ScanRuns.ScanMissesExactly` | crates/resp-store/src/scan.rs:41-110 | With cursors shared or not: a finished scan misses a stable key if and only if another caller drew it through this cursor since the last restart and it was not delivered before. |
| `ScanRuns.ScanNeverMisses` | crates/resp-store/src/scan.rs:41-110 | A finished scan whose cursor served nobody else has delivered every key live from its first to its last call, whatever ran in between. |
| `ScanRuns.SharedCursorMisses` | crates/resp-store/src/scan.rs:48-60 | Two clients taking turns on one cursor: a run of the registry in which a stable key is missed. |
| `ScanRuns.UndisturbedScanIsExact` | crates/resp-store/src/scan.rs:48-110 | With room for cursors and calls under 60 s apart, the pages are the start snapshot, each key once, in the fewest calls that cover it. |
| `Keyspace.LiveKeys` | crates/resp-store/src/lib.rs:311-317 | The live keys, each once, in an arbitrary order. |
| `Keyspace.ScanStore` | crates/resp-store/src/lib.rs:298-306 | A scan of the store is exactly one scan step of the run model over the store's live keys; on an unusable cursor, one idle for 60 s among them, it restarts on what is live, otherwise it gives the next page of the cursor's snapshot. |
| `Keyspace.Matching` | crates/pg_resp/src/dispatch.rs:491-496 | The filter keeps exactly the matching keys, in page order, and repeats none that the page does not. |
| `Keyspace.KeysCommand` | crates/pg_resp/src/dispatch.rs:658-670 | KEYS lists exactly the live keys that match, each once. |
| `ServerRuns.Act` | crates/resp-store/src/lib.rs:252-592 | One operation, sweep or scan call on the modelled store and registry is one step of the scan-run model and one of the reference map. |
| `ServerRuns.Filter` | crates/pg_resp/src/dispatch.rs:491-496 | The MATCH filter keeps exactly the keys of a page that the pattern selects; without a pattern, all. |
| `ServerRuns.LoggedTurn` | crates/resp-store/src/lib.rs:252-306 | Each action extends the log as a run of the scan model over the views of the reference map. |
| `ServerRuns.Drive` | crates/pg_resp/src/dispatch.rs:491-496 | Any program of operations, sweeps and scans on a store and its registry, budgeted or not, cursors shared or not: a finished scan has shown a stable key if and only if its pattern selects it and nobody else drew it through the scan's cursor. |
| `ServerRuns.ScanMatchIsExactOnStableKeys` | crates/pg_resp/src/dispatch.rs:491-496 | With a pattern and an unshared cursor, the filtered pages show a stable key exactly when it matches. |
| `CommitQueue.StepRefines` | crates/pg_resp/src/sql.rs:174-229 | Every callback keeps the flat queue equal to the flattened stack, with growing ids, and empty while unarmed. |
| `CommitQueue.OlderCuts` | crates/pg_resp/src/sql.rs:210-215 | Filtering by subtransaction id cuts the stack at exactly that level. |
| `CommitQueue.ReparentMerges` | crates/pg_resp/src/sql.rs:216-228 | Re-tagging the innermost items merges that level into its parent, order kept. |
| `CommitQueue.FlatSorted` | crates/pg_resp/src/sql.rs:210-215 | Ids never decrease along the queue. |
| `CommitQueue.RunRefines` | crates/pg_resp/src/sql.rs:174-229 | Over any event sequence, including rollbacks across several levels, queue and stack stay in step. |
| `CommitQueue.QueueAppliesExactlySurvivors` | crates/pg_resp/src/sql.rs:174-229 | Any history of nested transactions applies exactly the operations whose whole ancestor chain committed, in order, and leaves the backend idle: queue empty, hooks unarmed, one level open. |
| `CommitQueue.EffectIsWhatCommits` | crates/pg_resp/src/sql.rs:193-229 | Over any history, the surviving operations are those issued, in order, less every one inside something, at any depth, that did not commit. |
| `CommitQueue.PostCommitQueue.Enqueue` | crates/pg_resp/src/sql.rs:174-188 | Appends the operation under the current subtransaction and arms the hooks. |
| `CommitQueue.PostCommitQueue.OnAbortSub` | crates/pg_resp/src/sql.rs:210-215 | Keeps exactly the items of older subtransactions, in order. |
| `CommitQueue.PostCommitQueue.OnCommitSub` | crates/pg_resp/src/sql.rs:216-228 | Re-tags exactly the items of the committing subtransaction. |
| `CommitQueue.PostCommitQueue.OnAbort` | crates/pg_resp/src/sql.rs:198-205 | Empties the queue and disarms. |
| `CommitQueue.PostCommitQueue.OnCommit` | crates/pg_resp/src/sql.rs:193-197 | Takes the queue, disarms, and delivers it: transcript, results and losses are those of its deliveries, panic included. |
| `CommitQueue.PostCommitQueue.ApplyQueue` | crates/pg_resp/src/sql.rs:247-314 | What goes to the client's sockets, and the results, are exactly the session of the operations in order, up to a panic if there is one; the lost counter grows by exactly the deliveries that returned an error, or by all operations after a panic. |
| `CommitQueue.DeliveriesCarry` | crates/pg_resp/src/sql.rs:255-281 | Whatever the network does, delivery i puts its own operation on sockets, no other, at most twice, and at least once if acknowledged; and the server reads each request it puts there as the write of that key and value, with that time to live. |
| `CommitQueue.CommandIsRead` | crates/pg_resp/src/sql.rs:257-272 | The command sent for an operation is read by the dispatcher as the write it stands for: key, value and deadline, or the deletion of the key. |
| `CommitQueue.CommandWrites` | crates/pg_resp/src/sql.rs:257-272 | However it is read, at any time and on any contents, the command leaves the key holding the value, for good or until its time to live is over, or gone, and touches no other key. |
| `CommitQueue.OtherTtlsAreRefused` | crates/pg_resp/src/sql.rs:264-267 | The server can read the command if and only if it has no time to live or one from 1 to the largest 64-bit integer. |
| `CommitQueue.PostCommitQueue.SqlSet` | crates/pg_resp/src/sql.rs:413-430 | A time to live that is not positive is refused before anything is queued; whatever is queued the server can read. |
| `CommitQueue.LossesAreErrors` | crates/pg_resp/src/sql.rs:251-296 | The deliveries that come back with an error are counted, or all operations if the applier panics before the end; those in front of the panic were attempted. |
| `CommitQueue.NotLostMeansAcknowledged` | crates/pg_resp/src/sql.rs:255-281 | Against an honest cache, as long as no delivery was spoilt by an unread retry, an operation not counted as lost was acknowledged by the cache's own non-error answer to it. |
| `CommitQueue.RefusedButAcknowledged` | crates/pg_resp/src/sql.rs:255-281 | After an unread retry an operation that the cache refused is acknowledged with the previous answer and not counted as lost. |
| `CommitQueue.Deliver` | crates/pg_resp/src/sql.rs:184-229 | The armed callbacks perform exactly one step of the backend model and deliver exactly what it hands over. |
| `CommitQueue.PlayHistory` | crates/pg_resp/src/sql.rs:158-314 | Whatever the network does to each delivery, what goes to the sockets over a whole history is, delivery by delivery, the surviving writes in order, each at most twice and at least once if acknowledged, each read by the server as `op.key := op.value` or the key's deletion; the lost counter counts exactly the deliveries that failed. |
| `Dispatch.WordsMean` | crates/pg_resp/src/dispatch.rs:108-152 | Each option word is read for what it says. |
| `Dispatch.ReadsAsOne` | crates/pg_resp/src/dispatch.rs:259-288 | SET and DEL arguments can be read in one way at most. |
| `Dispatch.SetAnswers` | crates/pg_resp/src/dispatch.rs:270-281 | SET answers the value it found if asked to, and otherwise OK or nil as its condition was met or not. |
| `Dispatch.DelAnswers` | crates/pg_resp/src/dispatch.rs:282-288 | DEL answers by how many live keys there are fewer. |
| `Dispatch.DispatchWrite` | crates/pg_resp/src/dispatch.rs:259-288 | The SET and DEL arms: key, value and options, or keys, at their places; performed and answered if they can be read, and otherwise an error that leaves the store alone. |
| `Replay.Receive` | crates/pg_resp/src/sql.rs:257-272 | A queued write that reaches an unbudgeted cache has, at that time, exactly its own effect. |
| `Replay.ReceiveAll` | crates/pg_resp/src/sql.rs:247-281 | Any writes, repeated or not, received in order by an unbudgeted cache with any contents: in the end each key they name is as the last of them about it says, deadlines passed included. |
| `Replay.TwiceIsOnce` | crates/resp-client/src/lib.rs:176-195 | A write performed again on a retry leaves exactly what performing it once, at the later time, would: on every contents and at any times. |
| `StoreSpec.CountRemovedIsDistinctPresent` | crates/resp-store/src/lib.rs:464-473 | DEL counts each distinct key present once. |
| `Store.TotalRemove` | crates/resp-store/src/lib.rs:180-186 | Accounted size is the sum over the map, independent of the order in which it is added up. |
| `Store.Store.constructor` | crates/resp-store/src/lib.rs:131-155 | An empty, balanced store. |
| `Store.Store.RemoveAccounted` | crates/resp-store/src/lib.rs:180-186 | Removes one entry and its bytes, keeping accounting and key conservation. |
| `Store.Store.InsertEntry` | crates/resp-store/src/lib.rs:188-195 | The byte count follows the map when an entry is written or replaced. |
| `Store.Store.InsertAccounted` | crates/resp-store/src/lib.rs:188-196 | Writes the entry, restores the budget by dropping other keys, and drops nothing if and only if the table with the entry fits or holds nothing else. |
| `Store.Store.ExpireIfNeeded` | crates/resp-store/src/lib.rs:200-205 | Lazy expiry removes at most the key asked for and no client can tell. |
| `Store.Store.EvictToBudget` | crates/resp-store/src/lib.rs:216-244 | Terminates with the budget met or a single entry left and spares the protected key; drops nothing if and only if that held already; with the last dropped entry back it would not hold; and counts every key dropped. |
| `Store.Store.EvictOne` | crates/resp-store/src/lib.rs:220-243 | One pass evicts exactly one other key, or none when the protected key is alone. |
| `Store.Store.ClockPass` | crates/resp-store/src/lib.rs:221-235 | The victim has a clear bit and everything sampled before it got its second chance; otherwise the whole sample of up to 20 had set bits, now clear, and the victim is one of them. |
| `Store.Store.Inspect` | crates/resp-store/src/lib.rs:223-234 | One sampled entry: skipped, given its second chance, or found clear. |
| `Store.Store.ActiveExpireSweep` | crates/resp-store/src/lib.rs:252-265 | Removes exactly the expired entries of a sample of the given size, counts them, and changes no view now or later. |
| `Store.Store.Get` | crates/resp-store/src/lib.rs:267-280 | The live value, the view unchanged, one hit or one miss. |
| `Store.Store.Set` | crates/resp-store/src/lib.rs:319-369 | Conditions, KEEPTTL, the returned old value and the new view, less evicted other keys, of which there are none if and only if nothing was written or it fits; the entry written has no deadline, the old one or the given one, as asked. |
| `Store.Store.Clear` | crates/resp-store/src/lib.rs:375-378 | Everything goes, and is accounted for as flushed. |
| `Store.Store.Persist` | crates/resp-store/src/lib.rs:384-393 | True exactly when a live key had a deadline, which is then gone. |
| `Store.Store.GetDel` | crates/resp-store/src/lib.rs:415-429 | The live value is returned and the key is gone. |
| `Store.Store.GetEx` | crates/resp-store/src/lib.rs:437-460 | The live value is returned and its deadline changed as asked, value kept. |
| `Store.Store.Del` | crates/resp-store/src/lib.rs:464-473 | All listed keys go; the count is of distinct live ones. |
| `Store.Store.Exists` | crates/resp-store/src/lib.rs:476-485 | Counts live keys with multiplicity and changes no view. |
| `Store.Store.TtlSeconds` | crates/resp-store/src/lib.rs:490-504 | -2, -1, or the remaining time rounded to seconds. |
| `Store.Store.PttlMillis` | crates/resp-store/src/lib.rs:508-520 | -2, -1, or the remaining milliseconds. |
| `Store.Store.Expire` | crates/resp-store/src/lib.rs:525-534 | True exactly for a live key, which then carries the new deadline. |
| `Store.Store.IncrBy` | crates/resp-store/src/lib.rs:539-559 | The counter's new number or the precise error, deadline kept, nothing changed on error; other keys are evicted if and only if the new number does not fit. |
| `Store.Store.MGet` | crates/resp-store/src/lib.rs:561-578 | All live values in order, with exact hit and miss counts. |
| `Store.Store.MSet` | crates/resp-store/src/lib.rs:581-592 | All pairs in order, later ones winning; the last key written is never among the lost, and nothing is lost if all the pairs fit. |
| `StoreRuns.Execute` | crates/resp-store/src/lib.rs:267-592 | Every operation gives the reference answer and view, less evicted keys, moves the counters by exactly its reads, grows the store by at most what it writes, and drops nothing if that fits. |
| `StoreRuns.RunCalls` | crates/resp-store/src/lib.rs:173-592 | Any run with any sweeps answers as the eager-expiry lossy map, loses only unprotected keys, none when unbudgeted and none while all that was ever written fits, and stays accounted, balanced and in budget. |
| `StoreLaws.SetLaw` | crates/resp-store/src/lib.rs:319-369 | When SET applies, what it answers, and what the key then holds: plain, for good, whatever deadline it had; with KEEPTTL, until the old one; with a deadline, until that. No other key is touched. |
| `StoreLaws.GetExLaw` | crates/resp-store/src/lib.rs:437-460 | GETEX reads the value and changes the deadline only if asked: none, or the given one. |
| `StoreLaws.PersistLaw` | crates/resp-store/src/lib.rs:384-393 | PERSIST leaves a live key for good and says whether it had a deadline. |
| `StoreLaws.ExpireLaw` | crates/resp-store/src/lib.rs:525-534 | EXPIRE lets a live key last until exactly the deadline, a past one meaning now. |
| `StoreLaws.GetDelLaw` | crates/resp-store/src/lib.rs:415-429 | GETDEL answers the value, and the key is gone. |
| `StoreLaws.DelLaw` | crates/resp-store/src/lib.rs:464-473 | Every listed key is gone, no other is touched, and the answer is how many fewer there are. |
| `StoreLaws.ExistsLaw` | crates/resp-store/src/lib.rs:476-485 | EXISTS counts the positions of the list that name a live key. |
| `StoreLaws.MSetLaw` | crates/resp-store/src/lib.rs:581-592 | Each key named by MSET holds the last value given for it, without a deadline; no other is touched. |
| `StoreLaws.TtlLaw` | crates/resp-store/src/lib.rs:490-520 | PTTL is the whole milliseconds left and TTL the whole second nearest to them; -1 without a deadline, -2 without a key. |
| `StoreLaws.IncrLaw` | crates/resp-store/src/lib.rs:539-559 | A missing key counts as 0; the new number is stored as its decimal text and the deadline kept; text that is no number, and overflow, change nothing. |
| `StoreLaws.LiveLaw` | crates/resp-store/src/lib.rs:173-178 | An entry is visible until exactly its deadline. |
| `StoreLaws.ChargeLaw` | crates/resp-store/src/lib.rs:48-50 | An entry is charged its key, its value and 96 bytes. |
| `StoreLaws.PlainSetLasts` | crates/resp-store/src/lib.rs:319-369 | Unbudgeted, a key last written by a plain SET is live with that value at every later time, until an operation names it. |
| `StoreLaws.TimedSetLasts` | crates/resp-store/src/lib.rs:319-369 | And one written with a deadline is live until exactly then. |
| `StoreRuns.IncrCounts` | crates/resp-store/src/lib.rs:539-559 | One increment moves the number by delta or changes nothing; the deadline stays. |
| `StoreRuns.CounterIsSumOfIncrements` | crates/pg_resp/src/dispatch.rs:318-346 | Unbudgeted, with anything happening to other keys, a live counter is its start plus the successful deltas, within i64, deadline kept. |
| `SetOptions.ResolveAbsolute` | crates/pg_resp/src/dispatch.rs:72-88 | A target at or before now means expired now; any other lies ahead. |
| `SetOptions.ParseSetOptions` | crates/pg_resp/src/dispatch.rs:100-157 | Accepts exactly the lists with at most one of NX/XX and at most one expiry, positive where it has an argument, and returns what they mean; a refusal is that of the first option that does not fit those before it. |
| `SetOptions.MeaningIsUnique` | crates/pg_resp/src/dispatch.rs:90-157 | A legal bag of options has one meaning. |
| `SetOptions.ChunksOf` | crates/pg_resp/src/dispatch.rs:100-157 | Every token list that is a list of options falls into chunks of one option each. |
| `SetOptions.GroupsOfChunks` | crates/pg_resp/src/dispatch.rs:100-157 | Chunks of one option each, laid end to end, parse to their options. |
| `SetOptions.OrderIsIrrelevant` | crates/pg_resp/src/dispatch.rs:97-157 | Any permutation of the one-option chunks of a token list is accepted if and only if the list is, and means the same. |
| `SetOptions.ParseReordered` | crates/pg_resp/src/dispatch.rs:97-157 | The parser gives a list and any reordering of its options the same verdict and, when accepted, the same result. |
| `OptionLaws.LegalWordsAreAccepted` | crates/pg_resp/src/dispatch.rs:100-157 | Word by word: a list is accepted if and only if every word is known and every number readable and positive, NX and XX occur at most once between them, and so do KEEPTTL, EX, PX, EXAT and PXAT. |
| `OptionLaws.WordsAreHeeded` | crates/pg_resp/src/dispatch.rs:108-152 | An accepted list asks for what its words say and nothing else: NX and XX, GET, KEEPTTL, and the deadlines of EX, PX, EXAT and PXAT to the nanosecond, a saturated one included. |
| `OptionLaws.SetIsRead` | crates/pg_resp/src/dispatch.rs:259-268 | A SET that is read has a key, a value and legal options, and does what they ask for. |
| `Info.ParseInfoField` | crates/pg_resp/src/sql.rs:630-641 | The scan returns the value of the first line that yields a number for the field. |
| `Info.LinesOfJoined` | crates/pg_resp/src/dispatch.rs:424-453 | Splitting the printed text gives back its lines. |
| `Info.FieldAnswers` | crates/pg_resp/src/sql.rs:630-641 | A printed field line, of either shape, answers its own field with its number. |
| `Info.FieldGivesExactly` | crates/pg_resp/src/sql.rs:630-641 | A line gives a number for a field if and only if it is the field's name, any marks `:` and `=`, and the number with any blanks on either side. |
| `Info.StatsAgreeWithInfo` | crates/pg_resp/src/sql.rs:460-475 | Each of the seven numbers INFO prints is the one read back, for all values below 2^63; no line answers for another field. |

## Left out

- Postgres and pgrx: hook registration, shared memory, GUCs, privileges, the trigger functions, the watchdog and panic fences are foreign calls; PREPARE TRANSACTION is not modelled.
- mio polling, accept, DNS, real sockets and timeouts: replaced by scripts of outcomes; edge-triggered wakeups are not modelled, and runs assume that re-registering interest succeeds.
- The dispatcher's command table but for its SET and DEL arms (`Dispatch`): argument counts, HELLO, CLIENT, COMMAND, SELECT, ECHO, PING, AUTH and the texts of error replies are fixed one-branch answers; protocol error texts are merged into one per reason.
- DBSIZE and `random_key`: they show entries that have expired but are not yet swept.
- UTF-8 validity and Unicode case folding: `upper` is a parameter of `SetOptions`, and parsing an integer does not distinguish non-UTF-8 bytes from other non-digits.
- Bounds of machine time and size: deadlines, millisecond casts and buffer lengths are unbounded, so the overflow of an instant by a huge TTL and of `usize` are not modelled.
- DECRBY of the smallest i64: it is refused before the store is reached.
- Cursor ids: runs start fewer than 2^64 scans, so the wrap-around of ids is never reached.
- Which member of a tie or of a sample is chosen: iteration orders are arbitrary, so the fallback victim of a CLOCK pass is some sampled entry, not a particular one.
- A panic inside `apply_queue` is taken to strike between two deliveries; whether the delivery it strikes in reached the cache is not modelled.
