# Flexy: a verified model

Flexy bridges a FlexRadio to hamlib clients and to remote SmartSDR clients. This project models the
parts of it that hold state, encode bytes or interleave, and proves what they promise.

| file | models |
|---|---|
| `Text.dfy`, `Order.dfy` | the Go `strings` helpers used throughout; byte-wise string order and `sort.Strings` |
| `VitaFrame.dfy`, `DiscoveryCodec.dfy`, `DiscoveryRelay.dfy` | the discovery packet: framing, payload codec, and the rewrite done by the relay |
| `CommandPaths.dfy`, `CommandTable.dfy`, `CommandLoop.dfy`, `ExtendedReply.dfy`, `MeterCommands.dfy` | the hamlib command table on the heap, the dispatcher, extended replies, and the metering registrations |
| `Metering.dfy` | the four meter maps and the packet decoder |
| `LogBuffer.dfy`, `LogPolling.dfy` | the log ring buffer and the page that polls it |
| `LatestValue.dfy` | the one-slot "newest batch" channel of the scanner |
| `ClientIp.dfy`, `SessionRegistry.dfy`, `UdpRelay.dfy` | proxied sessions: the `client ip` rewrite, the client registry and clean-up, the UDP relays |
| `RadioContext.dfy`, `PreampAtt.dfy` | the address rewrite by position, and the coupled PREAMP and ATT levels |

How the source's form is kept. Objects that are updated in place are classes, and each method is proved
against a function of the old state: `HamlibServer` is a tree of heap tables changed by `AddHandler`,
`LogBuffer` an array with a write index, `MeterTable` four maps and a reader, `Registry`, `LogPage` and
`Slice` likewise. The theorems are about those functions. The two goroutines of a connection, the sessions
that share the registry, the relays, the polling page and the scanner's channel are step relations: an
event names who moves, a run is a list of events, and a theorem holds after every run.

Conventions. A Go string is a `string` whose characters are its bytes. Whitespace is the six ASCII
whitespace bytes, which is what `strings.Fields` uses on ASCII input. A Go map range is an arbitrary
enumeration of the keys. Lines that the source matches with a regular expression arrive in parsed form.
Handles are upper case, as the source stores and compares them. `SortStrings` stands for the library's
`sort.Strings`; history fields (`received`, `skipped`, `repeated`, `issued`, `forwarded`, `recordedAt`,
`lookedAt`, `sawEmpty`, `deliveries` and the like) exist only to state what happened. What the functions behind
the theorems compute is also stated on its own, in bytes, literals and arithmetic: the byte order of the keys,
the bytes of the header and of a meter record, the units, the names of levels, the texts of replies.

Where the code does less than one might expect, the exact condition is proved, with an input that shows the
failure:

- A payload with a NUL next to a field edge is not canonical: a leading NUL of the smallest key or a
  trailing NUL of the largest key's value is trimmed on the way back (`RoundTrip`, `Canonical`,
  `CanonicalCanFail`, `EdgeLost`). Rebuilding twice gives the same bytes exactly when the first rebuilt
  payload neither begins with a NUL nor ends with four (`WireIdempotent`).
- The page's timer does not wait for a response. Taking in a response keeps the delivered numbers
  increasing exactly when its first line is not below the cursor, and a run delivers each line at most once
  and in order exactly when no response started below the cursor (`InOrderExactly`, `IncreasingExactly`);
  overlapping polls can deliver a line twice and move the cursor back (`OverlapDeliversTwice`,
  `CursorCanMoveBack`).
- Check and removal are separate steps, so a session can remove its pans while others are registered.
  Everybody registered then registered after the check, and somebody is registered exactly when there is such
  a newcomer (`RemovingAlone`, `RemovalCanRaceWithNewcomer`).
- A failed `client ip` leaves its sequence number recorded, so a later success reply under that number can
  be rewritten (`ReusedNumberFails`); a number reused before the first `client ip` is answered loses the second
  one's rewrite (`EarlyReuseFails`). For any client and any radio, a success reply is what the client should
  see exactly when it holds the client's address anyway, or when its answering a `client ip` agreed, at its
  lookup, with a `client ip` having been recorded under its number since the last success reply
  (`PromiseKeptAlways`). If the client reuses a number only once no further reply to an earlier command under
  it will be sent and none waits for the lookup, the commands alone decide: a success reply is rewritten
  exactly when it is the first to a command that was `client ip` or whose number was outstanding when the
  command was read (`RepliesRewrittenExactly`, `PromiseKeptExactly`, `LeftOverExactly`). In particular, reuse
  after a success is harmless.
- A mapped meter announced for another level leaves its old level pointing at it, and a later
  announcement for that old level then unmaps it from its new one (`InverseExactly`, `InverseAlways`,
  `MoveLeavesStaleLevel`, `StaleLevelEvictsAnother`).
- When the latest relay could not be opened, the client's own port number was passed through; the radio's
  datagrams arrive exactly when an earlier relay uses that very number at both ends (`FailedSetup`,
  `LatestDecides`).
- PREAMP and ATT depend on the order exactly when both are asked for at once (`OrderFree`).
- A line whose tokens end inside an inner command table makes the source index past them
  (`RunsOutExactly`); "l" is such a line (`LevelCommandRunsOut`). A line that is nothing but an
  extension prefix, such as "+", makes it index past the line (`Readable`).

The fields of the discovery header follow sections 6.1.1 and 6.1.3 of ANSI/VITA 49.0; only packet type, C bit,
packet size and the two class ID words are claimed.

## Model

| member | source | states |
|---|---|---|
| DiscoveryCodec.ParseDiscoveryPayload | cmd/flexy/proxy.go:73-83 | the loop fills the map that the fields of the trimmed payload define |
| DiscoveryCodec.LastFieldWins | cmd/flexy/proxy.go:76-81 | a key has the decoded value of the last field that names it |
| DiscoveryCodec.FieldRead | cmd/flexy/proxy.go:76-81 | a field names what stands before its first `=`, and a 0x7f in the rest is read as a space |
| DiscoveryCodec.UnnamedAbsent | cmd/flexy/proxy.go:76-81 | a key no field names is absent |
| DiscoveryCodec.ParseClean | cmd/flexy/proxy.go:73-83 | whatever the bytes, parsed keys hold no `=` or whitespace and parsed values no 0x7f and no whitespace but space |
| DiscoveryCodec.CollectKeys | cmd/flexy/proxy.go:87-90 | ranging over the map yields each key once, in any order |
| DiscoveryCodec.BuildDiscoveryPacket | cmd/flexy/proxy.go:86-117 | the bytes are a function of the map's contents alone |
| DiscoveryCodec.KeyOrderIrrelevant | cmd/flexy/proxy.go:87-99 | any two enumerations of the keys lead to the same payload |
| Order.BeforeExactly | cmd/flexy/proxy.go:91 | the order is the byte-wise one: the first difference decides, and a proper prefix comes first |
| DiscoveryCodec.SmallerKeyFirst | cmd/flexy/proxy.go:91-99 | of two keys the byte-wise smaller one's field, `key=value` with spaces as 0x7f, stands first in the payload |
| DiscoveryCodec.TwoFields | cmd/flexy/proxy.go:91-99 | the payload of two fields, byte for byte |
| Order.SortedUnique | cmd/flexy/proxy.go:91 | a list has only one sorted permutation |
| DiscoveryCodec.RoundTrip | cmd/flexy/proxy.go:73-117 | parsing bytes 12 onward of the built packet gives back the map if and only if keys and values are encodable and no NUL sits at an edge of the payload |
| DiscoveryCodec.EncodableIsParsed | cmd/flexy/proxy.go:73-83 | every encodable map is what some payload parses to, so `ParseClean` is exact |
| DiscoveryCodec.Canonical | cmd/flexy/proxy.go:73-117 | parse-build-parse equals parse if and only if the parsed map keeps its edges |
| DiscoveryCodec.WireIdempotent | cmd/flexy/proxy.go:73-117 | rebuilding twice gives the same bytes if and only if the first rebuilt payload neither begins with a NUL nor ends with four |
| DiscoveryCodec.PaddedPayload | cmd/flexy/proxy.go:75-83 | NULs only around the payload never break canonicalisation |
| DiscoveryCodec.CanonicalCanFail | cmd/flexy/proxy.go:73-117 | for each encodable map that loses an edge some payload does not survive |
| DiscoveryCodec.EdgeLost | cmd/flexy/proxy.go:75 | a map whose last value ends with NUL is such a map |
| DiscoveryCodec.RebuiltNoLonger | cmd/flexy/proxy.go:73-99 | the rebuilt payload is never longer than the payload it was parsed from |
| VitaFrame.Pad | cmd/flexy/proxy.go:101-104 | padding is NULs up to the next multiple of 4, fewer than 4 |
| VitaFrame.Encapsulate | cmd/flexy/proxy.go:101-116 | header word, OUI, class code and padded payload, in that order |
| VitaFrame.FrameLayout | cmd/flexy/proxy.go:101-116 | the length is a multiple of 4 with fewer than 4 padding bytes, and bytes 12 onward are the padded payload |
| VitaFrame.HeaderDecodes | cmd/flexy/proxy.go:106-112 | the size field equals the length in words if and only if that count is below 2^16, and then type is 5, C is 1 and the bits between are 0 |
| VitaFrame.HeaderBytes | cmd/flexy/proxy.go:106-115 | the twelve header bytes: 0x58, 0, the length in words high byte first, 00 00 1c 2d, 00 00 ff ff |
| VitaFrame.BitOrBits | cmd/flexy/proxy.go:109 | the or sets exactly the bits set on either side |
| VitaFrame.ClassIdWords | cmd/flexy/proxy.go:113-114 | the two class ID words decode to the OUI and the class code |
| DiscoveryRelay.Relay | cmd/flexy/proxy.go:301-353 | short or empty payloads are not relayed; others leave rebuilt from the rewritten fields |
| DiscoveryRelay.RelaysExactly | cmd/flexy/proxy.go:301-309 | a datagram is relayed if and only if it has 12 bytes and something with an equals sign in a word after them |
| DiscoveryRelay.RewriteTouches | cmd/flexy/proxy.go:321-345 | `ip`, `port` and a nonempty `nickname` change as in the source, the five `gui_client_*` fields go, everything else stays, `port` too when the listen address names none |
| DiscoveryRelay.RelayedFields | cmd/flexy/proxy.go:306-353 | a client parses exactly the rewritten fields from the relayed packet, if and only if they keep their edges |
| DiscoveryRelay.RelayedHeader | cmd/flexy/proxy.go:291-353 | a datagram from the 65536-byte buffer leaves with a correct size field and bounded growth |
| CommandTable.HamlibServer.constructor | cmd/flexy/hamlib.go:121-126 | an empty root table |
| CommandTable.HamlibServer.AddHandler | cmd/flexy/hamlib.go:344-369 | the tables on the heap afterwards mean the old registrations plus one per name of the handler, in order |
| CommandTable.HandlerAdded | cmd/flexy/hamlib.go:344-369 | for every handler and table: afterwards its long path and, if it has a short name, its short path hold it, what was below them is gone, and all else is as before |
| CommandTable.HamlibServer.AddAt | cmd/flexy/hamlib.go:353-368 | walking down and assigning changes the meaning by exactly one registration and keeps the tree |
| CommandTable.HamlibServer.NewSubtable | cmd/flexy/hamlib.go:361-363 | creating a table for a missing part changes no other path |
| CommandTable.HamlibServer.PutLeaf | cmd/flexy/hamlib.go:367 | the final assignment registers the handler and drops whatever hung under its path |
| CommandPaths.RegisterFrame | cmd/flexy/hamlib.go:344-369 | a registration changes the lookup of no path but its own and those below |
| CommandPaths.TableExactly | cmd/flexy/hamlib.go:344-369 | after any registrations into any table a path holds what the last registration at or above it put there, or what it held before if there was none |
| CommandPaths.LastRegistered | cmd/flexy/hamlib.go:344-369 | after prefix-free registrations a path holds the handler registered there last, and nothing otherwise |
| CommandPaths.CommuteExactly | cmd/flexy/hamlib.go:353-368 | two registrations commute if and only if neither path is strictly above the other and equal paths get equal handlers |
| CommandPaths.TableIsRegistrations | cmd/flexy/hamlib.go:344-369 | distinct prefix-free registrations enter any table as they are, and of the rest exactly what is not at or under them stays |
| CommandPaths.OrderIrrelevant | cmd/flexy/hamlib.go:344-369 | from any table, any permutation of distinct prefix-free registrations gives the same table |
| CommandPaths.RegistrableExactly | cmd/flexy/hamlib.go:358-364 | prefix-free registrations go through without a panic if and only if each of them would alone |
| CommandPaths.PanicOrderIrrelevant | cmd/flexy/hamlib.go:358-364 | so whether one panics does not depend on their order |
| MeterCommands.LevelOrderIrrelevant | cmd/flexy/metering.go:40-52 | the random order of the distinct meter levels affects neither the table nor whether a registration panics, from any table and whatever is registered before and after |
| MeterCommands.MetersAreIndependent | cmd/flexy/metering.go:40-52 | the metering registrations have distinct prefix-free paths |
| MeterCommands.LevelAnswered | cmd/flexy/metering.go:40-52 | `get_level` and `l` with a level are answered by the metering callback on the two tokens, with the field "Level Value" when extended; more arguments are an error |
| CommandTable.HamlibServer.Dispatch | cmd/flexy/hamlib.go:254-303 | the walk over the heap tables ends at the one registered prefix of the tokens, one level per token, or reports none |
| CommandTable.HamlibServer.RunsOutExactly | cmd/flexy/hamlib.go:257-263 | the precondition of the walk is exact: it fails just when the tokens end at an inner table |
| MeterCommands.LevelCommandRunsOut | cmd/flexy/hamlib.go:257-263 | with metering commands registered the line "l" is such a line |
| CommandTable.WalkReaches | cmd/flexy/hamlib.go:254-271 | the tokens of a registered path followed by anything reach its handler with exactly the rest left over |
| CommandTable.FoundIsRegistered | cmd/flexy/hamlib.go:254-271 | a handler found is registered at the tokens walked |
| CommandTable.HandlerReached | cmd/flexy/hamlib.go:254-369 | after any registrations that go through, a path's tokens followed by anything reach the handler the last registration at or above it put there |
| CommandTable.LastHandlerReached | cmd/flexy/hamlib.go:254-369 | prefix-free registrations go through, and the last one at a path is the one reached |
| CommandTable.RegistrableKeeps | cmd/flexy/hamlib.go:344-369 | registrations that go through never leave one registered path above another |
| CommandLoop.HandleCmd | cmd/flexy/hamlib.go:212-308 | exactly the quit lines end the connection, exactly they and the empty line write nothing, and every other line gets the reply that `CommandAnswered` and `UnknownExactly` describe |
| CommandLoop.CommandAnswered | cmd/flexy/hamlib.go:212-308 | a line spelling a registered path and arguments, long or short, with or without extension prefix, is answered by the handler in force there on exactly those arguments: a wrong argument count or plain error gives the error response, a custom error its own, success the text or its extended form |
| CommandLoop.AddedHandlerAnswers | cmd/flexy/hamlib.go:212-369 | a handler answers lines under its long name and under its short name, with or without required arguments, among any other registrations not at or above it later |
| CommandLoop.QuitsExactly | cmd/flexy/hamlib.go:218-251 | after an optional prefix, the lines that end the connection are those that begin with q or Q, and `\short:q`, `\short:Q` spelled out |
| CommandLoop.UnknownExactly | cmd/flexy/hamlib.go:247-300 | a line finds no handler, and is answered with the plain error, if and only if no registration in force has a path that begins its tokens |
| CommandLoop.LongCommandTokens | cmd/flexy/hamlib.go:220-245 | a long command line is read back as the tokens it was written from if and only if it has not one single empty argument |
| CommandLoop.ShortCommandTokens | cmd/flexy/hamlib.go:220-245 | a short command line, with any spaces after its character, is read back as its arguments if and only if the first is not empty |
| CommandLoop.ArgumentsKept | cmd/flexy/hamlib.go:242-245 | joining the tokens after the command gives the argument string back |
| CommandLoop.ReplyEchoesRequest | cmd/flexy/hamlib.go:316-319 | the header of an extended reply is the handler's name and the argument string |
| ExtendedReply.ProcessExtendedResponse | cmd/flexy/hamlib.go:310-342 | header, labelled lines and terminator joined by the separator |
| ExtendedReply.AppendLines | cmd/flexy/hamlib.go:321-337 | the loop joins header and labelled lines and knows whether a terminator was sent |
| ExtendedReply.PartsExactly | cmd/flexy/hamlib.go:316-340 | header, each line with its field name or "unknown" and a colon, RPRT lines as they are, and "RPRT 0" unless one was sent |
| ExtendedReply.OneLineReply | cmd/flexy/hamlib.go:310-342 | the whole reply to a one-line answer, byte for byte, for every separator |
| ExtendedReply.LinesRead | cmd/flexy/hamlib.go:321 | a text is read as its lines, with or without a final newline |
| ExtendedReply.HeaderEchoes | cmd/flexy/hamlib.go:316-319 | joining after splitting is the identity on every argument string |
| ExtendedReply.OneTerminator | cmd/flexy/hamlib.go:310-342 | the lines a client reads from an extended reply hold exactly one RPRT if and only if the handler sent at most one |
| ExtendedReply.ReplySplits | cmd/flexy/hamlib.go:310-342 | a reply splits back into its parts if and only if none holds the separator |
| ExtendedReply.LinesRecovered | cmd/flexy/hamlib.go:310-342 | with the newline separator, splitting and removing labels recovers the header and the handler's lines |
| Text.SplitJoin | cmd/flexy/hamlib.go:242-245 | splitting undoes joining exactly on nonempty lists without the separator |
| Text.FieldsSplit | cmd/flexy/proxy.go:76 | each of the six whitespace bytes separates fields |
| Text.FieldsOfWord | cmd/flexy/proxy.go:76 | and nothing else does |
| Text.TrimRemovesOnlyCut | cmd/flexy/proxy.go:75 | trimming removes only characters of its set |
| Metering.MeterTable.MeterUpdate | cmd/flexy/metering.go:97-140 | the maps after a removal or an announcement |
| Metering.MeterTable.ResetMetering | cmd/flexy/metering.go:142-150 | all four maps empty |
| Metering.MeterTable.ReadTwo | cmd/flexy/metering.go:163-169 | end of payload, one byte left, or two bytes |
| Metering.MeterTable.NextRecord | cmd/flexy/metering.go:158-201 | one turn of the loop applies one whole record; a record cut short changes nothing |
| Metering.MeterTable.MeterPacket | cmd/flexy/metering.go:152-202 | for every payload the loop ends and is the left fold over its whole records |
| Metering.RecordRoundTrip | cmd/flexy/metering.go:163-185 | four bytes, high byte first and the value in two's complement, are read as the id and value they encode, at any record boundary |
| Metering.ScaledExactly | cmd/flexy/metering.go:187-197 | the divisor of each unit: 128, 256, 64 or none |
| Metering.MeterNames | cmd/flexy/metering.go:170 | the name is "meter " and the decimal id |
| Metering.AnnouncedThenRead | cmd/flexy/metering.go:97-250 | meter 1 announced as SWR and the bytes 0, 1, 1, 128 make the level SWR read 3.0 |
| Metering.DecodeAppend | cmd/flexy/metering.go:158-201 | decoding A then B equals decoding them joined when A ends on a record boundary |
| Metering.TrailingBytes | cmd/flexy/metering.go:163-185 | one to three trailing bytes change nothing |
| Metering.LastRecordWins | cmd/flexy/metering.go:170-200 | a mapped meter holds the scaled value of the last record with its id |
| Metering.OthersUntouched | cmd/flexy/metering.go:171-180 | unmapped or unmentioned meters keep their values, and a packet changes no map |
| Metering.MeterNameInjective | cmd/flexy/metering.go:170 | different ids name different meters |
| Metering.MapsAgree | cmd/flexy/metering.go:97-202 | after any events every mapped meter is the one its level points at, has metadata, and only meters with metadata have values |
| Metering.LevelFedOnce | cmd/flexy/metering.go:131-140 | no two meters feed one level |
| Metering.AnnounceTakesOver | cmd/flexy/metering.go:131-140 | an announcement claims its level, evicts exactly the meter the level pointed at, and disturbs no other meter, level or metadata |
| Metering.FeedsExactly | cmd/flexy/metering.go:114-130 | which source, name and slice feed which level, and that no others do |
| Metering.NothingToMap | cmd/flexy/metering.go:103-131 | an announcement for no level, or the removal of a meter that feeds none, changes nothing |
| Metering.RemovalUnmaps | cmd/flexy/metering.go:103-112 | a removal unmaps the meter and its level and zeroes its value only |
| Metering.InverseExactly | cmd/flexy/metering.go:97-140 | from exact inverses, an event leaves exact inverses if and only if no mapped meter moves to another level |
| Metering.InverseAlways | cmd/flexy/metering.go:97-150 | over a whole run the maps are exact inverses at every point if and only if no mapped meter ever moves |
| Metering.LevelReadsItsMeter | cmd/flexy/metering.go:219-251 | then a level reads its one mapped meter, RFPOWER_METER the one of RFPOWER_METER_WATTS, and fails exactly when there is none, the level is not served or metering is off |
| Metering.MoveLeavesStaleLevel | cmd/flexy/metering.go:131-137 | a meter announced as SWR and then as ALC leaves SWR pointing at it |
| Metering.StaleLevelEvictsAnother | cmd/flexy/metering.go:133-135 | announcing another meter as SWR then unmaps the one that feeds ALC |
| Metering.MeterTable.GetLevel | cmd/flexy/metering.go:219-250 | the value behind a level, or the error reply |
| LogRing.LogBuffer.Write | cmd/flexy/logbuf.go:25-36 | the ring keeps agreeing with the unbounded log, one line longer |
| LogRing.LogBuffer.Since | cmd/flexy/logbuf.go:38-58 | exactly the lines numbered at least max(since, n - capacity), in order, and the last number |
| LogRing.LastSeqExactly | cmd/flexy/logbuf.go:53-57 | the last number is that of the newest line, and 0 before there is one |
| LogRing.LogBuffer.Count | cmd/flexy/logbuf.go:60-65 | the smaller of the number of writes and the capacity |
| LogRing.KeptExactly | cmd/flexy/logbuf.go:38-52 | a line is returned if and only if it is asked for and not overwritten |
| LogPolling.LogPage.OnResponse | cmd/flexy/web/index.html:1047-1058 | how a response moves the cursor and the display |
| LogPolling.AbsorbExactly | cmd/flexy/web/index.html:1047-1056 | a response with lines moves the cursor to its last number plus one and leaves the newest 1000 of old and new lines, index by index |
| LogPolling.EveryRun | cmd/flexy/web/index.html:1043-1060 | over every run, polls overlapping or not: right texts, cursor one past the last delivered line and never past the server, delivered plus skipped equals cursor plus repeated, and the display is the texts of the last min(1000, delivered since Clear) lines delivered |
| LogPolling.ClearedAt | cmd/flexy/web/index.html:1010-1013 | lines count as delivered since Clear exactly when they came after the last Clear of the run |
| LogPolling.InOrderExactly | cmd/flexy/web/index.html:1047-1056 | a nonempty response keeps the delivered numbers increasing if and only if its first line is not below the cursor |
| LogPolling.IncreasingExactly | cmd/flexy/web/index.html:1043-1076 | over a whole run each line is delivered at most once and in order if and only if no response started below the cursor |
| LogPolling.SkippedExactly | cmd/flexy/logbuf.go:38-58 | how many lines a response skips and repeats, and that an empty one moves nothing |
| LogPolling.DeliveredExactly | cmd/flexy/web/index.html:1043-1060 | nothing was skipped or repeated if and only if the delivered lines are the log up to the cursor |
| LogPolling.SequentialPolls | cmd/flexy/web/index.html:1043-1060 | with one poll at a time the numbers always increase and a response skips exactly the lines overwritten since the cursor |
| LogPolling.OverlapDeliversTwice | cmd/flexy/web/index.html:1076 | with two polls in flight a line can be delivered twice |
| LogPolling.CursorCanMoveBack | cmd/flexy/web/index.html:1047-1056 | when responses arrive out of order the cursor can go from 2 to 1, delivering three lines from a log of two |
| LatestValue.Scan | internal/discovery/discovery.go:51-82 | over every interleaving: received batches increase, the slot is free at the final send, and an idle producer's newest batch is in the slot or was received last |
| LatestValue.NeverBlocks | internal/discovery/discovery.go:69-77 | with a batch in hand the producer's next step is enabled and nearer to idle, and the consumer cannot disable it |
| LatestValue.Conserved | internal/discovery/discovery.go:57-79 | each batch produced is received, dropped, in the slot or in hand, exactly once |
| LatestValue.DroppedForNewer | internal/discovery/discovery.go:69-77 | a batch is dropped only out of the slot and only with a newer one in hand |
| LatestValue.NewerReplaces | internal/discovery/discovery.go:69-79 | with nobody consuming, the second batch takes the first one's place |
| ClientIp.PromiseKeptAlways | cmd/flexy/proxy.go:566-650 | for any client and any radio, in every interleaving: a success reply reaches the client as it should if and only if it holds the client's address anyway or, at its lookup, answering `client ip` was the same as its number having been recorded since the last success reply under it; other lines are unchanged |
| ClientIp.RepliesRewrittenExactly | cmd/flexy/proxy.go:566-650 | when a number is reused only after the last reply to an earlier command under it has been looked up, the client gets the radio's lines in order, and a reply is rewritten exactly when it is the first success reply to a command that was `client ip` or whose number was outstanding when the command was read |
| ClientIp.PromiseKeptExactly | cmd/flexy/proxy.go:614-650 | under the same condition on reuse, when a success reply is what the client should see, in terms of its command, whether its number was left over and whether it was answered before |
| ClientIp.LeftOverExactly | cmd/flexy/proxy.go:580-639 | under the same condition on reuse, when a command is read, a number is outstanding exactly when the latest command under it was `client ip` or had it left over, and no success reply to that command was looked up |
| ClientIp.OutstandingExactly | cmd/flexy/proxy.go:580-639 | for any client and any radio, in either order of recording and forwarding, the shared set holds exactly the numbers recorded since the last success reply under them was looked up, and these are rewritten |
| ClientIp.ForwardingFirstFails | cmd/flexy/proxy.go:580-613 | forwarding before recording would let a quick reply through |
| ClientIp.ReusedNumberFails | cmd/flexy/proxy.go:633-639 | reusing the number of a failed `client ip` rewrites another command's reply |
| ClientIp.EarlyReuseFails | cmd/flexy/proxy.go:580-639 | reusing the number of an unanswered `client ip` loses the rewrite of the second one, so the condition on reuse is needed |
| SessionRegistry.ClientsExact | cmd/flexy/proxy.go:652-664 | the registry maps exactly the handles of registered, not yet unregistered sessions |
| SessionRegistry.OwnedExactly | cmd/flexy/proxy.go:668-677 | over every run a session owns exactly the pans and slices that the radio gave to its handle after the session learned it |
| SessionRegistry.RemovalsJustified | cmd/flexy/proxy.go:489-519 | removals come only after a check that found the registry empty, name only resources given to the session's own handle, and are for all of them or none when the connection closes |
| SessionRegistry.PansFirst | cmd/flexy/proxy.go:512-517 | when a slice is removed every pan given to the session already was |
| SessionRegistry.LastOutCleansUp | cmd/flexy/proxy.go:489-519 | if the registry was empty right after a session unregistered and nobody registered before its check, it has removed exactly what was given to its handle when its radio connection closes |
| SessionRegistry.RemovingAlone | cmd/flexy/proxy.go:498-517 | while a session removes, every registered session registered after its check in the run, and the registry is not empty if and only if there is such a newcomer |
| SessionRegistry.SharedHandleLosesEntry | cmd/flexy/proxy.go:652-664 | were two sessions registered under one handle, the first to unregister would take the other's entry away |
| SessionRegistry.RemovalCanRaceWithNewcomer | cmd/flexy/proxy.go:498-517 | and that can happen |
| UdpRelay.RewritingCommutes | cmd/flexy/proxy.go:412-487 | once the latest command opened its relay, whatever failed before, the radio's datagrams reach the client's latest nonzero port as if there were no proxy, and the client's reach radio:4991 |
| UdpRelay.RelaysStayBound | cmd/flexy/proxy.go:592-611 | earlier relays keep their ports until `done` |
| UdpRelay.CountsConserved | cmd/flexy/proxy.go:454-477 | each datagram is handled by its own relay's rule and counted once: transmitted if it came from the relay's client, received otherwise |
| UdpRelay.FailedSetup | cmd/flexy/proxy.go:597-600 | in every reachable state whose latest setup failed, the client's own port is registered, and the radio's datagrams arrive there if and only if an earlier relay uses that very number at both ends |
| UdpRelay.LatestDecides | cmd/flexy/proxy.go:592-611 | one of these two cases always holds: the second exactly when the latest port command asked for a relay that was not opened |
| UdpRelay.LatestNumber | cmd/flexy/proxy.go:592-611 | the port of a direct connection is the number in the latest port command, and the radio got that number or the relay's port |
| UdpRelay.RelaysAreOpened | cmd/flexy/proxy.go:597-609 | the relays are those opened, in order, each with its local port and the client port it was opened for |
| UdpRelay.BothWays | cmd/flexy/proxy.go:412-487 | a run with one relay and one datagram each way |
| RadioContext.Registry.RegisterClient | cmd/flexy/radio_context.go:60-64 | the whole new registry, by the function that the session theorems are about |
| RadioContext.Registry.UnregisterClient | cmd/flexy/radio_context.go:67-71 | the whole new registry, by the function that the session theorems are about |
| RadioContext.Registry.ClientByHandle | cmd/flexy/radio_context.go:74-78 | the client of a handle, or null |
| RadioContext.Registry.RewriteDiscoveryIPs | cmd/flexy/radio_context.go:83-127 | the fields afterwards, for well-formed and malformed lists alike, whether or not anything changed |
| RadioContext.RewritePositions | cmd/flexy/radio_context.go:93-126 | list length and unmatched positions kept, matched ones set to their client's address, other fields untouched |
| RadioContext.HandleFound | cmd/flexy/radio_context.go:105-107 | a listed handle is looked up by its hex digits in upper case, with or without "0x" and blanks around it |
| RadioContext.RewriteIdempotent | cmd/flexy/radio_context.go:83-127 | rewriting twice is rewriting once |
| RadioContext.ChangedExactly | cmd/flexy/radio_context.go:104-126 | the field changes if and only if a known client is listed with another address |
| PreampAtt.Slice.SetLevel | cmd/flexy/preamp-att.go:63-118 | refused, unsent or applied, and the gain afterwards |
| PreampAtt.GainExactly | cmd/flexy/preamp-att.go:83-107 | the gain asked for as a function of the argument's range: 8, 16, 24, -8, 0, kept or refused |
| PreampAtt.RoundExactly | cmd/flexy/preamp-att.go:69 | to the nearest integer, halves away from zero |
| PreampAtt.UnsentExactly | cmd/flexy/preamp-att.go:83-101 | nothing is sent exactly when a level is set to zero that reads zero |
| PreampAtt.Slice.ReadLevel | cmd/flexy/preamp-att.go:37-61 | the level read from the gain, or an error |
| PreampAtt.LevelExactly | cmd/flexy/preamp-att.go:48-60 | the attenuator is on below zero, and a preamplifier step is eight of gain |
| PreampAtt.OrderFree | cmd/flexy/preamp-att.go:83-107 | setting both levels is order-free if and only if a valid nonzero step and the attenuator are not asked for at once |
| PreampAtt.ReadsBack | cmd/flexy/preamp-att.go:37-118 | with at most one nonzero, both levels read back as set |
| PreampAtt.SetThenGet | cmd/flexy/preamp-att.go:37-118 | a level reads back as set, and setting one to 0 leaves the other alone |

## Left out

- Sockets, interface enumeration, the `tailscale` subprocess, NAT keepalives, deadlines and the datagram's source-address filter are environment: only their outcomes appear as events or arguments.
- Regular expressions: lines arrive in parsed form; the replacement of `ip=` substrings inside whole lines is not modelled.
- Non-ASCII whitespace: Go treats some multi-byte characters as whitespace, the model only the six ASCII bytes.
- Handler callbacks are functions of their arguments; what they do to the radio, and the contexts they are given, are not modelled.
- CommandTable.HamlibServer.AddHandler: requires that no handler sits strictly above a path being registered, where the source's type assertion panics.
- CommandLoop.HandleCmd: requires that something follows an extension prefix and that the tokens do not run out inside an inner table, where the source indexes out of range.
- Removal from the list of hamlib connections, which compares values of different types.
- `math.Pow` conversions and `%.3f` formatting; the divisions by 64, 128 and 256 and the rounding of control arguments are exact over the reals.
- The packet counter of the meters, packet timestamps and overflow of 64-bit counters.
- Program, station and client id of a session, and the snapshots for the web page.
- LogRing.LogBuffer.Write: requires a ring of positive capacity, where the source indexes into the ring.
- A restart of the proxy under an open page, after which the page's cursor exceeds the server's next number: in the model the page lives no longer than the buffer.
- DiscoveryRelay.RelayedHeader: assumes the configured proxy address and port are together at most 190000 bytes; the source bounds neither.
- ClientIp.RepliesRewrittenExactly: assumes that the client reuses a number only once no further reply to an earlier command under it will be sent and none waits to be looked up, and that the radio answers only commands it received; `PromiseKeptAlways`, which assumes nothing, covers the rest.
- ClientIp.PromiseKeptExactly: the same assumption.
- ClientIp.LeftOverExactly: the same assumption; `OutstandingExactly` covers the rest.
- PreampAtt.Slice.SetLevel: takes a real number, where the source's parser also accepts NaN, which passes the range check and is sent on as the gain.
- SessionRegistry.ClientsExact: assumes the radio gives no session the handle of another that has not unregistered yet; `SharedHandleLosesEntry` shows why.
- `radioFromKV`, tuning, power, mode, configuration and the setup wizard: one-branch facts.
- The loops of some methods are split into helper methods with their own contracts; nothing else about their order changes.
