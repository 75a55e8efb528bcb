# SRT live server: a verified model

The server relays MPEG-TS streams over SRT. A publisher's bytes go into an in-memory ring per stream key; any number of
players read that ring at their own pace. Around this core stand a TS parser that prepares a decodable first packet for
new players, a recorder that writes and replays time-stamped files, worker groups that own the connections, a database
cache, a rate limiter and a configuration parser. The project models these parts in Dafny and proves what they keep over
every run.

`dafny verify dfyconfig.toml` checks everything.

How the parts are modelled: objects whose methods change fields are classes, loops are loops, and each method is proved
against a function on values. What spans several calls or several threads is proved about those functions: a run is any
sequence of actions, an action that is blocked changes nothing, and each section under a lock is one step.

| files | part of the server |
|---|---|
| `Common`, `Bytes`, `RingBytes`, `RecycleArray`, `RecycleRuns`, `RingExamples` | what all models share; the overwriting broadcast ring and all its readers |
| `TsParser`, `TsInfo`, `TsPreamble`, `TsScan`, `TsTables`, `PreambleRoundTrip`, `TsExamples` | TS, PES, PAT and SPS/PPS parsing, the synthetic SPS/PPS packet, the whole preamble |
| `MapData`, `PlayerPump`, `PlayerRuns` | rings and parsers by key, the pump from ring to socket, the whole path |
| `ByteQueue`, `HttpSend`, `RtsFile`, `RtsStamps`, `TsFileTimeReader` | the growable queue, the HTTP sender, RTS files |
| `Publishers` | publisher admission across listener threads |
| `WorkerGroup`, `WorkerGroupRuns` | life cycle and ownership of connections |
| `StreamIdCache`, `StreamIdThreads`, `StreamIdDeadlock`, `StreamIdExamples` | the stream-ID table, its cache and its two locks |
| `RateLimiter`, `PullerLoop`, `Consumers` | rate limiter, upstream search, registry of active players |
| `ConfLines`, `ConfParser`, `ConfTree`, `ConfValid`, `ConfFile` | the configuration parser |

## Where the code differs from what one would expect

Each of these is a theorem; where a property fails, it says exactly when the property holds, and an input for which it
fails is given in a lemma of its own or follows at once.

- A reader exactly one lap behind that asks for less than one aligned block is moved to the end of the stream and loses
  a lap the ring still held; this is the only such loss (`StalledReaderLosesLap`, `StalledReaderHappens`). The pump
  never asks for that little.
- The 32-bit byte counter can mistake a full ring for an empty one, exactly when a positive multiple of 2^32 bytes came
  in since the reader's last look and the ring positions coincide (`CounterAliasesExactly`). It happens on the default
  ring with the pump's own requests (`CounterAliasHappens`).
- PES time stamps are read back correctly exactly when bits 22 to 29, 31 and 32 are zero (`PtsReadBackExactly`,
  `PtsIsMisread`); the shifts and the addition are combined in the wrong order.
- The synthetic packet loses its SPS or PPS in four cases and no others (`PacketParsesBack`, `Survives`), each of which
  some publisher can bring about: a payload of 183 bytes, where no stuffing fits and a stale byte ends the packet
  (`OddLengthIsLost`); an SPS that ends in a start code (`StartCodeAtEndIsLost`), among them one that is nothing but a
  start code (`BareSpsIsLostToo`); an SPS ending in a zero byte before a four-byte start code (`ZeroAtEndIsLost`); and
  a PPS that is nothing but a start code, unless the byte behind the packet reads as its header (`BareStartCodeIsLost`).
  In the preamble that byte is a sync byte, so that a player of the whole preamble always loses it; besides, all is lost
  if the PAT, read with what follows it in the preamble, names the stream itself as the PMT
  (`WholePreambleParsesBack`, `PatMayNameTheStream`), which a PAT that fits its packet never does
  (`OrdinaryPreambleParsesBack`).
- A PAT that arrives after SPS and PPS leaves the null packets in place for good (`CompletingPacketBuilds`,
  `LatePatLeavesNoPreamble`).
- The growable queue loses its order on growth unless it was full and at least 4096 bytes were added
  (`ByteQueue.Put`, `GrowthHappens`): what is put next replaces the oldest bytes (`GrownQueueIsOverwritten`).
- Opening or closing an HTTP client empties its queue and not its staging buffer: what the last connection did not take
  of a request goes out in front of the next one, exactly if something was staged (`HttpClient.Open`,
  `HttpClient.Reopen`).
- Recording drops up to six packets, exactly when fewer than seven are queued at the end (`FileConservesInput`), and
  the padding carries old bytes after each null header.
- A rate-limit counter starts its first window with a second, later reading of the clock. A client that keeps to the
  limit in every 60 seconds is refused exactly when it comes, after its first `max` requests, less than 60 seconds after
  that reading (`SixtySecondClientExactly`, `LateCounterRefuses`); it never is if it keeps to the limit in intervals
  longer by the delay of that reading (`SparseClientIsNeverRefused`).
- A registration does not look whether the key still has the ring its connection made sure of: the publisher then has a
  ring exactly if there was one just before, or another connection makes one later (`HolderHasRingExactly`). Another
  publisher's tear-down in between takes it away (`RingLostInBetween`, `HolderMayLackRing`), and all data is refused.
- A load of the stream-ID cache takes an SQL error for the end of the rows: the cache counts as loaded, is never loaded
  again, and mirrors the table exactly if no row was cut off that is still there (`CacheMirrorsTable`,
  `LoadMissesExactly`, `OnlyDeletionHeals`, `CutLoadRefuses`).
- Before the cache is loaded an update and a load can block each other for good; the server accepts requests before
  it preloads the cache (`DeadlockIsReachable`, `ClashIsForever`).
- The list of roles that wait for their `on_close` callback is always empty: `uninit` deletes the HTTP client that
  closing the socket has just created (`WaitListStaysEmpty`).
- A role that a worker takes from the queue but cannot add to its epoll is deleted without the derived class's
  `uninit` (`CleanupRunsExactlyInPurges`, `DropHappens`). A publisher dropped this way leaves its entry in the table
  (`DropIsReachable`, `DropLeavesKey`), so that the table is exact only in runs without a drop (`TableIsExactly`). Its key
  is refused until a later publisher whose object gets the address of the deleted one, under a key behind it in the order
  of the table, is torn down (`StaleKeyIsFreedExactly`, `StaleKeyIsRefused`); that one's own key is then left behind
  instead (`StaleKeyMoves`). No tear-down ever makes up for a drop: at any time as many keys are taken without a holder as
  publishers were dropped (`EveryDropCostsAKey`).
- A configuration file whose last closing brace is missing is accepted exactly when the last block has a nested block
  (`MissingBraceExactly`, `MissingBraceHappens`). The command table is read through a null pointer exactly when the first
  code line of the file is a setting (`NullRuntimeExactly`, `LeadingSettingCrashes`).
- A setting behind a nested block goes to the last nested block and never to the one around it: it is refused if that
  nested block does not take it, even if the other one would (`TrailingSetting`).
- A file makes no block exactly if its first code line does not open one, and is accepted all the same exactly if that
  line is a closing brace (`NoBlockExactly`, `LoneBraceIsAccepted`); the server then cannot start, and closing the
  configuration follows the null pointer of the root. On a reload the root still points to the last configuration, which
  has been deleted: if the new text makes no block, the next close begins at a deleted block again, and otherwise it
  deletes exactly the new ones (`SecondCloseExactly`).
- Registering a player under a second key leaves it in the list of the first (`AddedKeepsInverse`).

## Model

| member | source | states |
|---|---|---|
| RecycleRing.RecycleArray.Put | slscore/SLSRecycleArray.cpp:72-107 | the published stream grows by exactly these bytes, or nothing changes; the ring still holds its last bytes |
| RecycleRing.RecycleArray.Get | slscore/SLSRecycleArray.cpp:109-188 | return value, cursor and output are those of a fetch from the unbounded stream; the rest of the output is untouched |
| RecycleRing.RecycleArray.Take | slscore/SLSRecycleArray.cpp:137-187 | the copying part of `get`, for ring positions in either order |
| RecycleRing.RecycleArray.constructor | slscore/SLSRecycleArray.cpp:34-44 | a new ring has published nothing |
| RecycleRing.ReadId.constructor | slscore/SLSRole.cpp:96-98 | a new reader has not joined |
| RecycleRing.RingDistance | slscore/SLSRecycleArray.cpp:142-157 | the distance computed from two ring positions is the number of unread bytes still held |
| RecycleRing.ReadyBounds | slscore/SLSRecycleArray.cpp:142-157 | that number is within the ring, skips whole laps only, and is a full ring exactly at a multiple of the size |
| RecycleRing.CursorTests | slscore/SLSRecycleArray.cpp:130 | what the two "nothing new" comparisons mean on the unbounded stream |
| RecycleRing.CursorMoves | slscore/SLSRecycleArray.cpp:151-184 | the moved read position is that of the new stream position |
| RecycleRing.WrittenHolds | slscore/SLSRecycleArray.cpp:86-100 | after a wrapping store the buffer holds the last bytes of the longer stream |
| RecycleRing.PutKeepsRing | slscore/SLSRecycleArray.cpp:86-103 | store, position and wrapping counter keep the ring invariant together |
| RecycleRing.SeenIsSlice | slscore/SLSRecycleArray.cpp:164-183 | reading around the end of the buffer gives a slice of the stream |
| RecycleRing.FirstGetDelivers | slscore/SLSRecycleArray.cpp:121-127 | the first get returns no data and joins at the end |
| RecycleRing.NothingNewDelivers | slscore/SLSRecycleArray.cpp:130-133 | equal position and counter: no data, cursor unchanged |
| RecycleRing.NewDataDelivers | slscore/SLSRecycleArray.cpp:140-184 | otherwise the copied bytes, length and cursor are what the reader is owed |
| RecycleRing.AdvanceDelivers | slscore/SLSRecycleArray.cpp:140-184 | the same on stream positions, aligned rounding included |
| RingBytes.StoreAround | slscore/SLSRecycleArray.cpp:88-100 | the two copies of a store that passes the end of the buffer |
| RingBytes.CopyAround | slscore/SLSRecycleArray.cpp:164-183 | the two copies of a read that passes the end of the buffer |
| RecycleRuns.GetSkipsWholeLaps | slscore/SLSRecycleArray.cpp:130-184 | a get returns a piece of the last N bytes, whole laps after the reader's position, at it if within one lap |
| RecycleRuns.SteadyGetLosesNothing | slscore/SLSRecycleArray.cpp:142-184 | asking for at least one aligned block, a reader within one lap loses nothing |
| RecycleRuns.GetTakesAllItCan | slscore/SLSRecycleArray.cpp:142-184 | how many bytes a get hands out: of those unread in the ring as many as asked for, cut down to a multiple of the alignment, and no fewer |
| RecycleRuns.StalledReaderLosesLap | slscore/SLSRecycleArray.cpp:130-184 | exactly when a get makes a reader within one lap lose bytes, with the 32-bit counter |
| RecycleRuns.EveryRunIsFaithful | slscore/SLSRecycleArray.cpp:72-188 | over all runs of one writer and any readers, each reader gets slices of the stream, in order, with only whole laps left out |
| RecycleRuns.EverySteadyRunIsLossless | slscore/SLSRecycleArray.cpp:72-188 | and back to back while it is at most one lap behind |
| RecycleRuns.CounterAliasesExactly | slscore/SLSRecycleArray.cpp:102-133 | when a get with the 32-bit counter differs from one with an unbounded counter |
| RecycleRuns.PromptRunsIgnoreTheWrap | slscore/SLSRecycleArray.cpp:102-184 | whole runs are equal under both counters if fewer than 2^32 bytes come between a reader's gets |
| RecycleRuns.NothingFromBeforeTheJoin | slscore/SLSRecycleArray.cpp:121-127 | over all runs, a reader is never given a byte that was published before its first get |
| RingExamples.StalledReaderHappens | slscore/SLSRecycleArray.cpp:142-184 | such a read on any ring of at least one block and less than 2^32 bytes |
| RingExamples.CounterAliasHappens | slscore/SLSRecycleArray.cpp:102-133 | a run of the default ring, read as the pump reads, in which the wrapped counter hides data |
| TsParser.PtsReadBackExactly | slscore/common.cpp:477-488 | which standard time stamps the parser reads back |
| TsParser.PtsIsMisread | slscore/common.cpp:477-488 | the first time stamp that is misread |
| TsParser.ParsedPtsIsNeverInvalid | slscore/common.cpp:477-488 | no parsed value equals the mark for "none" |
| TsInfoModel.TsInfo.constructor | slscore/common.cpp:807-829 | a new parser knows nothing and holds null packets |
| TsInfoModel.TsInfo.ParseSpsPps | slscore/common.cpp:490-551 | the scan leaves the first SPS and PPS found, by the units function |
| TsInfoModel.TsInfo.ParsePesFrame | slscore/common.cpp:554-687 | result, time stamps, units and preamble after one PES payload |
| TsInfoModel.TsInfo.LookForSpsPps | slscore/common.cpp:624-685 | the part that looks for units and builds the preamble |
| TsInfoModel.TsInfo.BuildPreamble | slscore/common.cpp:628-684 | the buffer after building: PAT, PMT and the synthetic packet, in place |
| TsInfoModel.TsInfo.BuildPacket | slscore/common.cpp:646-683 | the bytes of the synthetic packet at their places, all others unchanged |
| TsInfoModel.TsInfo.ParsePatSection | slscore/common.cpp:689-724 | the PMT PID after the program loop |
| TsInfoModel.TsInfo.ParseTsInfo | slscore/common.cpp:726-805 | result and whole state after one packet |
| TsInfoModel.TsInfo.CheckTsInfo | slscore/SLSMapData.cpp:253-265 | the state after all packets of a datagram, stopping once complete |
| TsTables.TablesAreKept | slscore/common.cpp:741-749 | over every packet sequence the parser holds the last PAT packet, the last PMT packet, and the PID named last |
| TsTables.PreambleHoldsTheTables | slscore/common.cpp:628-640 | a preamble begins with the last PAT and PMT packets that came before the stream was complete, or with what the PMT buffer held |
| TsTables.FedUpTo | slscore/SLSMapData.cpp:253-265 | the loop feeds the packets up to the first that completes the stream, and none after |
| TsTables.CompletingPacketNamesStream | slscore/common.cpp:646-685 | PID and stream id of the preamble are those of the packet that completed it |
| TsTables.PublicationIsAnnounced | slscore/common.cpp:624-805 | PAT, PMT, SPS and PPS in this order: the whole preamble, byte by byte |
| TsTables.PublicationIsUnderstood | slscore/common.cpp:624-805 | a player of this preamble finds the stream, and SPS and PPS exactly if they survive |
| TsTables.PesStampsRead | slscore/common.cpp:571-614 | which of PTS and DTS of a PES header become the parser's, for every readable time stamp |
| TsTables.PesHeadIsStandard | slscore/common.cpp:665-679 | the synthetic PES header is one of ISO/IEC 13818-1, section 2.4.3.6, but for its PTS, which this parser reads as 0 |
| TsTables.OtherPacketsAreIgnored | slscore/common.cpp:729-757 | packets that begin nothing or belong to other streams change nothing |
| TsTables.StreamIsChosen | slscore/common.cpp:790-804 | a stream is chosen exactly by the packet that brings a time stamp or the second of the units |
| TsScan.UnitsAreScanned | slscore/common.cpp:490-551 | of any separated units of a payload, and those known before: the latest SPS and the latest PPS until there are both |
| TsPreamble.ScanRecordsUnits | slscore/common.cpp:490-551 | every unit the scan records is one: it begins with its start code and type and has no start code inside |
| TsPreamble.PairScansBack | slscore/common.cpp:490-551 | when the scan of an SPS followed by a PPS gives exactly these two |
| TsPreamble.PatNamesLastPmt | slscore/common.cpp:689-722 | on a PAT section of ISO/IEC 13818-1, section 2.4.4.3, the loop visits each program once and no CRC byte |
| TsPreamble.PacketHeader | slscore/common.cpp:646-683 | adaptation field and payload fill 188 bytes as ISO/IEC 13818-1, section 2.4.3.4, asks |
| TsPreamble.PacketParsesBack | slscore/common.cpp:624-805 | the synthetic packet parses back to its PID always, to its SPS and PPS exactly under the stated condition |
| TsPreamble.EsPidIsStable | slscore/common.cpp:740-804 | over every packet sequence a chosen stream PID never changes |
| TsPreamble.PreambleIsFrozen | slscore/SLSMapData.cpp:253-265 | once SPS, PPS and PAT are there nothing changes the parser's state |
| TsPreamble.CheckInfoFeeds | slscore/SLSMapData.cpp:253-265 | the loop over a datagram feeds its whole packets in order |
| TsPreamble.CompletingPacketBuilds | slscore/common.cpp:624-685 | the packet that completes the stream builds a preamble exactly if it is not the PAT and the units fit |
| TsPreamble.EveryStreamIsReachable | slscore/common.cpp:726-805 | whatever is sent keeps the parser's invariant |
| TsPreamble.EveryPreambleParsesBack | slscore/common.cpp:624-685 | whatever a publisher sends, a player's fresh parser finds the PID of a built preamble, and its SPS and PPS exactly under the stated condition |
| PreambleRoundTrip.WholePreambleParsesBack | slscore/common.cpp:624-805 | whatever a publisher sends, a player given all seven packets of the preamble finds PID, SPS and PPS exactly if the PAT does not name the stream as the PMT and the units survive their packet |
| PreambleRoundTrip.OrdinaryPreambleParsesBack | slscore/common.cpp:689-805 | with a PAT whose section is in its packet, exactly if the units survive |
| PreambleRoundTrip.PatMayNameTheStream | slscore/common.cpp:689-805 | every pair of units that fits the preamble can be lost by a PAT whose section runs into the buffer of the PMT |
| PreambleRoundTrip.PatStaysSaved | slscore/common.cpp:741-745 | in every run a saved PAT is a start packet of PID 0, and the last four packets of the preamble stay null packets |
| TsPreamble.BarePpsScansBack | slscore/common.cpp:490-551 | when a start code at the end of the payload is taken for the PPS it was recorded as |
| TsPreamble.BareSpsIsLost | slscore/common.cpp:490-551 | a bare start code is never read back as the SPS before a PPS |
| TsExamples.EveryPairIsPublished | slscore/common.cpp:726-805 | every recordable SPS and PPS that fit one packet each are recorded from a stream of three packets, with a preamble exactly if both fit one |
| TsExamples.PairIsPublished | slscore/common.cpp:726-805 | the same from any parser's buffers, for any PAT that names no PMT; PAT and PMT buffer stay |
| TsExamples.PairIsLost | slscore/common.cpp:624-805 | every pair that fails the condition is lost to the players of such a publisher |
| TsExamples.OddLengthIsLost | slscore/common.cpp:646-683 | a pair with a payload of 183 bytes |
| TsExamples.StartCodeAtEndIsLost | slscore/common.cpp:490-551 | an SPS that ends in a start code |
| TsExamples.ZeroAtEndIsLost | slscore/common.cpp:490-551 | an SPS that ends in a zero byte |
| TsExamples.BareStartCodeIsLost | slscore/common.cpp:490-551 | a PPS that is nothing but a start code, before the null packet that follows it in the preamble |
| TsExamples.BareSpsIsLostToo | slscore/common.cpp:490-551 | an SPS that is nothing but a start code, made by the sync byte of the next packet |
| TsExamples.LatePatLeavesNoPreamble | slscore/SLSMapData.cpp:253-265 | a complete stream whose PAT came last keeps the null packets |
| MapDataModel.MapData.Add | slscore/SLSMapData.cpp:46-71 | the key gets an empty ring unless it has one; other keys are untouched |
| MapDataModel.MapData.Remove | slscore/SLSMapData.cpp:73-103 | ring and parser of the key are gone; other keys are untouched |
| MapDataModel.MapData.IsExist | slscore/SLSMapData.cpp:105-128 | whether the key has a ring |
| MapDataModel.MapData.Put | slscore/SLSMapData.cpp:131-179 | stream and parser of the key after one datagram; other keys are untouched |
| MapDataModel.MapData.Get | slscore/SLSMapData.cpp:181-211 | the first get hands out the preamble, later ones what the ring owes the reader |
| MapDataModel.MapData.GetTsInfo | slscore/SLSMapData.cpp:213-228 | the preamble of the key, or none |
| PlayerPump.Player.HandlerWriteData | slscore/SLSRole.cpp:509-575 | one call: refill only when all is sent, then whole blocks go out until a refusal; the rest stays staged |
| PlayerPump.Player.Fetch | slscore/SLSRole.cpp:530-548 | the refill stages preamble or whole blocks of the stream |
| PlayerPump.Player.SendStaged | slscore/SLSRole.cpp:550-574 | sent bytes and staged rest make up what was staged |
| PlayerPump.FetchedBlocks | slscore/SLSRecycleArray.cpp:146-148 | a fetch of the pump is a whole number of 1316-byte blocks and never fails |
| PlayerRuns.EveryRunDeliversTheStream | slscore/SLSRole.cpp:530-574 | over all interleavings of puts and accepted or refused writes: sent bytes are the preamble and whole blocks of the stream, aligned to the join, in order, none lost or doubled but whole laps |
| PlayerRuns.PumpFetchesAllItCan | slscore/SLSRole.cpp:530-548 | in every run a pump call of a player within one lap fetches the next bytes in order until less than a block is unread or the staging buffer is full |
| PlayerRuns.PublishedExactly | slscore/SLSMapData.cpp:131-179 | in every run the stream is all datagrams received, and the parser has been fed all their packets until it was complete |
| PlayerRuns.PumpKeepsConservation | slscore/SLSRole.cpp:550-574 | sent plus staged is what has been fetched |
| PlayerRuns.PumpKeepsAlignment | slscore/SLSRole.cpp:530-574 | block offsets stay congruent to the join position |
| PlayerRuns.LapsAreBlocks | slscore/SLSRecycleArray.cpp:32 | a lap of the default ring is whole blocks |
| PlayerRuns.PreambleStaysForAll | slscore/SLSMapData.cpp:253-265 | all players that join after completion get the same preamble |
| PlayerRuns.SentBytesBeginWithPreamble | slscore/SLSMapData.cpp:202-228 | over all runs, the bytes sent to a player, with those staged for it, begin with the preamble of the moment it joined |
| ByteQueueModel.ByteQueue.constructor | slscore/SLSArray.cpp:34-42 | an empty queue of 4096 bytes |
| ByteQueueModel.ByteQueue.SetSize | slscore/SLSArray.cpp:61-70 | an empty queue of the new size |
| ByteQueueModel.ByteQueue.Clear | slscore/SLSArray.cpp:72-77 | an empty queue in the same buffer |
| ByteQueueModel.ByteQueue.Put | slscore/SLSArray.cpp:79-129 | without growth this appends; after growth, buffer prefix and count are right, and exactly when it is still a queue |
| ByteQueueModel.ByteQueue.Grow | slscore/SLSArray.cpp:90-107 | the growing branch |
| ByteQueueModel.ByteQueue.GetInline | slscore/SLSArray.cpp:137-190 | takes the front of the queue, the full queue (equal positions) included |
| ByteQueueModel.PutAppends | slscore/SLSArray.cpp:109-126 | a store at the write position appends to the contents |
| ByteQueueModel.GetTakesFront | slscore/SLSArray.cpp:155-188 | moving the read position removes the front of the contents |
| ByteQueueModel.QueueReady | slscore/SLSArray.cpp:144-152 | the distance of the positions is the count, also when full |
| ByteQueueModel.FullOrNot | slscore/SLSArray.cpp:97-105 | positions 0 and 0 are a queue exactly when the buffer is full |
| ByteQueueModel.GrowthHappens | slscore/SLSArray.cpp:90-107 | one queued byte and 4096 more: no queue afterwards |
| ByteQueueModel.GrownQueueIsOverwritten | slscore/SLSArray.cpp:103-116 | what is put into a grown queue comes out in place of the oldest bytes |
| HttpSend.HttpClient.ClearQueue | slscore/HttpClient.cpp:116-121 | the queue is emptied; staged bytes stay, so a new request starts clean only if none were staged |
| HttpSend.HttpClient.Enqueue | slscore/HttpClient.cpp:527-557 | the request bytes go to the end of what is pending; if the queue grows, its bytes are in order but it is a queue only in the stated case |
| HttpSend.HttpClient.Send | slscore/HttpClient.cpp:337-379 | over any partial writes, bytes sent followed by bytes pending are what was pending |
| HttpSend.HttpClient.Open | slscore/HttpClient.cpp:116-130 | the request goes out behind what was staged: the socket gets it first exactly if nothing was |
| HttpSend.HttpClient.Reopen | slscore/HttpClient.cpp:156-160 | over two requests: what the first connection did not take goes out on the second, in front of the second request |
| HttpSend.HttpClient.Refill | slscore/HttpClient.cpp:342-353 | staging moves bytes from the queue without changing what is pending |
| HttpSend.HttpClient.Offer | slscore/HttpClient.cpp:355-376 | one write: what the socket took left the front of the staged bytes |
| RtsFile.PacketConserves | slscore/TSFileTimeReader.cpp:212-270 | each packet adds exactly its 188 bytes to records and queue |
| RtsFile.WriterConserves | slscore/TSFileTimeReader.cpp:206-270 | records and queue are the packets read, in order |
| RtsFile.FileConservesInput | slscore/TSFileTimeReader.cpp:206-299 | the file is the input and less than one payload of null padding, or all but at most six queued packets |
| RtsFile.FinishPayloads | slscore/TSFileTimeReader.cpp:271-299 | the end of the file writes the whole queue, padded |
| RtsFile.PaddingIsNull | slscore/TSFileTimeReader.cpp:288-299 | the padding begins every packet with a null header |
| RtsFile.PaddingKeepsOldBytes | slscore/TSFileTimeReader.cpp:291-296 | behind each null header, the bytes of the payload before |
| RtsFile.ShortQueueIsDropped | slscore/TSFileTimeReader.cpp:271-275 | a queue of less than one payload is dropped |
| RtsFile.TimestampsNeverDecrease | slscore/TSFileTimeReader.cpp:222-298 | time stamps of the file never decrease if the parsed ones do not |
| RtsFile.BatchEndsInTime | slscore/TSFileTimeReader.cpp:238-257 | the truncated duration keeps a batch at or below its closing time stamp |
| RtsStamps.PacketSpreads | slscore/TSFileTimeReader.cpp:216-269 | when a packet makes payloads be written, which, and when they are due: from the clock on, evenly up to its time stamp |
| RtsStamps.EveryBatchIsSpread | slscore/TSFileTimeReader.cpp:216-269 | over every input, by its time stamps alone: the first payload of each batch is due at the time stamp that closed the one before, the others evenly behind it, the gap to the next batch is one step and less than one tick per payload more |
| RtsStamps.RecordsStay | slscore/TSFileTimeReader.cpp:206-299 | the file begins with what any part of the input has written |
| RtsStamps.TailIsSpread | slscore/TSFileTimeReader.cpp:271-299 | what the end of the input adds: how many payloads, and when they are due |
| RtsStamps.PlayedInMilliseconds | slscore/TSFileTimeReader.cpp:157 | a client gets whole milliseconds of the 90 kHz clock |
| RtsStamps.FileLayout | slscore/TSFileTimeReader.cpp:250-251 | each record is its time stamp, lowest byte first, and then its payload |
| RtsFile.Int64ReadsBack | slscore/TSFileTimeReader.cpp:150-157 | eight bytes as written give the value back |
| RtsFile.FileReadsBack | slscore/TSFileTimeReader.cpp:102-169 | reading a file of records whose time stamps fit the format returns exactly these records, time stamps divided by 90 |
| RtsFile.ParsedDtsFits | slscore/common.cpp:477-488 | a parsed time stamp is a 32-bit value |
| RtsFile.GeneratedReadsBack | slscore/TSFileTimeReader.cpp:102-299 | every generated file fits the format, and reading it returns exactly the records written |
| TsFileTimeReader.RtsWriter.Queue | slscore/TSFileTimeReader.cpp:216-221 | a packet enters the ring at its end; if the ring grows, its bytes are right and it is no queue any more |
| TsFileTimeReader.RtsWriter.WriteBatch | slscore/TSFileTimeReader.cpp:245-254 | the records one batch writes |
| TsFileTimeReader.RtsWriter.FlushUpTo | slscore/TSFileTimeReader.cpp:237-257 | all whole payloads are written with spread time stamps |
| TsFileTimeReader.RtsWriter.HandlePacket | slscore/TSFileTimeReader.cpp:216-269 | writer state after one packet, also one that makes the ring grow |
| TsFileTimeReader.RtsWriter.FinishFile | slscore/TSFileTimeReader.cpp:271-299 | the records at the end of the file |
| TsFileTimeReader.RtsWriter.PadRemainder | slscore/TSFileTimeReader.cpp:291-296 | the last payload with its null headers, in place |
| TsFileTimeReader.RtsWriter.GenerateRtsFile | slscore/TSFileTimeReader.cpp:206-307 | the file of a whole input, as long as the ring does not grow |
| TsFileTimeReader.RtsReader.Read | slscore/TSFileTimeReader.cpp:111-116 | a read takes the next bytes of the file |
| TsFileTimeReader.RtsReader.Refill | slscore/TSFileTimeReader.cpp:111-116 | queue and unread file together are unchanged |
| TsFileTimeReader.RtsReader.Get | slscore/TSFileTimeReader.cpp:102-169 | one record, or the end |
| TsFileTimeReader.RtsReader.PlayToEnd | slscore/TSFileTimeReader.cpp:102-169 | repeated gets return the file's records in order |
| RateLimiterModel.RateLimiter.CheckRateLimit | slscore/SLSApiServer.cpp:81-113 | answer and counters; other keys are untouched |
| RateLimiterModel.KeysAreDistinct | slscore/SLSApiServer.cpp:47-94 | distinct pairs of address and configured type never share a counter |
| RateLimiterModel.CounterIsSound | slscore/SLSApiServer.cpp:96-112 | the counter never exceeds the limit and counts only requests of its window |
| RateLimiterModel.AtMostTwiceTheLimit | slscore/SLSApiServer.cpp:81-113 | at most twice the limit is admitted in any half-open 60 seconds |
| RateLimiterModel.AdmittedExactly | slscore/SLSApiServer.cpp:96-112 | for every client a request is admitted exactly if it is among the first `max` of its window |
| RateLimiterModel.CounterCountsRequests | slscore/SLSApiServer.cpp:92-112 | over any requests, the counter is in its first window with all of them up to the limit, or in a window one of them began, with no more than came in it |
| RateLimiterModel.SixtySecondClientExactly | slscore/SLSApiServer.cpp:81-113 | a client within the limit in every 60 seconds is admitted exactly for its first `max` requests and from 60 seconds after the counter was made |
| RateLimiterModel.SparseClientIsNeverRefused | slscore/SLSApiServer.cpp:81-113 | a client within the limit in every interval, lengthened by the clock delay, is never refused |
| RateLimiterModel.LateCounterRefuses | slscore/SLSApiServer.cpp:81-113 | for every positive delay and limit, 60 seconds alone do not suffice |
| PullerLoop.CycleIsComplete | slscore/SLSPullerManager.cpp:59-87 | n steps from the saved index reach every upstream once and end at the saved one |
| PullerLoop.PullerManager.ConnectLoop | slscore/SLSPullerManager.cpp:49-88 | the first attempt is the upstream behind the saved one and each next the one behind the last, stop at the first success, failure only after all, a valid saved index unchanged then |
| Consumers.AddedKeepsInverse | slscore/SLSPlayer.cpp:69-81 | when registering keeps the lists the inverse of the keys |
| Consumers.Registry.RegisterActive | slscore/SLSPlayer.cpp:69-81 | lists and key after registering |
| Consumers.RemovedKeepsInverse | slscore/SLSPlayer.cpp:83-112 | unregistering keeps them inverse, without empty lists or the player |
| Consumers.Registry.UnregisterActive | slscore/SLSPlayer.cpp:83-112 | lists and key after unregistering, by key or by search |
| Publishers.MapPublisher.SetPush2Publisher | slscore/SLSMapPublisher.cpp:58-76 | registers only a free key |
| Publishers.MapPublisher.Remove | slscore/SLSMapPublisher.cpp:127-151 | erases the first entry of this address in the order of the keys, if it has any |
| Publishers.TableIsExactly | slscore/SLSListener.cpp:552-603 | in every run the key of each connection that holds one leads to it, and the table has no other entry exactly if no publisher was dropped |
| Publishers.AtMostOneHolder | slscore/SLSListener.cpp:552-603 | at most one connection holds a key |
| Publishers.OnlyTheHolderRemovesRings | slscore/SLSPublisher.cpp:64-80 | a ring disappears only by its holder's hand, while it is still registered |
| Publishers.OnlyTheHolderDeregisters | slscore/SLSPublisher.cpp:64-80 | the registration of a connection that was not dropped ends only by its own tear-down, after the ring is gone, also when addresses are reused |
| Publishers.RefusedTouchesNothing | slscore/SLSListener.cpp:578-596 | who lost the registration race never touches either table again |
| Publishers.RegistrationKeepsRing | slscore/SLSPublisher.cpp:64-80 | while a connection keeps its registration no tear-down takes its ring |
| Publishers.HolderHasRingExactly | slscore/SLSListener.cpp:578-603 | a registered publisher has a ring exactly if the key had one just before the registration or some connection makes one later |
| Publishers.RingLostInBetween | slscore/SLSListener.cpp:578-596 | the ring a connection made sure of is gone at its registration exactly if another publisher of the key was torn down in between and no ring made since |
| Publishers.EveryDropCostsAKey | slscore/SLSGroup.cpp:88-117 | in every run the number of keys taken without a holder is the number of publishers dropped |
| Publishers.DropLeavesKey | slscore/SLSGroup.cpp:110-116 | a dropped publisher's entry stays, without a holder |
| Publishers.StaleKeyIsFreedExactly | slscore/SLSMapPublisher.cpp:127-151 | a step frees such a key exactly if it tears down a publisher at that address whose own key comes later, and that key is left behind instead |
| Publishers.StaleKeyIsRefused | slscore/SLSListener.cpp:552-596 | over all runs without such a step every later publisher of the key is turned away |
| Publishers.StaleKeyMoves | slscore/SLSMapPublisher.cpp:133-147 | for any two keys, a run after which neither has a publisher and the later one is taken |
| Publishers.DropIsReachable | slscore/SLSGroup.cpp:88-117 | a run that drops one |
| Publishers.HolderMayLackRing | slscore/SLSListener.cpp:552-603 | an interleaving after which it has none |
| WorkerGroup.Role.constructor | slscore/SLSRole.cpp:37-77 | a new role |
| WorkerGroup.Role.SetSrt | slscore/SLSRole.cpp:184-192 | takes a socket only if it has none |
| WorkerGroup.Role.Init | slscore/SLSRole.cpp:91-101 | the role is live |
| WorkerGroup.Role.SetHttpUrl | slscore/SLSRole.cpp:599-609 | a new client makes admission pending |
| WorkerGroup.Role.OnClose | slscore/SLSRole.cpp:630-651 | when closing creates a client for the callback |
| WorkerGroup.Role.InvalidSrt | slscore/SLSRole.cpp:123-134 | closes once; afterwards without effect |
| WorkerGroup.Role.BaseUninit | slscore/SLSRole.cpp:103-121 | the base class's clean-up, in its order |
| WorkerGroup.Role.Uninit | slscore/SLSPublisher.cpp:64-80 | one run of the derived class's clean-up and the base class's |
| WorkerGroup.Role.GetState | slscore/SLSRole.cpp:136-161 | state and closing after the idle and socket checks |
| WorkerGroup.Role.CheckHttpPassed | slscore/SLSRole.cpp:653-690 | for a pending role: 200 admits it with its socket, another answer closes the socket, none changes nothing; any other role is passed unchanged |
| WorkerGroup.Role.Delete | slscore/SLSRole.cpp:85-88 | demands that the role has not been deleted |
| WorkerGroup.UninitLeavesClientExactly | slscore/SLSRole.cpp:103-134 | when `uninit` leaves an HTTP client behind |
| WorkerGroup.DeadHaveNoClient | slscore/SLSGroup.cpp:300-325 | never for a role that a purge retires |
| WorkerGroup.RetiredExactly | slscore/SLSRole.cpp:136-161 | a purge retires exactly who is bad, has no socket or is not in service |
| WorkerGroup.SurvivorIsOpen | slscore/SLSGroup.cpp:300-325 | a role that survives a purge is unchanged and has its socket |
| WorkerGroup.Group.CheckInvalidSock | slscore/SLSGroup.cpp:275-331 | exactly the roles that are bad, without a socket or not in service are gone, cleaned up and deleted once; all others stay unchanged, each with its socket |
| WorkerGroup.Group.CheckRole | slscore/SLSGroup.cpp:300-329 | the loop body for one role; no other role changes |
| WorkerGroup.Group.CheckNewRole | slscore/SLSGroup.cpp:88-117 | queue and map after an admission, always to a free slot, within the connection limit |
| WorkerGroup.Group.IdleCheck | slscore/SLSGroup.cpp:213-219 | purge and admission in this order: no entry is overwritten |
| WorkerGroupRuns.AdmissionIsToAFreeSlot | slscore/SLSGroup.cpp:98-108 | in every state kept by all runs the socket of an admitted role is not in the map |
| WorkerGroupRuns.PurgeDeletes | slscore/SLSGroup.cpp:286-330 | a role is unchanged by a purge, or deleted after one run of its clean-up |
| WorkerGroupRuns.PurgeRetiresExactly | slscore/SLSGroup.cpp:300-328 | in every reachable state: who is retired by a purge, cleaned up and deleted once, and that all others stay as they are |
| WorkerGroupRuns.AnswerDecides | slscore/SLSRole.cpp:653-690 | which answer admits a pending role, which closes its socket |
| WorkerGroupRuns.PassedOnlyByAnswer | slscore/SLSRole.cpp:653-690 | in every run a role has passed admission only if it came without a callback or a callback of its own was answered with 200 |
| WorkerGroupRuns.LostSocketIsRetired | slscore/SLSGroup.cpp:158-201 | a role whose handler fails, that gives up or is refused is retired by the next purge of its group |
| WorkerGroupRuns.AdmissionDecides | slscore/SLSGroup.cpp:88-117 | in every reachable state: what becomes of the first role of the queue |
| WorkerGroupRuns.FirstInFirstOut | slscore/SLSRoleList.cpp:45-63 | in every run the groups together take the roles in the order of their arrival |
| WorkerGroupRuns.NextKeepsInv | slscore/SLSGroup.cpp:88-331 | every step keeps the ownership invariant |
| WorkerGroupRuns.EveryRoleIsOwnedOnce | slscore/SLSGroup.cpp:88-331 | in every run of all groups over the shared queue each role is in the queue, in one map or deleted once; maps stay within the limit |
| WorkerGroupRuns.CleanupRunsExactlyInPurges | slscore/SLSGroup.cpp:88-117 | the derived clean-up runs once for roles deleted by a purge and never for roles dropped at admission |
| WorkerGroupRuns.DropHappens | slscore/SLSGroup.cpp:110-116 | a run that deletes a role without its clean-up |
| WorkerGroupRuns.WaitListStaysEmpty | slscore/SLSGroup.cpp:315-325 | no retired role ever enters the list of waiting roles |
| StreamIdCache.WithoutPlayer | slscore/SLSDatabase.cpp:361-369 | `remove_if` and `erase` keep exactly the entries of the other players, each player once |
| StreamIdCache.WithoutPlayerInOrder | slscore/SLSDatabase.cpp:361-369 | in their order: a longer list loses entries part by part |
| StreamIdCache.AppendMirrors | slscore/SLSDatabase.cpp:325-332 | adding to a cache that mirrors the table mirrors the longer table |
| StreamIdCache.EraseMirrors | slscore/SLSDatabase.cpp:361-370 | the same for a deletion |
| StreamIdCache.LookupHolds | slscore/SLSDatabase.cpp:525-526 | the filled map has every row |
| StreamIdCache.LookupFinds | slscore/SLSDatabase.cpp:525-526 | and nothing else |
| StreamIdCache.FillMirrors | slscore/SLSDatabase.cpp:507-533 | a cache filled from the rows of a query mirrors the table |
| StreamIdCache.CutRows | slscore/SLSDatabase.cpp:518-533 | the first rows of a query are the rows of the table without the players of the others |
| StreamIdCache.MirrorsExactly | slscore/SLSDatabase.cpp:518-533 | a cache that mirrors the table without some players mirrors it exactly if there are none |
| StreamIdCache.ReadsAgree | slscore/SLSDatabase.cpp:399-471 | linear scan and map lookup give the table's answer |
| StreamIdCache.StreamIdDatabase.AddStreamId | slscore/SLSDatabase.cpp:298-340 | table, cache and result; a taken player or an error changes nothing |
| StreamIdCache.StreamIdDatabase.DeleteStreamId | slscore/SLSDatabase.cpp:342-376 | table, cache and result |
| StreamIdCache.StreamIdDatabase.FillFromRows | slscore/SLSDatabase.cpp:517-533 | the row loop |
| StreamIdCache.StreamIdDatabase.LoadStreamIdsCacheIfNeeded | slscore/SLSDatabase.cpp:474-537 | loads at most once; when it fails; which rows a cut-short load misses |
| StreamIdCache.StreamIdDatabase.CacheIsWholeExactly | slscore/SLSDatabase.cpp:474-537 | a loaded cache mirrors the table exactly if no missing row is left |
| StreamIdCache.StreamIdDatabase.ValidateStreamId | slscore/SLSDatabase.cpp:438-471 | whether the ID is in the table and not cut off, and the publisher it maps to |
| StreamIdCache.StreamIdDatabase.GetPublisherFromPlayer | slscore/SLSDatabase.cpp:399-414 | the publisher the table gives unless its row was cut off, or the empty string |
| StreamIdThreads.LocksAreKept | slscore/SLSDatabase.cpp:298-537 | each lock is held exactly by the threads whose code holds it; the write lock excludes readers |
| StreamIdThreads.InvIsKept | slscore/SLSDatabase.cpp:298-537 | every step keeps the cache equal to the table without the change in flight and the rows cut off |
| StreamIdThreads.CacheMirrorsTable | slscore/SLSDatabase.cpp:298-376 | in every run, whenever no thread holds the database, a loaded cache is the table without the rows cut off, and the table exactly if none is left |
| StreamIdThreads.UpdateTakesEffect | slscore/SLSDatabase.cpp:298-376 | in every run, whatever the other threads do, what an update has made of the table from its statement until it gives the database up, and that a loaded cache then answers for its player as the table does |
| StreamIdThreads.UncutRunsMissNothing | slscore/SLSDatabase.cpp:518-533 | runs without an error in a row loop miss nothing |
| StreamIdThreads.LoadMissesExactly | slscore/SLSDatabase.cpp:518-533 | a load misses exactly the players whose rows it was not given |
| StreamIdThreads.OnlyDeletionHeals | slscore/SLSDatabase.cpp:342-376 | a missing player stays missing until its row is deleted |
| StreamIdExamples.CutLoadRefuses | slscore/SLSDatabase.cpp:518-533 | a run in which every player of the table is refused by a loaded cache |
| StreamIdThreads.ReadsLagByOneUpdate | slscore/SLSDatabase.cpp:399-466 | in every run both ways to read agree and differ from the table by at most the one change in flight and the rows cut off |
| StreamIdThreads.StaysLoaded | slscore/SLSDatabase.cpp:474-537 | a loaded cache stays loaded |
| StreamIdDeadlock.WaitingLowersRank | slscore/SLSDatabase.cpp:299-499 | without a clash, waiting leads from a thread to one that holds more |
| StreamIdDeadlock.WaitingIsBlocked | slscore/SLSDatabase.cpp:299-499 | who waits for a holder of the lock it wants does not move |
| StreamIdDeadlock.DeadlockedExactly | slscore/SLSDatabase.cpp:299-499 | the wait-for graph has a cycle exactly when an update and a load clash |
| StreamIdDeadlock.NoDeadlockOnceLoaded | slscore/SLSDatabase.cpp:477-533 | in every run no cycle once the cache is loaded |
| StreamIdDeadlock.SomeoneMoves | slscore/SLSDatabase.cpp:298-537 | without a clash some thread can always take a step |
| StreamIdDeadlock.ClashIsForever | slscore/SLSDatabase.cpp:324-499 | a clash is never resolved |
| StreamIdDeadlock.DeadlockIsReachable | srt-live-server.cpp:195-208 | an add and a first load can reach it |
| ConfLines.CommentsAreIgnored | slscore/conf.cpp:218-221 | anything from `#` on is ignored |
| ConfLines.TabsAreIgnored | slscore/conf.cpp:178-188 | a tab anywhere is ignored |
| ConfLines.OuterSpacesAreIgnored | slscore/conf.cpp:167-176 | spaces around a line are ignored |
| ConfLines.CleanExactly | slscore/conf.cpp:215-226 | a line is cleaned to a given text exactly if it is that text with tabs anywhere, spaces outside and comments behind |
| ConfLines.CodeExactly | slscore/conf.cpp:207-231 | the code lines of a file are given lines exactly if the file is these lines, so dressed, among blank and comment lines |
| ConfLines.SettingTextReads | slscore/conf.cpp:233-257 | a printed setting is read as its name and value |
| ConfLines.OpenTextReads | slscore/conf.cpp:272-277 | a printed block opening is read as its name |
| ConfParser.FrameBuildsTheTree | slscore/conf.cpp:207-327 | for every text, good or bad, the blocks created form the parsed tree and hang under one link of the block they were parsed for; all other links of older blocks stay |
| ConfParser.GrowBlock | slscore/conf.cpp:293-300 | a block that gets children and then a sibling is one node of the first-child/next-sibling tree |
| ConfFile.Parser.ParseBlock | slscore/conf.cpp:207-327 | result, blocks, position and the shared `child` flag of one recursive call |
| ConfFile.Parser.OpenBlock | slscore/conf.cpp:287-300 | a new block under the first free link, and its own call |
| ConfFile.OpenConf | slscore/conf.cpp:330-355 | the parse of a whole file |
| ConfTree.ReadsBack | slscore/conf.cpp:293-298 | following child and sibling links gives the tree |
| ConfTree.ReleasesEachOnce | slscore/conf.cpp:357-375 | release deletes each block of the tree exactly once |
| ConfTree.ReleasesLinksFirst | slscore/conf.cpp:357-375 | a block is deleted only after everything it links to |
| ConfTree.PrintedTreeBuilds | slscore/conf.cpp:207-327 | a printed tree is parsed back, up to the end of its frame |
| ConfTree.RoundTrip | slscore/conf.cpp:207-375 | the text of a tree with any comments, tabs, outer spaces and blank lines is accepted and gives the tree back, and release deletes each block once |
| ConfTree.PrintParsesBack | slscore/conf.cpp:207-355 | so does the printed text itself |
| ConfTree.CodeLinesReadBack | slscore/conf.cpp:207-375 | the same for any text with these code lines |
| ConfTree.NoBlockExactly | slscore/conf.cpp:330-381 | which texts make no block, and which of them are accepted |
| ConfTree.LoneBraceIsAccepted | slscore/conf.cpp:313-321 | every file that begins with a closing brace is accepted and makes no block |
| ConfTree.EveryBlockIsReleasedOnce | slscore/conf.cpp:330-381 | for every text that makes a block, even if refused half way, closing deletes each block once |
| ConfTree.SecondCloseExactly | srt-live-server.cpp:269-351 | after a reload closing deletes exactly the new blocks, each once, exactly if the new text makes one; otherwise the root still points to a deleted block |
| ConfTree.MissingBraceExactly | slscore/conf.cpp:207-355 | a file whose last brace is missing gives the same tree, and is accepted exactly if its last block has a nested block |
| ConfTree.MissingBraceHappens | slscore/conf.cpp:207-355 | both happen, for any block names |
| ConfValid.EveryTreeIsValid | slscore/conf.cpp:207-327 | every text that makes a block, even if refused half way, makes a tree that could have been printed: known blocks, settings their blocks take |
| ConfValid.ParsePrintParse | slscore/conf.cpp:207-355 | printed and parsed again, whatever any text has made comes back and is accepted |
| ConfValid.AcceptedFileAccounts | slscore/conf.cpp:207-355 | an accepted file has no bad line up to where it was read, and its settings and blocks are exactly those of the tree |
| ConfValid.TrailingSetting | slscore/conf.cpp:235-258 | a setting behind a nested block goes to the last nested block, or the file is refused |
| ConfTree.NullRuntimeExactly | slscore/conf.cpp:235-258 | the command table is read through a null pointer exactly when the first code line is a setting |
| ConfTree.LeadingSettingCrashes | slscore/conf.cpp:235-258 | every file that begins with a printed setting does so |

## Left out

- libsrt, TCP, epoll, SQLite, files and clocks: their answers are parameters or nondeterministic; an SRT write takes one 1316-byte block or none, open socket numbers are distinct.
- Re-adding a key while readers keep their cursors, and `setSize` on the broadcast ring: one lifetime of a ring at its default size.
- Null data arrays in the map of rings: the code never stores one.
- Last-read times, bitrate and other statistics strings, HLS recording, logging, pid files, the command line.
- Buffers of the TS parser other than the preamble are values, SPS and PPS without the bytes after their length; memory past the end of a packet reads as zero.
- Overflow of signed 32-bit integers is taken to wrap.
- Further operations on a grown queue that is no queue any more, but for the next `put`.
- TsFileTimeReader.RtsReader.Get: loop mode, which restarts the file, is not modelled.
- TsFileTimeReader.RtsWriter.GenerateRtsFile: for inputs whose queue never outgrows its 1316000 bytes; one packet that makes it grow is modelled, what a grown ring then writes is not.
- WorkerGroup.Role.Init: the reset of the read cursor is that of RecycleRing.ReadId.constructor.
- WorkerGroup.Role.Uninit: the two table removals of a publisher are counted here and modelled in Publishers.
- PlayerPump.Player.HandlerWriteData: the admission callback appears only as a flag.
- WorkerGroup.Group.IdleCheck: the loop of `check_wait_http_role` is left out, as its list is proved to stay empty; so are relays' reconnections, which only push new roles.
- WorkerGroup.Group.CheckInvalidSock: the map is visited in any order, not by socket number; `clear` and `stop` at shutdown are not modelled.
- The event loop of the worker group is a step of the run (one socket, one outcome), not a method.
- StreamIdCache.StreamIdDatabase.ValidateStreamId: one thread at a time, and without the exceptions of the JSON library; interleavings are in StreamIdThreads, where opening and closing the database is left out.
- Publishers: one step per locked operation of the listener and of the tear-down; the relay paths, which use other keys, are left out.
- ConfFile.Parser.ParseBlock: blocks are records in a list, named by their position, and a block keeps the sequence of its settings instead of typed fields; the tables of names and admissible values are parameters; the strings that the source edits in place are values.
- HttpSend.HttpClient.Open: for requests that fit the queue; a longer one makes it grow, and what is then sent is not modelled. HttpSend.HttpClient.Reopen: likewise.
- PreambleRoundTrip.WholePreambleParsesBack: says nothing of a preamble whose second packet a player takes for stream data or for another PAT, as may be what was in the buffer before a PMT came.
- What a second deletion of the same block does: undefined in the source language.
- Relay managers, the manager's reload, HTTP response parsing and the API handlers, the vendored HTTP library: easy branches, or outside the parts above.
