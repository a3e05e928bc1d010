# Gateway board protocols

A Dafny model of the protocol logic in the firmware of a gateway board: the MQTT client engine, the framed RS485
protocol with its slave discovery, the Modbus RTU master for circuit breakers, the HTTP server's body transfer, the
GPS clock and sentence collector, and the percent decoder of the form handler. Objects and buffers the firmware
changes in place are classes and arrays here, each proved against a function of the old state; what the firmware
promises is then proved about those functions, over every input, every run and every interleaving.

`dafny verify dfyconfig.toml` checks the project.

| file | component |
|---|---|
| `Bytes.dfy`, `Options.dfy` | machine integers, word layout, the option type |
| `Crc16.dfy`, `CrcPolynomial.dfy` | the bitwise CRC-16 shared by both RS485 protocols, and the division it does |
| `TopicMatcher.dfy`, `MqttHandlers.dfy` | topic matching, the five-slot handler table, delivery |
| `TickTimer.dfy` | timers on the kernel's 32-bit tick count |
| `MqttTransport.dfy`, `MqttPackets.dfy` | socket loops, Remaining Length, packet re-assembly, the send loop |
| `SlaveFrames.dfy`, `SlaveScan.dfy`, `SlaveBus.dfy` | frame builders and byte parser, discovery, the two together |
| `BreakerModbus.dfy`, `BreakerScan.dfy` | Modbus messages and handlers, scan and poll loop |
| `HttpPages.dfy`, `HttpServer.dfy` | one connection's transfer, the sockets that share a buffer |
| `GpsClock.dfy`, `GpsSentences.dfy` | UTC to Beijing time, sentence collection and fields |
| `UrlDecoder.dfy` | percent decoding in place and the '+' pass |

## What the proofs rest on

- Topic matching: filters are well formed as app/eth_to_mqtt.c:158-160 asks, names hold no wildcard; the standard's
  rule for topics that begin with `$` is not part of the matcher.
- Sockets: what the chip reports at each poll, and what the tick count is wherever the firmware reads it, is a script in
  which ticks never go back; once it has run out every timeout has. Every sequence of partial transfers, errors and
  timings is some script, and the results of the read, write and send loops are functions of it.
- Timers are ticks at which they run out, counted without wrapping. `TickTimer` proves that the firmware's timers on the
  wrapping 32-bit count tell just that when looked at less than 2^32 ticks apart, and when they do beyond.
- `readPacket`: the read buffer holds at least a header and a four-byte length field.
- RS485: bytes and timeout ticks are events. The line is a ghost sequence of the bytes sent on it.
- Discovery: every answer has a place in the table when it comes, which holds in every run from start-up
  (`FirstDiscoveryHasPlaces`); after the reset key it need not. A flash read returns the last write.
- Breakers: the register tables are keyed by bus address. A reply is at most 300 bytes, the size of the buffer.
- HTTP: `send` takes the whole piece, hardware sockets in the list are distinct, and a page is a C string. The text of
  a request and the response head are arbitrary bytes put into the shared buffer.
- GPS: a sentence's fields are decimal digits where RMC has them.
- Percent decoding: the decoder finds a NUL where it looks for one. Whether that is the end of its string is proved,
  not required.

## Where the code does less than its rules ask

Each of these is kept as it is in the code and comes with the exact condition.

- The topic matcher is stricter than section 4.7.1 of MQTT 3.1.1: it agrees with the standard exactly when every
  wildcard of the filter stands over a non-empty level (`LevelMatchVersusStandard`, `StricterThanTheStandard`).
- A slave frame carries its CRC high byte first. Damage within two adjacent bytes of id, function, payload and checksum
  is sure to be noticed exactly if it is not at the seam of payload and checksum (`DamageIsNoticedExactlyOffTheSeam`);
  for every message there is such damage that passes (`SeamDamagePasses`). The breaker replies carry it low byte first
  and have no such seam. Damage to the length field drops the frame, holds it waiting for more bytes, or has a part of it
  judged (`WrongLength`), which can pass (`ShorterLengthPasses`).
- The CRC routine turns length 0 into length 1 (`ModbusCrc16`).
- `SOCK_CLOSED` does not clear the transfer state: the first request on the next connection is answered exactly if the
  socket was idle (`NextConnection`).
- `UTC2BTC` takes every fourth year for a leap year: on Gregorian dates it is right exactly outside from 15:59:59
  to the end of 28 February in the years 2100, 2200, 2300, 2500 and so on (`GregorianExactlyOutsideTrap`). This is a fact
  about that routine alone: `gps_parse` gives it years 2000..2099 only, for which it is right (`NoTrapThisCentury`).
- The '+' pass after percent decoding restores a string exactly if it holds no '+' (`FormPassRestores`).
- An RMC sentence is delivered exactly if it has at most 512 bytes; the buffer's overflow test comes after delivery.
  Conversely a delivery is an RMC sentence exactly if it has at least seven bytes and no newline among the three before
  'MC' (`DeliveryIsSentenceExactly`): a sentence cut short leaves 'MC' behind, and the next newline delivers what is no
  sentence (`StaleDelivery`).
- `readPacket` does not look at the failure of `decodePacket`: a packet type is returned for just the packet ahead
  exactly if the end of its length field was seen (`TypeIsOfPacketExactlyWhenFieldSeen`); a header and then silence is
  reported as an empty packet (`HeaderAloneIsReported`).
- Only the second head code arms the receive timeout. Ten silent turns of the thread after a byte, no fewer, restart the hunt exactly if the
  parser is not holding a first head code alone with the timeout not armed (`SilenceRestartsUnlessStuck`); a single
  0xF5 after start-up is held through any silence (`LoneHeadIsStuck`), and the next frame is then lost
  (`NextStreamIsParsedUnlessStuck`).
- The reset key leaves the table of found devices as it is. After it no answer can be stored outside the table exactly
  if nothing had been stored (`ResetIsSafeOnlyWhenNothingIsStored`), and the list of the next sweep is that of the
  answering devices exactly if no device of a known type had been (`ResetListIsRightExactlyWhenNoneKnown`). The key also
  leaves a flag behind that starts a further discovery from an empty table once this list is there, and the list of that
  one is exact whatever went before (`ListAfterResetIsExact`).
- Breaker address 32 is polled, and the register tables have 32 entries indexed by address (app/project_config.h:32).
  Over a run from start-up all stores are inside them exactly if address 32 is never heard during the scan
  (`StoresAreInRangeUnlessLastIsHeard`).
- A breaker's data reply is measured by its own byte count. Damage within two adjacent bytes is sure to be noticed
  exactly if it does not reach that count (`DataDamageIsNoticedExactlyOffTheCount`); otherwise a wrong register can be
  taken in (`WrongRegisterIsTaken`).
- The percent decoder steps over the end of its string when an escape is cut short: it stops at the terminator exactly
  if every escape is complete (`StopsAtTerminator`, `CutEscapeIsOverrun`). A parameter's value is then the same whatever
  older contents stand behind it exactly if every escape is complete or a NUL is decoded from its own characters
  (`ValueIsItsOwnExactlyWhenDecided`): "a%4" takes in what stands behind, "a%0" does not (`CutEscapeTakesOlder`,
  `CutEscapeOfNul`).
- The HTTP server stores an end marker behind each request. All of these are inside the buffer exactly if no request
  taken is 2048 bytes long, as long as the buffer (`NoStrayExactlyWithoutFullRequest`).

## Model

| member | source | states |
|---|---|---|
| `TopicMatcher.IsTopicMatched` | app/eth_to_mqtt.c:161-194 | the two-pointer loop answers true, for a well-formed filter and a wildcard-free name, exactly when the level-by-level matcher does |
| `TopicMatcher.PointerMatchIsLevelMatch` | app/eth_to_mqtt.c:161-194 | reading characters is the same as comparing levels: `+` takes one non-empty level, `#` a rest whose first level is non-empty |
| `TopicMatcher.LevelsAreTheParts` | app/eth_to_mqtt.c:167-193 | levels joined by separators are the string, and none holds one |
| `TopicMatcher.LevelMatchVersusStandard` | app/eth_to_mqtt.c:167-193 | the matcher is the standard's match together with every wildcard standing over a non-empty level, both directions |
| `TopicMatcher.AgreementWithoutEmptyLevels` | app/eth_to_mqtt.c:167-193 | on names without empty levels the only disagreement with sections 4.7.1.2 and 4.7.1.3 is `#` for its parent level |
| `TopicMatcher.HitIsStandardMatch` | app/eth_to_mqtt.c:161-194 | the character loop itself hits exactly the standard's matches whose wildcards see text |
| `TopicMatcher.StricterThanTheStandard` | app/eth_to_mqtt.c:167-193 | three concrete filter and name pairs that the standard matches and the loop does not |
| `TopicMatcher.EveryNameMatchesItself` | app/eth_to_mqtt.c:205 | the exact comparison before the loop never decides otherwise than the loop |
| `MqttHandlers.RunStaysInCapacity` | app/eth_to_mqtt.c:491-530 | over every run of set, remove and clean the table is a map of at most five filters |
| `MqttHandlers.StoreInSlot` | app/eth_to_mqtt.c:523-527 | storing a new filter in a free slot, or an old one in its slot, is a map update and puts no filter in two slots |
| `MqttHandlers.FreeSlot` | app/eth_to_mqtt.c:501-505 | clearing the slot of a filter removes exactly that filter from the map |
| `MqttHandlers.TableSize` | app/eth_to_mqtt.c:511-522 | the number of filters is the number of used slots, so a full map has no free slot and a smaller one has |
| `MqttHandlers.HitIsMeant` | app/eth_to_mqtt.c:203-205 | a wildcard-free name hits a well-formed filter if and only if the standard matches them and every wildcard of the filter stands over text |
| `MqttHandlers.HitsAreTheMatchingSubscriptions` | app/eth_to_mqtt.c:203-216 | for well-formed filters and a wildcard-free name the slots hit, by increasing index, are exactly those whose filter the standard matches with every wildcard over text, and hold exactly the subscribed filters that do |
| `MqttHandlers.MqttClient.constructor` | app/eth_to_mqtt.c:61-84 | a new client has no subscription and no default handler |
| `MqttHandlers.MqttClient.SetMessageHandler` | app/eth_to_mqtt.c:491-530 | the slot loops do to the table what one map operation does, with the same return code, and keep filters distinct |
| `MqttHandlers.MqttClient.CleanSession` | app/eth_to_mqtt.c:259-267 | clearing only the filters leaves the empty map |
| `MqttHandlers.MqttClient.Execute` | app/eth_to_mqtt.c:491-530 | after any run of operations the five slots hold the map the run computes |
| `MqttHandlers.MqttClient.DeliverMessage` | app/eth_to_mqtt.c:197-225 | the handlers called are those of just those slots, each once, by increasing index; the default handler is called exactly if there is no such slot, and SUCCESS says that a handler was called |
| `TickTimer.CheckIsRightUnlessLapped` | components/freertos/tasks.c:3347-3405 | the check on wrapping counters tells that the tick has come if and only if the count has not lapped, so always when made less than 2^32 ticks after the last one; what it leaves runs out at the same tick |
| `TickTimer.ForeverIsNever` | components/freertos/tasks.c:3370-3378 | the longest delay never runs out |
| `TickTimer.Timer.CheckForTimeOut` | components/freertos/tasks.c:3347-3405 | the in-place check answers whether the tick at which the timer runs out has come, and keeps that tick, look after look |
| `TickTimer.Timer.CountdownMS` | app/eth_to_freertos.c:63-67 | a countdown runs out as many ticks later as its milliseconds make |
| `TickTimer.Timer.IsExpired` | app/eth_to_freertos.c:76-85 | the timer is expired exactly from the tick at which it runs out |
| `TickTimer.Timer.LeftMS` | app/eth_to_freertos.c:76-80 | what is left, in milliseconds, makes exactly the ticks up to where the timer runs out |
| `MqttTransport.Network.Read` | app/eth_to_freertos.c:127-155 | the bytes taken are the next bytes of the stream, stored in order and nothing else changed; the result, the bytes taken and the polls used are those the script and the waiting bytes decide, on every path |
| `MqttTransport.Network.Write` | app/eth_to_freertos.c:158-185 | what goes out is one contiguous run of memory from the start offset; the result, the bytes out and the polls used are those that script and timeout decide, on every path |
| `MqttTransport.WriteTakesOffer` | app/eth_to_freertos.c:158-185 | a write sends exactly what the polls offer before an error or the timeout, up to its length, and fails exactly if an error comes before all of it is out |
| `MqttTransport.ReadTakesOffer` | app/eth_to_freertos.c:127-155 | a read takes exactly what the polls offer of the bytes that are there before an error or the timeout, up to its length, and fails exactly if an error comes before all of it is in |
| `MqttTransport.TimersSayWhenTimedOut` | app/eth_to_freertos.c:127-185 | the timeout test of a loop is the wrapped tick check since the loop was entered |
| `MqttTransport.TimersSayWhatIsLeft` | app/eth_to_freertos.c:76-85 | expiry and what is left of a timer are what the wrapped tick check says since it was last looked at |
| `MqttTransport.CreditWrites` | app/eth_to_freertos.c:158-185 | with as many polls that make progress before some tick ahead of the timeout as there are bytes, everything is written, and the unused ones are left |
| `MqttTransport.ShortWriteExpiresTimer` | app/eth_to_freertos.c:158-185 | a write given what a timer has left that returns a short count and no error leaves that timer expired |
| `MqttTransport.ReadsLikeWrite` | app/eth_to_freertos.c:127-185 | reading bytes that are waiting goes poll by poll like writing as many |
| `MqttPackets.RemainingLengthRoundTrip` | components/mqtt/MQTTPacket.c:29-45 | for 0..268435455 the encoding is a field of section 2.2.3, found again at the head of any stream, with the same value |
| `MqttPackets.LengthTable` | components/mqtt/MQTTPacket.c:29-45 | the eight limits of table 2.4 of the standard, byte for byte |
| `MqttPackets.EncodeIsMinimal` | components/mqtt/MQTTPacket.c:29-45 | no field of the same value is shorter |
| `MqttPackets.EncodeInto` | components/mqtt/MQTTPacket.c:29-45 | the digit loop stores exactly the encoding at its offset and nothing else |
| `MqttPackets.DecodePacket` | app/eth_to_mqtt.c:86-113 | value, digits counted, bytes taken and polls used on every path; no 32-bit value overflows |
| `MqttPackets.DecodeFinds` | app/eth_to_mqtt.c:86-113 | a length field seen to its end is the field of the stream, with its value; one that is cut short or too long is summed as far as it was read, and not taken for one seen to its end |
| `MqttPackets.DecodeReachesEnd` | app/eth_to_mqtt.c:86-113 | with enough progress and a field of the standard ahead its end is seen |
| `MqttPackets.StandardPacketIsKept` | app/eth_to_mqtt.c:116-155 | a packet in the standard's encoding is rebuilt as it was sent, whatever follows it |
| `MqttPackets.PacketClient.ReadPacket` | app/eth_to_mqtt.c:116-155 | the return code, the bytes taken and the polls used on every path, errors and the timer included; when a packet type is returned, header, shortest length field and payload stand contiguous at the front of the buffer |
| `MqttPackets.PacketArrives` | app/eth_to_mqtt.c:116-155 | a complete packet ahead and as many polls with progress before the timer runs out as it has bytes: its type, its payload and exactly its bytes are taken if it fits the buffer, and overflow is reported exactly if it does not |
| `MqttPackets.CutPayloadIsNothing` | app/eth_to_mqtt.c:133-150 | if the peer sends less of a payload than its length field says, 0 is returned and no packet reported |
| `MqttPackets.SilenceIsNothing` | app/eth_to_mqtt.c:123-128 | if nothing comes in, nothing is taken, and the first error is returned, or 0 |
| `MqttPackets.TypeIsOfPacketExactlyWhenFieldSeen` | app/eth_to_mqtt.c:130-151 | a returned packet type is that of just the packet ahead if and only if the end of its length field was seen |
| `MqttPackets.HeaderAloneIsReported` | app/eth_to_mqtt.c:130-151 | a header followed by silence is reported as an empty packet of its type |
| `MqttPackets.PacketClient.SendPacket` | app/eth_to_mqtt.c:35-58 | what goes out is the start of the packet, once and in order, never more; SUCCESS is returned if and only if it is all of it; the keep-alive timer restarts exactly then |
| `MqttPackets.NeverRetries` | app/eth_to_mqtt.c:40-48 | the loop never writes a second time: a write that comes back short has used up the timer |
| `MqttPackets.SendOutcome` | app/eth_to_mqtt.c:35-58 | for every script on one clock no more than the packet goes out, and SUCCESS is returned if and only if it is all out, which for a timer that has not expired is if and only if the first write is offered all of it |
| `MqttPackets.EnoughProgressSucceeds` | app/eth_to_mqtt.c:35-58 | as many polls that make progress before the timer runs out as there are bytes send the packet |
| `Crc16.ModbusCrc16` | app/monitor_board_handle.c:26-53 | the nested shift loop computes the CRC of the message, length 0 read as 1; what that CRC is say `CrcIsRemainder` and `KnownChecksums` |
| `CrcPolynomial.CrcIsRemainder` | app/monitor_board_handle.c:24-53 | the CRC of a message is c if and only if c is a remainder of the message polynomial, every byte lowest bit first and the first sixteen bits inverted, on division by x^16 + x^15 + x^2 + 1 |
| `CrcPolynomial.RemainderIsUnique` | app/monitor_board_handle.c:24-53 | there is one such remainder |
| `CrcPolynomial.FedShifts` | app/monitor_board_handle.c:39-49 | a bit moves the register up by a place and takes the generator away exactly if a one comes out |
| `Crc16.KnownChecksums` | app/circuit_breaker_rs485_handle.c:31-58 | 0xFFFF before the first byte, 0x1241 after 02 07, 0x2887 after 01 03 0F A0 00 31 |
| `Crc16.ByteStepInjective` | app/monitor_board_handle.c:37-50 | a byte step is a bijection of the register |
| `Crc16.TwoByteStepsInjective` | app/monitor_board_handle.c:37-50 | from one register two bytes lead to one result only if they are the same two bytes |
| `Crc16.AdjacentBurst` | app/monitor_board_handle.c:26-53 | two messages of any one length that differ only within two adjacent bytes have different checksums |
| `Crc16.Residue` | app/circuit_breaker_rs485_handle.c:31-58 | two bytes after a message drive its CRC to zero exactly if they are its CRC, low byte first |
| `Crc16.SeamTrade` | app/monitor_board_handle.c:37-50 | a certain change of the last byte changes only the high byte of the CRC, whatever the message |
| `SlaveFrames.OnlyValidFramesAreAccepted` | app/monitor_board_handle.c:61-119 | from any reachable parser state and for any bytes, every frame handed on is complete with a right checksum, and the state stays reachable |
| `SlaveFrames.AcceptedIsBuilt` | app/monitor_board_handle.c:115-119 | a frame handed on is the builders' frame of what it says, up to the end code, which the parser does not check |
| `SlaveFrames.DecodeBuilt` | app/monitor_board_handle.c:289-321 | reading a built frame gives its id, function and payload back, and the parser accepts its shape |
| `SlaveFrames.FrameBytes` | app/monitor_board_handle.c:289-391 | a frame byte by byte: F5 5F, id, length, function, payload, CRC high byte first, 0D 0A |
| `SlaveFrames.FrameIsJudged` | app/monitor_board_handle.c:61-119 | a frame-shaped run of bytes is handed on exactly if its checksum is right, and the hunt restarts either way |
| `SlaveFrames.StreamIsParsed` | app/monitor_board_handle.c:61-119 | any frames with length field 3..248, among noise without 0xF5, are accepted exactly and in order, and the parser ends hunting |
| `SlaveFrames.StreamIsUnderstood` | app/monitor_board_handle.c:61-119 | the i-th frame accepted from such a stream tells the i-th id, function and payload |
| `SlaveFrames.DamageIsRejected` | app/monitor_board_handle.c:115-119 | a frame damaged within two adjacent bytes of id, function, payload and checksum, not those at the seam, is dropped |
| `SlaveFrames.SeamDamagePasses` | app/monitor_board_handle.c:117-119 | for every message some damage across that seam gives a frame that is accepted |
| `SlaveFrames.DamageIsNoticedExactlyOffTheSeam` | app/monitor_board_handle.c:117-119 | all damage within bytes i and i + 1 is noticed if and only if they are not the seam |
| `SlaveFrames.LongFrameIsDropped` | app/monitor_board_handle.c:110-115 | a frame announcing 249..255 wraps the 8-bit cursor to hunting without being accepted, whatever it holds |
| `SlaveFrames.WrongLength` | app/monitor_board_handle.c:95-139 | a frame whose length field is damaged is dropped with its head from 256 on, held waiting for more bytes if longer, and judged by its first n + 7 bytes if shorter |
| `SlaveFrames.LongerLengthSwallows` | app/monitor_board_handle.c:110-139 | with a longer length the bytes that come next are taken for its own and judged with it |
| `SlaveFrames.ShorterLengthPasses` | app/monitor_board_handle.c:110-139 | for every id and function there is a message of which one damaged length byte makes the accepted empty message |
| `SlaveFrames.SlavePort.RxFull` | app/monitor_board_handle.c:61-139 | one interrupt keeps cursor and indices inside the 256-byte buffer, takes parser, timeout flag and counter one step, hands on exactly a complete valid frame, and a search answer fills in who answered |
| `SlaveFrames.SlavePort.FrameComplete` | app/monitor_board_handle.c:115-139 | a complete frame is handed on exactly if the checksum over its body is the one it carries, and only then is its answer noted |
| `SlaveFrames.SlavePort.Tick` | app/monitor_board_handle.c:515-524 | a turn of the timeout counts only when armed, and the tenth one drops what is held and disarms it |
| `SlaveFrames.RunsStayArmed` | app/monitor_board_handle.c:61-119 | over every run of bytes and turns two bytes or more are never held without the timeout armed, and only valid frames are handed on |
| `SlaveFrames.SilenceRestartsUnlessStuck` | app/monitor_board_handle.c:515-524 | after any history ten silent turns leave the parser hunting if and only if it was not holding one byte with the timeout not armed; if it was, silence changes nothing |
| `SlaveFrames.TenthTurnDrops` | app/monitor_board_handle.c:515-524 | the count starts with each byte: fewer than ten silent turns leave what is held, ten or more drop it unless the parser is stuck |
| `SlaveFrames.LoneHeadIsStuck` | app/monitor_board_handle.c:67-84 | a single first head code after start-up is such a history |
| `SlaveFrames.StuckLosesFrame` | app/monitor_board_handle.c:76-89 | a parser holding one byte does not hand on the frame that comes next |
| `SlaveFrames.NextStreamIsParsedUnlessStuck` | app/monitor_board_handle.c:61-119 | after any history and ten silent turns every stream of frames among noise without 0xF5 is handed on as sent, if and only if the history did not leave the parser stuck |
| `SlaveFrames.HearingIsParsing` | app/monitor_board_handle.c:61-139 | over any bytes held bytes and frames are those of the parser, and the last answer is told by the frames alone if all are at least ten bytes long |
| `SlaveFrames.FrameTells` | app/monitor_board_handle.c:121-139 | a frame is told as an answer if and only if its function is 0x81, with its id, and its type exactly if that stands behind register 0xFF00 |
| `SlaveFrames.SlavePort.Receive` | app/monitor_board_handle.c:61-139 | any bytes leave held exactly what the parser's meaning says, hand on exactly its frames, and leave the last answer as read from the buffer, older contents behind short frames included |
| `SlaveFrames.SlavePort.Handle` | app/monitor_board_handle.c:61-119 | an interrupt or a turn takes parser, flag and counter one step and hands on what that step completes |
| `SlaveFrames.SlavePort.Run` | app/monitor_board_handle.c:61-119 | for every mix of bytes and timeout turns the bytes held, the timeout and the frames handed on are those of the line's meaning |
| `SlaveFrames.SlavePort.SearchSlaveDriverId` | app/monitor_board_handle.c:289-321 | the search query goes out as the frame of its message |
| `SlaveFrames.SlavePort.ControlSlaveRelay` | app/monitor_board_handle.c:323-356 | the relay command goes out as the frame of its message |
| `SlaveFrames.SlavePort.ReadSlaveData` | app/monitor_board_handle.c:358-391 | the read query goes out as the frame of its message, twice |
| `SlaveFrames.SearchBytes` | app/monitor_board_handle.c:289-321 | the search query byte by byte, for every address |
| `SlaveFrames.RelayBytes` | app/monitor_board_handle.c:323-356 | the relay command byte by byte, for every address and relay word |
| `SlaveFrames.ReadBytes` | app/monitor_board_handle.c:358-391 | the read query byte by byte, for every address and type |
| `SlaveScan.StorageStaysInRange` | app/monitor_board_handle.c:453-474 | during any discovery no more devices are stored than addresses queried, never more than sixteen |
| `SlaveScan.QueryMakesProgress` | app/monitor_board_handle.c:471-508 | every query of a live discovery lowers the sweeps and addresses left, lexicographically |
| `SlaveScan.InsideSweep` | app/monitor_board_handle.c:453-474 | within a sweep the addresses are asked in order and the answers stored behind what was there |
| `SlaveScan.SweepOutcome` | app/monitor_board_handle.c:474-509 | an answered sweep ends discovery with the answering devices of a known type in query order; a silent one starts the next or gives up |
| `SlaveScan.SilenceEndsDiscovery` | app/monitor_board_handle.c:501-509 | if nobody answers, exactly 64 queries go out, the i-th to address i mod 16, and never another |
| `SlaveScan.FirstAnsweredSweepDecides` | app/monitor_board_handle.c:449-512 | after up to three silent sweeps the first answered one fixes the list, whatever comes later, with whole sweeps of queries to 0..15 in order |
| `SlaveScan.FirstDiscoveryHasPlaces` | app/monitor_board_handle.c:460-471 | in every run from start-up each answer has a place in the table when it comes |
| `SlaveScan.KnownAreKept` | app/monitor_board_handle.c:490-500 | the list keeps a device if and only if its type is not 255, and a list of known types as it is |
| `SlaveScan.ResetIsSafeOnlyWhenNothingIsStored` | app/key_handle.c:161-170 | after a reset during a search no answer can be stored outside the table, whatever the slaves do, if and only if nothing was stored before it, by however many sweeps and resets |
| `SlaveScan.ResetKeepsStored` | app/key_handle.c:161-170 | what was stored before a reset stays in front of the list; a silent sweep after it is a silent sweep, stored devices or not |
| `SlaveScan.ResetListIsRightExactlyWhenNoneKnown` | app/key_handle.c:161-170 | the list of the sweep after a reset is that of the answering devices if and only if no device of a known type was stored before |
| `SlaveScan.ListAfterResetIsExact` | app/monitor_board_handle.c:438-512 | whatever was stored before a reset, the discovery that follows the reset sweep gives exactly the devices of its first answered sweep, each with a place |
| `SlaveScan.Discovery.Turn` | app/monitor_board_handle.c:449-456 | a turn counts up in 16 bits and queries exactly when the count has come to 2, which starts it again, until discovery has given up |
| `SlaveScan.Discovery.TwoTurns` | app/monitor_board_handle.c:449-456 | from a count of zero two turns are one query |
| `SlaveScan.Discovery.QueryNext` | app/monitor_board_handle.c:453-510 | counters, tables and flash do what one query of the discovery does, both ends of a sweep included |
| `SlaveScan.Discovery.TakeInAnswer` | app/monitor_board_handle.c:460-471 | an answer is appended to the table and to the flash alike |
| `SlaveScan.Discovery.UpdateDeviceList` | app/monitor_board_handle.c:477-500 | clearing the rest of the flash and reading it back leaves exactly the devices of a known type |
| `SlaveScan.Discovery.Discover` | app/monitor_board_handle.c:449-512 | as long as every answer has a place, a whole discovery leaves the thread in the state its replies compute |
| `SlaveScan.Discovery.ResetKey` | app/key_handle.c:161-170 | counters and flags start again, the table and its length stay |
| `SlaveScan.Discovery.Rescan` | app/monitor_board_handle.c:438-447 | the thread answers the key, once the list is there, by emptying the table |
| `SlaveScan.Discovery.ScanAgain` | app/monitor_board_handle.c:438-447 | the key pressed when the list is there starts a discovery from nothing |
| `SlaveScan.Discovery.ResetInSearch` | app/monitor_board_handle.c:438-512 | the key during a search: the sweep again, its list, and then the discovery from nothing that the key's flag starts |
| `SlaveBus.WindowIsHeard` | app/monitor_board_handle.c:61-139 | among noise a search answer is heard with its address and type, and silence is heard as silence |
| `SlaveBus.Bus.QueryOne` | app/monitor_board_handle.c:453-471 | the query frame goes out and, for any bytes heard, the thread stores the device of the last search answer told, or none |
| `SlaveBus.Bus.QueryWindow` | app/monitor_board_handle.c:453-471 | with noise and at most the answer of the queried slave in the window, exactly that slave is stored |
| `SlaveBus.Bus.Sweep` | app/monitor_board_handle.c:449-512 | from bytes to list: sixteen query frames in order of address, and after an answered sweep the list of the slaves that answered |
| `SlaveBus.QueriesInOrder` | app/monitor_board_handle.c:449-456 | the k-th frame of a sweep, thirteen bytes long, is the query for address k |
| `SlaveBus.DeviceListIsExact` | app/monitor_board_handle.c:490-500 | a device is in the list if and only if it answered at its address with a type other than 255 |
| `SlaveBus.DeviceListAscends` | app/monitor_board_handle.c:490-500 | the list is in order of address, so each device stands once |
| `BreakerModbus.IntactMeansResidueZero` | app/circuit_breaker_rs485_handle.c:435-444 | a message ends in its own CRC, low byte first, exactly if the CRC over all of it is zero |
| `BreakerModbus.RequestBytes` | app/circuit_breaker_rs485_handle.c:96-419 | the three requests byte by byte: read 49 registers from 4000, write 48 from 4001, set coil 0 to FF 00 or 00 00 |
| `BreakerModbus.KnownRequest` | app/circuit_breaker_rs485_handle.c:177-198 | the read request to slave 1 is 01 03 0F A0 00 31 87 28 |
| `BreakerModbus.EchoIsFromSlave` | app/circuit_breaker_rs485_handle.c:135-150 | an echo is accepted if and only if its eight bytes are a message of that slave and function, sealed with its CRC |
| `BreakerModbus.DataIsFromSlave` | app/circuit_breaker_rs485_handle.c:211-219 | a data reply is accepted if and only if it is a message of that slave and function with as many bytes as it announces, sealed with its CRC |
| `BreakerModbus.DamagedEchoIsRejected` | app/circuit_breaker_rs485_handle.c:140-150 | an 8-byte reply that differs from a genuine one only within two adjacent bytes, checksum included, is never accepted |
| `BreakerModbus.DamagedDataIsRejected` | app/circuit_breaker_rs485_handle.c:200-297 | a reply with any number of data bytes that differs from a genuine one only within bytes i and i + 1, neither the byte count, is never accepted |
| `BreakerModbus.DataDamageIsNoticedExactlyOffTheCount` | app/circuit_breaker_rs485_handle.c:200-297 | for the reply with the register image, all damage within bytes i and i + 1 is noticed if and only if they do not reach the byte count |
| `BreakerModbus.CountDamagePasses` | app/circuit_breaker_rs485_handle.c:200-297 | a genuine reply whose damaged byte count makes it accepted all the same |
| `BreakerModbus.WrongRegisterIsTaken` | app/circuit_breaker_rs485_handle.c:200-297 | damage to byte count and first data byte by which the table takes a register the breaker does not have |
| `BreakerModbus.WriteIsServed` | app/circuit_breaker_rs485_handle.c:299-419 | the write request makes a slave of section 6.12 store all 48 registers, and its echo is one the master accepts |
| `BreakerModbus.ReadIsServed` | app/circuit_breaker_rs485_handle.c:177-198 | the read request makes a slave of section 6.3 answer with 49 registers the master takes in as they are |
| `BreakerModbus.CoilIsServed` | app/circuit_breaker_rs485_handle.c:96-150 | the command to close makes a slave of section 6.5 close its coil, the other one open it, and its echo is one the master accepts |
| `BreakerModbus.WriteThenRead` | app/circuit_breaker_rs485_handle.c:177-419 | writing an image and reading back restores all 48 registers, leaves the rated current and every other register as the slave had them |
| `BreakerModbus.Master.Send` | app/circuit_breaker_rs485_handle.c:186-197 | a request goes out byte for byte with its CRC low byte first |
| `BreakerModbus.Master.ReadHoldSendData` | app/circuit_breaker_rs485_handle.c:177-198 | the request for 49 registers from 0x0FA0 goes out |
| `BreakerModbus.Master.SetCoilSendData` | app/circuit_breaker_rs485_handle.c:96-124 | the coil request goes out, 0xFF00 for close and 0 otherwise |
| `BreakerModbus.Master.WriteHoldSendData` | app/circuit_breaker_rs485_handle.c:299-419 | the request with every register of the image but the first goes out |
| `BreakerModbus.Master.EchoHandle` | app/circuit_breaker_rs485_handle.c:421-469 | an echo is accepted exactly if it arrives in time with address, function and checksum right, and the buffer is cleared |
| `BreakerModbus.Master.ReadHoldHandle` | app/circuit_breaker_rs485_handle.c:200-297 | the table takes the image exactly if the reply is accepted, and is otherwise untouched |
| `BreakerModbus.Master.WriteAndReadBack` | app/circuit_breaker_rs485_handle.c:177-469 | write, echo, read and data through the master's own buffers restore its image but for the rated current |
| `BreakerScan.SweepFillsTable` | app/circuit_breaker_rs485_handle.c:757-784 | a sweep asks the addresses 1 to 32 in order, one a turn; at its end slot i holds i + 1 if and only if the turn that asked it was answered, 0xff otherwise, and polling starts if and only if one was |
| `BreakerScan.SweepFindsBus` | app/circuit_breaker_rs485_handle.c:757-784 | on a bus with the same devices throughout, where a turn is answered if and only if the address it has just asked is on it, slot i holds i + 1 if and only if that address is on the bus, and polling starts if and only if one of 1 to 32 is |
| `BreakerScan.ScanEndsWithFirstAnswer` | app/circuit_breaker_rs485_handle.c:757-784 | the scan lasts through any number of silent sweeps and ends with the first answered one |
| `BreakerScan.RoundPollsTable` | app/circuit_breaker_rs485_handle.c:785-811 | a round of 32 turns leaves the table alone and asks every slot in turn, holding registers only in the first round |
| `BreakerScan.RoundAsksPresent` | app/circuit_breaker_rs485_handle.c:788-804 | the input requests of a round are those of the present addresses, in slot order |
| `BreakerScan.RoundAsksInTurn` | app/circuit_breaker_rs485_handle.c:788-804 | a round asks each present address, in slot order, for its input registers and its discrete inputs, and before them for its holding registers exactly in the first round |
| `BreakerScan.PresentAscends` | app/circuit_breaker_rs485_handle.c:764-773 | after a sweep the present addresses are exactly those that answered, in strictly ascending order |
| `BreakerScan.RoundsKeepTable` | app/circuit_breaker_rs485_handle.c:785-811 | any number of rounds keeps the table |
| `BreakerScan.EveryRoundPollsTheAnswering` | app/circuit_breaker_rs485_handle.c:748-811 | over the whole history, every round after the scan asks each address that answered exactly once, ascending, and nobody else: holding registers, input registers and discrete inputs in the first round, the last two in the others |
| `BreakerScan.EveryRoundPollsTheBus` | app/circuit_breaker_rs485_handle.c:748-811 | on a bus with the same devices throughout, one of them from 1 to 32, every round after the first sweep asks exactly those from 1 to 32, ascending, each once |
| `BreakerScan.AsksWhatItSends` | app/circuit_breaker_rs485_handle.c:755-804 | the index at which a turn stores its reply is the address in the input request it sends |
| `BreakerScan.StoresAreInRangeUnlessLastIsHeard` | app/circuit_breaker_rs485_handle.c:755-811 | over every run from start-up each accepted reply is stored at an index of at most 32, and all of them inside the 32-entry tables if and only if address 32 is never heard in the scan |
| `BreakerScan.BreakerThread.ThreadTurn` | app/circuit_breaker_rs485_handle.c:755-811 | flags, counters, table and requests do what one turn of the poller does; while scanning it asks the address one above its slot |
| `BreakerScan.BreakerThread.ThreadTurns` | app/circuit_breaker_rs485_handle.c:753-811 | any run of the thread is a run of the poller |
| `HttpPages.RunsStaySettled` | app/eht_http_server/http_server.c:156-290 | whatever a socket reports, its transfer state is zero whenever a request is taken and points inside the page during a transfer |
| `HttpPages.EveryReplyIsWhole` | app/eht_http_server/http_server.c:131-298 | over every run each answered page goes out whole in ceil(n / 2047) non-empty pieces, or a beginning of it if the peer closed; with no SOCK_CLOSED in a transfer, every piece on the connection of its request |
| `HttpPages.NextConnection` | app/eht_http_server/http_server.c:280-290 | the first page request on the connection after SOCK_CLOSED is answered if and only if the socket was idle; after a response it is dropped and leaves the socket idle with its state zero, in a transfer it is taken for a turn to send |
| `HttpPages.TransferEnds` | app/eht_http_server/http_server.c:350-513 | each turn in a transfer moves the offset on by 2047 until the last, which ends it |
| `HttpPages.PageIsServed` | app/eht_http_server/http_server.c:131-298 | a page of n > 0 bytes is sent in full in exactly ceil(n / 2047) turns with the socket established, whatever turns come between: one more reply, in as many pieces, all on the connection of its request |
| `HttpPages.NamedStandsFor` | app/eht_http_server/http_server.c:585-587 | "/" asks for index.html, "m" and "mobile" for the index.html below them, any other name for itself |
| `HttpPages.ReadyAgain` | app/eht_http_server/http_server.c:229-264 | an established turn after a response, and a close by the peer at any time, leave the socket idle with start, length and offset zero |
| `HttpPages.StaysReady` | app/eht_http_server/http_server.c:156-298 | an idle socket stays idle until it takes a request, whatever is reported |
| `HttpPages.OtherRequestIsDropped` | app/eht_http_server/http_server.c:185-212 | a request for no known page opens no reply and ends the response |
| `HttpPages.PageAfterPage` | app/eht_http_server/http_server.c:131-298 | two pages in sequence on one socket: after a page the turn that ends its response and any turns without a request, closes and new connections among them, the next page asked for is sent in full on its own connection |
| `HttpServer.ServedAlone` | app/eht_http_server/http_server.c:131-298 | in every interleaving over the sockets each fares as if it were served alone |
| `HttpServer.TurnSends` | app/eht_http_server/http_server.c:350-513 | a turn puts on the wire exactly the piece its reply gains |
| `HttpServer.EverySocketSendsItsPages` | app/eht_http_server/http_server.c:131-298 | in every interleaving every socket delivers its pages |
| `HttpServer.HttpServer.constructor` | app/eht_http_server/http_server.c:82-121 | the socket list is stored in order and every transfer state is zero |
| `HttpServer.HttpServer.GetHttpSequenceNum` | app/eht_http_server/http_server.c:99-111 | for a socket in the list it is the inverse of the socket number, and -1 exactly for a number not in the table |
| `HttpServer.HttpServer.FindUserRegWebContent` | app/eht_http_server/http_server.c:800-816 | the first page of that name is found, and none only if there is none |
| `HttpServer.HttpServer.ReadUserRegWebContent` | app/eht_http_server/http_server.c:819-834 | the buffer holds the page from the offset, zeros past its end, and a final zero, inside its 2048 bytes; the result counts the page's bytes; an entry without a page is looked at exactly for the number just past the last one |
| `HttpServer.HttpServer.SendHttpResponseBody` | app/eht_http_server/http_server.c:350-513 | exactly the next piece goes out on that socket, its state moves on or clears, and no other socket changes |
| `HttpServer.HttpServer.HttpProcessHandler` | app/eht_http_server/http_server.c:547-676 | a request for a known page sends its first piece and enters the transfer, any other changes nothing |
| `HttpServer.HttpServer.HttpServerRun` | app/eht_http_server/http_server.c:131-298 | one call does one turn of its socket, whatever the buffer held, and leaves the others alone; after a response or a close by the peer the socket is idle with its state zero; it stores behind the buffer exactly if it takes a request of 2048 bytes |
| `HttpServer.HttpServer.Serve` | app/eht_http_server/http_server.c:131-298 | after any schedule each wire holds the bodies of its socket's replies, in order, and the stores behind the buffer are counted |
| `HttpServer.NoStrayExactlyWithoutFullRequest` | app/eht_http_server/http_server.c:163-187 | in every schedule all end markers are stored inside the buffer if and only if no request taken is as long as the buffer |
| `GpsClock.BeijingIsLater` | app/gps_control.c:121-178 | Beijing time is a valid time exactly 28801 seconds later, across every carry and in every year |
| `GpsClock.SecondsDetermineTime` | app/gps_control.c:121-178 | two valid times with one second count are one time, so the correction is the only one |
| `GpsClock.MonthLengths` | app/gps_control.c:130-172 | the lengths of the twelve months and the leap years, of either calendar |
| `GpsClock.KnownTimes` | app/gps_control.c:121-178 | four dates: within a day, over the end of a month, into 29 February, into a new year |
| `GpsClock.GregorianExactlyOutsideTrap` | app/gps_control.c:156-171 | on Gregorian dates the every-fourth-year calendar is right if and only if the step does not fall out of a 28 February of a common century year |
| `GpsClock.NoTrapThisCentury` | app/gps_control.c:121-178 | for 2000..2099 the correction is Gregorian |
| `GpsClock.TrapExists` | app/gps_control.c:156-171 | 16:00 on 28 February 2100 is corrected to a 29 February that does not exist |
| `GpsClock.DateTime.Utc2Btc` | app/gps_control.c:121-178 | the in-place carries compute Beijing time for every valid time of the code's calendar |
| `GpsSentences.SentenceDelivered` | app/gps_control.c:24-51 | from any state an RMC sentence of at most 512 bytes is delivered byte for byte, and a longer one leaves the last delivery untouched |
| `GpsSentences.DeliveredAfterAnyHistory` | app/gps_control.c:24-51 | the same after any byte history |
| `GpsSentences.DeliveryIsTaken` | app/gps_control.c:36-43 | the text a newline delivers is what the parser finds, zeros behind it |
| `GpsSentences.DeliveryIsSentenceExactly` | app/gps_control.c:31-43 | after any history a delivery is an RMC sentence if and only if it has at least seven bytes and no newline among the three before 'MC' |
| `GpsSentences.StaleDelivery` | app/gps_control.c:31-43 | a sentence cut short by another '$', then a newline: two bytes are delivered |
| `GpsSentences.GpsPort.RxFull` | app/gps_control.c:24-51 | one interrupt keeps the write index in range and takes the collector one step |
| `GpsSentences.GpsPort.Receive` | app/gps_control.c:24-51 | any bytes leave the port in the collector's state |
| `GpsSentences.GetComma` | app/gps_control.c:76-93 | the index just after the first place where that many commas have been passed, zero if there is none |
| `GpsSentences.ParseTime` | app/gps_control.c:180-202 | the UTC time and date are read from where the ninth comma ends, whatever that place is |
| `GpsSentences.DateIsFound` | app/gps_control.c:76-93 | in an RMC sentence the ninth comma ends just before the date, however long the fields between |
| `GpsSentences.TimeRoundTrip` | app/gps_control.c:180-202 | the fields of a sentence written for a time of 2000..2099 are read back as that time |
| `GpsSentences.BeijingTime` | app/gps_control.c:121-202 | a sentence written for a UTC time is turned into Gregorian Beijing time |
| `UrlDecoder.UnescapeHttpUrl` | app/eht_http_server/http_parser.c:25-38 | on all memory in which it stops, decoding in place leaves what was there decoded at the front, the write index never passing the read index, and nothing behind the result changes |
| `UrlDecoder.SaysWhatC2DSays` | app/eht_http_server/http_parser.c:385-397 | a hex digit stands for its place among 0-9a-f or 0-9A-F, any other character for its own code |
| `UrlDecoder.OctetOfPair` | app/eht_http_server/http_parser.c:29-36 | of two hex digits in either case, mixed ones included, sixteen times the first plus the second; of any two characters the same in eight bits |
| `UrlDecoder.StopsAtTerminator` | app/eht_http_server/http_parser.c:25-38 | the decoder stops at the end of the string if and only if every escape is complete, and otherwise behind it |
| `UrlDecoder.CutEscapeIsOverrun` | app/eht_http_server/http_parser.c:29-36 | on "a%4" it steps over the end and decodes whatever stands behind |
| `UrlDecoder.UnescapeRestores` | app/eht_http_server/http_parser.c:25-38 | decoding any escaping of a string restores it, where an escape is any two hex digits, in either case each, that name the octet |
| `UrlDecoder.EscapingIsString` | app/eht_http_server/http_parser.c:25-38 | an escaping of a NUL-free string is NUL-free, so it is a C string |
| `UrlDecoder.PercentRoundTrip` | app/eht_http_server/http_parser.c:385-397 | every octet string is restored from the standard encoding of section 2.1 of RFC 3986 |
| `UrlDecoder.ReplaceToChar` | app/eht_http_server/http_parser.c:368-377 | exactly the characters of the string that equal the old one become the new one |
| `UrlDecoder.FormPassRestores` | app/eht_http_server/http_parser.c:235-238 | both passes restore form data exactly if it holds no '+' |
| `UrlDecoder.PlainPassRestores` | app/eht_http_server/http_parser.c:235-238 | both passes restore a plain percent-encoding exactly if the string holds no '+' |
| `UrlDecoder.ValueIsItsOwnExactlyWhenDecided` | app/eht_http_server/http_parser.c:223-247 | all older contents of the result buffer give a parameter one value if and only if every escape is complete or a NUL is decoded from its own characters |
| `UrlDecoder.OwnValue` | app/eht_http_server/http_parser.c:223-247 | and that value is what its own characters decode to, up to the NUL |
| `UrlDecoder.FormValue` | app/eht_http_server/http_parser.c:223-247 | the value of any NUL-free text escaped for a form is that text with a space for each plus sign, whatever stood in the buffer |
| `UrlDecoder.KnownValue` | app/eht_http_server/http_parser.c:223-247 | "a+b%2Bc%2f" becomes "a b c/" |
| `UrlDecoder.CutEscapeTakesOlder` | app/eht_http_server/http_parser.c:223-247 | after "a%4" two buffers give two values |
| `UrlDecoder.CutEscapeOfNul` | app/eht_http_server/http_parser.c:223-247 | after "a%0", cut short as well, every buffer gives "a" |
| `UrlDecoder.DecodeParam` | app/eht_http_server/http_parser.c:223-247 | the result buffer holds the value as decoded: for every NUL-free text as it was escaped, with a space for each plus sign, and so the text itself if it has none |

## Left out

- MqttHandlers.MqttClient.DeliverMessage: handlers are opaque values and do not change the table while it is walked.
- MqttPackets.PacketClient.ReadPacket: after an error or a timeout the contents of the buffer are not described.
- SlaveFrames.SlavePort.RxFull: what the branches for read and write answers copy into a table of measurements is not modelled; such frames are handed on whole.
- BreakerModbus.Master.FillRegisters: the field-by-field assignments of the register structure are one loop over a sequence of 49 registers.
- SlaveBus.Bus.Sweep: the device name in a search answer is an opaque value; the copy of 34 bytes into a 33-byte field is not modelled.
- SlaveBus.Bus.QueryOne: the device name that goes with an answer is a parameter, not read out of the buffer.
- HttpServer.HttpServer.ReadUserRegWebContent: what is copied for the number just past the last page, whose entry has no content, is not described; every call in the model is proved not to pass it.
- HttpServer.HttpServer.HttpServerRun: the request line and the response head are not parsed or built; the page name is taken as the parser leaves it, and CGI and POST answers are one event without a transfer.
- USART, timer, GPIO and W5500 register access, threads, sleeps and mutexes: turns of a thread and interrupts are steps.
- Connect, subscribe, publish and keep-alive of the MQTT client, whose packets are built by serializers that are not part of this model.
- The JSON reports and commands of app/eth_mqtt_handle.c.
- The flash storage of app/project_psm_control.c, beyond a table that reads back what was written.
- The floating-point fields of `gps_parse` and the measurement getters.
- The discrete-input and input-register messages of the breakers: the scan only uses whether a reply is accepted.
- Coil commands raised from MQTT, which pass a table index where the thread takes a bus address.
- The second CRC routine of app/autoeclosing_rs485_handle.c, the display, camera, NB-IoT and key handling.
