# Model of the monitoring system's core

The repository holds a family gateway: sensors and switches speak ZigBee over a serial line, a gateway passes requests
of a server on to them, and a bundled event library moves the bytes. This project states what the core of that program
does in Dafny and proves what it is relied on for.

- **The byte queue of the event library** (`EvChain`, `EvQueue`, `EvRuns`). A buffer is a list of chunks with a cached
  length and a cached last chunk with data. Whatever is relinked, realigned, split or merged, every operation acts on
  one plain byte string and keeps the representation invariant, over every run on two buffers.
- **Searching and reading lines** (`EvSearch`, `EvLines`) over any number of chunks, against the naive definitions.
- **The bufferevent pair** (`EvPair`): any run of calls does what a run on plain values does, in which no callback or
  suspension decides anything. Nothing is lost, repeated or reordered between the two ends, nothing waits that could go
  over, and the high-water mark is kept.
- **The serial pipeline** (`Codec`, `Messages`, `StreamSpec`, `ZbStream`, `EndToEnd`): messages are printed, cut up by
  the line, framed again behind noise, and decoded to what was sent.
- **Requests and responses in the gateway** (`GatewaySpec`, `GatewayLaws`, and the objects in `Generator`,
  `SessionCtrl`, `Dispatch`, `GatewayClient`, `GatewaySerial`, `Gateway`). The gateway is a step system over received
  messages, queue turns, device responses and timer ticks. Its theorems hold of the objects, because every run of the
  objects is a run of the system; `GatewayLaws` says which events change which part of it, and that the login guards the
  requests.
- **Client ids, devices** (`FgwServer`, `Devices`), **random numbers** (`Arc4`, `Uniform`), and **the script parser**
  (`Script`, `ScriptGrammar`, `ScriptPrinter`, `Formatter`), against a grammar that speaks of the text alone.

Where the program works on mutable objects, the model has classes with the same fields; each method is proved against a
function of its inputs and the old state, and the promises are proved about those functions. `hide` statements in proofs
only keep definitions away from the solver.

Things the code does that its documentation or names do not suggest, and that the theorems state as they are:

- `evbuffer_chain_insert` keeps the invariant only under a condition on spare chunks (`EvQueue.EvBuffer.InsertChain`),
  and three insertions suffice to lose it (`EvQueue.EvBuffer.SpareChunkBreaksInvariant`).
- Encoding writes the number of items into one byte, so longer lists do not come back (`Messages.DecodeOfFrame`).
- A frame that declares 65530 to 65533 bytes leaves the stream nothing to wait for (`StreamSpec.BreaksExactly`), and one
  over 4096 bytes is cut (`StreamSpec.ArrivesWholeExactlyIfItFits`).
- Noise that ends in 'Z' makes the stream lose step (`StreamSpec.InStepExactlyBehindCleanNoise`).
- A request can be answered with the response to another one once all inner numbers have been drawn while a response was
  waiting (`GatewaySpec.WithoutTheWindow`). Without that, it cannot (`GatewaySpec.AlwaysCorrelated`). In general a run
  goes wrong exactly if one of its steps takes a response from the queue in a clash: a session with the response's
  number is open whose request was drawn whole cycles of the generator earlier or later (`GatewaySpec.ClashesDecide`).
  No run answers a request twice (`GatewaySpec.NeverTwice`).
- The device registry's assertion at line 63 can fail (`Devices.AssertionCanFail`); `Devices.ZZBDevManager.Add` says
  when.
- Script compilation reports success if a term fails at the very end of the input (`Script.FailedTermIsAccepted`), and
  drops an argument that cannot be read if the call's parenthesis follows (`Script.BadArgumentIsDropped`). A success
  means that the script is a layout of the collected pieces exactly if its text shows neither
  (`ScriptGrammar.SuccessMeansWhole`).
- After `evbuffer_strspn` has come to the end of a buffer, its pointer stands at the front of the last chunk
  (`EvLines.Strspn`).
- A handler of the gateway server is deleted as often as it is removed (`FgwServer.DeletedAsOftenAsRemoved`), and
  nothing keeps it from being removed twice (`FgwServer.DeletedTwice`). The second removal can also put another client,
  which got the same id meanwhile and is still connected, out of the register (`FgwServer.SecondRemovalDropsAnother`).
- A message prints back to the bytes that it was decoded from exactly if its length field is the number of bytes that
  its body took (`Messages.PrintsBackExactly`); decoding accepts smaller length fields.

Parameters stand for what the model cannot see: whether a line is up, whether a reply fits the output buffer (it depends
on the device list), and the time between two sweeps. In the gateway, a ticket is the position of a request among all
accepted ones; no branch looks at it.

## Model

| member | source | states |
|---|---|---|
| `EvChain.Chain.AllocationFor` | 3rd/libevent-2.0/buffer.c:155-181 | an allocation is the smallest power of two from 512 up that has room for the data and the header |
| `EvChain.Chain.Align` | 3rd/libevent-2.0/buffer.c:1695-1701 | realigning moves the bytes to the front of the memory and changes none of them |
| `EvChain.FlattenConcat` | 3rd/libevent-2.0/buffer.c:813-856 | linking two lists of chains concatenates their byte strings |
| `EvChain.PlacedConcat` | 3rd/libevent-2.0/buffer.c:827-856 | linking keeps the invariant: the cached last chain with data is the one of the list behind |
| `EvChain.PlacedAfterInsert` | 3rd/libevent-2.0/buffer.c:283-311 | where the link of the last chain with data must point after an insertion behind the data, for every position of the first empty chain |
| `EvChain.PulledPlaced` | 3rd/libevent-2.0/buffer.c:1234-1283 | pulling bytes together leaves the link right in each case: last data chain absorbed, only chains before it absorbed, or none |
| `EvQueue.EvBuffer.FindVictim` | 3rd/libevent-2.0/buffer.c:265-277 | the chains freed behind the data are all empty, and the place is the first empty link from the cached one on |
| `EvQueue.EvBuffer.InsertChain` | 3rd/libevent-2.0/buffer.c:283-311 | the byte string grows by the chain; the representation invariant is kept if and only if the chain is empty, or no spare chain stood behind the data, or the buffer was empty |
| `EvQueue.EvBuffer.SpareChunkBreaksInvariant` | 3rd/libevent-2.0/buffer.c:1840-1849 | bytes, an empty chunk inserted to make space, and a chunk with bytes: the byte string is right and the invariant is lost |
| `EvQueue.EvBuffer.Add` | 3rd/libevent-2.0/buffer.c:1534-1617 | the contents become old ++ data, the invariant is kept, and nothing changes at a frozen end; one of four layouts (room, realign, grow, new chain) is taken without being visible |
| `EvQueue.EvBuffer.Prepend` | 3rd/libevent-2.0/buffer.c:1620-1691 | the contents become data ++ old, through the room in front, a split, or a new chain |
| `EvQueue.EvBuffer.Drain` | 3rd/libevent-2.0/buffer.c:951-1017 | the contents lose their first min(len, total) bytes; a frozen start refuses unless the buffer is empty |
| `EvQueue.EvBuffer.CopyOut` | 3rd/libevent-2.0/buffer.c:1035-1078 | the result is the first min(datlen, total) bytes, from any number of chains; the buffer is untouched |
| `EvQueue.EvBuffer.Remove` | 3rd/libevent-2.0/buffer.c:1021-1032 | what is returned and what stays make up the old contents |
| `EvQueue.EvBuffer.AddBuffer` | 3rd/libevent-2.0/buffer.c:859-902 | all bytes move behind the own ones by relinking, the other buffer is empty afterwards, both keep the invariant; self and frozen buffers are left alone |
| `EvQueue.EvBuffer.PrependBuffer` | 3rd/libevent-2.0/buffer.c:905-948 | all bytes move in front of the own ones by relinking, the other buffer is empty afterwards, both keep the invariant |
| `EvQueue.EvBuffer.AdvanceLastWithData` | 3rd/libevent-2.0/buffer.c:646-659 | the link moves to the last chain with data |
| `EvQueue.EvBuffer.RemoveBuffer` | 3rd/libevent-2.0/buffer.c:1084-1171 | exactly n = min(datlen, total) bytes move: dst becomes dst ++ src[..n] and src becomes src[n..], with whole chains relinked and the tail copied; both buffers keep the invariant |
| `EvQueue.EvBuffer.Pullup` | 3rd/libevent-2.0/buffer.c:1174-1283 | the byte string never changes; for 0 < size <= total the first chain holds at least size bytes, which are the first bytes of the string; the invariant is kept |
| `EvRuns.Perform` | 3rd/libevent-2.0/buffer.c:859-1691 | one call on either of two buffers does to their contents what the call does to two plain strings |
| `EvRuns.Replay` | 3rd/libevent-2.0/buffer.c:859-1691 | after any run of calls on two buffers, their contents and everything handed out are what the same run on plain strings gives, and both keep the invariant |
| `EvRuns.Pipeline` | 3rd/libevent-2.0/buffer.c:859-1171 | over any run that only pushes bytes along, what came out ++ second buffer ++ first buffer is what was written: first in, first out |
| `EvSearch.PtrSet` | 3rd/libevent-2.0/buffer.c:2411-2450 | a position becomes a pointer to the chain and offset that hold it, or -1 exactly if it is beyond the end |
| `EvSearch.MemcmpPieces` | 3rd/libevent-2.0/buffer.c:2457-2488 | comparing piece by piece, stopping at the first difference, is comparing the whole |
| `EvSearch.MemcmpSign` | 3rd/libevent-2.0/buffer.c:2456-2485 | the sign of a comparison is that of the first two bytes that differ |
| `EvSearch.PtrMemcmp` | 3rd/libevent-2.0/buffer.c:2457-2488 | the comparison across chains is that of the bytes at the position, or -1 if fewer are left |
| `EvSearch.SearchRange` | 3rd/libevent-2.0/buffer.c:2497-2559 | for a non-empty pattern: the least position from the start at which it occurs and ends by the end, or -1 exactly if there is none, over any number of chains; it terminates |
| `EvLines.FindEolChar` | 3rd/libevent-2.0/buffer.c:1318-1342 | looking in pieces of 128 bytes finds the first CR or LF, or none exactly if there is none |
| `EvLines.FindEol` | 3rd/libevent-2.0/buffer.c:1345-1364 | the same over the chains of a buffer |
| `EvLines.Strchr` | 3rd/libevent-2.0/buffer.c:1296-1315 | the first occurrence of a byte over the chains, or none exactly if there is none |
| `EvLines.Strspn` | 3rd/libevent-2.0/buffer.c:1367-1403 | the length of the maximal run of CR and LF from a place on, over chains, with the pointer moved behind it, or to the front of the last chunk at the end; -1 for a pointer without a chunk |
| `EvLines.SearchEol` | 3rd/libevent-2.0/buffer.c:1416-1488 | for each of the four styles: the first place where a terminator of that style begins, and its length |
| `EvLines.Readln` | 3rd/libevent-2.0/buffer.c:1491-1527 | a line is returned exactly if the text has a first line of the style; the old contents are the line, its terminator and the new contents; nothing changes without one |
| `EvLines.LineMeans` | 3rd/libevent-2.0/buffer.c:1415-1482 | the terminator search stops exactly where the first line ends, by a definition of lines and their terminators for each style that speaks of the text alone |
| `EvLines.FirstLineIsOne` | 3rd/libevent-2.0/buffer.c:1485-1519 | a text has one first line at most |
| `EvPair.NewPair` | 3rd/libevent-2.0/bufferevent_pair.c:113-148 | a new pair satisfies the invariant of the pair |
| `EvPair.MoveBytes` | 3rd/libevent-2.0/bufferevent_pair.c:151-197 | exactly the quota moves from output to input, in order, and the freezes are restored |
| `EvPair.WantsToTalk` | 3rd/libevent-2.0/bufferevent_pair.c:200-207 | bytes go over exactly if both directions are on, reading is not suspended and something waits |
| `EvPair.Transfer` | 3rd/libevent-2.0/bufferevent_pair.c:151-197 | a transfer moves the quota; afterwards reading is suspended exactly if the reader is at its high-water mark |
| `EvPair.InputChanged` | 3rd/libevent-2.0/bufferevent.c:117-130 | the watermark callback suspends at the mark, and resumes and refills below it |
| `EvPair.Write` | 3rd/libevent-2.0/bufferevent.c:377-383 | the step on values for a write: the bytes are appended to the output, and as many go over as the partner has room for below its mark |
| `EvPair.Read` | 3rd/libevent-2.0/bufferevent.c:395-398 | the step on values for a read: the reader gets the front of its input, and the room that is made is filled at most to the mark |
| `EvPair.Enable` | 3rd/libevent-2.0/bufferevent_pair.c:230-255 | the step on values for switching on: waiting bytes go over in either direction, each input at most up to its mark |
| `EvPair.Disable` | 3rd/libevent-2.0/bufferevent_pair.c:258-266 | the step on values for switching off: nothing moves |
| `EvPair.SetHighMark` | 3rd/libevent-2.0/bufferevent.c:517-562 | the step on values for a new mark: reading is suspended above it, as it was exactly at it, and below it resumed, with a refill up to the mark that suspends it again if it is reached |
| `EvPair.Flush` | 3rd/libevent-2.0/bufferevent_pair.c:282-307 | for each direction asked for, unless the mode is normal: an input below its mark is filled up to the mark at most, and one without a mark or at the mark takes everything; a direction not asked for, and the normal mode, move nothing |
| `EvPair.Perform` | 3rd/libevent-2.0/bufferevent_pair.c:150-307 | one call on the objects is the step on values; what it returns is the front of the input for a read, and nothing otherwise |
| `EvPair.Continue` | 3rd/libevent-2.0/bufferevent_pair.c:150-307 | any run on a pair in use ends in exactly the state, and hands out exactly the bytes, of the run on values |
| `EvPair.Converse` | 3rd/libevent-2.0/bufferevent_pair.c:113-307 | any run on a new pair ends in exactly the state, and hands out exactly the bytes, of the run on values; the bytes that the reads returned ++ input ++ output is what was written, in both directions; the output is empty while both sides are on and the reader is below its mark |
| `EvPair.StepKeepsMarks` | 3rd/libevent-2.0/bufferevent_pair.c:150-307 | a call changes the settings of its own end only; no call, a flush included, brings an input that stands below its mark beyond the mark, and only a flush lets one at the mark grow |
| `EvPair.PassMeans` | 3rd/libevent-2.0/bufferevent_pair.c:151-197 | a transfer in plain terms: order kept; everything without a mark, the room under the mark below it, and at the mark everything or nothing as the caller chooses |
| `EvPair.CallMeans` | 3rd/libevent-2.0/bufferevent_pair.c:150-280 | any call but a flush in plain terms: which bytes stand where afterwards, by who writes, who reads and the marks |
| `EvPair.RunKeepsMarks` | 3rd/libevent-2.0/bufferevent_pair.c:150-307 | over any run: the settings are those chosen, and the input of an end whose mark stays and which is not flushed never grows beyond max(old size, mark) |
| `EvPair.CuttingWritesDoesNotMatter` | 3rd/libevent-2.0/bufferevent_pair.c:209-227 | writing two pieces is writing the whole, in any state of the pair |
| `EvPair.SuspensionNeverShows` | 3rd/libevent-2.0/bufferevent.c:117-130 | the bytes held and handed out over any run are the same whatever the suspension flags were |
| `EvPair.HandedAtMost` | 3rd/libevent-2.0/bufferevent.c:395-398 | the reads of a run hand out at most as many bytes as they ask for |
| `Codec.Int16RoundTrip` | libframework/zcodec.c:86-111 | a 16-bit field is read back as it was written |
| `Codec.Int16Inverse` | libframework/zcodec.c:86-111 | two bytes are the encoding of what they decode to (used by `Messages.PrintsBackExactly`) |
| `Codec.EncodeInt16` | libframework/zcodec.c:86-97 | two bytes are written, v / 256 and then v % 256, exactly if there is room, and nothing else changes |
| `Codec.DecodeInt16` | libframework/zcodec.c:100-111 | 256 times the first byte and the second, or failure exactly if there are fewer than two |
| `Codec.EncodeByte` | libframework/zcodec.c:55-64 | one byte is written exactly if there is room |
| `Codec.DecodeByte` | libframework/zcodec.c:67-76 | one byte is read exactly if there is one |
| `Messages.LengthIsTrue` | server/zzigbee_message.cc:236-280 | the 16-bit length field is the true length of the body for lists of at most 255 entries |
| `Messages.LengthWraps` | server/zzigbee_message.cc:236-280 | for any message the length field is the length of the body modulo 65536 |
| `Messages.ZigBeeMsg.EncodeHeader` | server/zzigbee_message.cc:36-67 | synchronisation word and header stand in the buffer exactly if 14 bytes fit; nothing outside is written |
| `Messages.ZigBeeMsg.Encode` | server/zzigbee_message.cc:36-124 | encoding succeeds exactly if 14 + body length bytes fit, then exactly the wire form stands there; nothing outside the given bytes changes, also on failure |
| `Messages.ZigBeeMsg.EncodeGetReq` | server/zzigbee_message.cc:236-280 | count and items, written one by one with a check before each |
| `Messages.ZigBeeMsg.EncodeSetReq` | server/zzigbee_message.cc:458-509 | count and pairs, written one by one with a check before each |
| `Messages.ZigBeeMsg.DecodeGetReq` | server/zzigbee_message.cc:282-329 | the items that the count announces are appended to the list |
| `Messages.ZigBeeMsg.DecodeSetReq` | server/zzigbee_message.cc:511-564 | as many pairs as the bytes hold are appended; failure exactly if they hold fewer than announced |
| `Messages.ZigBeeMsg.DecodeFixed` | server/zzigbee_message.cc:126-225 | the bodies of fixed size are decoded, with the same checks of the length |
| `Messages.ZigBeeMsg.Decode` | server/zzigbee_message.cc:69-83 | on any bytes, complete or not, result and fields are those of the reference decoder |
| `Messages.BodyRoundTrip` | server/zzigbee_message.cc:87-869 | a body comes back into a blank message exactly if its list can be counted in one byte |
| `Messages.DecodeOfFrame` | server/zzigbee_message.cc:36-869 | decoding a printed message gives back all fields and uses all bytes if and only if its list has at most 255 entries, whatever stands behind it in memory |
| `Messages.BodyPrintsBack` | server/zzigbee_message.cc:87-869 | whatever body decodes, from any bytes: its printed form is exactly the bytes used, and its list can be counted in one byte |
| `Messages.PrintsBackExactly` | server/zzigbee_message.cc:36-869 | the other way round: what decodes from any bytes prints back to the bytes used if and only if its length field is the number of bytes that the body took |
| `Messages.HeaderLayout` | server/zzigbee_message.cc:36-67 | which byte of a message on the line holds which field of the header: eight times Z, version, length, command, address |
| `Messages.BodyLayout` | server/zzigbee_message.cc:87-869 | which byte of a body holds which field, for every class |
| `Messages.DecodesExactly` | server/zzigbee_message.cc:69-869 | decoding succeeds if and only if the header is there, the length field promises no more than there is (at least eight for a register request; a bind request does not look), and the bytes of the class are there |
| `StreamSpec.RunConcat` | server/zb_stream.cc:66-226 | feeding two pieces is feeding the whole |
| `StreamSpec.ChunkingDoesNotMatter` | server/zb_stream.cc:66-226 | however the line cuts a stream, state, partial buffer and frames are the same |
| `StreamSpec.FramesOnlyGrow` | server/zb_stream.cc:188-226 | completed frames stay, in order, whatever comes |
| `StreamSpec.BreaksExactly` | server/zb_stream.cc:160-179 | the 16-bit sum of length and header leaves nothing to wait for exactly for the declared lengths 65530 to 65533 |
| `StreamSpec.FindsFirstSync` | server/zb_stream.cc:109-142 | reset to zero on a mismatch loses no match: the first eight Z in a row are found where they end |
| `StreamSpec.CleanMeans` | server/zb_stream.cc:109-142 | noise is harmless exactly if it neither holds eight Z in a row nor ends in Z |
| `StreamSpec.InStepExactlyBehindCleanNoise` | server/zb_stream.cc:109-142 | the automaton stands behind the synchronisation word, and not before, if and only if the noise is clean |
| `StreamSpec.ReceivesFrame` | server/zb_stream.cc:144-226 | a declared frame is filed, cut to the receive buffer, and the automaton starts afresh |
| `StreamSpec.ArrivesWholeExactlyIfItFits` | server/zb_stream.cc:188-226 | a frame arrives whole if and only if it has at most 4096 bytes |
| `StreamSpec.Resynchronises` | server/zb_stream.cc:66-226 | from noise, word and frame over and over exactly the frames come out, in order, whatever Z they contain |
| `ZbStream.SynBytesMatcher.Feed` | server/syn_byte_matcher.h:66-78 | one byte advances the match, mismatches, or finds it finished |
| `ZbStream.ZDataBuffer.Put` | libframework/zdata_buffer.h:69-83 | as many bytes as there is room for are appended, the rest is dropped |
| `ZbStream.ZDataBuffer.Get` | libframework/zdata_buffer.h:99-111 | the bytes between position and limit, in order |
| `ZbStream.ZBStream.DoInit` | server/zb_stream.cc:109-142 | the bytes used are taken as the specification takes them, and at least one is |
| `ZbStream.ZBStream.DoWaitingForHead` | server/zb_stream.cc:144-186 | likewise for a head that comes in pieces, with the 16-bit sum of the lengths |
| `ZbStream.ZBStream.DoWaitingForData` | server/zb_stream.cc:188-226 | likewise for the data; a complete message is filed |
| `ZbStream.ZBStream.Feed` | server/zb_stream.cc:66-107 | all bytes are taken, the result is their number, and the state is that of the byte-wise specification |
| `ZbStream.ZBStream.Read` | server/zb_stream.cc:15-63 | the front of the first message, as many bytes as there is room for and never more; the message is gone if all of it was returned, and its rest stands first otherwise |
| `ZbStream.ReadShrinks` | server/zb_stream.cc:15-63 | a read takes bytes off the front of one message and loses none |
| `EndToEnd.ReadAllJoins` | server/zb_stream.cc:15-63 | reads of any size return all filed bytes in order |
| `EndToEnd.ReadAllWhole` | server/zb_stream.cc:15-63 | with enough room each read returns one whole message |
| `EndToEnd.ReadAllFits` | server/zb_stream.cc:13-64 | no read returns more than there is room for, and none returns nothing while messages are filed |
| `EndToEnd.OnRead` | server/zserial.cc:240-262 | after feeding, the handler gets all filed messages, in pieces of at most 1024 bytes, and nothing stays behind |
| `EndToEnd.MessagesArrive` | server/zb_stream.cc:15-226 | messages of at most 255 entries, printed behind clean noise and cut anywhere, are read as one message each and decode to what was sent |
| `EndToEnd.Transmit` | server/zzigbee_message.cc:36-869 | the same with the objects: encode, feed in two pieces, read, decode into a blank object gives equal fields |
| `GatewaySpec.SameId` | server/zgenerator.h:30-40 | two draws fewer than 0xFFFFFF apart give different numbers |
| `GatewaySpec.DrawIs` | server/zgenerator.h:30-40 | the number drawn follows from how many were drawn before |
| `GatewaySpec.NewNumberIsFree` | server/fgw_client_handler.cc:226-236 | inside the window the number of a new request is not in use |
| `GatewaySpec.ReceiveKeeps` | server/fgw_client_handler.cc:196-239 | accepting a message keeps the invariant: unique tickets, numbers and external numbers |
| `GatewaySpec.TakeSerialKeeps` | server/zzigbee_handler.cc:340-558 | the serial module answers under the number and with the kind of the request; the invariant is kept |
| `GatewaySpec.ResponseMeetsItsSession` | server/fgw_client_handler.cc:54-75 | a response that finds a session finds that of the very request it answers |
| `GatewaySpec.TakeGatewayKeeps` | server/fgw_client_handler.cc:54-75 | answering keeps the invariant: replies fit their requests, and no request is answered twice |
| `GatewaySpec.RunKeeps` | server/fgw_client_handler.cc:54-239 | every run of receiving, queues and timers that respects the window keeps the invariant |
| `GatewaySpec.AlwaysCorrelated` | server/fgw_client_handler.cc:54-239 | from the start, over every run that respects the window: each reply has the external number and kind of its own accepted request, and no request is answered twice |
| `GatewaySpec.GoesWrongExactly` | server/fgw_client_handler.cc:54-75 | a reply fails to fit its request if and only if the session it found was drawn whole cycles of the generator, and at least one, away from the request answered |
| `GatewaySpec.InEveryRun` | server/fgw_client_handler.cc:54-239 | over every run from the start, paced or not: each reply comes from a session and a response under the same number, no request is answered twice, and the server can rely on the replies if and only if none of them comes from draws whole cycles apart |
| `GatewaySpec.NeverTwice` | server/fgw_client_handler.cc:54-239 | over every run, paced or not: no request has two sessions or two replies, or a session after its reply |
| `GatewaySpec.TakeGatewayGoesWrongExactly` | server/fgw_client_handler.cc:54-75 | while all replies fit, taking the next response from the queue sends a wrong one if and only if the state before it is a clash |
| `GatewaySpec.OthersDoNotDecide` | server/fgw_client_handler.cc:54-239 | no other step makes a reply right or wrong, and a wrong one stays wrong |
| `GatewaySpec.ClashesDecide` | server/fgw_client_handler.cc:54-239 | over every run, paced or not: the server can rely on the replies if and only if no response of the run is taken in a clash |
| `GatewaySpec.LateResponseIsDropped` | server/fgw_client_handler.cc:54-75 | a response brings exactly one reply if the session of its request is open and the reply fits, and changes nothing if the session has expired |
| `GatewaySpec.NothingIsLost` | server/fgw_client_handler.cc:54-239 | an accepted request whose session does not expire and whose number is not blocked by a bind session is pending or answered after any run, and answered once the queues are empty |
| `GatewaySpec.AcceptedIsPending` | server/fgw_client_handler.cc:196-239 | a request is pending as soon as it is accepted |
| `GatewaySpec.SessionAges` | server/fgw_client_handler.cc:77-99 | whatever else happens, an unanswered session is there if and only if the time passed is within its timeout |
| `GatewaySpec.SurvivesSoManySweeps` | libframework/zsession.h:22-39 | a new session survives floor(timeout / delta) sweeps and is gone after the next |
| `GatewaySpec.BindSessionStays` | server/zzigbee_handler.cc:49-72 | whatever else happens, a bind session that no device answers stays for its whole time, and no other takes its place |
| `GatewaySpec.BindSweeps` | server/zzigbee_handler.cc:49-72 | after n equal sweeps the bind session is there, with its age, if and only if the age is within the timeout |
| `GatewaySpec.BindSurvivesSoManySweeps` | libframework/zsession.h:22-39 | a new bind session survives floor(timeout / delta) sweeps and is gone after the next |
| `GatewaySpec.WithoutTheWindow` | server/zgenerator.h:30-40 | the window is needed: if all numbers are drawn while a response waits, a later request can get a reply of the wrong kind |
| `GatewayLaws.LoginChangesExactly` | server/fgw_client_handler.cc:150-194 | over all events: the gateway becomes registered only by a login response with code 0 while it waits for one, and stays so until the connection is made again |
| `GatewayLaws.AcceptsExactly` | server/fgw_client_handler.cc:196-239 | over all events: a request is accepted if and only if it is received after the login under an unused external number; it then goes to the serial module with its kind and number |
| `GatewayLaws.NothingBeforeTheLogin` | server/fgw_client_handler.cc:30-52 | a message before the login changes the login at most |
| `GatewayLaws.DrawsExactly` | server/fgw_client_handler.cc:196-239 | a number is drawn exactly for a message after the login under an unused external number |
| `GatewayLaws.RegisteredExactly` | server/fgw_client_handler.cc:30-194 | over every run: the gateway is registered if and only if a login response with code 0 came after the last connection |
| `GatewayLaws.AcceptedExactly` | server/fgw_client_handler.cc:30-239 | over every run: a request is accepted if and only if that holds and its external number is unused |
| `GatewayLaws.NoRequestBeforeTheLogin` | server/fgw_client_handler.cc:30-239 | over every run: before the first accepted request lies a login response with code 0, and before that a connection |
| `GatewayLaws.RepliesExactly` | server/fgw_client_handler.cc:54-75 | over all events: a reply is sent if and only if a response that fits is taken and its number has a session |
| `GatewayLaws.SessionsBeginExactly` | server/fgw_client_handler.cc:196-239 | over all events: a session begins if and only if a request is accepted, under the number drawn for it and at age 0 |
| `GatewayLaws.SessionsEndExactly` | server/fgw_client_handler.cc:54-99 | over all events: a session ends if and only if a message with its number is taken or a sweep brings its age over 10000; otherwise only sweeps age it |
| `GatewayLaws.SerialAnswersExactly` | server/zzigbee_handler.cc:340-475 | over all events: the serial module answers every request but one other than for the device list that has the number of the open bind session |
| `GatewayLaws.BindBeginsExactly` | server/zzigbee_handler.cc:523-558 | over all events: a bind session begins if and only if none is open and a bind request is taken while the line is up |
| `GatewayLaws.BindEndsExactly` | server/zzigbee_handler.cc:49-72 | over all events: it ends if and only if the device with address 0 answers or a sweep brings its age over 8000 |
| `GatewayLaws.QueuesChangeAtTheirEnds` | server/fgw_client_handler.cc:54-239 | over all events: messages enter the queues at the end and leave at the front, and which events move which queue |
| `Generator.CycleCovers` | server/zgenerator.h:22-50 | one cycle brings every number of the range exactly once, from any state |
| `Generator.HandlerIdGenerator.Next` | server/zgenerator.h:30-40 | an open generator draws the next number of the cycle, inside the range; a closed one repeats itself |
| `FgwServer.SearchIsComplete` | server/fgw_server.cc:133-165 | the search for a free id finds one exactly if one is free, and only one |
| `FgwServer.FGWServer.GenHandlerId` | server/fgw_server.cc:133-165 | from any state: the first free id in cyclic order, in [1, max] and not in use; INVALID_ID if and only if every id is taken; it stops within one cycle |
| `FgwServer.FGWServer.OnAccept` | server/fgw_server.cc:96-131 | the insertion never meets another client; a client is turned away exactly if all ids are taken |
| `FgwServer.FGWServer.RemoveHandler` | server/fgw_server.cc:56-71 | the id is free again and the handler is queued for deletion; it will be deleted once, and not while in use, if and only if it was not queued before |
| `FgwServer.Serve` | server/fgw_server.cc:56-131 | any run of connecting, removing and timer calls, in which any handler may be removed at any time and again, ends where the run on values does; every handler is deleted, or waits for it, exactly as often as it was removed |
| `FgwServer.Perform` | server/fgw_server.cc:56-131 | one call on the objects is the step on values, with ids, register, waiting list and deleted handlers |
| `FgwServer.DeletedAsOftenAsRemoved` | server/fgw_server.cc:54-94 | over any run, every handler is deleted, or waits for it, as often as it was removed |
| `FgwServer.RegisteredExactly` | server/fgw_server.cc:56-71 | over any run, a handler stays registered exactly until a handler with its id is removed |
| `FgwServer.RegisteredUntilRemoved` | server/fgw_server.cc:56-131 | over any run that removes no handler twice, exactly the handlers that were not removed are registered |
| `FgwServer.CleanExactly` | server/fgw_server.cc:54-94 | no handler is deleted twice or while registered if and only if none is removed twice |
| `FgwServer.DeletedTwice` | server/fgw_server.cc:63-65 | a run from the start deletes a handler twice |
| `FgwServer.SecondRemovalDropsAnother` | server/fgw_server.cc:54-71 | a run from the start leaves a client that was never removed out of the register |
| `SessionCtrl.OneToOne` | libframework/zsession_ctrl.h:181-201 | when map and list agree, the two key look-ups are inverse to each other |
| `SessionCtrl.WithoutAgrees` | libframework/zsession_ctrl.h:141-170 | taking one pair out keeps the agreement and removes exactly that pair |
| `SessionCtrl.ZSessionCtrl2Key.Add` | libframework/zsession_ctrl.h:118-139 | a session is added if and only if neither key is in use; otherwise nothing changes; map and list agree |
| `SessionCtrl.ZSessionCtrl2Key.FindByKey2` | libframework/zsession_ctrl.h:107-116 | the session under the first key that is paired with the second, or none exactly if no pair has it |
| `SessionCtrl.ZSessionCtrl2Key.GetKey1ByKey2` | libframework/zsession_ctrl.h:181-190 | the one first key paired with a second |
| `SessionCtrl.ZSessionCtrl2Key.GetKey2ByKey1` | libframework/zsession_ctrl.h:192-201 | the one second key paired with a first |
| `SessionCtrl.ZSessionCtrl2Key.EraseKeyPair` | libframework/zsession_ctrl.h:155-167 | the pair is always found (the assertion holds), and only it goes |
| `SessionCtrl.ZSessionCtrl2Key.RemoveByKey1` | libframework/zsession_ctrl.h:141-170 | entry and pair of the key go together; agreement is kept |
| `SessionCtrl.ZSessionCtrl2Key.RemoveByKey2` | libframework/zsession_ctrl.h:171-179 | the session of the second key goes, with both of its entries |
| `SessionCtrl.ZSessionCtrl2Key.Erase` | libframework/zsession_ctrl.h:206-222 | erasing during iteration keeps the agreement, and its assertion holds |
| `Dispatch.ZDispatcher.RegisterModule` | libframework/zdispatcher.cc:40-53 | types of registered modules stay unique; a second module of a type is refused |
| `Dispatch.ZDispatcher.FindModule` | libframework/zdispatcher.cc:55-68 | the only module of the type, or none exactly if there is none |
| `Dispatch.ZDispatcher.SendDirect` | libframework/zdispatcher.cc:7-23 | the message goes to the end of the right queue and to no other; failure exactly if there is no such module |
| `GatewayClient.FGWClientForwardSession.EventPush` | server/fgw_client_session.h:61-87 | in the first state, a request goes to the serial module under the session's number and anything else closes the session; a session that waits does nothing |
| `GatewayClient.FGWClientForwardSession.EventInner` | server/fgw_client_session.h:89-117 | to a session that waits, a response that fits goes out under the external number, and the session closes in any case; one that does not wait does nothing |
| `GatewayClient.FGWClientForwardSession.DoTimeout` | libframework/zsession.h:22-35 | the session closes exactly if its age passes the timeout |
| `GatewayClient.FGWClientHandler.ExternalKeys` | server/fgw_client_handler.cc:217-224 | the index knows an external number exactly if an open session has it |
| `GatewayClient.FGWClientHandler.OnReadWaitForServer` | server/fgw_client_handler.cc:150-194 | the handler is registered, and the result is OK, exactly for a login response with code 0 |
| `GatewayClient.FGWClientHandler.OnReadRegistered` | server/fgw_client_handler.cc:196-239 | a duplicate external number fails and changes nothing; otherwise a number is drawn, and a request gets a session and goes to the serial queue |
| `GatewayClient.FGWClientHandler.OnInnerMsg` | server/fgw_client_handler.cc:54-75 | the session of the number answers and is removed; without one nothing happens |
| `GatewayClient.SweptStep` | server/fgw_client_handler.cc:77-99 | erasing while iterating: one more session swept, the others as they were |
| `GatewayClient.FGWClientHandler.Routine` | server/fgw_client_handler.cc:77-99 | the sweep ages every session and removes exactly those past their timeout, from map and list |
| `GatewaySerial.ZZigBeeHandler.OneSession` | server/zzigbee_handler.cc:523-558 | bind sessions all have second key 0, so there is at most one |
| `GatewaySerial.ZZigBeeHandler.OnInnerMsg` | server/zzigbee_handler.cc:22-47 | what each kind of message makes of the queues and of the bind session |
| `GatewaySerial.ZZigBeeHandler.ProcessRequest` | server/zzigbee_handler.cc:340-474 | a request is answered under its own number to where it came from, with result OK, unless its number has an open session; for the device list always |
| `GatewaySerial.ZZigBeeHandler.OnDeviceResponse` | server/zzigbee_handler.cc:220-329 | a device response ends the bind session exactly for address 0, and goes under its number to the module that asked and to no other |
| `GatewaySerial.ZZigBeeHandler.Routine` | server/zzigbee_handler.cc:49-72 | the sweep ends the bind session exactly past its timeout |
| `Gateway.Fgw.OnRead` | server/fgw_client_handler.cc:30-52 | on the objects, a message before the login changes the login state at most, and that only by a login response with code 0; otherwise the step is that of the step system |
| `Gateway.Fgw.OnReadRegistered` | server/fgw_client_handler.cc:196-239 | on the objects the step is that of the step system |
| `Gateway.Fgw.SerialTakes` | libframework/zmodule.h:35-48 | the first message is handled and popped: the step of the step system |
| `Gateway.Fgw.ClientTakes` | libframework/zmodule.h:35-48 | likewise for the client module |
| `Gateway.Fgw.Replay` | server/fgw_client_handler.cc:31-290 | any run of events on the objects is the run of the step system, so all its theorems hold of the objects |
| `Gateway.Fgw.CheckSerialQueue` | libframework/zmodule.h:35-48 | the queue is worked off in order and is empty afterwards |
| `Gateway.Fgw.Turn` | server/fgw.cc:44-50 | one turn of the main loop is a run of the step system that leaves nothing on its way |
| `Devices.Compare` | server/zbdefines.h:147-160 | the comparison decides by the first difference |
| `Devices.StrictTotal` | server/zbdefines.h:147-160 | the order is strict and total, and equivalence is equality of the bytes |
| `Devices.Transitive` | server/zbdefines.h:147-160 | the order is transitive |
| `Devices.RunKeeps` | server/zbdevice_manager.cc:26-93 | in every run network addresses stay unique and devices active |
| `Devices.OthersCannotTakeIt` | server/zbdevice_manager.cc:26-93 | whatever others register, a device keeps its entry and its network address |
| `Devices.RegisterMeans` | server/zbdevice_manager.cc:26-93 | what each outcome of a registration stores and leaves alone |
| `Devices.EntryIsLastRegistration` | server/zbdevice_manager.cc:7-93 | over every run: a device is known if and only if it was registered since the last reset, with the address, name and kind of its last successful registration |
| `Devices.AssertionCanFail` | server/zbdevice_manager.cc:59-63 | the assertion fails in a reachable registry: two known devices, one comes with the other's address |
| `Devices.ZZBDevManager.FindMac` | server/zbdevice_manager.h:28-34 | the device object of the hardware address |
| `Devices.ZZBDevManager.FindAddr` | server/zbdevice_manager.h:20-26 | the only device with the network address, or none exactly if none has it |
| `Devices.ZZBDevManager.Add` | server/zbdevice_manager.cc:26-93 | a registration that comes through leaves one device under both addresses, with the address, name and kind that it brought; a known device keeps its state and its old address is free; all other devices, and everything on refusal, stay as they were; refused or stopped exactly if another device has the address |
| `Devices.ZZBDevManager.Move` | server/zbdevice_manager.cc:34-50 | a changed network address moves exactly one entry |
| `Devices.ZZBDevManager.Reset` | server/zbdevice_manager.cc:7-24 | both maps are empty |
| `Devices.Replay` | server/zbdevice_manager.cc:7-93 | any run of calls on the two maps is the run on one map, so no two devices ever have the same network address and all are active |
| `Arc4.EveryByteOccurs` | 3rd/libevent-2.0/arc4random.c:76-80 | a table without repetitions holds every byte |
| `Arc4.Reversible` | 3rd/libevent-2.0/arc4random.c:408-420 | drawing a byte can be undone, so no two states run into one |
| `Arc4.AfterKeeps` | 3rd/libevent-2.0/arc4random.c:408-420 | any number of draws keeps the table a permutation |
| `Arc4.MixKeeps` | 3rd/libevent-2.0/arc4random.c:106-121 | mixing in any seed keeps the table a permutation |
| `Arc4.ByteDecides` | 3rd/libevent-2.0/arc4random.c:113-119 | mixing different bytes into one state gives different states, and different tables |
| `Arc4.MixReversible` | 3rd/libevent-2.0/arc4random.c:113-119 | mixing a byte in can be undone by whoever knows the byte |
| `Arc4.MixInjective` | 3rd/libevent-2.0/arc4random.c:106-121 | one seed takes different states to different states |
| `Arc4.LastByteCounts` | 3rd/libevent-2.0/arc4random.c:106-121 | two seeds of 256 bytes that differ in the last one only give different tables |
| `Arc4.SeedBytesUsed` | 3rd/libevent-2.0/arc4random.c:106-121 | only the first 256 bytes of a seed count, and a shorter one counts as if repeated |
| `Arc4.AlwaysPermutation` | 3rd/libevent-2.0/arc4random.c:95-121 | after set-up, every run of seeding and drawing leaves a permutation of 0..255 |
| `Arc4.Arc4Stream.Init` | 3rd/libevent-2.0/arc4random.c:95-104 | the table is the identity and both indices are 0 |
| `Arc4.Arc4Stream.AddByte` | 3rd/libevent-2.0/arc4random.c:113-119 | in fields: i is one further, j is j plus the table byte there plus the seed byte modulo 256, and the two table bytes are exchanged |
| `Arc4.Arc4Stream.AddRandom` | 3rd/libevent-2.0/arc4random.c:106-121 | the loop over 256 bytes is the mixing on values; i ends one lower than it began, and j with it |
| `Arc4.Arc4Stream.GetByte` | 3rd/libevent-2.0/arc4random.c:408-420 | in fields: i is one further, j is j plus the table byte there modulo 256, the two table bytes are exchanged, and the byte at their sum is returned |
| `Arc4.Arc4Stream.GetWord` | 3rd/libevent-2.0/arc4random.c:422-433 | four bytes, the first one highest |
| `Arc4.WordBytes` | 3rd/libevent-2.0/arc4random.c:422-433 | the four bytes of a word, the first one drawn highest |
| `Uniform.ThresholdIn32Bits` | 3rd/libevent-2.0/arc4random.c:513-523 | both 32-bit computations give 2^32 mod bound, also for bound 2^31, where they wrap around |
| `Uniform.ExactlyOne` | 3rd/libevent-2.0/arc4random.c:496-504 | among any bound consecutive words exactly one leads to a result |
| `Uniform.Unbiased` | 3rd/libevent-2.0/arc4random.c:496-537 | each result below the bound comes from exactly (2^32 - min) / bound accepted words, and from at least one |
| `Uniform.MostAreAccepted` | 3rd/libevent-2.0/arc4random.c:525-530 | fewer than half of all words are rejected |
| `Uniform.Arc4RandomUniform` | 3rd/libevent-2.0/arc4random.c:505-538 | the first word that is at least 2^32 mod bound decides: the result is that word mod bound, and exactly the words up to it are drawn; below 2 the result is 0 and nothing is drawn |
| `Script.VarFuncIsTree` | server/zformatter.cc:107-211 | on every input, a term that is read holds calls, numbers and the argument only |
| `Script.ValueOfPlaces` | server/zformatter.cc:273-294 | digits count by their places |
| `Script.AtoiMeans` | server/zformatter.cc:273-294 | the value of a number is exact up to 31 bits, right modulo 2^32 up to 63 bits, and -1 beyond |
| `Script.ArgumentExactly` | server/zformatter.cc:107-211 | a name behind a dollar, not followed by a parenthesis, is the argument exactly if it is a number that is taken to be 1, and fails otherwise |
| `Script.ArgsAreTrees` | server/zformatter.cc:157-178 | arguments hold no text, or the reader stands at a quote, where the call fails |
| `Script.StopsAtDollar` | server/zformatter.cc:18-52 | where the pieces end, the whole input is read or a dollar starts a term that fails |
| `Script.BadArgumentIsDropped` | server/zformatter.cc:157-184 | the script "$div($2)" compiles to a call without arguments |
| `ScriptGrammar.RunIsSpan` | server/zformatter.cc:296-299 | skipping characters ends where the run of such characters ends in the text |
| `ScriptGrammar.TextRunIs` | server/zformatter.cc:54-92 | plain text ends at the end or at the first place where something that starts a term follows a dollar |
| `ScriptGrammar.TermSound` | server/zformatter.cc:107-211 | what the parser makes of a dollar stands in the text: a term, or the start of one that goes wrong |
| `ScriptGrammar.TermComplete` | server/zformatter.cc:107-211 | a term that stands in the text, in any layout, is what the parser reads |
| `ScriptGrammar.FailsComplete` | server/zformatter.cc:107-211 | a term that goes wrong in the text, by its name, its function, its arguments or its brace, fails the parser there |
| `ScriptGrammar.CompilesExactly` | server/zformatter.cc:18-52 | a script compiles if and only if its text derives some pieces, drops an argument, or ends in an unfinished term, and these shut each other out; the derived pieces are those collected |
| `ScriptGrammar.SuccessMeansWhole` | server/zformatter.cc:18-52 | a successful compilation derives its pieces if and only if the text drops no argument and ends in no unfinished term |
| `ScriptGrammar.BothHappen` | server/zformatter.cc:45-52 | "$2" is unfinished, and "$div($2)" drops an argument |
| `Script.FailedTermIsAccepted` | server/zformatter.cc:45-52 | it need not have: the script "$2" compiles to nothing |
| `ScriptPrinter.Decimal` | server/zformatter.cc:273-294 | a decimal number has the value it was printed from |
| `ScriptPrinter.TermIsRead` | server/zformatter.cc:107-237 | a printed term is read back as the same tree, and the cursor stands behind it, whatever follows that leaves it alone |
| `ScriptPrinter.ArgsAreRead` | server/zformatter.cc:157-178 | printed arguments are read back in order, up to the parenthesis |
| `ScriptPrinter.TextIsRead` | server/zformatter.cc:54-92 | plain text ends at the end of the input or where a term begins |
| `ScriptPrinter.CompilePrinted` | server/zformatter.cc:18-52 | every printed script of texts and terms compiles to itself, whatever blank space stands between the tokens |
| `ScriptPrinter.PrintedDerives` | server/zformatter.cc:18-52 | every printed script is one of the layouts that derive its pieces |
| `ScriptPrinter.CompileTerm` | server/zformatter.cc:18-52 | dollar-free text and a term compile to exactly these |
| `Formatter.ZFormatter.Compile` | server/zformatter.cc:18-52 | the pieces are those of the reference parser, appended to the list; success exactly if the cursor reached the end |
| `Formatter.ZFormatter.ConstStr` | server/zformatter.cc:54-92 | the scan with its dollar flag ends where the reference says; no text exactly if the cursor stays |
| `Formatter.ZFormatter.ParseVarFunc` | server/zformatter.cc:107-211 | the cursor moves as the reference says on every input, and never passes the end |
| `Formatter.ZFormatter.ParseArgs` | server/zformatter.cc:157-178 | the arguments, as far as they can be read |
| `Formatter.ZFormatter.ParseParam` | server/zformatter.cc:214-237 | a quoted text, a number, a term, or nothing |
| `Formatter.ZFormatter.ParseConstNumber` | server/zformatter.cc:273-294 | the maximal run of digits and its value |

## Left out

- EvQueue.EvBuffer.Add: requires that no reserved empty chunk stands behind the data; `evbuffer_add` writes into the last chunk without moving the cached last chunk with data, so mixed with reserved space it falls outside the invariant.
- EvQueue.EvBuffer.AddBuffer: asks the same of the destination, unless it is empty, because the linked chunks would stand behind the reserved one.
- EvQueue.EvBuffer.PrependBuffer: asks the same of the buffer that is put in front, unless the destination is empty.
- EvQueue.EvBuffer.RemoveBuffer: asks the same of the destination, whose tail is written with `evbuffer_add`.
- EvQueue.EvBuffer.Prepend: does not model the byte counts that callbacks get (the source adds the room of the chunk instead of the length); other operations' counts are left out with it.
- EvQueue.EvBuffer.Pullup: returns the bytes instead of a pointer to them.
- ZbStream.ZBStream.Feed: requires that the bytes fed declare none of the four lengths 65530 to 65533, for which the source copies a negative number of bytes or files a frame at once; `StreamSpec.BreaksExactly` says which.
- ZbStream.ZBStream.DoWaitingForHead: requires the same of the bytes it is given.
- EndToEnd.OnRead: requires the same of the bytes that have arrived.
- Messages.ZigBeeMsg.Decode: requires, for a get request, that the memory behind the message reaches as far as the item count says, because the source reads the items without looking at how many bytes are left.
- FgwServer.FGWServer.GenHandlerId: a closed generator is modelled, but `OnAccept` is stated for an open one only, since nothing closes it.
- Uniform.Arc4RandomUniform: gives up after a number of rejected words that the caller chooses, where the source goes on drawing; reseeding between two words is not modelled.
- GatewayClient.FGWClientHandler.Routine: visits the sessions in any order, where the source follows the order of the map; the results do not depend on it.
- GatewayClient.FGWClientHandler.OnReadRegistered: does not model empty messages and messages that cannot be decoded; they change nothing but an error text or a log line.
- Formatter.ZFormatter.ParseVarFunc: does not model that all uses of the argument share one object; `atoi` on numbers beyond 64 bits is taken to saturate, then the result is cut to 32 bits.
- Reserved and committed space, expansion, references, mapped files, sendfile, pinning, locking, reference counts and deferred callbacks of the byte queue; failed allocations and overflow of `size_t`.
- Timeouts, low-water marks, write suspension and rate limits of bufferevents; the user's callbacks.
- The messages whose encoding does not report or set its length as the others do: `ZZBGetRsp`, `ZZBBindRsp`, `ZZBUpdateIdInfoReq`, `ZZBUpdateIdInfoRsp`; the 32-bit and string codecs, which the modelled messages do not use.
- Items and values in get and set requests on their way through the gateway, the list of devices in a reply, and the conversion to and from the server's message format.
- What the serial module would do behind its early answers (its own get and set sessions); that code cannot be reached.
- The login timer beyond its effect on the login state; connection handling of client and serial port, sockets, threads, logging.
- FgwServer.Perform: a handler that was deleted can be removed again in the model, where the source would use freed memory.
- Evaluation of scripts; quoted texts and braces around the argument are modelled in the parser, but not printed.
- Seeding and the times of reseeding of the random number generator.
