# MetricMQ: a verified model

MetricMQ is a message broker. Clients speak RESP or a binary framing over a byte stream,
publish to topics, subscribe with replay, and acknowledge what they received; messages and
acknowledgements live in one flat LMDB key space that survives restarts. This project models
that behaviour in Dafny and proves properties of it over every input, every chunking, every
interleaving and every run.

`dafny verify dfyconfig.toml` checks the whole project.

## Layout

| file | models |
|---|---|
| `ByteStrings.dfy`, `Decimal.dfy` | bytes, key order, big-endian integers; `to_string`, `stoll`, `stoull` |
| `Framing.dfy` | the parse-and-erase loop over any incremental parser |
| `Resp.dfy`, `BinaryProtocol.dfy` | the two codecs |
| `ReceiveLoop.dfy`, `Admission.dfy`, `Commands.dfy`, `Session.dfy` | a session: receiving, dispatching binary frames and RESP commands |
| `SessionRuns.dfy`, `Subscriptions.dfy`, `Relay.dfy` | runs of any number of sessions of both protocols, who is subscribed to what, and the broker they feed |
| `KeyStore.dfy` | the registry of trusted keys |
| `KeySpace.dfy`, `Cursor.dfy`, `LmdbStorage.dfy`, `RangeScan.dfy` | the key space, cursors, the storage layer, what `load_range` returns |
| `AckWindow.dfy` | the bounded per-client ACK set |
| `BrokerModel.dfy` | the broker's persistent and ACK state as a state machine, with runs and histories |
| `Numbering.dfy`, `Retention.dfy`, `StoreHistory.dfy`, `AckDelivery.dfy`, `Replay.dfy`, `OrderlyClients.dfy`, `WindowedClients.dfy`, `CodedRecords.dfy` | properties of every run |
| `MissedMessages.dfy` | decimal order in plain numbers, and what client replay misses |
| `ReachableRuns.dfy`, `LateSubscriber.dfy` | every run has a database; a client and a late subscriber followed from an empty store |
| `TopicIndex.dfy`, `SnapshotLimit.dfy`, `Delivery.dfy`, `Connections.dfy` | subscriptions, what a snapshot holds, one subscription among concurrent publishes, connection counting |
| `Broker.dfy` | the broker object, tied to the state machine |

Objects the program updates in place are classes (`Session`, `TrustedKeyStore`, `LmdbStorage`,
`BoundedAckSet`, `Broker`). Each of their methods is specified by a function on values, and the
properties are proved about those functions over whole runs. The storage class carries an
abstract store (last number, records by number, ACKs) that its keys represent; the cursor loops
are proved to act on it as set operations.

## Where the code and its documents differ

- `save` means to put a NUL between topic and payload, but the literal it appends is an empty C
  string (src/storage/LmdbStorage.cpp:71), so nothing separates them; docs/TECHNICAL.md:606
  documents `topic\x00payload`. The separator is a parameter here. `RecordRoundTrip` shows that a
  record reads back as written exactly when the separator is the documented one and the topic has
  no NUL; `CodedSplitsIff` and `CodedReplayIff` say exactly when the coded form still replays a message
  on its topic, and `CodedReplayMissesTopic` that it never does for what sessions publish.
  Theorems that need readable records say so.
- Message keys are unpadded decimals and `load_range` has no numeric lower bound
  (src/storage/LmdbStorage.cpp:118-135), so it does not always return what
  src/storage/LmdbStorage.hpp:62-70 promises. `VisitedIsScan` says what it returns, `RangeCallIff`
  exactly when one call returns the documented range, `RangeContractIff` when every call does.
  Replay inherits it: `ReplaySendsIff` says what any replay sends, `ReplayFaultsIff` exactly which
  ACKed messages are sent again and which others are missed, and `MixedWidthResend` and
  `MixedWidthLoss` are ordinary runs on which each happens; `MissedInNumbers` says when something is
  missed without speaking of keys. A new subscriber's replay stops at number 100001 once that is
  stored (`SnapshotAboveLimit`, `EveryMessageArrivesIff`, `LateSubscriberMisses`).
- `save` ignores the number it is given and counts on its own. `FoundUnderReturnedNumberIff` says
  when a message lies under the number its publish returned, `NumbersReusedIff` when no number is
  handed out twice, `FailedSaveReusesNumber` is a run on which one is.
- Unsigned publishes to secure/ topics are documented as rejected (docs/TECHNICAL.md:579); a RESP
  PUBLISH is not checked (src/session.cpp:376-393). `SecureIsSignedIff` says exactly when everything on
  secure/ topics is signed, `RespBypassesSignatures` is a run on which it is not.
- The scope of a key is looked up after the signature check, under another lock
  (src/session.cpp:257-276). `OutOfScopePublishesIff` says when a frame outside the scope its key
  had is published.
- A bulk string's last two bytes are not checked and numbers may be written in several ways, so
  serialising a parsed value need not give back its bytes; `SerializeInvertsParseIff` says when it does.
- Loading the ACKs of a client reads every key with its prefix, including those of ids that
  continue it with a colon. `LoadedAcksExactIff` says exactly when that goes wrong.
- Delivered frames carry a per-session counter, not the broker's number (src/session.cpp:226, 305).
  `FrameNumberIsBrokersIff` says when the two agree. The ACK properties are about the numbers
  passed to `handleAck`.
- A subscription with a client id replays everything on the topic and then replays for the client
  (src/session.cpp:193-194). `SubscribeCopies` says how many copies of a message that makes; not
  resending is a property of the second replay.
- A restart forgets the publish count, so it can postpone compaction and leave more stored than the
  window of src/broker.hpp:107-110. `StoredExactly` says what is stored after every run,
  `InsideWindowIff` when that is inside the window, `RestartLeavesWindow` is a run that leaves it.
- A payload may be as large as 16 MiB (src/binary_protocol.cpp:91-162), and so may the receive buffer,
  so the largest frames never fit. `BinaryNeverDroppedIff` says which streams are never dropped.

## Model

| member | source | states |
|---|---|---|
| `Decimal.StollDecInt` | src/resp_parser.cpp:41-45 | every 64-bit integer written in decimal is read back by stoll |
| `Decimal.IntegersRead` | src/resp_parser.cpp:41-45 | stoll and stoull on white space, an optional sign, digits and anything after them: the signed number if it fits 64 bits, the unsigned one modulo 2^64 |
| `Decimal.NoNumeral` | src/resp_parser.cpp:41-45 | without a digit after white space and sign nothing is read |
| `Decimal.DecOrder` | src/storage/LmdbStorage.cpp:70 | on numbers of one decimal width, byte order of the keys is numeric order |
| `Framing.DrainThenAppend` | src/session.cpp:137-157 | for any parser that makes progress and is stable under later bytes, draining early and again after more bytes equals one drain of the whole |
| `Framing.ProperPrefixDoesNotParse` | src/session.cpp:137-157 | no proper prefix of a parsed frame parses |
| `Framing.EncodingsPrefixFree` | src/session.cpp:137-157 | two encodings one of which starts the other are equal |
| `Framing.DrainStreamPrefix` | src/session.cpp:137-157 | draining any prefix of a stream of encodings yields a prefix of its frames and leaves a proper prefix of the next encoding |
| `ByteStrings.BigEndianOrder` | src/binary_protocol.cpp:9-63 | most significant byte first: among byte strings of one length, byte order is the order of the numbers they stand for |
| `Resp.Parse` | src/resp_parser.cpp:14-112 | the bytes consumed are positive and inside the buffer |
| `Resp.ParseBuffer` | src/resp_parser.cpp:14-112 | the recursive parser computes the parse function |
| `Resp.ParseArrayBody` | src/resp_parser.cpp:95-106 | the element loop parses exactly the announced number of values one after another, or nothing |
| `Resp.Write` | src/resp_parser.cpp:114-150 | the serialiser with its element loop computes the wire form |
| `Resp.MakeArray` | src/resp_parser.cpp:152-158 | an array of exactly the given bulk strings in order |
| `Resp.RoundTrip` | src/resp_parser.cpp:14-150 | for every nested value and every following bytes, parsing the serialised value gives back the value and its length if and only if it is within the limits |
| `Resp.ParsedWithinLimits` | src/resp_parser.cpp:14-112 | every value the parser returns is within the limits, at every depth |
| `Resp.ParseStable` | src/resp_parser.cpp:14-112 | once a value parses, later bytes never change value or length |
| `Resp.IsStableParser` | src/resp_parser.cpp:14-112 | the parser makes progress and is stable, on all buffers |
| `Resp.SerializeInvertsParseIff` | src/resp_parser.cpp:14-150 | for every buffer that parses, serialising the value gives back exactly the bytes consumed if and only if, at every depth, number lines are written as the serialiser writes them, bulk strings end in CRLF and null is the bulk null |
| `Resp.UntidyBulk` | src/resp_parser.cpp:67-73 | a bulk string whose trailing two bytes are not CRLF parses and is not such a buffer |
| `Resp.TextLines` | src/resp_parser.cpp:21-35 | a line after + is a simple string, after - an error |
| `Resp.NumberLines` | src/resp_parser.cpp:37-46 | a line after : is the integer stoll reads, or nothing |
| `Resp.BulkLines` | src/resp_parser.cpp:48-74 | a line after $ announces null for -1, else 0 to 16 MiB of data and two more bytes, or nothing is parsed |
| `Resp.ArrayLines` | src/resp_parser.cpp:76-107 | a line after * announces null for -1, else 0 to 10000 values that follow one another, or nothing is parsed |
| `Resp.OtherLines` | src/resp_parser.cpp:14-111 | any other first byte, and any buffer without a line end, is not parsed |
| `BinaryProtocol.PushBigEndian` | src/binary_protocol.cpp:9-30 | pushing bytes most significant first appends the big-endian form of every width |
| `BinaryProtocol.Write` | src/binary_protocol.cpp:65-89 | the serialiser, pushing onto a buffer, produces header, topic, payload and signature trailer |
| `BinaryProtocol.RoundTrip` | src/binary_protocol.cpp:65-162 | for every frame and every following bytes, parsing the serialised frame gives back the frame and its length if and only if the frame is canonical |
| `BinaryProtocol.SerializeParsed` | src/binary_protocol.cpp:91-162 | whenever a frame parses, serialising it gives exactly the bytes it was parsed from |
| `BinaryProtocol.ParsedIsCanonical` | src/binary_protocol.cpp:91-162 | every parsed frame respects version, limits, widths and the match of signature and command |
| `BinaryProtocol.ParseStable` | src/binary_protocol.cpp:91-162 | once a frame parses, later bytes never change frame or length |
| `BinaryProtocol.WireFormat` | src/binary_protocol.cpp:65-89 | the bytes of a frame by offset: version, command, number, two lengths, topic, payload and the trailer of commands 16 and 17 |
| `BinaryProtocol.ParsesIff` | src/binary_protocol.cpp:91-162 | a buffer parses to a frame if and only if the frame is canonical and the buffer starts with its bytes |
| `ReceiveLoop.DetectFirstByte` | src/session.cpp:55-75 | the protocol depends on the first byte of the stream alone: RESP for + - : $ *, binary for 1, unknown otherwise |
| `ReceiveLoop.FeedDecoded` | src/session.cpp:111-157 | below the cap, one more chunk takes the decoding of a stream to that of the longer stream |
| `ReceiveLoop.ChunkingIndependence` | src/session.cpp:90-157 | however a stream is cut into chunks, protocol, frames and leftover are those of decoding at once everything before the first chunk that was empty or broke the cap, the whole stream if none did; the error frame is sent once, exactly when the cap is broken |
| `ReceiveLoop.CapAnswer` | src/session.cpp:116-121 | that frame has command 8 and the text of the source |
| `ReceiveLoop.SameStreamSameInbox` | src/session.cpp:90-157 | two chunkings of one stream that stay below the cap end in the same state |
| `ReceiveLoop.RespNeverDroppedIff` | src/session.cpp:77-157 | a stream of RESP values is never dropped, however it is received in chunks of at most 4096, if and only if each encoding less its last byte, plus that byte and what follows it up to 4096, is within 16 MiB; received in full it is then decoded in full |
| `ReceiveLoop.BinaryNeverDroppedIff` | src/session.cpp:77-157 | the same for canonical binary frames |
| `ReceiveLoop.OversizedIsDropped` | src/session.cpp:113-121 | an encoding longer than the buffer is dropped however it is received |
| `ReceiveLoop.LargestPayloadDropped` | src/session.cpp:113-121 | a frame with the largest payload the format allows is one, and canonical |
| `Session.Session.constructor` | src/session.cpp:48-53 | a session starts with an empty buffer, an unknown protocol and no client id |
| `Session.Session.Receive` | src/session.cpp:107-157 | one turn of the receive loop performs the feed step: end of stream, cap with its error frame, append, detect, drain |
| `Session.Session.DrainResp` | src/session.cpp:138-146 | the RESP loop hands on exactly the drained values and keeps the rest |
| `Session.Session.DrainBinary` | src/session.cpp:147-156 | the binary loop hands on exactly the drained frames and keeps the rest |
| `Session.Session.HandleBinaryFrame` | src/session.cpp:177-327 | calls and reply frames of each command, texts included, in order, and the new client id, counter and registry |
| `Session.Session.HandleSignedPublish` | src/session.cpp:249-317 | verification, then scope, then publication, with any registry changes by other threads during the signature check and between the two checks |
| `Session.Session.RunCommand` | src/session.cpp:334-422 | calls and reply values of each RESP command, error replies included, in order |
| `Session.Session.ForEachTopic` | src/session.cpp:349-375 | the topic loops of SUBSCRIBE and UNSUBSCRIBE make one call and one confirmation per topic |
| `Session.Uppercase` | src/session.cpp:346-347 | the command name in upper case, byte by byte |
| `Admission.SubscribeSplits` | src/session.cpp:179-208 | a frame built from a NUL-free client id, NUL and a topic registers that client, subscribes that topic, replays for it and acknowledges, in this order |
| `Admission.AnonymousSubscribe` | src/session.cpp:195-201 | a NUL-free topic is subscribed as it is, with no client |
| `Admission.ScopeMeaning` | src/session.cpp:275-290 | a scope covers a topic if and only if it is empty, #, the topic itself, or p* with the topic starting with p |
| `Admission.PublishesIff` | src/session.cpp:216-317 | a frame is published if and only if it has command 3 and a topic that does not start with secure/, or command 16 and its key is registered and enabled, the signature verifies over topic followed by payload, and the key, if still registered at the scope check, covers the topic |
| `Admission.RepliesByCommand` | src/session.cpp:177-332 | commands 1, 2 and every publish let through get one frame of command 5 with their own number, 6 gets one of command 7, 5 and 17 get none, everything else gets one of command 8 with the text that says why |
| `Admission.CallsByCommand` | src/session.cpp:210-327 | command 2 makes one unsubscribe call on its topic, 5 one ACK call if the session has a client, a publish let through one publish on its topic, and nothing but 1 anything else |
| `Admission.OutOfScopePublishesIff` | src/session.cpp:257-302 | a verified frame outside the scope its key had at the signature check is published if and only if by the scope check the key is gone or has a covering scope, which takes a removal or replacement in between |
| `Admission.RemovedKeyEscapesScope` | src/session.cpp:275-276 | removing the key between the two checks lets its frame through on any topic |
| `Admission.RepliesReadBack` | src/session.cpp:177-332 | every reply to a parsed frame parses back to that reply, error texts that quote the topic included |
| `Commands.ConfirmedSpec` | src/session.cpp:349-375 | topic k of a SUBSCRIBE is the k-th call and is confirmed with k, of an UNSUBSCRIBE with 0 |
| `Commands.UpperSpec` | src/session.cpp:346-347 | small letters become capitals and every other byte stays |
| `Commands.TextOf` | src/resp_parser.hpp:84-89 | the text of a simple string, an error and a bulk string is what they hold, of anything else nothing |
| `Commands.SubscribeCommand` | src/session.cpp:349-375 | SUBSCRIBE and UNSUBSCRIBE in any case: per topic the call and an array of the word, the topic and its position or 0 |
| `Commands.PublishCommand` | src/session.cpp:376-397 | PUBLISH in any case: with two arguments one message on the first and the answer 1, the bytes of the message parsing to the bulk strings message, topic and payload in this order; otherwise an error |
| `Commands.PingCommand` | src/session.cpp:398-405 | PING in any case: its argument as a bulk string, or PONG |
| `Commands.AckCommand` | src/session.cpp:406-418 | ACK in any case: the number recorded for the session's client if it has one, negative ones from 2^64 down, and OK; an error unless there is one argument |
| `Commands.OtherCommand` | src/session.cpp:334-421 | everything else gets one error and does nothing |
| `Commands.CommandPublishesIff` | src/session.cpp:376-393 | a RESP command is published if and only if it is a PUBLISH, in any case, with two arguments; no topic is refused |
| `Commands.PublishedReadsBack` | src/session.cpp:383-393 | the bytes delivered for any PUBLISH a session can receive parse to an array of three bulk strings: message, the topic, the payload |
| `Commands.AnswersReadBackIff` | src/session.cpp:334-427 | every answer to a command a session can receive parses back to that answer if and only if it is not an unknown command with a line break in its name |
| `Commands.BrokenName` | src/session.cpp:420 | a command named by a line break arrives and its answer does not parse back |
| `SessionRuns.LoopHandsOnReceived` | src/session.cpp:90-157 | however streams are chunked, every frame and command handed on was parsed off a buffer within the cap |
| `SessionRuns.PublishedMessagesAreSound` | src/session.cpp:177-422 | in every run of any sessions of both protocols and of registry changes, also while a signature is being checked: a frame published on a secure/ topic was signed, verified under an enabled key and had its scope checked; delivered bytes parse to a frame of command 4 or 17 with the topic, payload, signature and key id that were published, or for a command to message, topic and payload; and a session numbers what it publishes by frames 1, 2, 3 and so on |
| `SessionRuns.SecureIsSignedIff` | src/session.cpp:216-393 | over every such run, everything published on topics that start with secure/ came by command 16 under an enabled key, with a signature over topic and payload and a covering scope, if and only if no RESP command published on one |
| `SessionRuns.RespBypassesSignatures` | src/session.cpp:376-393 | one received PUBLISH on a secure/ topic puts an unsigned message there |
| `SessionRuns.ReadableByOwnProtocolIff` | src/session.cpp:226-390 | delivered bytes parse in the publisher's protocol and not in the other |
| `SessionRuns.ReceiverAgrees` | src/session.cpp:253-308 | a receiver's own check of the signature over the topic and payload it parsed, under the same public key, succeeds as the broker's did |
| `SessionRuns.AcksGoToLastClient` | src/session.cpp:241-418 | over every run, ACK frames and ACK commands of a session are recorded for the client its last subscribe frame named, and for nobody before that |
| `SessionRuns.RespSessionsHaveNoClient` | src/session.cpp:406-418 | a session that gets only commands has no client, so its ACKs are never recorded |
| `Subscriptions.SubscribedIff` | src/session.cpp:179-375 | over every run of sessions of both protocols, a session is subscribed to a topic if and only if some frame or command of it subscribed it, by the part after the NUL for a frame that has one, and none of it since unsubscribed it |
| `Relay.FrameNumberIsBrokersIff` | src/session.cpp:226-305 | over every run of sessions feeding the broker, a delivered frame carries the number the broker gave the message if and only if everything published before it came by frames of the same session |
| `Relay.SecondSessionMisnumbers` | src/session.cpp:226 | two sessions publish one message each, and the second frame does not carry the broker's number 2 |
| `KeyStore.TrustedKeyStore.constructor` | include/metricmq/crypto.hpp:209-210 | an empty registry, ids from 1 |
| `KeyStore.TrustedKeyStore.RegisterNext` | src/crypto/keystore.cpp:17-35 | the key goes under the next id, which is returned and advanced in 32 bits |
| `KeyStore.TrustedKeyStore.RegisterAs` | src/crypto/keystore.cpp:37-64 | refused exactly when the id is taken, else stored, and the next id moves past it |
| `KeyStore.TrustedKeyStore.VerifyWithKey` | src/crypto/keystore.cpp:93-113 | true exactly when the key was registered and enabled at the lookup and verifies; other threads may change the registry during the check, and only a valid signature stamps the key, if it is still there |
| `KeyStore.TrustedKeyStore.Stamp` | src/crypto/keystore.cpp:153-159 | stamps an existing key |
| `KeyStore.TrustedKeyStore.GetKeyInfo` | src/crypto/keystore.cpp:76-84 | the entry of a key, enabled or not |
| `KeyStore.LeftKeyKeepsScope` | src/crypto/keystore.cpp:17-159 | over every run, a key nobody removes or replaces keeps its public key and its scope |
| `KeyStore.TrustedKeyStore.SetEnabled` | src/crypto/keystore.cpp:115-124 | sets the flag of an existing key and nothing else |
| `KeyStore.TrustedKeyStore.RemoveKey` | src/crypto/keystore.cpp:126-129 | removes the key, keeps the next id |
| `KeyStore.TrustedKeyStore.ClearAll` | src/crypto/keystore.cpp:147-151 | back to the empty registry |
| `KeyStore.RegistryIsHistory` | src/crypto/keystore.cpp:17-159 | after every sequence of changes, a key is under an id if and only if one was registered there and nothing removed it or cleared the registry since, and its entry has the public key, name and scope of the last registration and the flag and stamp set last |
| `KeyStore.UsableIsHistory` | src/crypto/keystore.cpp:93-151 | after every sequence of changes, a key is usable if and only if it was registered, or enabled while present, and nothing since disabled it, removed it or cleared the registry |
| `KeyStore.ClaimTakesFreeIds` | src/crypto/keystore.cpp:37-64 | registering under an id that holds a key changes nothing, under any other stores that key and leaves the rest |
| `KeyStore.NextIdIsFreshIff` | src/crypto/keystore.cpp:17-64 | over every run of registrations, removals and clears, the next id is above every id registered since the last clear if and only if id 2^32 - 1 is not among them, and is then the one after the largest of them, or 1 |
| `KeyStore.AllocationIsFresh` | src/crypto/keystore.cpp:17-35 | then allocation overwrites no entry and reissues no removed id |
| `KeyStore.TopIdOverwrites` | src/crypto/keystore.cpp:58-61 | claiming id 2^32 - 1 wraps the counter, and a later allocation overwrites key 1 |
| `KeyStore.RevocationLasts` | src/crypto/keystore.cpp:93-151 | a disabled or removed key stays unusable over every run that does not register or enable it again |
| `KeySpace.MsgKeyReads` | src/storage/LmdbStorage.cpp:69-70 | a message key reads back as its number and belongs to no other family |
| `KeySpace.AckKeyReads` | src/storage/LmdbStorage.cpp:185-186 | an ACK key reads back as its client and number, colons in the id included |
| `KeySpace.RecordRoundTrip` | src/storage/LmdbStorage.cpp:71 | a record reads back as written if and only if the separator is the documented NUL and the topic has none |
| `KeySpace.CodedRecordReadsAs` | src/storage/LmdbStorage.cpp:71 | as coded, a record is split at the payload's first NUL |
| `KeySpace.LoadedAcksComplete` | src/storage/LmdbStorage.cpp:205-255 | loading misses no ACK of a client, whatever the ids |
| `KeySpace.LoadedAcksExact` | src/storage/LmdbStorage.cpp:205-255 | loading is exact when no id with an ACK continues the client's with a colon |
| `KeySpace.ContinuedIdReads` | src/storage/LmdbStorage.cpp:223-246 | every ACK of an id that continues the client's with a colon and x is read as the number x starts with |
| `KeySpace.LoadedAcksExactIff` | src/storage/LmdbStorage.cpp:205-255 | loading is exact if and only if no such id reads as a number the client has not ACKed |
| `KeySpace.ColonIdMisread` | src/storage/LmdbStorage.cpp:223-246 | for every client and number there is an id whose single ACK is read as that client's |
| `KeySpace.SaveRepresents` | src/storage/LmdbStorage.cpp:69-96 | the two puts of a save are one step of the abstract store |
| `KeySpace.CompactRepresents` | src/storage/LmdbStorage.cpp:257-301 | deleting the keys of old messages removes exactly those messages and touches no other family |
| `KeySpace.ZeroRemovesNothing` | src/storage/LmdbStorage.cpp:257-306 | a threshold of zero removes no message and no ACK |
| `KeySpace.PurgeRepresents` | src/storage/LmdbStorage.cpp:303-346 | deleting the keys of old ACKs removes exactly those ACKs, for any client id, and touches no other family |
| `CodedRecords.CodedSplitsIff` | src/storage/LmdbStorage.cpp:71 | as coded, any message reads back under its own topic if and only if the topic has no NUL and the message starts with one, which is then lost |
| `CodedRecords.CodedReplayIff` | src/broker.cpp:146-157 | as coded, after every committed run and for every scan, a stored message is replayed on its topic if and only if that holds and the scan reaches it and does not pass it over |
| `Relay.CodedReplayMissesTopic` | src/broker.cpp:146-157 | as coded, over every run of sessions of both protocols feeding the broker, signed frames included, and for every scan, no stored message is replayed on the topic it was published on |
| `Cursor.Open` | src/storage/LmdbStorage.cpp:109-123 | a cursor sees the keys of its snapshot in byte order |
| `Cursor.PrefixRange` | src/storage/LmdbStorage.cpp:223-249 | a scan from a prefix to the first key without it has visited every key that has it |
| `LmdbStorage.LmdbStorage.constructor` | src/storage/LmdbStorage.cpp:9-39 | opening keeps every record the file holds |
| `LmdbStorage.LmdbStorage.Save` | src/storage/LmdbStorage.cpp:47-97 | a committed save stores the record under the number after the stored one and moves that on; an uncommitted one changes nothing |
| `LmdbStorage.LmdbStorage.GetLastSeq` | src/storage/LmdbStorage.cpp:155-175 | the last number saved, zero if none |
| `LmdbStorage.LmdbStorage.LoadRange` | src/storage/LmdbStorage.cpp:99-153 | the decoded messages of the cursor scan, or the exception of a malformed key |
| `LmdbStorage.LmdbStorage.SaveAck` | src/storage/LmdbStorage.cpp:177-203 | adds exactly the ACK |
| `LmdbStorage.LmdbStorage.LoadAcks` | src/storage/LmdbStorage.cpp:205-255 | every number read off a key with the client's prefix |
| `LmdbStorage.LmdbStorage.Compact` | src/storage/LmdbStorage.cpp:257-301 | removes exactly the messages up to the threshold, nothing for threshold zero or if the transaction does not commit |
| `LmdbStorage.LmdbStorage.PurgeOldAcks` | src/storage/LmdbStorage.cpp:303-346 | removes exactly the ACKs up to the threshold, nothing for threshold zero or if the transaction does not commit |
| `LmdbStorage.LmdbStorage.CollectOldMessages` | src/storage/LmdbStorage.cpp:269-286 | the cursor loop collects exactly the keys of old messages |
| `LmdbStorage.LmdbStorage.CollectOldAcks` | src/storage/LmdbStorage.cpp:315-336 | the cursor loop collects exactly the keys of old ACKs |
| `RangeScan.VisitedIsScan` | src/storage/LmdbStorage.cpp:117-147 | on every store, the scan never throws and returns the stored messages from the start key in decimal order up to the first number above the bound, no more and no fewer |
| `RangeScan.RangeContractIff` | src/storage/LmdbStorage.hpp:62-70 | the scan is the documented ascending range for every upper bound if and only if decimal order agrees with numeric order on the stored numbers |
| `RangeScan.RangeCallIff` | src/storage/LmdbStorage.hpp:62-70 | one call returns its documented ascending range if and only if the scan reaches exactly the numbers of that range and decimal order is numeric order among them |
| `RangeScan.ScanVisitsIff` | src/storage/LmdbStorage.cpp:117-147 | a scan returns a stored message if and only if it is not above the bound, does not sort before the start, and no stored number above the bound sorts between |
| `RangeScan.SameWidthAgrees` | src/storage/LmdbStorage.cpp:117-135 | it does when all numbers have one decimal width |
| `RangeScan.ScanFromZero` | src/storage/LmdbStorage.cpp:99-153 | from zero, at any mix of widths, every stored message is returned if and only if none is numbered above the bound |
| `RangeScan.ScanVisitsOnce` | src/storage/LmdbStorage.cpp:99-153 | no message is returned twice |
| `RangeScan.MixedWidthsBreakContract` | src/storage/LmdbStorage.cpp:118-135 | with 1 to 10 stored, a scan from 10 returns 2, and a scan of 1 to 5 misses it |
| `AckWindow.BoundedAckSet.constructor` | src/broker.hpp:47-50 | an empty window |
| `AckWindow.BoundedAckSet.Insert` | src/broker.hpp:29-38 | duplicate test, eviction of the oldest, insertion and maximum, as one step |
| `AckWindow.BoundedAckSet.Contains` | src/broker.hpp:40 | membership in the queue |
| `AckWindow.BoundedAckSet.IsEmpty` | src/broker.hpp:45 | emptiness of the queue |
| `AckWindow.InsertedAllMax` | src/broker.hpp:26-51 | over every sequence of inserts, queue and lookup table hold the same distinct numbers, at most 10000, and the maximum is the largest ever inserted |
| `AckWindow.IncreasingWindow` | src/broker.hpp:17-38 | for increasing inserts the window is exactly the last 10000 |
| `AckWindow.WindowForgets` | src/broker.hpp:17-38 | whatever is inserted, repeated or not and in any order, the window is the last 10000 of the inserts that were not among the last 10000 accepted before them |
| `AckWindow.MaxOrderIndependent` | src/broker.cpp:403-408 | the maximum after inserting a set does not depend on the order |
| `AckWindow.EvictedButBelowMax` | src/broker.hpp:42-43 | the maximum survives the eviction of older entries |
| `Numbering.CommittedRunsAreNumbered` | src/broker.cpp:94-105 | in every run whose writes commit, restarts included, the store's counter equals the broker's, returned numbers are gap-free and never reused, and a stored message lies under the number its publish returned |
| `Numbering.StoreNeverAhead` | src/broker.cpp:29-39 | if saves may fail, the store's counter never exceeds the broker's |
| `Numbering.FoundUnderReturnedNumberIff` | src/broker.cpp:94-105 | after every run of arbitrary commits and restarts, a publish whose save commits is found under the number it returns if and only if no save has failed since the last restart |
| `Numbering.NumbersReusedIff` | src/broker.cpp:29-105 | over every run of arbitrary commits and restarts, no number is handed out twice if and only if no failed save is followed by a restart followed by a publish, and the store lags behind the broker exactly while a save has failed since the last restart |
| `Numbering.FailedSaveReusesNumber` | src/broker.cpp:29-105 | a failed save, a restart and a publish on an empty store hand out number 1 twice |
| `Numbering.FailedSaveMisplaces` | src/storage/LmdbStorage.cpp:61-70 | after one failed save the next message is returned as 2 and stored under 1 |
| `Retention.StoredExactly` | src/broker.cpp:94-110 | after every committed run, stored are exactly the numbers above the cut up to the counter, and their count is the difference; the cut is the counter less 100000 at the last publish above 100000 whose count since the last restart is a multiple of 1000 |
| `Retention.InsideWindowIff` | src/broker.hpp:107-110 | after every committed run, nothing stored is older than 100000 plus the publishes since the count was last a multiple of 1000 if and only if nothing is stored or the cut is no further behind the counter |
| `Retention.RestartLeavesWindow` | src/broker.cpp:29-47 | 100999 publishes, a restart and one publish leave 101000 messages stored |
| `Retention.RunsAreRetained` | src/broker.cpp:94-110 | over every committed run, each stored number is within 100000 of the counter, widened by the publishes since the last compaction and by 999 per restart, and the newest 100000 messages are all stored |
| `Retention.StoredCount` | src/broker.hpp:107-110 | so at most 100999 messages are stored, and 999 more per restart |
| `Retention.NextKeepsGapless` | src/broker.cpp:94-110 | every committed step keeps the stored numbers without holes up to the counter |
| `StoreHistory.StoreIsHistory` | src/broker.cpp:94-207 | after every run on an empty store, whatever commits: an ACK is on record if and only if one was saved and no compaction since with a committed purge, due at a counter above 100000 every thousandth publish since the restart, found it 100000 or more behind the counter; a message is stored under the number of its save, as published, if and only if that committed and no committed compaction from then on dropped it |
| `AckDelivery.RunsKeepCache` | src/broker.cpp:344-410 | after every run, committed or not, the cached last ACK of each client is the maximum of its window |
| `AckDelivery.WindowIsHistory` | src/broker.cpp:344-410 | after every run, committed or not, the window of a client is what its ACKs and the ACKs loaded for it since the last restart leave when inserted in that order, and its last ACK is the largest of them |
| `AckDelivery.ReloadOrderIrrelevant` | src/broker.cpp:399-409 | registering yields one last ACK for every iteration order of the loaded set |
| `AckDelivery.RunsKeepAcks` | src/broker.cpp:200-207 | over every committed run, an ACK is on record or its message is gone for good, and a registered client's ACKs on record are not above its last ACK |
| `AckDelivery.AckedIsBelowLastAck` | src/broker.cpp:344-410 | after every committed run, a still-stored message a registered client has ACKed is not above its last ACK, for any client ids |
| `Replay.ReplaySendsIff` | src/broker.cpp:146-157 | on every store and for every range: what is sent are stored messages on the topic, in decimal order and once each, and one is sent if and only if it is not passed over and the scan reaches it |
| `Replay.ClientReplayExactIff` | src/broker.cpp:418-432 | in every state, client replay sends, ascending and once each, exactly the stored messages on the topic after the last ACK up to 100000 further, if and only if the scan agrees with that range on the topic |
| `Replay.AgreeingOrderSuffices` | src/broker.cpp:418-432 | it does when decimal order agrees with numeric order on what is stored and the range does not wrap |
| `Replay.ReplayResendsIff` | src/broker.cpp:418-432 | with any committed steps between reading the last ACK and loading the messages, something ACKed is sent again if and only if an ACKed message on the topic, still stored, is not passed over and is reached by the scan |
| `Replay.AgreeingOrderNeverResends` | src/broker.cpp:418-432 | nothing is when decimal order agrees with numeric order and the last ACK is not 2^64 - 1 |
| `Replay.TopAckResendsIff` | src/broker.cpp:420-425 | after an ACK of 2^64 - 1 the scan starts at zero, and a message on the topic is sent if and only if the window does not hold it, it is below 100000 and no stored number from 100000 on cuts the scan before it |
| `Replay.SubscribeCopies` | src/session.cpp:183-194 | a subscription with a client id sends a message once if the scan from 0 to 100000 reaches it, plus once if the window lacks it and the scan after the last ACK reaches it, also with changes between the two replays |
| `Replay.AskingIsOneReplay` | src/broker.cpp:426-430 | however the window changes while it is asked message by message, the loop sends what passing over one set of numbers would |
| `Replay.SelectedFacts` | src/broker.cpp:151-155 | the replay loop sends every wanted message of the scan and keeps any relation between consecutive ones |
| `WindowedClients.RunsStayOwned` | src/broker.cpp:344-410 | over every committed run, a client's window holds only numbers it has ACKed, unless another id continues its own with a colon |
| `WindowedClients.ReplayFaultsIff` | src/broker.cpp:418-432 | after every such run, a stored message the client has ACKed is sent again if and only if the window has forgotten it and the scan reaches it, and one it has not ACKed is missed if and only if the scan does not reach it, which within 100000 of the last ACK means that it sorts before the number after the last ACK |
| `WindowedClients.RunsStayWindowed` | src/broker.cpp:344-410 | over every committed run in which a client ACKs at most 10000 numbers, its window holds only its own ACKs, and all of those on record once it is registered |
| `WindowedClients.WindowedReplayNeverResends` | src/broker.cpp:418-432 | after such a run, client replay sends nothing the client has ACKed, whatever range is scanned and whatever decimal widths are stored |
| `OrderlyClients.OrderlyRunsStayOrderly` | src/broker.cpp:344-364 | over every committed run in which a client ACKs in sequence order, its ACKs leave no hole on the topic, across publishes, compaction, restarts and registrations |
| `OrderlyClients.OrderlyReplayCompleteIff` | src/broker.cpp:418-432 | after such a run, a registered client is sent only stored messages on its topic, once each, and exactly those it has not ACKed if and only if the scan reaches every one after the last ACK and none up to it that the window has forgotten |
| `MissedMessages.SortsBeforeIff` | src/storage/LmdbStorage.cpp:118-135 | of any two numbers the one whose key sorts first is found by cutting the longer to the width of the shorter, which wins a tie |
| `MissedMessages.MissedInNumbers` | src/broker.cpp:418-432 | after every committed run, a registered client within 100000 of the counter misses a message after its last ACK if and only if its leading digits are below the number after the last ACK; with everything since on the topic, it misses something if and only if that number is not a power of ten and a power of ten has been published since |
| `ReachableRuns.RunHasDatabase` | src/storage/LmdbStorage.cpp:47-346 | the store of every run is held by a database |
| `ReachableRuns.InOrderReplaySends` | src/broker.cpp:418-432 | a client that registered on an empty store and ACKed 1 to m of n messages is sent s if and only if s is un-ACKed or ACKed at least 10000 ACKs before the last, and does not sort before m + 1 |
| `ReachableRuns.MixedWidthResend` | src/broker.cpp:418-432 | after 20000 publishes ACKed in order, message 3 is sent again |
| `ReachableRuns.MixedWidthLoss` | src/broker.cpp:418-432 | after 1500 publishes of which 100 are ACKed in order, message 1000 is not sent |
| `ReachableRuns.TopAckResend` | src/broker.cpp:420-425 | after 10000 publishes ACKed in order and an ACK of 2^64 - 1, message 1 is sent again |
| `ReachableRuns.TenPublishesBreakContract` | src/storage/LmdbStorage.cpp:118-135 | ten publishes on an empty store lead to a store on which two calls leave their documented range |
| `TopicIndex.FanoutCount` | src/broker.cpp:112-129 | a publish reaches a session once for its topic subscription plus once for its # subscription |
| `TopicIndex.IndexIsHistory` | src/broker.cpp:55-92 | after every history the index is the relation the history implies, and no topic is left empty |
| `TopicIndex.RemovedGetsNothing` | src/broker.cpp:159-174 | after removal, and until it subscribes again, a session is in no set and is sent nothing |
| `Delivery.RunsKeepConsistent` | src/broker.cpp:55-157 | at every moment of every interleaving, what was sent plus what replay still holds is what is owed, message by message |
| `SnapshotLimit.PowerSortsFirst` | src/storage/LmdbStorage.cpp:118-135 | a power of ten sorts before every larger number |
| `SnapshotLimit.SnapshotAboveLimit` | src/broker.cpp:146-157 | with 100001 stored, the scan from 0 to 100000 returns exactly the stored powers of ten |
| `Delivery.SnapshotVisits` | src/broker.cpp:146-157 | on every reachable store, a snapshot holds every message if the counter is at most 100000, and otherwise the stored powers of ten |
| `Delivery.SnapshotBag` | src/broker.cpp:146-157 | what a snapshot replays on the topic is exactly those messages, once each, at any counter and any mix of number widths |
| `Delivery.EveryCopyIsOwed` | src/broker.cpp:55-157 | in every interleaving of publishes with one subscription, once replay has drained, a message was sent once if the snapshot holds it plus once if it came after registration, and nothing else was sent |
| `Delivery.EveryMessageArrivesIff` | src/broker.cpp:55-157 | no message is missing if and only if the snapshot was taken at a counter of at most 100000 or the earlier messages on the topic are stored powers of ten; in the first case those between registration and snapshot arrive exactly twice and all others exactly once |
| `LateSubscriber.LateSubscriberMisses` | src/broker.cpp:55-157 | 100001 publishes, a subscription, its snapshot off a database that holds them and the replay drained: message 2 was never sent |
| `Connections.NeverOverLimit` | src/broker.cpp:283-296 | in every interleaving of the accept loop with exits, at most 1000 sessions are listed and counted, the counter never underflows, and the two differ by at most the session being accepted |
| `Connections.AcceptedIff` | src/broker.cpp:283-290 | in every interleaving, a connection is accepted if and only if fewer than 1000 sessions run when it is checked |
| `Connections.AcceptedRuns` | src/broker.cpp:290-296 | an accepted session is listed, runs and is counted |
| `Connections.ExitFreesOne` | src/broker.cpp:159-182 | a session that leaves is no longer listed, running or counted |
| `Connections.WithoutSpec` | src/broker.cpp:176-182 | removal takes out exactly the session and keeps the rest |
| `Broker.Broker.constructor` | src/broker.cpp:29-47 | the state after a restart on the given store |
| `Broker.Broker.Publish` | src/broker.cpp:94-144 | number, save, count and compaction as one step, and each receiver exactly as often as the fan-out says |
| `Broker.Broker.RunCompactionIfDue` | src/broker.cpp:200-207 | messages and ACKs are purged with one threshold, only above 100000, each if its transaction commits; StoreHistory.StoreIsHistory says what is then left |
| `Broker.Broker.SendTo` | src/broker.cpp:116-118 | the fan-out loop sends to each subscriber once, in any order |
| `Broker.Broker.SendToSubscribers` | src/broker.cpp:112-129 | topic subscribers, then # subscribers |
| `Broker.Broker.Subscribe` | src/broker.cpp:55-71 | the session is added; with any publishes and ACKs by others in the unlocked gap, everything then scanned on the topic is replayed |
| `Broker.Broker.OthersDo` | src/broker.cpp:94-364 | publishes and ACKs by other sessions step the state machine |
| `Broker.Broker.ReplayMessages` | src/broker.cpp:146-157 | the messages of the scan on the topic, in scan order |
| `Broker.Broker.SendOnTopic` | src/broker.cpp:151-155 | the replay loop sends exactly the messages on the topic |
| `Broker.Broker.Unsubscribe` | src/broker.cpp:73-92 | the session is erased from the topic, and the topic if it was the last |
| `Broker.Broker.RemoveSession` | src/broker.cpp:159-182 | the session is erased from every topic and from the list, empty topics go, the counter is decremented |
| `Broker.Broker.EraseFromTopics` | src/broker.cpp:162-165 | the first loop takes the session out of every set |
| `Broker.Broker.DropEmptyTopics` | src/broker.cpp:167-174 | the second loop drops exactly the topics left empty |
| `Broker.Broker.HandleAck` | src/broker.cpp:344-364 | window, cache and stored ACK as one step |
| `Broker.Broker.GetLastAck` | src/broker.cpp:371-378 | the cached last ACK, zero if none |
| `Broker.Broker.IsAckedBy` | src/broker.cpp:380-387 | membership in the client's window |
| `Broker.Broker.RegisterClient` | src/broker.cpp:389-410 | the loaded ACKs enter the window in some order, and the cache becomes its maximum |
| `Broker.Broker.InsertAll` | src/broker.cpp:403-405 | the loading loop inserts exactly the set |
| `Broker.Broker.ReplayMessagesForClient` | src/broker.cpp:418-432 | the last ACK is read, the range after it loaded and the window asked message by message, with any publishes and ACKs by others in every gap; sent are the messages on the topic the window lacked when asked |
| `Broker.Broker.SendUnacked` | src/broker.cpp:426-430 | the loop sends exactly the messages on the topic that the window lacked when it was asked about them |

## Left out

- Sockets, select and accept, receive timeouts, the idle clock, logging and shutdown (including the phase in which the storage has been released): input and output only; a chunk is a parameter, an empty chunk is the peer closing.
- LMDB itself: a transaction is atomic, a cursor sees a snapshot in byte order, and whether a write commits is a parameter.
- The byte order of the stored counter: the program copies host bytes; only their round trip and their length are used.
- libsodium: the signature check is a function parameter. Timestamps are parameters.
- Exceptions thrown by a handler, which end the session (src/session.cpp:159-167): of the modelled steps only loading a malformed key throws, and RangeScan.VisitedIsScan shows that this does not happen on the stores a run can reach.
- toupper on bytes above 127: taken to leave them as they are, as the C locale does.
- Interleaving of bytes inside one send, and sends that fail: a send is atomic.
- Resp.ParseBuffer: does not model the native call stack, which bounds nesting depth in practice.
- Session.Session.Receive: hands frames and commands on in order; that dispatching one may block or fail before the next is parsed is not part of it.
- Broker.Broker.OthersDo: publishes and ACKs only; client registrations by other sessions in the gaps of a replay are not included.
- Broker.Broker.HandleAck and Broker.Broker.RegisterClient hold windows by value, as the program's map does, and work on a copy that is stored back; two references to one window cannot arise.
- Delivery.EveryMessageArrivesIff: is about a subscription without a client id, topics without NUL, committed saves and the documented separator.
- `client_sessions_`, metrics, the queue client, wildcard patterns other than `#`, examples and sketches: nothing above rests on them.
