# Hoogas messaging and bookkeeping, modelled in Dafny

Hoogas is a deployment server with a small client library. This project models the parts of both that carry logic rather than I/O.

- **Framing.** Every endpoint shares one wire format: each message is its text followed by the separator `¬`, with no escaping. `HoogasMessageReader` turns a stream back into messages one chunk at a time, and `MessageReceiver` holds a copy of the same loop. The modules are `Framing`, `MessageReader` and `Receiver`.
- **Writing.** `HoogasMessageWriter` writes a message and its separator, then flushes (`MessageWriter`).
- **The buffered sender.** `BufferedMessageSender` and `BufferedMessageSenderReceiver` form a bounded FIFO drained by a worker thread. The worker connects, writes the head, removes it only after a successful write, and tries to reconnect when the connection drops (see Findings: as written, it never gets a fresh socket). It reports `onConnectionEstablished`, `onConnectionLost` and `onConnectionTimedOut` along the way (`Sender`, `SenderProperties`). The worker is a state machine advanced one step at a time. Each step takes an oracle saying whether its socket operation succeeds, how many characters of a failed write left before the exception, and the clock after the step's sleep. Every socket has its own connection, recorded as the messages written on it and the characters that left on it.
- **The client.** `HoogasClient` parses the public-configuration text, validates the reply to a configuration request, and guards `init` so it runs only once (`Client`).
- **Server bookkeeping.**
  - `DeployedApplicationsHolder` keeps the deployed versions and their listeners (`DeployedApplications`).
  - `InboundMessagingService` batches messages per type, collects them from the applications' message directories, and fires its listeners (`InboundMessaging`).
  - `PublicConfigService` records configuration requests and answers them periodically (`PublicConfig`).
  - `PeriodicChecker` decides when a periodic job runs (`Periodic`).

Sockets, files and clocks become parameters:
- the characters available on a stream;
- a directory listing given as a sequence of entries;
- a success flag for each socket operation;
- the current time as an integer.

Every operation is a pure function over immutable datatypes. The exceptions are `MessageReader.GetReceivedMessages`, which is the Java loop itself, and the holder's update, which is written with loops.

The reader's chunk loop has a special case for the last character of a chunk. The recursive `Framing.Scan` has no such case, and the method `MessageReader.GetReceivedMessages` is proved to compute the same result as `Scan`. All the framing properties are therefore stated once, about `Scan` and `Pull`, and carry over to both Java copies.

The sender is modelled twice: the code as written, and a corrected reconnect. `Sender.Variant` selects which, and the two differ only in `Usable` and `LoseConnection`; see Findings.

The receiver's chunk-size-5 behaviour is stated for the exact stream its first test sends (`HoogasClient/src/test/java/hoogas_client/messaging/MessageReceiverTest.java:20-95`), as `Receiver.ChunkSizeFiveTrace`. The doc comments of `HoogasMessageReader.java:31-33` and `MessageReceiver.java:59-61` describe `ab¬cd¬efghijklmnoprstuvwxyz¬` read with chunk size 8; that trace is proved as `MessageReader.DocumentedTrace`.

## Model

| member | source | states |
|---|---|---|
| Framing.ScanConcat | HoogasClient/src/main/java/hoogas_client/messaging/HoogasMessageReader.java:44-62 | The carried-over text followed by the chunk equals each returned message followed by `¬`, then the new partial message; nothing is lost or invented. |
| Framing.ScanCount | HoogasClient/src/main/java/hoogas_client/messaging/HoogasMessageReader.java:54-62 | One message is returned per separator in the chunk. |
| Framing.ScanSepFree | HoogasClient/src/main/java/hoogas_client/messaging/HoogasMessageReader.java:54-62 | No returned message and no partial message contains the separator, provided the carried-over text has none. |
| Framing.ScanEndsOnSep | HoogasClient/src/main/java/hoogas_client/messaging/HoogasMessageReader.java:54-56 | A chunk whose last character is the separator leaves no partial message. |
| Framing.ScanShift | HoogasClient/src/main/java/hoogas_client/messaging/HoogasMessageReader.java:61-62 | Separator-free characters only extend the message being built. |
| Framing.PullSepFree | HoogasClient/src/main/java/hoogas_client/messaging/HoogasMessageReader.java:54-62 | Messages read after separator-free carried-over text contain no separator, and neither does the new partial message. |
| Framing.PullEndsOnSep | HoogasClient/src/main/java/hoogas_client/messaging/HoogasMessageReader.java:54-57 | A chunk ending on the separator leaves nothing carried over. |
| Framing.ScanEncode | HoogasClient/src/main/java/hoogas_client/messaging/HoogasMessageReader.java:44-62 | Scanning the encoding of separator-free messages plus a separator-free tail gives back exactly those messages and that tail. |
| Framing.PullConcat | HoogasClient/src/main/java/hoogas_client/messaging/HoogasMessageReader.java:44-62 | One read keeps the concatenation invariant and returns as many messages as the chunk has separators. |
| Framing.PullUnique | HoogasClient/src/main/java/hoogas_client/messaging/HoogasMessageReader.java:44-62 | A read's result is determined by the concatenation invariant: any separator-free split of `partial + chunk` into messages and a tail is what the read returns. |
| Framing.PullNoSep | HoogasClient/src/main/java/hoogas_client/messaging/HoogasMessageReader.java:50-53 | A chunk without a separator returns nothing and extends the partial message by the whole chunk. |
| Framing.PullCompletes | HoogasClient/src/main/java/hoogas_client/messaging/HoogasMessageReader.java:54-57 | A chunk of separator-free text and one final separator completes exactly the carried-over text plus that text. |
| Framing.SplitMessage | HoogasClient/src/main/java/hoogas_client/messaging/HoogasMessageReader.java:50-57 | A message cut anywhere across two reads is returned whole by the second read. |
| Framing.PullAllConcat | HoogasClient/src/main/java/hoogas_client/messaging/HoogasMessageReader.java:28-36 | Over any sequence of reads, the text read is the returned messages framed, then the last partial message. |
| Framing.FramingRoundTrip | HoogasClient/src/main/java/hoogas_client/messaging/HoogasMessageReader.java:28-36 | Separator-free messages, each followed by `¬` and cut into chunks in any way, are read back exactly, in order, with nothing left over. |
| MessageReader.ReadChunk | HoogasClient/src/main/java/hoogas_client/messaging/HoogasMessageReader.java:43 | A read takes at most the chunk size, takes less only when the stream runs out, and the rest stays unread. |
| MessageReader.ReceiveProperties | HoogasClient/src/main/java/hoogas_client/messaging/HoogasMessageReader.java:39-68 | With nothing ready, one call returns nothing and changes nothing. Otherwise it consumes at most `chunkSize` characters, keeps the concatenation invariant over what it consumed, and returns one message per separator consumed. |
| MessageReader.ReceiveAccounts | HoogasClient/src/main/java/hoogas_client/messaging/HoogasMessageReader.java:39-68 | The carried-over text plus everything available equals the returned messages framed, the new partial message and the unread rest. |
| MessageReader.GetReceivedMessages | HoogasClient/src/main/java/hoogas_client/messaging/HoogasMessageReader.java:39-69 | The Java loop, including its special case for the last character of a chunk, computes the same messages, partial message and unread rest as the recursive framer. |
| MessageReader.FullChunkNoSep | HoogasClient/src/main/java/hoogas_client/messaging/HoogasMessageReader.java:47-53 | A full chunk holding no separator returns nothing and is carried over whole. |
| MessageReader.CompletingRead | HoogasClient/src/main/java/hoogas_client/messaging/HoogasMessageReader.java:47-57 | A read ending exactly on a separator completes one message and carries nothing over. |
| MessageReader.TwoMessagesRead | HoogasClient/src/main/java/hoogas_client/messaging/HoogasMessageReader.java:47-62 | One read of `a¬b¬p` returns `[a, b]` and carries `p` over. |
| MessageReader.DocumentedShape | HoogasClient/src/main/java/hoogas_client/messaging/HoogasMessageReader.java:30-33 | For any pieces of the right lengths and chunk size 8, the four calls return two messages, nothing, nothing, then the long message. |
| MessageReader.DocumentedTrace | HoogasClient/src/main/java/hoogas_client/messaging/HoogasMessageReader.java:31-33 | With chunk size 8, `ab¬cd¬efghijklmnoprstuvwxyz¬` gives `[ab, cd]`, `[]`, `[]`, `[efghijklmnoprstuvwxyz]`. |
| MessageWriter.DoSend | HoogasClient/src/main/java/hoogas_client/messaging/HoogasMessageWriter.java:19-22 | The call fails exactly when the write fails. A successful one puts the message and one separator on the wire after what was already written, and leaves nothing buffered. A failed one may have sent any start of the buffered text and the framed message, and nothing when nothing left before the exception. |
| MessageWriter.SendAllEncodes | HoogasClient/src/main/java/hoogas_client/messaging/HoogasMessageWriter.java:19-22 | Writing messages in turn puts exactly their framed concatenation on the wire. |
| MessageWriter.WriteThenRead | HoogasClient/src/main/java/hoogas_client/messaging/HoogasMessageWriter.java:20 | A separator-free message, written and then read by a fresh reader, comes back as `[message]` with no partial message. |
| MessageWriter.UnescapedMessageSplits | HoogasClient/src/main/java/hoogas_client/messaging/HoogasMessageWriter.java:19-20 | A message containing the separator is written unchanged, so the reader sees one message more than the separators it contains. |
| MessageWriter.WriterReaderRoundTrip | HoogasClient/src/main/java/hoogas_client/messaging/HoogasMessageWriter.java:19-22 | Whatever the writer sends, cut into chunks in any way, the reader returns the same separator-free messages in order. |
| Receiver.NewReceiver | HoogasClient/src/main/java/hoogas_client/messaging/MessageReceiver.java:24-37 | The default buffer size is 1000 characters. |
| Receiver.NewReceiverWithSize | HoogasClient/src/main/java/hoogas_client/messaging/MessageReceiver.java:35-42 | A new receiver reads at most the given buffer size per call, holds no partial message, and has no socket, no server socket and no streams. |
| Receiver.Connect | HoogasClient/src/main/java/hoogas_client/messaging/MessageReceiver.java:49-54 | `connect` fails and changes nothing when the port cannot be bound, which is always so while the receiver's own server socket holds a fixed port. Otherwise the server socket is opened; when a peer is accepted the socket and streams are new, nothing unread or written on an earlier connection carries over, and the partly read message is kept. Without a peer it fails with the socket and streams as they were. |
| Receiver.GetReceivedMessages | HoogasClient/src/main/java/hoogas_client/messaging/MessageReceiver.java:65-95 | It fails exactly before `connect`. After `close` nothing is ready, so it returns no message and changes nothing. Otherwise it is the reader's framing loop: it consumes at most the buffer size and keeps the concatenation invariant. |
| Receiver.SendMessage | HoogasClient/src/main/java/hoogas_client/messaging/MessageReceiver.java:101-104 | The peer receives the text exactly as given, with no separator appended. Before `connect` the call fails. After `close` an empty text succeeds and changes nothing, and any other text fails. |
| Receiver.Close | HoogasClient/src/main/java/hoogas_client/messaging/MessageReceiver.java:106-114 | Each socket that exists is closed, and one that was never opened stays absent. |
| Receiver.ConnectBeforeUse | HoogasClient/src/main/java/hoogas_client/messaging/MessageReceiver.java:44-54 | Sending or receiving before `connect` fails as not connected; after a successful `connect` both succeed. |
| Receiver.ConnectOnce | HoogasClient/src/main/java/hoogas_client/messaging/MessageReceiver.java:49-51 | On a fixed port, a second `connect` without `close` fails to bind and changes nothing; after `close` a new `connect` can succeed. |
| Receiver.ReconnectJoinsPartial | HoogasClient/src/main/java/hoogas_client/messaging/MessageReceiver.java:49-95 | After a new connection, a message left partly read on the old one is completed by the new connection's first characters, and the old connection's unread text is gone. |
| Receiver.CloseEndsUse | HoogasClient/src/main/java/hoogas_client/messaging/MessageReceiver.java:65-114 | After `close` on a connected receiver, a receive returns nothing and changes nothing, and a reply succeeds exactly when it is empty. On a receiver that never connected, both fail as not connected. |
| Receiver.ReplyVerbatim | HoogasClient/src/main/java/hoogas_client/messaging/MessageReceiver.java:101-104 | Two replies reach the peer as their plain concatenation. |
| Receiver.ChunkSizeFiveTrace | HoogasClient/src/test/java/hoogas_client/messaging/MessageReceiverTest.java:38-94 | Chunk size 5 on the test's stream gives exactly the test's eleven per-call results. |
| Receiver.TraceFront | HoogasClient/src/test/java/hoogas_client/messaging/MessageReceiverTest.java:44-66 | For pieces of the test's lengths, the first five calls return `[x]`, `[x]`, `[]`, `[]`, `[a b, y]`, whatever follows. |
| Receiver.TraceBack | HoogasClient/src/test/java/hoogas_client/messaging/MessageReceiverTest.java:68-94 | For pieces of the test's lengths, the last six calls return `[]`, `[a i]`, `[x]`, `[]`, `[]`, `[a b, k]`. |
| Receiver.ChunkSizeTenTwoMessages | HoogasClient/src/test/java/hoogas_client/messaging/MessageReceiverTest.java:121-137 | With chunk size 10, `abcd¬` gives `[abcd]`, and a later `abcd¬ef¬` gives both messages from one call. |
| Receiver.OneThenTwo | HoogasClient/src/test/java/hoogas_client/messaging/MessageReceiverTest.java:121-137 | With room for a whole reply in one read, `a¬` gives `[a]` and `b¬c¬` gives `[b, c]`. |
| Sender.Start | HoogasClient/src/main/java/hoogas_client/messaging/BufferedMessageSender.java:64-72 | `start` refuses a running thread, then a shut-down sender, then a finished thread; only an unstarted, open sender starts. |
| Sender.Send | HoogasClient/src/main/java/hoogas_client/messaging/BufferedMessageSender.java:79-93 | `send` refuses after shutdown, then before the thread runs. Otherwise it appends the message to the queue and to the accepted messages, leaving the written messages and the connections untouched; on a queue already holding 1000 it fails, standing for the blocking `put`. |
| Sender.CreateConnectionObjects | HoogasClient/src/main/java/hoogas_client/messaging/BufferedMessageSenderReceiver.java:30-34 | Each connection builds a new socket and, for a sender-receiver, a new reader with nothing carried over and the constructor's chunk size. |
| Sender.Tick | HoogasClient/src/main/java/hoogas_client/messaging/BufferedMessageSender.java:96-156 | One worker step moves messages only from the queue to the written messages, keeps every accepted message, and fires at most one callback. |
| Sender.GetLatestMessagesReceived | HoogasClient/src/main/java/hoogas_client/messaging/BufferedMessageSenderReceiver.java:39-41 | It fails exactly when no reader exists yet (before the first connection). On a closed socket nothing is ready, so it returns no message and changes nothing. Otherwise one call is the current reader's read, with the reader's concatenation invariant over the socket's input. |
| Sender.TickTryingValid | HoogasClient/src/main/java/hoogas_client/messaging/BufferedMessageSender.java:133-156 | A `tryConnect` step keeps the sender's invariant: written then queued equals accepted, at most 1000 are queued, the connections share out the written messages in order and each carried its messages framed followed by at most part of the next, the current connection while unbroken carried exactly its written messages framed, callbacks alternate established and lost with a timeout only last, and a sending worker holds a usable socket. |
| Sender.TickSendingValid | HoogasClient/src/main/java/hoogas_client/messaging/BufferedMessageSender.java:100-118 | A send-loop step keeps the sender's invariant, including when a write fails after sending part of the message: written then queued equals accepted, at most 1000 are queued, the connections share out the written messages in order and each carried its messages framed followed by at most part of the next, the current connection while unbroken carried exactly its written messages framed, callbacks alternate established and lost with a timeout only last, and a sending worker holds a usable socket. |
| Sender.Apply | HoogasClient/src/main/java/hoogas_client/messaging/BufferedMessageSender.java:64-169 | Every call and every worker step keeps the sender's invariant, so what each connection carried is always its written messages framed and at most part of one more. |
| SenderProperties.StartOnlyOnce | HoogasClient/src/main/java/hoogas_client/messaging/BufferedMessageSender.java:64-72 | Once started, every later `start` fails, whatever happens in between. |
| SenderProperties.ClosedStaysClosed | HoogasClient/src/main/java/hoogas_client/messaging/BufferedMessageSender.java:79-85 | After `close`, no `send` or `start` ever succeeds again. |
| SenderProperties.NoLossInOrder | HoogasClient/src/main/java/hoogas_client/messaging/BufferedMessageSender.java:100-112 | Whatever the calls and the network do, the written messages and then the queue are exactly the accepted messages, in order. Nothing written or reported is taken back, and the queue never exceeds 1000. |
| SenderProperties.WrittenOnSomeConnection | HoogasClient/src/main/java/hoogas_client/messaging/BufferedMessageSender.java:100-112 | Every written message was written on one of the connections. |
| SenderProperties.PeerReadsConnection | HoogasClient/src/main/java/hoogas_client/messaging/BufferedMessageSender.java:103-112 | A peer that received any start of what a connection carried frames a prefix of that connection's written messages plus the one whose write failed on it, and, once it has received their framing, at least its written messages. |
| SenderProperties.PeerReadsAtLeastOnce | HoogasClient/src/main/java/hoogas_client/messaging/BufferedMessageSender.java:103-112 | A peer that received all a connection carried frames all its written messages, in order, and at most one more: the message whose write failed on it, which stays queued for the next connection. Delivery is at least once. |
| SenderProperties.PeerReadsLiveConnection | HoogasClient/src/main/java/hoogas_client/messaging/BufferedMessageSender.java:103-106 | On the current connection while no write on it has failed, the peer, reading in any chunks, frames exactly the messages written on it, in order. |
| SenderProperties.WriteDeliversHead | HoogasClient/src/main/java/hoogas_client/messaging/BufferedMessageSender.java:103-107 | A successful write appends the head and one separator to what the current connection carried, and only then removes the head. |
| SenderProperties.FailedWriteKeepsHead | HoogasClient/src/main/java/hoogas_client/messaging/BufferedMessageSender.java:103-112 | A failed write keeps the head queued, fires one `onConnectionLost`, and enters `tryConnect`. The current connection may have carried any start of the framed head, and nothing more when nothing left or the connection was already gone. |
| SenderProperties.SendLoopExits | HoogasClient/src/main/java/hoogas_client/messaging/BufferedMessageSender.java:100-118 | The send loop ends only on shutdown, firing nothing, or on a lost connection, which fires exactly one `onConnectionLost` before `tryConnect`. |
| SenderProperties.ConnectOutcome | HoogasClient/src/main/java/hoogas_client/messaging/BufferedMessageSender.java:133-156 | When shut down, `tryConnect` fires nothing. Otherwise it retries silently until it fires established, or fires timed-out once `timeout` has elapsed without a usable socket. |
| SenderProperties.FreshReaderPerConnection | HoogasClient/src/main/java/hoogas_client/messaging/BufferedMessageSenderReceiver.java:30-34 | A successful attempt builds a new socket with a new, empty connection starting at the written count, and a reader that carries nothing over from the previous connection. |
| SenderProperties.AsWrittenNeverRecovers | HoogasClient/src/main/java/hoogas_client/messaging/BufferedMessageSender.java:128-145 | As written, after a lost connection no message is ever written again, nothing more leaves on any connection, no new socket is built and no timeout fires, whatever the network and the clock do. |
| SenderProperties.AsWrittenReportsDeadSocket | HoogasClient/src/main/java/hoogas_client/messaging/BufferedMessageSender.java:109-111 | As written, a failed write is followed at once by `onConnectionEstablished` on the same dead socket. |
| SenderProperties.CorrectedReconnects | HoogasClient/src/main/java/hoogas_client/messaging/BufferedMessageSender.java:133-145 | Corrected, a lost connection is followed by a new socket, connection and reader, then established, then a successful write of the message the failed write kept. |
| SenderProperties.CorrectedTimesOut | HoogasClient/src/main/java/hoogas_client/messaging/BufferedMessageSender.java:143-151 | Corrected, a connection that stays down is reported timed out once `timeout` has elapsed, and the queue is kept. |
| SenderProperties.SendsQueue | HoogasClient/src/main/java/hoogas_client/messaging/BufferedMessageSender.java:79-93 | Sends to a running sender append the messages to the queue in order and change nothing else. |
| SenderProperties.StepsDrain | HoogasClient/src/main/java/hoogas_client/messaging/BufferedMessageSender.java:100-107 | On a working connection, one step per queued message writes the whole queue in order on that connection and fires nothing. |
| SenderProperties.QueuedBeforeConnect | HoogasClient/src/test/java/hoogas_client/messaging/BufferedMessageSenderTest.java:53-90 | Messages sent after `start` while the peer is not yet listening are all queued, in order. |
| SenderProperties.SentBeforeConnect | HoogasClient/src/test/java/hoogas_client/messaging/BufferedMessageSenderTest.java:53-90 | Once the peer listens, those messages are written in order, and the one connection carried exactly them, framed. |
| SenderProperties.CloseShutsDown | HoogasClient/src/test/java/hoogas_client/messaging/BufferedMessageSenderTest.java:92-140 | A second `start` fails. After `close` the socket is closed, and `send` and `start` both fail. |
| SenderProperties.ReceivesHelloWorld | HoogasClient/src/test/java/hoogas_client/messaging/BufferedMessageSenderReceiverTest.java:52-60 | Before connecting there is no reader; once connected, `Hello World¬` is read back as the single message `Hello World`. |
| SenderProperties.ReceivesOneMessage | HoogasClient/src/main/java/hoogas_client/messaging/BufferedMessageSenderReceiver.java:30-41 | Any separator-free reply shorter than the chunk size, sent on a new connection, is read back as one message. |
| Client.FieldsJoin | HoogasClient/src/main/java/hoogas_client/HoogasClient.java:169 | Splitting on a character and joining on it again gives the text back, and no piece contains the character. |
| Client.JoinFields | HoogasClient/src/main/java/hoogas_client/HoogasClient.java:169 | Joining pieces free of the character and splitting again gives the pieces back. |
| Client.StripTrailingEmpty | HoogasClient/src/main/java/hoogas_client/HoogasClient.java:169-172 | Java's `split` drops exactly the trailing empty fields: what remains is a prefix ending in a non-empty field (or nothing), and everything dropped is empty. |
| Client.SplitPair | HoogasClient/src/main/java/hoogas_client/HoogasClient.java:172 | `k=v` with a non-empty `v` and no other `=` splits into exactly `[k, v]`. |
| Client.ParseRoundTrip | HoogasClient/src/main/java/hoogas_client/HoogasClient.java:168-176 | The corrected parse of the configuration text the server renders gives back the map the properties describe, empty values included. |
| Client.LaterKeyWins | HoogasClient/src/main/java/hoogas_client/HoogasClient.java:171-174 | A later line with the same key replaces an earlier one. |
| Client.KeyKept | HoogasClient/src/main/java/hoogas_client/HoogasClient.java:171-174 | A key named on no line keeps its value. |
| Client.AsWrittenPlainValues | HoogasClient/src/main/java/hoogas_client/HoogasClient.java:168-176 | As written, values that are non-empty and free of `=` parse correctly. |
| Client.AsWrittenEmptyValueFails | HoogasClient/src/main/java/hoogas_client/HoogasClient.java:172-173 | As written, a property with an empty value makes the parse fail where the corrected parse succeeds. |
| Client.AsWrittenTruncatesValue | HoogasClient/src/main/java/hoogas_client/HoogasClient.java:172-173 | As written, a value containing `=` is cut at its first `=`. |
| Client.AsWrittenEmptyConfigFails | HoogasClient/src/main/java/hoogas_client/HoogasClient.java:168-176 | As written, an empty configuration fails to parse. |
| Client.TestConfigParses | HoogasClient/src/test/java/hoogas_client/HoogasClientTest.java:80-87 | `k1=v1`, newline, `k2=v2` parses to the two-entry map. |
| Client.StopIndex | HoogasClient/src/main/java/hoogas_client/HoogasClient.java:98-102 | Polling stops at the first poll that found something or that came after the 4000 ms timeout. |
| Client.CheckReply | HoogasClient/src/main/java/hoogas_client/HoogasClient.java:104-111 | No reply is a timeout. Anything other than exactly one `PUBLIC_CFG_RESPONSE` is rejected. That one message is accepted. |
| Client.WaitOutcomes | HoogasClient/src/main/java/hoogas_client/HoogasClient.java:94-112 | Polls that never find anything time out; a single config response at the first poll is accepted; a single `STOP` message there is rejected. |
| Client.Init | HoogasClient/src/main/java/hoogas_client/HoogasClient.java:38-69 | `init` fails exactly when already initialised. Otherwise a timeout or a rejected reply reaches the caller as that error, and an unparseable reply as `BadConfig`. A parsed reply gives that map and marks the client initialised. |
| Client.InitReadsServerConfig | HoogasClient/src/main/java/hoogas_client/HoogasClient.java:38-69 | When the first poll finds the server's rendered properties as the one config response, `init` returns exactly the map they describe and the client is initialised. |
| Client.InitTestConfig | HoogasClient/src/test/java/hoogas_client/HoogasClientTest.java:78-87 | With the test server's reply `testing1=1234`, NEWLINE, `testing2=5678`, `init` returns a two-entry map holding `1234` and `5678`. |
| Client.SetState | HoogasClient/src/main/java/hoogas_client/HoogasClient.java:71-82 | The state calls succeed exactly when the client is initialised. |
| Client.InitOnce | HoogasClient/src/main/java/hoogas_client/HoogasClient.java:38-82 | After a successful `init`, a second `init` fails and the state calls succeed; before it, they fail. |
| DeployedApplications.AddApplications | src/main/java/com/noomtech/hoogas/deployment/DeployedApplicationsHolder.java:20-37 | Different lengths fail before any update and notify no one. Otherwise each name maps to the version at its last occurrence, other entries are unchanged, and every listener is notified once, in registration order. |
| DeployedApplications.ClearEverything | src/main/java/com/noomtech/hoogas/deployment/DeployedApplicationsHolder.java:39-48 | No applications and no listeners remain. |
| DeployedApplications.AddListener | src/main/java/com/noomtech/hoogas/deployment/DeployedApplicationsHolder.java:70-72 | The listener is appended after those already registered; the applications are unchanged. |
| DeployedApplications.ClearThenUpdate | src/main/java/com/noomtech/hoogas/deployment/DeployedApplicationsHolder.java:20-48 | After clearing, only a newly added listener is told of the next update, and only the names it adds are deployed. |
| DeployedApplications.LaterVersionWins | src/main/java/com/noomtech/hoogas/deployment/DeployedApplicationsHolder.java:27-29 | The same name twice in one update records the later version. |
| InboundMessaging.TypeOf | HoogasServer/src/main/java/com/noomtech/hoogas/internal_messaging/InboundMessagingService.java:33-35 | A file name selects the processor of the type with that name, and no processor when no type has it. |
| InboundMessaging.NewService | HoogasServer/src/main/java/com/noomtech/hoogas/internal_messaging/InboundMessagingService.java:30-36 | Every message type gets its own empty processor with no listeners. |
| InboundMessaging.AddReceived | HoogasServer/src/main/java/com/noomtech/hoogas/internal_messaging/InboundMessagingService.java:108-110 | Received messages accumulate in arrival order. |
| InboundMessaging.Fire | HoogasServer/src/main/java/com/noomtech/hoogas/internal_messaging/InboundMessagingService.java:117-125 | An empty batch fires nothing and changes nothing. A non-empty batch goes whole to every listener, in registration order, and is then cleared. |
| InboundMessaging.RemoveFirst | HoogasServer/src/main/java/com/noomtech/hoogas/internal_messaging/InboundMessagingService.java:114-116 | Removing a listener takes out its first occurrence and keeps the rest in order; one never registered leaves the list unchanged. |
| InboundMessaging.RemoveListener | HoogasServer/src/main/java/com/noomtech/hoogas/internal_messaging/InboundMessagingService.java:128-150 | Removing a listener takes the first occurrence out of its type's listeners; that type's batch and every other type's processor are unchanged. |
| InboundMessaging.AddListener | HoogasServer/src/main/java/com/noomtech/hoogas/internal_messaging/InboundMessagingService.java:128-146 | A listener is appended to its type's processor only. |
| InboundMessaging.RemovedListenerNotCalled | HoogasServer/src/main/java/com/noomtech/hoogas/internal_messaging/InboundMessagingService.java:114-123 | A removed listener (registered once) receives no later batch. A non-empty batch goes to the remaining listeners, each once in registration order, and an empty one to nobody. |
| InboundMessaging.TakeLine | HoogasServer/src/main/java/com/noomtech/hoogas/internal_messaging/InboundMessagingService.java:73-74 | The line read is a prefix of the file holding no `\n` or `\r`, and it stops only at a terminator or at the end of the file. |
| InboundMessaging.FirstLine | HoogasServer/src/main/java/com/noomtech/hoogas/internal_messaging/InboundMessagingService.java:73-74 | `readLine` gives no line (`null`) exactly when the file is empty. |
| InboundMessaging.ScanFile | HoogasServer/src/main/java/com/noomtech/hoogas/internal_messaging/InboundMessagingService.java:69-92 | A directory, a file with an unknown name, or a file that cannot be deleted stays in place; every other file is consumed. |
| InboundMessaging.ScanFileEffect | HoogasServer/src/main/java/com/noomtech/hoogas/internal_messaging/InboundMessagingService.java:71-81 | A file named after a type adds its first line, from the application, to that type's batch and marks the type; nothing else changes. |
| InboundMessaging.ScanAppsFinds | HoogasServer/src/main/java/com/noomtech/hoogas/internal_messaging/InboundMessagingService.java:63-99 | The scan adds to each type's batch exactly that type's messages from all the listings, in scan order, and marks the type exactly when it found one. |
| InboundMessaging.ScanAppsLeaves | HoogasServer/src/main/java/com/noomtech/hoogas/internal_messaging/InboundMessagingService.java:69-92 | Each directory keeps exactly its directories, its files with unknown names and the files that could not be deleted, in listing order. |
| InboundMessaging.CollectDelivers | HoogasServer/src/main/java/com/noomtech/hoogas/internal_messaging/InboundMessagingService.java:58-103 | A type fires exactly when the scan found a message of it. Its listeners then each receive the whole batch, in registration order, and the batch is cleared. A type that did not fire is unchanged. |
| InboundMessaging.CollectLeaves | HoogasServer/src/main/java/com/noomtech/hoogas/internal_messaging/InboundMessagingService.java:58-103 | After `collect`, each directory holds exactly the entries the scan leaves in place. |
| InboundMessaging.CollectEmptiesBatches | HoogasServer/src/main/java/com/noomtech/hoogas/internal_messaging/InboundMessagingService.java:100-123 | Batches that were empty before `collect` are empty after it, whether or not their type fired. |
| InboundMessaging.DoCheck | HoogasServer/src/main/java/com/noomtech/hoogas/internal_messaging/InboundMessagingService.java:38-48 | Before the interval has passed nothing happens. Otherwise the processors, listings and calls are exactly those of `collect`, so what `CollectDelivers` and `CollectEmptiesBatches` state holds for a run, and the finishing time is recorded. |
| InboundMessaging.NothingToCollect | src/test/java/com/noomtech/hoogas/internal_messaging/InboundMessagingServiceTest.java:56-79 | A directory holding only directories and unknown names yields no message and keeps every entry. |
| InboundMessaging.OneLine | HoogasServer/src/main/java/com/noomtech/hoogas/internal_messaging/InboundMessagingService.java:74 | A file of one line without a terminator has that line as its message text. |
| InboundMessaging.CollectScenario | src/test/java/com/noomtech/hoogas/internal_messaging/InboundMessagingServiceTest.java:84-138 | One config request, one stats message and some invalid entries: each listener receives its one message from the application, and only the invalid entries remain. |
| PublicConfig.NewService | src/main/java/com/noomtech/hoogas/public_config/PublicConfigService.java:40-41 | A new service has no requesters and has not run. |
| PublicConfig.OnConfigRequest | src/main/java/com/noomtech/hoogas/public_config/PublicConfigService.java:48-52 | Each request adds its sender to the requester set, so duplicates collapse; nothing else changes. |
| PublicConfig.DoCheck | src/main/java/com/noomtech/hoogas/public_config/PublicConfigService.java:55-75 | It runs only when the interval has passed, and sends only when someone has asked. It sends once, as `GLOBAL_CFG_RESPONSE`: the `key=value` lines of every property go to exactly the deployed requesters, with their versions. The requester set is kept, and the run time is recorded even when the send fails. |
| PublicConfig.RequestersServedEveryRun | src/main/java/com/noomtech/hoogas/public_config/PublicConfigService.java:55-75 | The next run after a full interval sends the same response to the same destinations again; an earlier check sends nothing. |
| PublicConfig.ResponseReadsBack | src/main/java/com/noomtech/hoogas/public_config/PublicConfigService.java:59-63 | The response text, parsed by the corrected client parse, gives back the server's properties. |
| PublicConfig.RequestScenarios | src/test/java/com/noomtech/hoogas/public_config/PublicConfigServiceTest.java:58-152 | Two requesters get the config at both their versions; one requester gets it alone; no requester gets nothing. |

## Left out

- Sockets, streams, `ServerSocket.accept`, `reader.ready()` and `IOException`s while reading. A stream is the text available to read, and an operation that can fail takes a success flag.
- Receiver.GetReceivedMessages: after `close` it returns nothing, but characters that `BufferedReader` had already pulled from the socket ahead of the caller (up to its 8192-character buffer) can still be read in Java. The decoder's buffered bytes are not modelled either.
- Sender.GetLatestMessagesReceived: the same simplification after the socket is closed.
- MessageReader.ReadChunk: sizes count Dafny characters, which are Unicode scalar values. Java's `char[]` buffers and `read(buf, 0, chunkSize)` count UTF-16 code units (HoogasMessageReader.java:23,43; MessageReceiver.java:41). The same holds for MessageReader.ReceiveProperties, Receiver.GetReceivedMessages, Sender.GetLatestMessagesReceived and SenderProperties.ReceivesOneMessage. A character outside the Basic Multilingual Plane is two units in Java, so for such text the per-call results differ: Java can return a message one call later, and a reply the model reads in one call can take Java several. The framed messages, taken over all calls, are the same.
- Receiver.NewReceiverWithSize: takes the buffer size as a `nat`. In Java, a negative size makes the constructor throw `NegativeArraySizeException` at `new char[receivedMessageBufferSize]` (MessageReceiver.java:41). The model has no such receiver. `MessageReader.NewFramer` likewise takes a `nat`; `HoogasMessageReader`'s constructor throws the same way (HoogasMessageReader.java:23).
- Sender.CreateConnectionObjects: the sender-receiver's chunk size is a `nat`. With a negative one, Java sets the socket and then `new HoogasMessageReader(...)` throws (BufferedMessageSenderReceiver.java:33). `tryConnect` swallows the exception (BufferedMessageSender.java:138-139) and reports the connection established, since the socket is connected, and `messageReader` stays null, so every `getLatestMessagesReceived` throws `NullPointerException`. The model does not represent such a sender.
- Receiver.SendMessage and Receiver.GetReceivedMessages: on an open socket whose peer has gone, the model never fails. Java can throw `IOException` there.
- Sender.Tick: a write on a connection already known to be gone sends nothing. What reaches the peer is not tracked; each connection records what left the sender, and the peer lemmas take any start of it.
- `PublicConfigService.java` does not match the types of the code around it. `InternalMessageInbound.from` is an `Application`, the root `SharedConstants` has no `NEWLINE`, and `OutboundMessagingService.send` takes one argument. The model follows the service's test instead: `from` is a string, and a response is sent as a message plus its destinations.
- Threads, blocking, `Thread.sleep`, `join` and `volatile`. The worker is a state machine stepped explicitly. A `send` on a full queue is reported as `QueueFull` with the state unchanged, standing for the blocking `put`.
- `System.currentTimeMillis()`. The current time and a job's finishing time are parameters.
- The read-write lock of `DeployedApplicationsHolder`. Each operation is one atomic step.
- `getDeployedApplications`. It returns a read-only view of the map, and the model's `map` value is already immutable.
- Exceptions thrown by listeners and callbacks. These are not modelled.
- The client's file-based messaging is left out: `CheckerRoutine`, `setUpMessagingDir`, `checkForMsgsFromHoogas` and `sendToHoogas`. The reply to a configuration request is given as the sequence of poll results.
- `OutboundMessagingService`. The public-configuration response is returned as a `Dispatch` value, message plus destinations, instead of being sent.
- The order in which `collect` fires its processors comes from a `HashSet`, so it is not fixed. The model returns the calls per message type instead.
- The `HashMap` iteration order over deployed applications is given by the order of the listing sequence. The `Properties` iteration order of the configuration text is given by the order of the property sequence.
- `SharedConstants.NEWLINE` is modelled as a single line feed. The separator `¬` is taken from the tests and the reader's doc comment.
- `String.split` is modelled only for a single literal character, including Java's removal of trailing empty fields.
- `readLine` returns `null` on an empty file, which is modelled as `None`. A line ends at `\n` or `\r`.
- Client.Init: requires the poll results to include a stopping point: a poll that found something, or one after the 4000 ms timeout. The wait in `waitForPublicConfig` (HoogasClient/src/main/java/hoogas_client/HoogasClient.java:95-102) is a do-while that polls and sleeps 250 ms while nothing has arrived and fewer than 4000 ms have passed; it ends only because the clock advances, and the requirement stands for that clock.
- InboundMessaging.Fire: every listener is handed the same live read-only view of the batch (`Collections.unmodifiableList`, InboundMessagingService.java:119), which is cleared after the callbacks (:123), so a listener that keeps the reference later sees it empty and then refilled; the model records the batch as each listener sees it during its own call.
- Client.Init: parses with the corrected `Client.ParseConfig`, not the as-written `buildConfigMap`; see Findings.
- Receiver.ChunkSizeFiveTrace: stated for the exact stream of the test and for a fixed number of calls, not for any stream.
- MessageReader.DocumentedTrace: stated for the one input the doc comment gives.
- The stub services, `DeploymentService`, `AppManagementTaskExecutor` and the root `src/` copy of `InboundMessagingService` are not part of this model.

## Findings

| source | as written | input that shows it | evidently intended | confidence | as-written member | corrected member |
|---|---|---|---|---|---|---|
| HoogasClient/src/main/java/hoogas_client/messaging/BufferedMessageSender.java:128-145 | `socketConnected()` is `Socket.isConnected()`, which stays true once a socket has connected, even after its connection is lost. So `tryConnect` after a failed write never builds a new socket: it reports established at once on the dead socket, and the next write fails again. | A running sender whose write fails once (the peer goes away), then any sequence of steps, including steps where a new socket could be built | After a lost connection, build a new socket (and reader) and resume delivery, or report a timeout | not executed | SenderProperties.AsWrittenNeverRecovers | SenderProperties.CorrectedReconnects |
| HoogasClient/src/main/java/hoogas_client/HoogasClient.java:172-173 | `line.split("=")[1]`: for a line `k=`, `split` drops the trailing empty field, so index 1 is out of bounds and `init` throws. A value containing `=` is cut at the first `=`. | A public property with an empty value, rendered by the server as `k=` followed by a newline | Each line maps the text before its first `=` to everything after it, empty values included | not executed | Client.AsWrittenEmptyValueFails | Client.ParseRoundTrip |
