# Verified model of a messenger

A Dafny 4.11 model of the messenger's protocol core: the bounded queues behind private messages, the message-counter
protocol, the server's application state, the wire formats, and the command language.

Code that updates state in place is modelled by classes and by methods with loops. Each such method is proved equal to a
function on values, and the properties below are proved about those functions, over every run or every input. Byte
vectors and `std::string` are both sequences of bytes. Exceptions are `Result` or `Option` values.

| module | what it models |
|---|---|
| `Octets`, `Identities` | bytes and fixed-width fields; names and public keys |
| `Hash` | the FNV-1a key hash |
| `Codec` | messages, the short and the extended wire format |
| `Framing`, `Connection` | length-prefixed streams, receive and send buffers |
| `WireGrammar` | both wire formats, frames and sealed messages spelled out byte by byte |
| `RingProtocol` | the lock-free ring, at the level of single loads and stores |
| `MessageQueue` | the ring as an object, and one ring per recipient |
| `SealedBox` | the ciphertext envelope, the key salt and the message key |
| `CounterProtocol`, `CounterGuarantees` | clients, their shared counters and key caches on an unreliable network where anyone may seal with keys of their own; what is guaranteed there |
| `HalfDuplex` | two clients over reliable channels |
| `ClientSession`, `ClientRuns`, `ClientOutbox` | a client's queueing, draining and accepting of private messages, as an object, over runs, and told from the events alone |
| `ClientProtocol`, `QueuedNetwork` | a client's steps as protocol events, and clients with queues on one network |
| `ServerModel`, `ServerHistory`, `ServerGuarantees` | the server state, how what happened before explains it, and what clients can rely on |
| `ServerServices`, `MessagingServer` | the service objects, and the dispatcher in front of them |
| `PrivateMessagePath` | one private message from the sender's queue through the server to the recipient |
| `CommandPatterns`, `CommandLine`, `CommandMessages` | tokens, patterns, the catalog, and a typed line end to end |
| `TypedPrivateMessages` | what typed private messages guarantee the queues |

## Main results

- **Ring.** For every interleaving of one producer and one consumer, where a load of the other side's index may return
  any not-yet-superseded store: what was pushed is what was popped, then the item in hand, then the live slots; pops return
  what pushes were given, in order; no slot access races; a push gives up exactly when the head store it read leaves no room.
- **Counters.** Over a network that loses, repeats, reorders, alters, misroutes and relabels, and on which anyone may seal
  with keys of their own, whatever a client accepts was sealed by the holder of the key attached to it, or by itself for
  that key, and is never a copy of its own message to the claimed peer. With the claimed sender's key attached, the sender
  is right in every run if and only if the names in the message settle it; messages so settled are accepted as an
  in-order, duplicate-free subsequence of what that sender sent.
- **Queues.** Per recipient, what waits and what has been sent follow from the events alone: messages wait, up to 4095 of
  them, and a key response sends what waits until one is too large. So what a client queued is what it sent, in order, and
  what still waits, if and only if no payload taken off the queue was too large to send; what users type never is.
- **From queue to screen.** For clients with queues on one such network: what one accepts from another under the other's
  own key is an in-order, duplicate-free subsequence of the payloads the other queued for it, if key responses are
  genuine, whatever is attached to arrivals. Without any assumption on keys the same holds of what the names settle.
- **Delivery.** Over reliable channels everything is accepted if and only if nobody speaks while something is on its way
  to them.
- **Server.** In every run the session maps are inverse, users are exactly the bound names and members are users; group
  messages reach each member once; who is registered, which rooms exist and who is in a room follow from the logins,
  requests, entries and exits before; key replies carry the keys of the current login; a
  command is refused for the first of its conditions that holds; each error text stands for one condition on the state and
  the run, and reaches only those it concerns. The objects, fed any bytes and lost connections, go through such a run.
- **Codec.** A message survives the wire if and only if it respects the widths of the format it goes out in; re-encoding
  gives back the bytes that were read if and only if these were canonical; bytes decode to a message if and only if they
  are one of its two spelled-out forms.
- **Streams.** Chunking never changes what is decoded, and a receiver always holds a prefix of what was queued.
- **End to end.** A sealed private message passes the server exactly when it fits with the sender's keys added, and opens at
  the recipient exactly under the matching counter.
- **Commands.** Matching is a grammar; a typed command comes back if and only if its arguments are in the language.

## Properties that hold only under a condition

Each has the exact condition and a lemma at an input where the property fails.

- Sender names. The key to open a message with comes with the message. A wrong key attached means a wrong sender
  (`CounterGuarantees.AcceptedFromClaimedIff`; `CounterGuarantees.ForeignKeyIsAccepted` has such runs). With the claimed
  sender's key attached, the sender is right in every run exactly when the message is addressed to its reader and the salt
  leaves each of the two names only the other (`CounterGuarantees.SenderIsRightIff`); otherwise
  `CounterGuarantees.MisdirectedIsAccepted` or `CounterGuarantees.ReflectedIsAccepted` is a run where it is wrong.
- Full delivery. The counter is shared by both directions, so everything is accepted exactly when nobody speaks across an
  arrival (`HalfDuplex.AllAcceptedIffHalfDuplex`); `HalfDuplex.CrossingLosesBoth` is one message each way.
- Queued is sent. A message too large for a 32-bit length is taken off the queue, lost, and ends the drain
  (`ClientSession.DrainEmptiesIff`, `ClientRuns.QueuedIsSentIff`); `ClientRuns.OversizedIsLost` shows what it leaves. Such
  a payload is never typed (`TypedPrivateMessages.TypedRunLosesNothing`), but it can come as a command off the wire, which
  the client executes like a typed one (`TypedPrivateMessages.OversizedCanArrive`).
- Round trips. More than 127 metadata items, or a field longer than its length prefix, are written without complaint and
  do not come back (`Codec.RoundTripIffEncodable`); `Codec.ManyItemsDoNotSurvive` has 128 empty items.
- Framing. The 32-bit sum in `has_message_in_buffer` wraps for declared lengths of 2^32 - 4 and more, which shows exactly
  when the frame is incomplete (`Framing.HasMessageIff`); `Framing.WrappedSumPasses` has four such bytes.
- Members are users. The unused `disconnect_username` leaves a stranger in a room exactly when the name is in one
  (`ServerGuarantees.DisconnectKeepsMembersIff`, `ServerGuarantees.DisconnectCanStrandAMember`).
- Error wording. A login under a taken name is told that no public key has been set. The words of a refusal are true
  exactly when it does not answer such a login for a user whose key is set (`ServerHistory.WordingTrueIff`);
  `ServerHistory.TakenNameIsMisreported` is a run of two logins.
- Salts. Names are concatenated without a separator, so two pairs of names can share a salt. A salt determines its names
  exactly when it can be cut in order at one place only (`SealedBox.SaltDeterminesIff`); `SealedBox.SaltIsAmbiguous` has
  two pairs with one salt.

## Model

| member | source | states |
|---|---|---|
| `RingProtocol.RunKeepsInv` | src/application/messaging/message_queue.cpp:3-23 | the ring invariant (indices, sightings, slots, logs) holds in every state of every interleaving of push and pop at memory-access granularity, with stale loads |
| `RingProtocol.Conservation` | src/application/messaging/message_queue.cpp:3-23 | pushed = popped, then the item in the consumer's hand, then the live slots; popped is a prefix of pushed; at most size - 1 are live; no moved-from slot is ever read |
| `RingProtocol.PopsReturnWhatPushesWereGiven` | src/application/messaging/message_queue.cpp:3-23 | in every run, from the steps alone: the push log is the items given to the pushes that published, and the pop log is as many of them, from the first, as pops have released |
| `RingProtocol.NoDataRace` | src/application/messaging/message_queue.cpp:3-23 | conflicting slot accesses are ordered by an acquired store, and producer and consumer never stand at one slot |
| `RingProtocol.GivesUpIff` | src/application/messaging/message_queue.cpp:6-19 | push fails exactly when the head store it read leaves no room, pop exactly when the tail store it read leaves no item, and otherwise they go on; full or empty on a fresh load |
| `RingProtocol.PushAlone` | src/application/messaging/message_queue.cpp:3-12 | from every reachable state, an uninterrupted push publishes its item, or gives up on a full ring |
| `RingProtocol.PopAlone` | src/application/messaging/message_queue.cpp:14-23 | from every reachable state, an uninterrupted pop returns the oldest item, or gives up on an empty ring |
| `MessageQueue.LockFreeQueue.Push` | src/application/messaging/message_queue.cpp:3-12 | appends unless size - 1 items are queued, and says which |
| `MessageQueue.LockFreeQueue.Pop` | src/application/messaging/message_queue.cpp:14-23 | takes the oldest item, none exactly on an empty ring |
| `MessageQueue.Queues.Push` | src/application/messaging/message_queue.cpp:25-33 | appends to the recipient's ring, creating it at need; a full ring drops the new item; other recipients are untouched |
| `MessageQueue.Queues.FindPending` | src/application/messaging/message_queue.cpp:45-54 | takes the oldest item of that recipient only |
| `ClientSession.Client.PrivateMessage` | src/application/commands/impl/private_message.cpp:23-38 | queues non-empty payloads for non-empty recipients |
| `ClientSession.SealMessage` | src/application/dispatching/message_dispatchers/response_handler.cpp:24-33 | derives the key, encrypts, builds and serializes the cipher message, or reports that it does not fit |
| `ClientSession.Client.SendQueued` | src/application/dispatching/message_dispatchers/response_handler.cpp:19-34 | seals under the peer's counter, sends, and advances the counter only when sent |
| `ClientSession.Client.CachePublicKey` | src/application/encryption_service.cpp:84-89 | remembers the peer's key, and fails exactly when one of the two keys does not parse |
| `ClientSession.Client.HandleKeyResponse` | src/application/dispatching/message_dispatchers/response_handler.cpp:12-43 | caches the key; the drain loop equals the drain function on the client's whole state, and terminates; keys that do not parse send nothing |
| `ClientSession.DrainInOrder` | src/application/dispatching/message_dispatchers/response_handler.cpp:15-43 | a drain hands over the queue from the front, under consecutive counters |
| `ClientSession.SealFailsIffTooLarge` | src/models/message.cpp:18-37 | building the cipher message fails exactly when its wire size exceeds 32 bits |
| `ClientSession.DrainEmptiesIff` | src/application/dispatching/message_dispatchers/response_handler.cpp:15-43 | the queue is emptied and everything sent exactly when every queued message fits |
| `ClientRuns.QueueConserved` | src/application/messaging/message_queue.cpp:25-54 | in every run of pushes, key responses and arrivals, per recipient: pushes not dropped by a full ring = messages taken off the queue, in order, then messages still queued |
| `ClientRuns.QueuedIsSentIff` | src/application/dispatching/message_dispatchers/response_handler.cpp:15-43 | in every run, per recipient: what was sent is what was taken off without exactly the oversized payloads; pushes not dropped = sent, then still queued, exactly when none taken off was oversized |
| `ClientOutbox.OutboxFollowsEvents` | src/application/messaging/message_queue.cpp:25-54 | in every run, per recipient, from the events alone: non-empty messages wait, up to 4095; a key response whose keys parse sends them, oldest first, until one is too large and lost |
| `ClientOutbox.KeyResponseSendsIff` | src/application/dispatching/message_dispatchers/response_handler.cpp:12-43 | a key response empties the peer's queue and sends all of it, in order, exactly when all of it can be sent; keys that do not parse change neither queues nor log |
| `ClientOutbox.NothingIsDropped` | src/application/messaging/message_queue.cpp:25-33 | with sendable payloads and at most 4095 of them between two key responses, everything queued is sent, in order, or waits |
| `ClientOutbox.KeyResponseCatchesUp` | src/application/dispatching/message_dispatchers/response_handler.cpp:15-43 | in every such run, after a key response everything queued for that peer so far has been sent, in order |
| `ClientOutbox.KeysFollowEvents` | src/application/encryption_service.cpp:84-89 | in every run, the key held for a peer is the one the latest key response or arrival brought |
| `ClientOutbox.CounterCounts` | src/application/dispatching/message_dispatchers/cipher_handler.cpp:15-24 | in every run, the counter for a peer is the number of messages sent to it and read from it, in 64 bits |
| `ClientRuns.OversizedIsLost` | src/application/dispatching/message_dispatchers/response_handler.cpp:15-43 | a run in which an oversized payload leaves the queue with nothing sent, the next one waiting and the counter at zero |
| `TypedPrivateMessages.TypedIsQueued` | src/application/commands/impl/private_message.cpp:23-63 | a typed private message queues its text for its recipient |
| `TypedPrivateMessages.TypedRunLosesNothing` | src/protocol/parser.cpp:65-86 | in every run of typed private messages with 16-bit names, per recipient: pushes not dropped = sent, then still queued |
| `TypedPrivateMessages.TypedCatchesUp` | src/application/dispatching/message_dispatchers/response_handler.cpp:15-43 | after a key response everything typed for that peer so far has been sent, in order, if never more than 4095 waited for one |
| `TypedPrivateMessages.OversizedCanArrive` | src/application/messaging/messaging_client.cpp:7-46 | for every recipient, a command that fits a frame, decodes, and queues a payload too large to send |
| `ClientRuns.Live` | src/application/dispatching/message_dispatchers/response_handler.cpp:12-43 | whatever happens to a client object from its start is such a run |
| `ClientProtocol.DrainIsProtocolSends` | src/application/dispatching/message_dispatchers/response_handler.cpp:19-34 | every drain, also one that ends on an oversized message, is a run of protocol sends with the same counters and ciphertexts |
| `ClientSession.DecryptFor` | src/application/encryption_service.cpp:51-82 | gives what opens under the attached key and this counter when the attached signature holds, and nothing otherwise |
| `ClientSession.Client.ProcessEncryptedMessage` | src/application/dispatching/message_dispatchers/cipher_handler.cpp:5-34 | caches the attached key, reads the message with it, and advances the counter exactly when it is read |
| `ClientProtocol.ReceiveIsDelivery` | src/application/dispatching/message_dispatchers/cipher_handler.cpp:5-34 | an arrival is the protocol's delivery: same counters and keys after it, accepted with the same plaintext |
| `ClientProtocol.StepIsProtocol` | src/application/dispatching/message_dispatchers/response_handler.cpp:12-43 | every step of a client is a run of protocol events that ends with the same counters and keys, records what was put on the wire, and concerns no other client |
| `QueuedNetwork.NetworkRunKeepsInv` | src/application/dispatching/message_dispatchers/response_handler.cpp:12-43 | in every run of clients with queues on one network: the counter invariant, each client's counters and keys as in the protocol, and the network's log of a client's messages is the client's own |
| `QueuedNetwork.AddressedWasQueued` | src/application/dispatching/message_dispatchers/cipher_handler.cpp:5-34 | in every run, whatever keys anyone was handed: what b accepts from a, addressed to b and under a's own key, is an in-order, duplicate-free subsequence of the payloads a queued for b, if the two names settle their salt |
| `QueuedNetwork.AcceptedWasQueued` | src/application/dispatching/message_dispatchers/response_handler.cpp:12-43 | in every run with genuine key responses, whatever is attached to arrivals: what b accepts from a under a's own key is an in-order, duplicate-free subsequence of the payloads a queued for b |
| `QueuedNetwork.GenuineResponsesSuffice` | src/application/dispatching/message_dispatchers/response_handler.cpp:12-34 | clients seal for genuine keys if the key responses are genuine: a drain seals with the key of its response |
| `PrivateMessagePath.KeyRequestIsAnswered` | src/application/dispatching/message_dispatchers/response_handler.cpp:3-13 | in every run of the server, a key request is answered with what the client reads as that user's name and the keys of their current login |
| `PrivateMessagePath.SealedReachesServer` | src/application/dispatching/message_dispatchers/response_handler.cpp:24-33 | what a drain sends is, to the server, a cipher message with both names and the sealed body |
| `PrivateMessagePath.AttachedKeysOpen` | src/application/dispatching/message_dispatchers/cipher_handler.cpp:36-47 | with the sender's own keys attached, a message sealed for the recipient is read there exactly at the counter it was sealed with |
| `PrivateMessagePath.PrivateMessageArrives` | src/application/services/server_application_service.cpp:88-115 | a sealed message is forwarded exactly when it fits with the sender's keys, arrives at the recipient's connection with both names and these keys, and is read there exactly when the recipient's counter matches |
| `SealedBox.Encrypt` | src/infrastructure/crypto/AESGCMEncryption.cpp:7-47 | writes iv, little-endian counter, body and tag, the counter being the associated data |
| `SealedBox.Decrypt` | src/infrastructure/crypto/AESGCMEncryption.cpp:49-105 | rejects short input, then a counter mismatch, then failed authentication |
| `SealedBox.OpensIffCounterMatches` | src/infrastructure/crypto/AESGCMEncryption.cpp:66-73 | a sealed message opens, to its plaintext, exactly for the counter it was sealed with |
| `SealedBox.CounterIsAuthenticated` | src/infrastructure/crypto/AESGCMEncryption.cpp:75-105 | writing another counter into a sealed message does not make it open there |
| `WireGrammar.SealedBytes` | src/infrastructure/crypto/AESGCMEncryption.cpp:17-46 | a sealed message is twelve bytes of iv, the counter least significant byte first, the body and sixteen bytes of tag |
| `SealedBox.SaltIsSymmetric` | include/infrastructure/crypto/KDF.hpp:67-74 | both directions of a conversation use one salt |
| `SealedBox.SaltIsAmbiguous` | include/infrastructure/crypto/KDF.hpp:67-74 | two different pairs of names with one salt |
| `SealedBox.SaltDeterminesIff` | include/infrastructure/crypto/KDF.hpp:67-74 | a salt determines its two names exactly when it can be cut into a part and a part not before it at one place only |
| `SealedBox.FixesPeerIff` | include/infrastructure/crypto/KDF.hpp:67-74 | next to one of its names a salt leaves one other exactly when neither its rest after nor its rest before that name is a second one |
| `SealedBox.DirectionsShareKey` | src/application/encryption_service.cpp:29-41 | one key serves both directions between two clients |
| `CounterProtocol.RunKeepsInv` | src/application/dispatching/message_dispatchers/cipher_handler.cpp:12-24 | in every run: sends and accepts of each pair rise in counter, every accept has its origin and keys that were vouched for, and no counter value is spent twice |
| `CounterGuarantees.AcceptedWasSealedByKeyHolder` | src/application/dispatching/message_dispatchers/cipher_handler.cpp:12-24 | in every run, whatever is accepted was sealed, with that counter and plaintext, by the holder of the attached key for the accepting client, or by the accepting client for the attached key |
| `CounterGuarantees.ClientKeyMeansClientSent` | src/application/encryption_service.cpp:51-74 | if the attached key is a client's, that client or the accepting one sent the message |
| `CounterGuarantees.AcceptedFromClaimedIff` | src/application/dispatching/message_dispatchers/cipher_handler.cpp:12-24 | an accepted message from the sender it claims has that sender's key attached; when the names settle it, having that key attached is enough |
| `CounterGuarantees.SenderIsRightIff` | src/application/encryption_service.cpp:51-74 | with the claimed sender's key attached, the sender is right in every run exactly when the message is addressed to its reader and the salt leaves each name only the other |
| `CounterGuarantees.MisdirectedIsAccepted` | src/application/encryption_service.cpp:51-74 | a run in which what the claimed sender sent to another name is accepted |
| `CounterGuarantees.ReflectedIsAccepted` | src/application/encryption_service.cpp:51-74 | a run in which the reader's own message to another name is accepted |
| `CounterGuarantees.OneCutSettles` | include/infrastructure/crypto/KDF.hpp:67-74 | a salt with one cut settles every message between its two names |
| `CounterGuarantees.AcceptedIsInOrderSubsequence` | src/application/dispatching/message_dispatchers/cipher_handler.cpp:12-24 | in every run, what b accepts from a, addressed to b and under a's own key, is an in-order, duplicate-free subsequence of what a sent to b, if the two names settle their salt |
| `CounterGuarantees.GenuineInOrder` | src/application/dispatching/message_dispatchers/cipher_handler.cpp:12-24 | where clients sealed for genuine keys, the same of everything accepted under a's own key |
| `CounterGuarantees.GenuineKeysStayGenuine` | src/application/dispatching/message_dispatchers/cipher_handler.cpp:12-14 | when only genuine keys are handed out, caches, sends and accepts stay genuine |
| `CounterGuarantees.ForeignKeyIsAccepted` | src/application/dispatching/message_dispatchers/cipher_handler.cpp:12-24 | with a key of nobody's attached, a message nobody sent is accepted under any name |
| `CounterGuarantees.NeverAcceptsOwn` | src/infrastructure/crypto/AESGCMEncryption.cpp:66-73 | nothing accepted under a peer's name is a copy of the client's own message to that peer |
| `CounterGuarantees.OwnMessageFailsOnlyOnCounter` | src/infrastructure/crypto/AESGCMEncryption.cpp:66-73 | brought back under the peer's name and key, a client's own message authenticates and is refused for its counter |
| `HalfDuplex.HearMeaning` | src/application/dispatching/message_dispatchers/cipher_handler.cpp:15-24 | an honest arrival is accepted exactly when it carries the counter its reader has reached |
| `HalfDuplex.TurnsKeepInStep` | src/application/dispatching/message_dispatchers/response_handler.cpp:15-43 | while the two take turns, accepts follow sends in order and sender counter = receiver counter + number in flight |
| `HalfDuplex.CrossingDooms` | src/application/dispatching/message_dispatchers/cipher_handler.cpp:15-24 | speaking while something is on its way to one leaves that arrival behind the counter for good |
| `HalfDuplex.AllAcceptedIffHalfDuplex` | src/application/dispatching/message_dispatchers/cipher_handler.cpp:15-24 | on every run that drains, everything sent was accepted if and only if nobody spoke across an arrival |
| `HalfDuplex.CrossingLosesBoth` | src/application/dispatching/message_dispatchers/cipher_handler.cpp:15-24 | one message each way, crossing, and both are rejected |
| `ServerModel.BindKeepsInverse` | src/application/services/session_manager.cpp:3-6 | binding keeps the maps inverse when neither side is bound yet |
| `ServerModel.UnbindKeepsInverse` | src/application/services/session_manager.cpp:8-13 | unbinding keeps the maps inverse |
| `ServerModel.FromWireFits` | src/models/message.cpp:209-221 | names and keys that arrive through the codec have 16-bit lengths |
| `ServerModel.RunKeepsInv` | src/application/services/server_application_service.cpp:24-199 | in every reachable state the session maps are inverse, users are the bound names, members are users, stored keys have 16-bit lengths |
| `ServerHistory.RegisteredIffLoggedIn` | src/application/services/server_application_service.cpp:24-51 | in every run, a name is registered exactly when it has logged in and not exited since |
| `ServerHistory.MemberIffEntered` | src/application/services/chat_service.cpp:3-51 | in every run, a name is in a room exactly when it has created or joined it and not exited since |
| `ServerHistory.HistoryIsEverythingPosted` | src/application/services/chat_service.cpp:26-36 | in every run, a room's history is every accepted group message to it, in order |
| `ServerHistory.RefusalsOnlyAnswer` | src/application/services/server_application_service.cpp:24-177 | a refused command changes nothing and is answered once, to the connection it came from |
| `ServerHistory.RoomIffAskedFor` | src/application/services/chat_service.cpp:3-13 | in every run, a room exists exactly when some session has asked for it before |
| `ServerHistory.RefusedForFirstCondition` | src/application/services/server_application_service.cpp:24-226 | a command is refused exactly when one of its conditions holds, and is answered with the text of the first that does |
| `ServerHistory.RefusalDecodes` | include/models/message.hpp:122-192 | the bytes of each of the ten refusals decode to its text, letter by letter |
| `ServerHistory.RefusalMeansOneThing` | include/models/message.hpp:122-192 | each error text stands for one condition on session, room, user or membership, which holds of the state the command met, and no other refusal has the same bytes |
| `ServerHistory.WordingTrueIff` | src/application/services/server_application_service.cpp:24-226 | what a refusal says in words is true exactly when it does not answer a login under the name of a user whose public key is set |
| `ServerHistory.TakenNameIsMisreported` | src/application/services/server_application_service.cpp:35-43 | a run of two logins in which the second is told that no public key is set although one is |
| `ServerHistory.RefusalTellsHistory` | src/application/services/server_application_service.cpp:24-226 | in every run, a refusal tells whether the room was ever asked for, and whether the name has logged in, or this client entered the room, and not exited since |
| `ServerHistory.ErrorBytesComeFrom` | src/application/services/server_application_service.cpp:24-226 | in every run, the bytes of a refusal reach a connection only because its own command or file message was refused or a member posted that very text |
| `ServerHistory.ConfirmationDecodes` | src/application/services/server_application_service.cpp:45-144 | an accepted login, create or join is answered with one text that decodes to the greeting of that name or the news of that room, spelled out |
| `ServerHistory.ConfirmationDeterminesCommand` | src/application/services/server_application_service.cpp:45-144 | equal confirmations mean the same kind of command for the same name or room |
| `ServerHistory.SendFileAnswerDecodes` | src/application/commands/impl/sendfile.cpp:20-29 | the command is answered with one text that names the file and its recipient, and changes nothing |
| `ServerGuarantees.SenderIsRegistered` | src/application/services/server_application_service.cpp:102-106 | the missing-sender branch is never taken |
| `ServerGuarantees.CannedIsSerializedText` | include/models/message.hpp:122-192 | the ready-made replies are the serialization of their text and decode to it |
| `ServerGuarantees.GroupMessageReachesEachMemberOnce` | src/application/services/server_application_service.cpp:146-177 | an accepted group message adds one copy per member, to pairwise different connections, none to others, none skipped |
| `ServerGuarantees.LoginThenExitRestores` | src/application/services/server_application_service.cpp:24-51 | a successful login followed by exit restores users, rooms and both session maps |
| `ServerGuarantees.ExitErases` | src/application/services/server_application_service.cpp:190-199 | exit leaves the name in no user, session or room, touches no other name, and repeating it changes nothing |
| `ServerGuarantees.DisconnectKeepsMembersIff` | src/application/services/server_application_service.cpp:179-188 | keeps sessions inverse and in step with users; keeps members users exactly when the name is in no room |
| `ServerGuarantees.DisconnectCanStrandAMember` | src/application/services/server_application_service.cpp:179-188 | a run of a login and a room after which it leaves a member who is no user |
| `ServerGuarantees.KeysComeFromCurrentLogin` | src/application/services/user_service.cpp:3-34 | stored keys are those of the login that opened the session the user has had ever since, although the setters append |
| `ServerGuarantees.KeyReplyDecodes` | src/application/services/server_application_service.cpp:201-226 | every key reply decodes to the keys of the current login |
| `ServerGuarantees.ForwardedCipherDecodes` | src/application/services/server_application_service.cpp:88-115 | every forwarded cipher message decodes to the payload, names and current keys of its sender, and is forwarded exactly when it fits |
| `ServerGuarantees.ForwardedFileDecodes` | src/application/dispatching/message_dispatchers/server_file_handlers.cpp:9-54 | a file message reaches its recipient's connection and decodes there to the same content exactly when it respects the widths of its format |
| `ServerGuarantees.FileMessagesAreForwarded` | src/application/messaging/messaging_server.cpp:14-21 | the start, every chunk and the end of a file, off the wire, are forwarded as they were sent |
| `ServerGuarantees.OnlyTheseAct` | src/application/messaging/messaging_server.cpp:3-22 | bytes make the server act only if they decode to a cipher message, a file message or one of seven commands |
| `ServerServices.User.SetPublicDhKey` | src/models/user.cpp:21-23 | appends |
| `ServerServices.User.SetPublicIdentityKey` | src/models/user.cpp:34-37 | appends |
| `ServerServices.User.SetKeySignature` | src/models/user.cpp:43-45 | assigns |
| `ServerServices.UserService.RegisterUser` | src/application/services/user_service.cpp:3-15 | adds the user with exactly these keys, or fails for a known name |
| `ServerServices.UserService.SetPublicKey` | src/application/services/user_service.cpp:24-34 | appends the two keys and replaces the signature of a known user only |
| `ServerServices.UserService.RemoveUser` | src/application/services/user_service.cpp:36-41 | removes that user only |
| `ServerServices.Chat.GetMembers` | src/models/chat.cpp:36-43 | lists every member once |
| `ServerServices.ChatService.CreateChat` | src/application/services/chat_service.cpp:3-13 | adds a room with its creator, or fails for a known name |
| `ServerServices.ChatService.AddMember` | src/application/services/chat_service.cpp:15-24 | adds the member to that room, telling a missing room from a present member |
| `ServerServices.ChatService.PostMessage` | src/application/services/chat_service.cpp:26-36 | records the message and lists the members, for members of a known room only |
| `ServerServices.ChatService.RemoveUserFromAllChats` | src/application/services/chat_service.cpp:45-51 | removes the name from every room and changes nothing else |
| `ServerServices.SessionManager.Bind` | src/application/services/session_manager.cpp:3-6 | sets one entry in each map |
| `ServerServices.SessionManager.Unbind` | src/application/services/session_manager.cpp:8-13 | drops the connection and the name it had |
| `ServerServices.ServerApplicationService.Login` | src/application/services/server_application_service.cpp:24-51 | equals the login operation on the server state |
| `ServerServices.ServerApplicationService.JoinRoom` | src/application/services/server_application_service.cpp:53-86 | equals the join operation |
| `ServerServices.ServerApplicationService.CreateRoom` | src/application/services/server_application_service.cpp:117-144 | equals the create operation |
| `ServerServices.ServerApplicationService.SendGroupMessage` | src/application/services/server_application_service.cpp:146-177 | equals the group-send operation for some enumeration of the members |
| `ServerServices.ServerApplicationService.ExitCurrentSession` | src/application/services/server_application_service.cpp:190-199 | equals the exit operation |
| `ServerServices.ServerApplicationService.DisconnectUsername` | src/application/services/server_application_service.cpp:179-188 | equals the disconnect operation |
| `ServerServices.ServerApplicationService.SendPubkey` | src/application/services/server_application_service.cpp:201-226 | equals the key-lookup operation |
| `ServerServices.ServerApplicationService.DeliverCipherMessage` | src/application/services/server_application_service.cpp:88-115 | equals the cipher-delivery operation |
| `MessagingServer.MessagingServer.ForwardFile` | src/application/dispatching/message_dispatchers/server_file_handlers.cpp:9-54 | equals the file-forwarding operation |
| `MessagingServer.MessagingServer.SendFile` | src/application/commands/impl/sendfile.cpp:20-29 | equals the operation that answers the command |
| `MessagingServer.MessagingServer.Dispatch` | src/application/dispatching/message_dispatcher.cpp:115-133 | the handler chosen by type computes one step of the server on the message's command |
| `MessagingServer.MessagingServer.Execute` | src/application/commands/command_interface.cpp:114-124 | the handler chosen by the command's code computes that step |
| `MessagingServer.MessagingServer.OnTcpDataReceived` | src/application/messaging/messaging_server.cpp:48-55 | bytes from a connection make the objects take the step of the command they decode to |
| `MessagingServer.MessagingServer.Handle` | src/application/messaging/messaging_server.cpp:27-35 | one input is one step on the command it brings; after a lost connection its session, user and memberships are gone |
| `MessagingServer.MessagingServer.Serve` | src/application/messaging/messaging_server.cpp:24-40 | fed any bytes and lost connections from the start, the objects go through a run of the model with exactly these commands, keep its invariant, and every lost connection is gone |
| `Codec.RoundTrip` | src/models/message.cpp:130-185 | decoding an encoding followed by any bytes returns type, version, envelope, metadata and payload (and the timestamp in the extended format), the format and the short length |
| `Codec.DecodedIsBounded` | src/models/message.cpp:191-323 | whatever decodes respects the field widths, on every byte string |
| `Codec.RoundTripIffEncodable` | src/models/message.cpp:130-323 | a message survives the wire exactly when it respects the widths of its format |
| `Codec.ManyItemsDoNotSurvive` | src/models/message.cpp:68-185 | 128 empty metadata items pass every check on the way out and do not come back |
| `Codec.ReencodingRestoresIff` | src/models/message.cpp:191-323 | for every input that decodes, re-encoding gives back the bytes read exactly when they were canonical; for an encodable result nothing else re-encodes to a prefix; short `header.length` is the encoded length |
| `WireGrammar.SerializedBytes` | src/models/message.cpp:130-185 | every message is written in one of two forms, spelled out byte by byte |
| `WireGrammar.DecodesIff` | src/models/message.cpp:191-323 | for every byte string and every message: the one decodes to the other exactly when it is one of its two spelled-out forms, with anything behind; the first flags are ignored |
| `Codec.SerializeMessage` | src/models/message.cpp:130-185 | the buffer-building code computes the encoding |
| `Codec.DeserializeMessage` | src/models/message.cpp:191-323 | the offset-walking code computes the decoding, or the same error, with every index in bounds on every input |
| `Codec.Resized` | src/models/message.cpp:68-117 | recounting keeps count and length right, and succeeds exactly when the count fits a byte and the size a word |
| `Codec.SetPayload` | src/models/message.cpp:97-100 | replaces the payload and keeps the length right, or fails exactly when the size does not fit a word |
| `Codec.LengthIsEncodedLength` | src/models/message.cpp:18-37 | the kept length is the number of bytes of the short encoding |
| `Framing.HasMessageIff` | src/protocol/framing.cpp:3-10 | the wrapping test agrees with a complete frame being present exactly when the sum does not wrap or the frame is complete |
| `Framing.WrappedSumPasses` | src/protocol/framing.cpp:3-10 | four bytes that pass for a message without being one |
| `WireGrammar.FrameBytes` | src/protocol/framing.cpp:22-27 | a frame is its length in four bytes, most significant first, and its content |
| `Framing.ExtractMessage` | src/protocol/framing.cpp:12-20 | takes the first frame's content and leaves what follows |
| `Framing.ExtractCompleteMessage` | src/transport/transport.cpp:4-22 | succeeds exactly when the framer sees a message, for every length in range, and takes out the same bytes |
| `Framing.DrainBuffer` | src/transport/client.cpp:66-89 | the receive loop computes the drain and terminates |
| `Framing.ChunkingIsIrrelevant` | src/transport/client.cpp:66-89 | append-then-drain over any chunks equals one drain of the whole, messages and remainder |
| `Framing.StreamDrains` | src/protocol/framing.cpp:3-27 | the framed stream of any messages drains to those messages with nothing left |
| `Framing.TruncatedStreamGivesPrefix` | src/protocol/framing.cpp:3-27 | a truncated stream, in any chunks, yields a prefix, and the missing bytes yield the others |
| `Connection.ClientConnection.QueueSend` | src/transport/connection.cpp:66-68 | appends one frame |
| `Connection.ClientConnection.Flush` | src/transport/connection.cpp:32-41 | removes what the transport took, and the result it reports |
| `Connection.ClientConnection.HandleReadable` | src/transport/handling.cpp:141-146 | appends what arrived and hands over every complete message |
| `Connection.BytesConserved` | src/transport/connection.cpp:32-41 | in every run, bytes taken then bytes buffered are the frames of everything queued |
| `Connection.FarSideDecodesPrefix` | src/transport/connection.cpp:32-41 | in every run, the far side has decoded a prefix of the queued messages, and all of them once the buffer is empty |
| `CommandPatterns.SplitIntoTokens` | src/application/commands/command_pattern_matcher.cpp:8-24 | the splitting loop computes the split |
| `CommandPatterns.SplitReadsWords` | src/application/commands/command_pattern_matcher.cpp:8-24 | splitting reads a line as maximal runs of non-spaces, with a final empty token after a trailing space |
| `CommandPatterns.CompilePattern` | src/application/commands/command_pattern_matcher.cpp:26-49 | the compiling loop computes the compiled pattern |
| `CommandPatterns.TryMatch` | src/application/commands/command_pattern_matcher.cpp:51-93 | the matching loop computes the match |
| `CommandPatterns.TailIsCollapsedLine` | src/application/commands/command_pattern_matcher.cpp:73-86 | a tail capture is the rest of the line with leading spaces stripped and runs of spaces collapsed |
| `CommandPatterns.MatchIffDerives` | src/application/commands/command_pattern_matcher.cpp:51-93 | matching tokens is deriving the line by the pattern's grammar, for every pattern, line and captures |
| `CommandPatterns.RenderMatchIff` | src/application/commands/command_pattern_matcher.cpp:51-93 | matching a line written for given arguments returns them exactly when they are in the pattern's language |
| `CommandLine.AtMostOneMatches` | src/application/commands/command_catalog.cpp:6-16 | no line matches two catalog entries |
| `CommandLine.CatalogMatchIff` | src/application/commands/command_pattern_matcher.cpp:95-104 | an entry's match is the catalog's match, so the order is irrelevant |
| `CommandLine.ParseLine` | src/protocol/parser.cpp:88-134 | the parsing code computes the parse, catalog first, then blank-separated fields |
| `CommandLine.ParseRenderedIff` | src/protocol/parser.cpp:88-134 | a typed catalog command parses to its name and arguments exactly when they are in its language |
| `CommandLine.EveryLineIsApart` | src/protocol/parser.cpp:103-121 | every line is words with blanks around them |
| `CommandLine.UnknownCommandKeepsFields` | src/protocol/parser.cpp:103-133 | a line outside the catalog keeps its words however its blanks fall: name without its slash or dollar, and the other words as arguments |
| `CommandMessages.MakeCommandFromStruct` | src/protocol/parser.cpp:65-86 | builds type code, arguments and payload, and fails exactly when the whole does not fit |
| `CommandMessages.MakeStructFromCommand` | src/protocol/parser.cpp:136-153 | the code computes the command structure of a message |
| `CommandMessages.TypedCommandFits` | src/protocol/parser.cpp:65-86 | every typed catalog command with 16-bit arguments fits a message |
| `CommandMessages.TypedCommandSurvives` | src/protocol/parser.cpp:65-153 | line, command, message, bytes, message, command returns the original name and arguments, for every command but help |
| `CommandMessages.HelpComesBackUnknown` | src/protocol/parser.cpp:11-39 | help has no type code and comes back as unknown |
| `CommandMessages.TypedLineMakesCommand` | src/application/commands/command_catalog.cpp:6-16 | for every command: its line with its number of plain words parses to its name and these words, and becomes a message with its code |
| `CommandMessages.TypedRoomCommandReachesServer` | src/application/commands/impl/make_room.cpp:11-27 | a typed room or join command makes the server create or join that room |
| `CommandMessages.TypedSendFileReachesServer` | src/application/commands/impl/sendfile.cpp:12-29 | a typed sendfile, sent to the server, is answered there for that file and that recipient |
| `CommandMessages.TypedGroupMessageReachesServer` | src/application/commands/impl/send_group_message.cpp:9-38 | a typed group message makes the server post that text to that room |
| `CommandMessages.LoginReachesServer` | src/application/commands/impl/login.cpp:12-35 | the login a client sends makes the server log in that name with those keys |
| `CommandMessages.DirectCommandsReachServer` | src/application/commands/impl/send_group_message.cpp:9-38 | the key request, exit and group message a client builds make the server look up, exit and post |
| `Hash.HashBytes` | include/bytes_hash.hpp:8-14 | the loop computes the 64-bit FNV-1a fold |
| `Hash.KnownHashes` | include/bytes_hash.hpp:8-14 | the published hashes of nothing and of one letter |
| `Hash.OneByteChangeNeverCollides` | include/bytes_hash.hpp:8-14 | keys of one length that differ in exactly one byte never collide |

## Modelling choices

- The cipher, the key agreement, the key derivation, the parsing of public keys and the signature check are parameters.
  `SealedBox.Correct`, `SealedBox.Sound` and `CounterProtocol.Ideal` say what is assumed of AES-GCM, of the keys and of the
  clients' own keys; `CounterProtocol.Unforged` is the authenticity assumption, stated per delivery. `SealedBox.Binding`,
  used by `SealedBox.CounterIsAuthenticated` alone, is what AES-GCM promises of associated data. Others hold only keys
  that belong to no client. `CounterGuarantees.AssumptionsCanBeMet` gives primitives that meet all of this.
- A client has one name, and different clients have different key-agreement keys. In the source every `/login`, also a
  refused one, changes the client's name and keeps its counters and keys.
- The cipher takes plaintexts of every size. The source passes the size to OpenSSL as an `int`, so what it does above
  2^31 - 1 bytes, where the oversized payloads above lie, is not modelled.
- Counters wrap at 2^64 as in the source; the counter results are for runs of fewer than 2^64 steps.
- Bytes that fail to decode, and messages too large to build, change nothing on the server; in the source these throw.
- `header.timestamp` of messages built by the program is zero: the clock is not modelled, and only the extended format,
  which the program never selects, would carry it.
- The recipient's name that a delivered message carries is part of the delivery, so that relabelling it is covered too.
- The identity key cache is not kept: a message is checked with the identity key it brings, which has just replaced the
  cached one.
- The result of a push to a full ring is ignored by the source, so a full ring silently drops; the conservation law says so.

## Left out

- Sockets, epoll, TLS, acceptors and the `TCPTransport`/`TLSTransport` send and receive loops; `flush` is modelled over any transport that takes an in-order prefix.
- Write-interest toggling around `flush`.
- File transfer at the clients, beyond its sends counting as protocol sends.
- The peer-to-peer node and its handlers.
- The handling of received messages parked for a missing key: nothing in the client ever parks one.
- Lost key requests: only safety is stated for queued private messages.
- Base64, logging, the user interface, key files, timestamps and the unused checksum.
- Chat types other than group, user status, and the unused chat and user queries.
