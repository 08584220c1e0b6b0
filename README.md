# Discordia chat node — a Dafny model of its sequential core

Discordia is a serverless chat node. Peers find each other, exchange text
messages over a gossip publish/subscribe topic (the "room"), and keep a local
log of the conversation in an ordered key-value store. The node's private key
lives in the same store.

This project models the logic under that plumbing, one module per Go file:

- `Domain` (`message.dfy`): the `Message` triple (sender, content, timestamp) as an immutable datatype. It also holds `UnixNano`, which reduces an instant to int64 nanoseconds, and the outcome values of the store and network calls.
- `Codec` (`codec.dfy`): the one encoder used for both the stored value and the gossip payload. It is a JSON-like fixed layout with the tags `sender`, `content` and `timestamp`, and partial decoding is proved to invert it.
- `Fmt` and `Octets` (`fmt.dfy`, `octets.dfy`): the `%d` decimal rendering of the key, and byte strings with their `bytes.Compare` order.
- `OrderedTable` (`ordered_table.dfy`): the byte-keyed table and the order Badger's iterator visits it in.
- `Repository` (`badger.dfy`): `BadgerRepo` is a class over the table.
  - `Save` writes `"msg_" + decimal(UnixNano)`.
  - `GetAll` walks the keys in ascending byte order and decodes each value. A failed decode becomes the zero message.
  - `SaveIdentity` and `GetIdentity` use the reserved key `sys_identity_private_key`.
- `P2P` (`libp2p_service.dfy`):
  - `Publish`.
  - The `Subscribe` receive loop: it skips own-origin frames, drops frames that fail to decode, and stops at the first `Next` error.
  - The self-skip rule of the discovery loop.
- `Usecase` (`chat_uc.dfy`): `ChatUseCase`. `SendMessage` saves and then publishes. The handler that `StartReceiving` registers saves and then displays. A ghost trace records the order of these effects.
- `ChatMain` (`chat_main.dfy`): startup's identity load-or-create, and the console loop. The first line read is the username. After that, a line that starts with `"/connect "` is a dial, and every other line is sent.

Inputs from outside the core are parameters:

- the clock reading;
- the freshly generated key, as its marshalled bytes;
- the commit outcome of each Badger transaction;
- the result of `topic.Publish`;
- the frames and the error that `sub.Next` yields;
- the peers a discovery round finds.

Where the Go code behaves in ways a reader might not expect, the model follows the code:

- `SaveIdentity`'s error is discarded at startup. It is not fatal. `ChatMain.LostIdentityWrite` shows the consequence: the next start runs under a different key.
- `GetAll` lists the identity entry as a trailing zero message, after every message, whatever order the messages were saved in. `Repository.ListingWithIdentity` proves this for every store that holds message keys and an identity that does not decode.
- The message key is an unpadded decimal. Key order is therefore chronological only among instants with the same number of digits (`Repository.MessageKeyOrder`). `Repository.MessageKeyOrderNeedsWidth` exhibits 10 sorting before 9.
- For a malformed `/connect` address, the code dereferences the nil address info that the failed parse returns. That branch is outside this model, as listed below.

## Model

| member | source | states |
|---|---|---|
| Domain.UnixNano | internal/repository/badger.go:29 | the nanosecond count is an int64, equals the instant whenever that fits in int64, and otherwise differs from it by a multiple of 2^64 |
| Fmt.ParseIntFormat | internal/repository/badger.go:29 | the `%d` rendering of any integer reads back as that integer, so a message key determines its int64 nanosecond count |
| Fmt.FormatInt | internal/repository/badger.go:29 | the `%d` text is a minus sign exactly for negative numbers, followed by decimal digits only |
| Fmt.FormatIntInjective | internal/repository/badger.go:29 | two integers have the same decimal text exactly when they are equal |
| Fmt.DecimalOrder | internal/repository/badger.go:29 | among naturals with the same number of digits, byte order of the decimal texts is numeric order, in both directions |
| Octets.LexLeTotal | internal/repository/badger.go:39 | any two keys are comparable in the iterator's byte order |
| Octets.LexLeTransitive | internal/repository/badger.go:39 | the iterator's byte order is transitive |
| Octets.LexLtCommonPrefix | internal/repository/badger.go:29 | a shared `msg_` prefix does not change how two keys compare |
| Codec.UnquoteQuote | internal/domain/message.go:6-7 | an escaped string field reads back as the same text, with what follows it untouched |
| Codec.Encode | internal/domain/message.go:5-9 | every encoded message opens with `{` and the `sender` tag, and ends with `}` |
| Codec.DecodeEncode | internal/domain/message.go:5-9 | decoding the encoding of any message gives back the same sender, content and timestamp |
| Codec.EncodeInjective | internal/domain/message.go:5-9 | two messages have the same encoding exactly when all three fields agree |
| Codec.Decode | internal/repository/badger.go:42-43 | only a payload that opens with `{` and the `sender` tag and ends with `}` can decode |
| Codec.DecodeOrZero | internal/repository/badger.go:42-44 | a listed entry other than the zero message is exactly what its value decodes to; a value that does not decode is listed as the zero message |
| Codec.DecodeNeedsBrace | internal/repository/badger.go:41-46 | a value that does not open with `{` does not decode, and `GetAll` lists it as the zero message |
| OrderedTable.AscendingMembers | internal/repository/badger.go:39 | the iteration visits exactly the stored keys |
| OrderedTable.AscendingSorted | internal/repository/badger.go:39 | the iteration visits keys in strictly ascending byte order, so each key once |
| OrderedTable.AscendingUnique | internal/repository/badger.go:39 | any strictly ascending listing of the stored keys is the iteration order |
| OrderedTable.FirstKey | internal/repository/badger.go:39 | the next key the iterator yields is the least key not yet visited |
| OrderedTable.PutAllContents | internal/repository/badger.go:26-31 | writes to distinct keys each leave their own value, add exactly those keys, and leave other keys alone |
| Repository.MessageKey | internal/repository/badger.go:29 | every message key starts with `msg_` |
| Repository.BadgerRepo.constructor | internal/repository/badger.go:17-24 | opening a store yields the table already on disk |
| Repository.BadgerRepo.Save | internal/repository/badger.go:26-31 | a committed save writes the encoded message under its key; an aborted one changes nothing; the error returned is the transaction's |
| Repository.WithMessage | internal/repository/badger.go:26-31 | after a committed save, the message's key holds its encoding |
| Repository.WithMessageEffect | internal/repository/badger.go:26-31 | a committed save adds exactly one key, `msg_` plus the decimal instant, holding the encoded message; every other entry is unchanged |
| Repository.SaveCollision | internal/repository/badger.go:29-30 | two saves at the same nanosecond leave only the later message; at different nanoseconds both are kept |
| Repository.MessageKeyCollision | internal/repository/badger.go:29 | two messages share a key exactly when their int64 nanosecond counts are equal |
| Repository.MessageKeyBelowIdentity | internal/repository/badger.go:29 | a message key is never the identity key and sorts before it |
| Repository.MessagePrefixBelowIdentity | internal/repository/badger.go:29 | any key that starts with `msg_` sorts strictly before the identity key |
| Repository.SaveKeepsIdentity | internal/repository/badger.go:26-31 | saving a message leaves the stored identity as it was |
| Repository.BadgerRepo.GetAll | internal/repository/badger.go:34-51 | the result is the listing of the table: one decoded value per key in ascending key order, with the table left unchanged |
| Repository.Listing | internal/repository/badger.go:34-51 | what `GetAll` returns has one element per stored key |
| Repository.ListingShape | internal/repository/badger.go:34-51 | the listing has one element per stored key, each the decoded value (or the zero message) of the key at that rank; an empty table lists nothing |
| Repository.BadgerRepo.SaveIdentity | internal/repository/badger.go:53-57 | a committed write sets the identity key to the given bytes; the error returned is the transaction's |
| Repository.IdentityOf | internal/repository/badger.go:59-70 | the stored bytes when the identity key is present, and a key-not-found error otherwise |
| Repository.BadgerRepo.GetIdentity | internal/repository/badger.go:59-70 | the result is what `IdentityOf` finds in the current table |
| Repository.IdentityRoundTrip | internal/repository/badger.go:53-70 | after writing the identity, reading it gives exactly those bytes, and every other entry is unchanged |
| Repository.MessageKeyOrder | internal/repository/badger.go:29 | for int64 instants from the epoch on, with equally many digits, key order is time order, in both directions |
| Repository.MessageKeyOrderNeedsWidth | internal/repository/badger.go:29 | with different digit counts the key order is not time order: instant 10 sorts before instant 9 |
| Repository.SaveEachContents | internal/repository/badger.go:26-31 | committed saves at distinct keys leave each message under its own key and leave other keys untouched |
| Repository.ChronologicalKeysAscending | internal/repository/badger.go:29 | the keys of messages in time order, with equal digit counts, are strictly ascending |
| Repository.Replay | internal/repository/badger.go:34-51 | saving messages in time order into an empty log and listing it gives back exactly those messages in that order |
| Repository.IdentityLast | internal/repository/badger.go:39 | in a store holding only message keys besides the identity, the iteration visits the identity key last |
| Repository.ListingWithIdentity | internal/repository/badger.go:34-51 | for any store holding message keys and an identity whose bytes do not decode, the listing is the listing of the messages alone followed by one zero message |
| Repository.ReplayAfterIdentity | internal/repository/badger.go:41-46 | with an identity stored whose bytes do not decode, messages saved in time order are listed in that order, followed by one zero message |
| P2P.Libp2pService.constructor | internal/p2p/libp2p_service.go:58-61 | a new service has this host's ID and has published nothing |
| P2P.Libp2pService.Publish | internal/p2p/libp2p_service.go:65-68 | the encoded message is appended to the topic's payloads and the topic's error is returned unchanged |
| P2P.Accept | internal/p2p/libp2p_service.go:79-85 | only frames from other peers are accepted, and a published encoding from another peer is accepted as exactly its message |
| P2P.Deliveries | internal/p2p/libp2p_service.go:73-86 | there are no more handler calls than pulled frames, and each call carries the accepted decoding of some pulled frame |
| P2P.Libp2pService.Subscribe | internal/p2p/libp2p_service.go:71-88 | the handler is called with exactly the delivered messages of the frame sequence |
| P2P.Libp2pService.Receive | internal/p2p/libp2p_service.go:79-85 | a frame from this host calls nothing; any other frame calls the handler once if it decodes and not at all otherwise |
| P2P.StopsAtFirstFailure | internal/p2p/libp2p_service.go:74-77 | no frame after the first `Next` error reaches the handler |
| P2P.OwnFrameIgnored | internal/p2p/libp2p_service.go:79-81 | a frame received from this host's own ID, wherever it arrives, changes nothing that is delivered |
| P2P.MalformedFrameIgnored | internal/p2p/libp2p_service.go:82-85 | a frame that fails to decode is dropped and the loop delivers the rest exactly as if it had not arrived |
| P2P.SkippedFrameIgnored | internal/p2p/libp2p_service.go:78-85 | any frame the accept rule refuses is invisible to the handler |
| P2P.DeliveriesAppend | internal/p2p/libp2p_service.go:73-86 | before any error, the handler sees the messages of consecutive stretches of frames one stretch after the other, in arrival order |
| P2P.AcceptedFrameDelivered | internal/p2p/libp2p_service.go:78-85 | one frame calls the handler exactly once when it is not from this host and decodes, with the decoded message, and otherwise not at all |
| P2P.NothingAccepted | internal/p2p/libp2p_service.go:73-86 | if no frame passes the accept rule, the handler is never called |
| P2P.GossipDelivery | internal/p2p/libp2p_service.go:65-85 | a published message reaches another peer's handler with all three fields intact, and never the publisher's own handler |
| P2P.Others | internal/p2p/libp2p_service.go:49-54 | a discovery round dials no more peers than it found, each of them found and none of them this host |
| P2P.Libp2pService.Discover | internal/p2p/libp2p_service.go:49-54 | one discovery round dials exactly the found peers other than this host, in the order found |
| P2P.OthersExactly | internal/p2p/libp2p_service.go:49-54 | a peer is dialled exactly when it was found and is not this host; no more dials than peers found; nothing is skipped when this host is not among them |
| Usecase.SentAt | internal/usecase/chat_uc.go:24-25 | for every sent message the save comes first and the publish right after it, both with the same message |
| Usecase.ReceivedAt | internal/usecase/chat_uc.go:29-32 | for every delivered message the save comes first and the display right after it, both with the same message |
| Usecase.ChatUseCase.constructor | internal/usecase/chat_uc.go:13-15 | the orchestrator holds the given store and network service, and nothing has happened yet |
| Usecase.ChatUseCase.SendMessage | internal/usecase/chat_uc.go:17-26 | the message is built from sender, content and the clock; exactly one save, then exactly one publish of the same message; the save outcome does not stop the publish; the result is the publish outcome |
| Usecase.ChatUseCase.Deliver | internal/usecase/chat_uc.go:29-32 | the handler saves the message and then displays the same message |
| Usecase.ChatUseCase.StartReceiving | internal/usecase/chat_uc.go:28-33 | exactly the delivered messages are displayed, each after its save, in arrival order, and the table has each save's effect |
| Usecase.ChatUseCase.DeliverAll | internal/usecase/chat_uc.go:29-32 | calling the handler on each message in turn records a save and a display per message and applies each save |
| Usecase.GossipReplicates | internal/usecase/chat_uc.go:17-33 | a message sent by one node is delivered to another node, which saves it exactly as a committed `Save` of it and then displays it, while the sender ignores its echo |
| ChatMain.Dispatch | cmd/chat/main.go:64-65 | a line is sent as chat exactly when it lacks the `"/connect "` prefix, and then unchanged; a connect line is the prefix followed by the address |
| ChatMain.LineDispatch | cmd/chat/main.go:64-75 | a connect line is the prefix followed by the address; a said line is the whole line |
| ChatMain.DispatchConnect | cmd/chat/main.go:64-65 | the prefix followed by any address connects to that address, with exactly one prefix removed |
| ChatMain.BareConnectIsSaid | cmd/chat/main.go:64-75 | `/connect` without the trailing space is sent as a chat message |
| ChatMain.LoadOrCreate | cmd/chat/main.go:29-37 | after startup the store holds an identity exactly when it held one or the write of the new key committed, and any identity it holds is the key the node runs with |
| ChatMain.LoadOrCreateIdentity | cmd/chat/main.go:29-37 | the key and table after startup's identity step are those `LoadOrCreate` gives for the table before it |
| ChatMain.LoadOrCreateEffect | cmd/chat/main.go:29-37 | a stored key is used and nothing is written; without one the generated key is used and written unless the write fails; message entries are never touched |
| ChatMain.StartupIdempotent | cmd/chat/main.go:29-37 | once an identity is written, every later startup uses the same key and writes nothing, so the node keeps its peer ID |
| ChatMain.LostIdentityWrite | cmd/chat/main.go:32-34 | because the `SaveIdentity` error is ignored, a lost write makes the next startup run under a newly generated key |
| ChatMain.Console | cmd/chat/main.go:53-77 | the first line is the username; every later connect line is dialled and sends nothing; every other line is sent with the username as sender, each with its own clock reading and outcomes |
| ChatMain.SendLine | cmd/chat/main.go:75 | a chat line does one `SendMessage`, extending the trace, the published payloads and the table by that one message |
| ChatMain.LinesPartition | cmd/chat/main.go:62-77 | every line after the username is either dialled or sent, never both and never neither |
| ChatMain.OutgoingFromUser | cmd/chat/main.go:55-75 | every sent message has the username as sender and a line without the connect prefix as content |

## Left out

- `encoding/json` is replaced by the fixed-layout codec in `Codec`. That codec is not a full JSON implementation:
  - a real `time.Time` is marshalled as an RFC 3339 string, not as a number;
  - `json.Marshal` escapes control characters and `<`, `>` and `&`, writes valid non-ASCII UTF-8 as it is apart from U+2028 and U+2029, and replaces invalid UTF-8 with U+FFFD;
  - `json.Unmarshal` accepts reordered or missing fields, leading whitespace and the literal `null`, and can fill a message partly before it fails.
  Only the properties the rest of the model relies on are proved about the stand-in: the round trip, injectivity, and rejection of payloads that are not framed by `{` ... `}`.
- Codec.Encode: escapes only `"` and `\`, so a sender or content holding a control byte is not encoded as valid JSON text.
- Codec.DecodeEncode: the round trip is proved for every byte string. In Go it holds only when sender and content are valid UTF-8, because `json.Marshal` replaces invalid bytes. `Repository.Replay` and `Usecase.GossipReplicates` carry the same assumption.
- Codec.Decode: rejects a `null` payload and one with leading whitespace. `json.Unmarshal` accepts both without error, so in Go such a frame reaches the handler as the zero message or as its decoded fields.
- Badger internals are not modelled: the LSM tree, the on-disk format, transactions and concurrent writers. A transaction is one map update whose commit outcome is a parameter. Read-side errors of `View`, `Item.Value` and `ValueCopy` are not modelled. `GetAll` therefore always succeeds, and `GetIdentity` fails only when the key is missing.
- `NewBadgerRepo`'s path, its logging options and its panic on open failure are not modelled. The constructor takes the table already on disk.
- `time.Now` is a parameter of `SendMessage`. Time zones and the monotonic clock reading are not modelled. An instant is its nanosecond count.
- The `MessageRepository` and `P2PService` interfaces in `internal/domain/message.go` are not modelled as abstract types. `ChatUseCase` holds the concrete `BadgerRepo` and `Libp2pService`. It calls only `Save`, `Publish` and `Subscribe` on them, and its `modifies` clauses name nothing else.
- Concurrency is not modelled: the goroutines around `Subscribe` and around discovery, and interleavings between the receive path and the console. The receive loop runs over a finite sequence of `Next` results.
  - The handler runs after the loop has picked out the messages to deliver, not in the middle of the loop. This is equivalent because the accept rule does not read the store.
  - Waiting forever for the next frame is represented by the end of the sequence.
- DHT creation and bootstrap, the bootstrap fan-out, `Advertise`, and the unbounded repetition of `FindPeers` are not modelled. One discovery round (`Discover`) models the self-skip rule. `h.Connect` is recorded as the peer it dials, and its outcome is not modelled.
- The mDNS notifee, host construction and GossipSub setup are not modelled. `libp2p_service.go` lines 24-62 are not modelled apart from the self-skip rule and the service fields the constructor sets.
- Ed25519 key generation, `MarshalPrivateKey` and `UnmarshalPrivateKey` are not modelled. A generated key arrives as its marshalled bytes, and a stored key is used as stored. The ignored unmarshal error for a corrupt stored key is not modelled.
- In the console, multiaddr parsing, `peer.AddrInfoFromP2pAddr` and `h.Connect` are not modelled. A connect line is recorded as its address text, so the nil dereference on a malformed address lies outside the model. Terminal printing is not modelled. Displaying a received message is the `Displayed` effect in the trace.
- The error `SendMessage` returns to the console is ignored, as in the code.
- `cmd/node/main.go` is not part of this model. It contains the health endpoint, the environment variable, hex decoding and host options.
- Repository.MessageKeyOrder: stated only for instants from the epoch up to 2^63 ns with equally many decimal digits. The unpadded `%d` key does not order instants of different lengths or negative instants chronologically (see `Repository.MessageKeyOrderNeedsWidth`).
- Repository.Replay: stated only for messages whose instants share one digit count, for the same reason. Every instant from September 2001 to 2262 has 19 digits.
