# p2p-chat: chat layer and username directory, modelled in Dafny

This project models the chat core of a peer-to-peer messaging node written in
Go on libp2p. Peers publish a username in a Kademlia DHT and exchange private
messages, group messages and files over point-to-point streams. The model
covers four parts of that core.

- **Group membership** (`group.dfy`, module `GroupChat`). The group manager is
  a class. Its map from group ID to group is changed in place by create, add
  and remove, and each method names its error. `Valid()` says that each group
  is filed under its own ID and that its member list has no duplicates.
  Sending a group message is a loop over the members. It yields the list of
  sends it starts: one per member other than the node itself, each carrying
  `"[" + groupID + "] " + message`.
- **Private messages** (`private.dfy`, module `PrivateChat`). The private chat
  manager is a class over an ordered key-value store (`ordered_store.dfy`),
  plus the list of notifications handed to the UI notifier. A message is
  stored under `chat/private/<peer>/<id>`, where `<peer>` is the other side of
  the conversation. A conversation's history is a prefix scan over that key.
  Peer IDs are raw multihash bytes whose text form is base58 (`peer_id.dfy`).
  Both base58 round trips are proved. Because base58 has no `/`, one peer's
  prefix never captures another peer's keys.
- **File transfer** (`file.dfy`, module `FileTransfer`). The sender writes the
  base name of the file and then its content. The receiver takes its first
  read, of at most 256 bytes, as the name and the rest of the stream as the
  content, as far as the file system takes it. A stream (`streams.dfy`) is a list of chunks whose boundaries the
  reader does not control. The model proves three things:
  - Whatever the chunking, the bytes received equal the bytes sent.
  - The receiver recovers the sender's name exactly when it recovers the content.
  - A transport that merges the name with the content loses both.
- **Username directory** (`dht.dfy`, module `Directory`).
  - Keys are `/username/<name>`.
  - A put the validator accepts is stored before the network is queried, so
    it takes effect even when the query fails.
  - The namespaced validator accepts exactly the keys of the `username`
    namespace, and the custom validator accepts every record in it.
  - `Select` always takes the first record.
  - A lookup classifies its failures as user not found, failed search, or
    undecodable record.
  - `SetupDHT` is a method. It filters the bootstrap list, dials the addresses
    that carry a peer ID, and polls the routing table with a bound. A timeout
    still counts as success.

Go strings and byte slices are both `seq<byte>`. Clocks, the store's and the
file system's answers, the transport's behaviour and the DHT's state are
parameters. Clock readings are Go `int64` values (`Bytes.int64`).

Stored messages go through JSON. `json.Marshal` writes each byte of a
string that does not start a valid UTF-8 rune as U+FFFD, so what a history
returns is the message with its invalid UTF-8 replaced (`utf8.dfy`, module
`Utf8`, which decodes runes as Go's `unicode/utf8` does).

The model follows the code in these limitations:
- The private-chat handler reads once into a 1024-byte buffer. A longer
  message is cut, possibly inside a multi-byte character, which JSON then
  replaces by U+FFFD.
- The file-transfer metadata is an unframed first read of at most 256 bytes.
- Received file names are joined onto the upload directory as they arrive.
- History order is the bytewise order of the decimal nanosecond IDs.
  `Bytes.DigitsOrder` shows that this order is chronological for IDs of equal
  length. `Bytes.NanosecondIdsChronological` shows that every `int64`
  nanosecond time from September 2001 to the end of the `int64` range in
  April 2262 has 19 digits, so IDs in that span sort in time order.

## Model

| member | source | states |
|---|---|---|
| GroupChat.GroupChatManager.constructor | internal/chat/group.go:35-41 | A new manager has no groups. |
| GroupChat.GroupChatManager.CreateGroup | internal/chat/group.go:44-64 | An existing ID fails with GroupExists and leaves the map unchanged. Otherwise exactly one entry is added: the ID, the name, members `[admin]` and admin `admin`. `Valid()` is kept. |
| GroupChat.GroupChatManager.AddMemberToGroup | internal/chat/group.go:67-88 | A missing group fails with NoSuchGroup and an existing member with AlreadyMember; neither changes anything. Otherwise the member is appended at the end and no other group changes. The member list stays duplicate-free. |
| GroupChat.GroupChatManager.RemoveMemberFromGroup | internal/chat/group.go:91-110 | A missing group fails with NoSuchGroup and a non-member with NotMember; neither changes anything. Otherwise the new list is the old one without that member, others in order, and no other group changes. The admin is not protected. |
| GroupChat.SpliceIsExcept | internal/chat/group.go:100-102 | Splicing out the first occurrence of a member of a duplicate-free list equals filtering that member out. |
| GroupChat.ExceptMembers | internal/chat/group.go:100-102 | The filtered list holds exactly the peers outside the removed set. It keeps the list duplicate-free, and it leaves a list with none of them unchanged. |
| GroupChat.GroupChatManager.SendGroupMessage | internal/chat/group.go:134-169 | Fails only when the group is missing. Otherwise the sends started are exactly the members other than self, in member order, each with payload `[groupID] message`. The sends that arrive are those targets not in the failing set. The call succeeds whatever fails. |
| GroupChat.FanOutCount | internal/chat/group.go:144-163 | A duplicate-free group gets one send per member other than self: N−1 sends when self is a member, N otherwise. Every member other than self gets a send carrying the payload, and every send goes to such a member with that payload. |
| GroupChat.DeliveryIndependent | internal/chat/group.go:149-163 | A member receives the message exactly when it is a member, is not self and is not failing. Other members' failures do not affect it. |
| GroupChat.GroupPayload | internal/chat/group.go:158 | The payload is `[`, the group ID, `] ` and the message: the ID sits at bytes 1 to its length, and the message runs from three bytes after it to the end. |
| GroupChat.GroupPayloadInjective | internal/chat/group.go:158 | When group IDs hold no `]`, distinct (group, message) pairs give distinct payloads, so a receiver can split them apart. |
| GroupChat.GroupChatManager.GetGroup | internal/chat/group.go:185-195 | Returns the stored group, whose ID is the one asked for, exactly when that ID is present. Otherwise it returns NoSuchGroup. |
| GroupChat.GroupChatManager.ListGroups | internal/chat/group.go:172-182 | Returns every stored group exactly once, as stored, and nothing else. |
| Bytes.DigitsOrder | internal/chat/private.go:66 | For decimal IDs of equal length, bytewise order is numeric order and equal text means equal numbers. Key order is therefore time order. |
| Bytes.Decimal | internal/chat/private.go:66 | `%d` of a number is non-empty, starts with `-` exactly when the number is negative, and holds only `-` and digits. |
| Bytes.NanosecondIdsChronological | internal/chat/private.go:66 | For `int64` nanosecond times from 10^18 on (September 2001 to April 2262), the decimal IDs sort bytewise exactly in time order, and equal IDs mean equal times. |
| PeerIds.Base58HasNoSlash | internal/chat/private.go:146-148 | A base58 text never contains `/`. |
| PeerIds.Text | internal/chat/private.go:67-68 | The text of a peer ID (`peer.ID.String()`) uses only base58 characters. |
| PeerIds.Decode | internal/chat/private.go:88 | `peer.Decode` accepts only base58 texts. |
| PeerIds.DecodeText | internal/chat/private.go:88 | Decoding the text of any peer ID gives that peer ID back. |
| PeerIds.TextDecode | internal/chat/private.go:88 | Any text that decodes is the text of the peer ID it decodes to. |
| Streams.Read | internal/chat/private.go:54-61 | A read returns data exactly when a chunk is pending, and never more than the buffer holds. It reports io.EOF exactly when nothing is pending and the stream closed cleanly; otherwise it fails. |
| Streams.ReadConserves | internal/chat/file.go:46-68 | The bytes read, followed by what stays pending, equal what was pending: a read loses nothing. |
| Streams.FirstReadIsPrefix | internal/chat/file.go:45-54 | On a delivered stream, the first read is a prefix of everything written. It is all of it exactly when nothing remains. |
| Streams.Copy | internal/chat/file.go:68-72 | `io.Copy` from the stream into a file that takes at most `room` more bytes writes every pending byte that fits, in order, and nothing else. It succeeds exactly when the stream was closed cleanly and everything fitted. A read error or a full file is a failure. |
| Streams.FitAfter | internal/chat/file.go:54-72 | A head followed by what fits of the rest is a prefix of the head followed by all of the rest. It is all of it exactly when the rest fits. |
| Utf8.CoerceValid | internal/chat/private.go:151 | Whatever bytes a string holds, what JSON gives back is valid UTF-8. |
| Utf8.CoerceUnchangedIffValid | internal/chat/private.go:151 | JSON gives a string back unchanged exactly when it is valid UTF-8, and a second round trip changes nothing. |
| Utf8.CutAfterLeadByte | internal/chat/private.go:54-62 | Valid text cut right after the lead byte of a multi-byte character, as the 1024-byte read can cut it, comes back from JSON with that byte replaced by U+FFFD. |
| Utf8.CoerceAfterValid | internal/chat/private.go:151 | JSON leaves a valid UTF-8 prefix unchanged; only what follows it can change. |
| Utf8.AsciiValid | internal/chat/private.go:151 | ASCII text, such as peer texts and decimal IDs, is valid UTF-8. |
| Utf8.RuneLength | internal/chat/private.go:151 | The length of the rune `utf8.DecodeRune` reads at the front, at most 4 bytes and 1 for ASCII. It is 0 where Go reports a one-byte `RuneError`. `EncodeDecodes`, `DecodeEncodes` and `RuneLengthIffEncoded` tie it to the encoder. |
| Utf8.Encode | internal/chat/private.go:151 | The encoding of a scalar value is 1 to 4 bytes long, and 1 byte exactly for ASCII. |
| Utf8.EncodeDecodes | internal/chat/private.go:151 | Whatever follows the encoding of a scalar value, the decoder reads exactly the encoding's bytes and returns the value. |
| Utf8.DecodeEncodes | internal/chat/private.go:151 | Every rune the decoder accepts is a scalar value (no surrogate, nothing above U+10FFFF), and its bytes are that value's shortest encoding, so no overlong form is accepted. |
| Utf8.RuneLengthIffEncoded | internal/chat/private.go:151 | The decoder reports a one-byte `RuneError` exactly when no scalar value's encoding starts the bytes. |
| OrderedStore.PutContents | internal/db/leveldb.go:25-27 | After Put, the store holds the new entry and every old entry under another key, and nothing else. |
| OrderedStore.PutSorted | internal/db/leveldb.go:25-27 | Put keeps keys strictly increasing, so each key occurs once. |
| OrderedStore.SortedKeysUnique | internal/db/leveldb.go:25-27 | In a sorted store, a key identifies its entry. |
| OrderedStore.Put | internal/db/leveldb.go:25-27 | After `Put`, the store holds the new entry, and every entry it holds is the new one or an old one. It grows by at most one entry. |
| OrderedStore.PrefixScanContents | internal/db/leveldb.go:49-51 | The prefix iterator visits exactly the entries whose key starts with the prefix, in key order. |
| OrderedStore.PrefixScan | internal/db/leveldb.go:49-51 | The prefix iterator visits only stored entries whose key starts with the prefix. |
| PrivateChat.StorageKeyPeer | internal/chat/private.go:145-149 | The key of a sent message is `chat/private/<recipient>/<id>` and of a received one `chat/private/<sender>/<id>`. It lies under that conversation's history prefix. |
| PrivateChat.StorageKey | internal/chat/private.go:145-149 | The key starts with the history prefix of the message's conversation and ends with its ID. |
| PrivateChat.AsStored | internal/chat/private.go:151 | The record read back from `json.Marshal(msg)` has each string's invalid UTF-8 replaced. It equals `msg` exactly when all four strings are valid UTF-8, and its content is unchanged exactly when the content is valid. Timestamp and direction are kept. |
| PrivateChat.Received | internal/chat/private.go:65-72 | A received record belongs to the conversation with the remote peer and carries the content read. Its ID and peer texts are ASCII, so JSON can change only its content. |
| PrivateChat.Sent | internal/chat/private.go:105-112 | A sent record belongs to the conversation with the peer text it was sent to and carries the message. When that text decodes, JSON can change only its content. |
| PrivateChat.SentAndReceivedShareConversation | internal/chat/private.go:65-72 | A message sent to the peer's base58 text and a message received from that peer are stored in the same conversation. |
| PrivateChat.KeyPrefixDeterminesPeer | internal/chat/private.go:161-162 | With base58 peer texts, a key under `chat/private/<q>/` that was built for peer p has p = q. One conversation's scan never picks up another's keys. |
| PrivateChat.DecodedMembers | internal/chat/private.go:166-173 | The decoded history holds exactly the messages of the scanned entries that decode. Undecodable values are skipped. |
| PrivateChat.DecodedInIdOrder | internal/chat/private.go:166-173 | When every decodable entry sits at prefix + ID, the decoded messages come in strictly increasing ID order. |
| PrivateChat.History | internal/chat/private.go:160-176 | Every message in a history was stored, as JSON of that message, under a key with the peer's history prefix. |
| PrivateChat.HistoryIsConversation | internal/chat/private.go:160-176 | Every message in a peer's history belongs to that conversation. Every stored message of that conversation, sent or received, is in it. |
| PrivateChat.HistoryInIdOrder | internal/chat/private.go:160-176 | A peer's history comes in strictly increasing ID order. |
| PrivateChat.StoreShowsInHistory | internal/chat/private.go:145-157 | Storing a message whose ID and conversation peer are ASCII keeps the store ordered and well keyed. The history then holds the message as JSON gives it back. It holds the message itself exactly when JSON leaves it unchanged. |
| PrivateChat.ReceivedContentInHistory | internal/chat/private.go:50-72 | After a received message is stored, the sender's history holds it with its content as JSON gives it back. It holds the message exactly as read only when the read is valid UTF-8. |
| PrivateChat.PrivateChatManager.constructor | internal/chat/private.go:40-47 | A new manager starts from a valid store with no notifications. |
| PrivateChat.PrivateChatManager.StoreMessage | internal/chat/private.go:145-157 | Puts the JSON of the message, which reads back as `AsStored(msg)`, under its storage key when the store accepts it, and reports the store's answer. The store stays valid. |
| PrivateChat.PrivateChatManager.HandlePrivateChatStream | internal/chat/private.go:50-84 | On io.EOF or a read error, nothing is stored or notified. On data, the content is one read of at most 1024 bytes, and the record is (decimal nanosecond ID, sender = remote, recipient = self, not sent). If the store accepts it, the record is stored with its content as JSON gives it back. If there is a notifier, it is called once with (sender, content as read, "private"), even when the store refused. |
| PrivateChat.PrivateChatManager.SendPrivateMessage | internal/chat/private.go:87-120 | An invalid peer ID, a stream-open failure or a write failure each return their error with nothing stored. A successful write of the message stores (sender = self, recipient = peer text, sent), with its content as JSON gives it back. It returns success even when the store refuses. |
| PrivateChat.PrivateChatManager.SendInitialMessage | internal/chat/private.go:123-142 | Fails as the send does. Otherwise it writes exactly "Hello" and stores nothing. |
| PrivateChat.PrivateChatManager.GetChatHistory | internal/chat/private.go:160-177 | Returns the decodable messages under `chat/private/<peer>/` in key order. For a base58 peer text, they all belong to that conversation and come in increasing ID order. |
| FileTransfer.Base | internal/chat/file.go:109 | A base name is never empty, and it is "/" or free of slashes. |
| FileTransfer.BaseOfName | internal/chat/file.go:109 | A slash-free name is its own base name, so Base is idempotent. |
| FileTransfer.Join | internal/chat/file.go:58 | Join drops an empty part and otherwise joins the two with one slash. |
| FileTransfer.BaseOfJoin | internal/chat/file.go:58 | A slash-free name other than "." and ".." joined onto any directory has that name as its base name. |
| FileTransfer.GetReceivedFilePath | internal/chat/file.go:145-147 | The path of a received slash-free name other than "." and ".." has that name as its base name. |
| FileTransfer.HandleFileTransferStream | internal/chat/file.go:41-79 | A failed first read creates no file. A refused create creates none, at the path of the name just read. Otherwise the name is exactly the first read (at most 256 bytes) and the file is at `GetReceivedFilePath(uploadDir, name)`. The content is the rest of the stream after that read, cut where the file is full. Name + content is a prefix of all bytes that arrived. The copy is complete exactly when the stream closed cleanly and name + content is everything that arrived. |
| FileTransfer.Chunks | internal/chat/file.go:116 | `io.Copy` writes the content in non-empty pieces of at most 32 KiB that concatenate to the content. |
| FileTransfer.SendFile | internal/chat/file.go:82-125 | Each error occurs exactly when the steps before it succeeded and its own step failed: invalid peer ID, open, stat, stream open, the name write (no write accepted) and the data writes (some but not all accepted). The stream is opened exactly when the peer ID, open, stat and stream open succeed, so a stat or stream-open failure sends nothing. A failed name write sends nothing, and a failed data write leaves exactly the accepted writes sent. Success holds exactly when every step succeeds and the peer accepts every write. The writes are always a prefix of (base name, then content pieces), and after success the bytes sent are base name + content. |
| FileTransfer.Transmission | internal/chat/file.go:109-119 | The writes of a complete send start with the base name, and together they are the base name followed by the content. |
| FileTransfer.TransferConserves | internal/chat/file.go:45-68 | For any chunking of a successful send, a receiver with room for the bytes creates a complete file whose name followed by its content equals base name + content. |
| FileTransfer.TransferRoundTrip | internal/chat/file.go:54-68 | When the name arrives as its own chunk of at most 256 bytes and the file system has room, the receiver stores exactly the file's content at `GetReceivedFilePath(uploadDir, base name)`. |
| FileTransfer.NameIffContent | internal/chat/file.go:45-68 | With room for the bytes, the receiver recovers the sender's name exactly when it recovers the content. |
| FileTransfer.CoalescedChunkLosesName | internal/chat/file.go:45-58 | If name "a" and content "b" arrive as one chunk, the receiver creates an empty file named "ab". |
| FileTransfer.FileNamesContents | internal/chat/file.go:134-139 | The listing keeps exactly the names of non-directory entries. |
| FileTransfer.FileNamesSorted | internal/chat/file.go:129-139 | A directory listed in name order gives its file names in that order. |
| FileTransfer.ListReceivedFiles | internal/chat/file.go:128-142 | An unreadable directory gives an error. Otherwise the result is the names of the non-directory entries in listing order. |
| Directory.UsernameKeyInjective | internal/p2p/dht.go:124 | Two usernames have the same key `/username/<name>` exactly when they are equal. |
| Directory.UsernameKey | internal/p2p/dht.go:124 | The key of a username splits into the namespace `username` and the name itself. |
| Directory.SplitKey | internal/p2p/dht.go:41-43 | A key splits only as `/<namespace>/<rest>` with a non-empty, slash-free namespace. |
| Directory.Validate | internal/p2p/dht.go:21-26 | Every key and value is accepted. |
| Directory.Select | internal/p2p/dht.go:28-32 | Index 0 and no error, for any list of records. |
| Directory.NamespacedValidate | internal/p2p/dht.go:41-43 | The DHT's validator accepts a record exactly when its key splits with namespace `username`. Otherwise it refuses with an invalid-record error. |
| Directory.AcceptsExactlyUsernameKeys | internal/p2p/dht.go:41-43 | The DHT's validator accepts a record exactly when its key is `/username/<name>` for some name. |
| Directory.GetValue | internal/p2p/dht.go:143 | A lookup succeeds exactly when the DHT is reachable and has records for the key, and then returns the first one (the one Select picks). An unreachable DHT gives a query error, and a reachable one without records gives not-found. |
| Directory.PutValue | internal/p2p/dht.go:127 | A refused record is an error and changes nothing. A validated record replaces the key's record, even when the network query then fails. The put succeeds exactly when the DHT is reachable and the record validates, and the key's lookup then returns the new value. No other key changes. |
| Directory.PublishUsernameAsWritten | internal/p2p/dht.go:123-134 | As written: publishing succeeds exactly when the DHT is reachable. Either way, the raw peer-ID bytes become the record under `/username/<name>`. |
| Directory.RawIdLookupFails | internal/p2p/dht.go:125-151 | After the as-written publish, looking the user up always fails with a decode error for a peer ID whose multihash code is 0x00 or 0x12. |
| Directory.PublishUsername | internal/p2p/dht.go:123-134 | Corrected: publishing succeeds exactly when the DHT is reachable. Either way, the peer ID's text becomes the record under `/username/<name>`. |
| Directory.PublishThenFind | internal/p2p/dht.go:137-156 | After the corrected publish, looking the user up returns the publishing node's peer ID. |
| Directory.PublishIsolated | internal/p2p/dht.go:124-138 | Publishing one username leaves every other username's lookup as it was. |
| Directory.FindPeerByUsername | internal/p2p/dht.go:137-157 | No record means UserNotFound, and any other failed search means SearchFailed. A record that does not decode means DecodeFailed. Otherwise the result is the peer whose text the record holds. |
| Directory.KeepContents | internal/p2p/dht.go:66-73 | Filtering keeps exactly the accepted addresses in order, and leaves an all-accepted list unchanged. |
| Directory.BootstrapPeers | internal/p2p/dht.go:64-82 | A given bootstrap peer is used alone when it parses, and is an error when it does not. Without one, the list is exactly the default addresses that parse. |
| Directory.SetupDHT | internal/p2p/dht.go:36-120 | A failed create or bootstrap returns its error. A non-empty bootstrap peer that does not parse is an error. Otherwise the bootstrap list is that peer alone, or the default addresses that parse. The dialled addresses are those with a peer ID. The call succeeds, and it timed out exactly when no poll within the limit saw a routing-table entry. |

## Left out

- JSON: the encoded text is not modelled. A stored value is the record that `json.Unmarshal` reads back (`PrivateChat.AsStored`: each string with its invalid UTF-8 replaced), or an undecodable blob. A marshal error in `storeMessage` cannot occur, since the record holds only strings, `int64` values and a bool.
- PrivateChat.PrivateChatManager.GetChatHistory: the iterator's error (`iter.Error()`) is not modelled; the result is the messages only.
- PeerIds.Decode: only the base58 form of `peer.Decode` is modelled. The CID-text branch and the check that the bytes form a valid multihash are not.
- Clocks are parameters (`Clock`), and log and console output is dropped.
- `HandleGroupChatStream` is not modelled. It only prints what it reads and changes no state.
- Goroutines and the reader/writer mutex are not modelled. The group fan-out is the list of sends started plus those that arrived; a set of failing peers stands in for per-peer stream failures.
- GroupChat.GroupChatManager.GetGroup: Go returns a pointer into the map, so a caller could change a stored group through it. The model returns values, so that aliasing is not captured.
- GroupChat.GroupChatManager.ListGroups: it returns values rather than pointers, and Go's random map order is an arbitrary choice.
- Closing streams and files (`defer s.Close()`, `file.Close()`) is not modelled.
- A Go `Read` that returns data together with an error is modelled as one outcome per read.
- FileTransfer.Join: `filepath.Join`'s final `Clean` is not modelled. Names holding `..` or repeated slashes are joined literally, so where such a name lands on disk is not captured. A received name "." or ".." makes Go's path the upload directory or its parent. `BaseOfJoin` and `GetReceivedFilePath` leave those two names out, so their base-name property holds for Go's `Join` as well.
- The upload-directory creation in `NewFileTransferManager` is not modelled. Its error is only logged.
- The file size `SendFile` reads with `Stat` is only logged. Only the stat's success or failure is modelled.
- FileTransfer.SendFile: `io.Copy(s, file)` failing on a read from the local file is not modelled. The file's content is a parameter, so only the stream's write failures are.
- Directory.GetValue: on an unreachable DHT a lookup always fails with a query error. The library would first consult this node's own datastore, so a record put here is not found locally in the model.
- Directory.PutValue: the DHT library stores a validated record locally before it queries the network. The model puts such a record into the records lookups see, even when the query fails. Lookups on an unreachable DHT still fail, so this node finding its own local copy is not captured.
- The DHT is a map from key to the records a lookup collects. `PutValue` replaces every copy of the record, and replication, expiry and the routing table are abstracted away. `dht.New` and `Bootstrap` are booleans.
- Directory.FindPeerByUsername: the final `dht.FindPeer` address lookup is not modelled; the result is the peer ID whose addresses would be asked for. `SearchPeer` (internal/chat/private.go:180-182) only delegates to it.
- Directory.SetupDHT: connection attempts to bootstrap peers are only logged, so their outcome is not modelled. The 10-second wait polled every 100 ms is modelled as at most 100 polls of the routing table.

## Findings

| source | as written | input that shows it | evidently intended | confidence | as-written member | corrected member |
|---|---|---|---|---|---|---|
| internal/p2p/dht.go:125, 151 | `PublishUsername` stores `[]byte(h.ID())`, the raw multihash bytes of the peer ID, but `FindPeerByUsername` reads the record back with `peer.Decode(string(value))`, which expects the peer ID's text. | Any peer ID: an Ed25519 ID starts with byte 0x00 (identity multihash) and an RSA ID with 0x12 (sha2-256). Neither is a base58 character, so decoding fails and every lookup ends in "failed to decode peer id". The CID branch of `peer.Decode` is outside the model; it also rejects these bytes. | Publish the text `h.ID().String()`, so that lookup returns the publishing peer. | medium, not executed | Directory.PublishUsernameAsWritten, Directory.RawIdLookupFails | Directory.PublishUsername, Directory.PublishThenFind |
