/**
 * Private chat (internal/chat/private.go). Messages sent and received are
 * stored under `chat/private/<peer>/<id>`, where `<peer>` is the other side
 * of the conversation, so that one prefix scan returns a conversation's
 * history in key order. The UI notifier is modelled as the list of
 * notifications it was handed.
 */
module PrivateChat {
  import opened Outcomes
  import opened Bytes
  import opened PeerIds
  import opened Streams
  import opened OrderedStore
  import Utf8

  const PrivateChatProtocol: Bytes := Ascii("/p2p-chat/private/1.0.0")

  /** The handler reads once into a buffer of this size. */
  const ReadBufferSize: nat := 1024

  /** What `SendInitialMessage` writes. */
  const Greeting: Bytes := Ascii("Hello")

  const KeyRoot: Bytes := Ascii("chat/private/")

  datatype PrivateMessage = PrivateMessage(
    id: Bytes,
    senderId: Bytes,
    recipientId: Bytes,
    content: Bytes,
    timestamp: int64,
    isSent: bool)

  /** A stored value: JSON that `json.Unmarshal` reads as the message `msg`, or bytes that do not decode as one. */
  datatype Blob = Json(msg: PrivateMessage) | Undecodable(raw: Bytes)

  /** The two clock readings taken when a record is built: `time.Now().UnixNano()` and `time.Now().Unix()`. */
  datatype Clock = Clock(unixNano: int64, unix: int64)

  /** One call of `NotifyNewMessage(senderID, message, messageType)`. */
  datatype Notification = Notification(senderId: Bytes, content: Bytes, kind: Bytes)

  datatype SendError = InvalidPeerId | StreamOpenFailed | WriteFailed

  /** The other side of the conversation: the recipient of a sent message, the sender of a received one. */
  function ConversationPeer(msg: PrivateMessage): Bytes {
    if msg.isSent then msg.recipientId else msg.senderId
  }

  function HistoryPrefix(peer: Bytes): Bytes {
    KeyRoot + peer + Ascii("/")
  }

  /** The key `storeMessage` writes a message under: its conversation's history prefix, then its ID. */
  function StorageKey(msg: PrivateMessage): (r: Bytes)
    ensures IsPrefix(HistoryPrefix(ConversationPeer(msg)), r)
    ensures r[|HistoryPrefix(ConversationPeer(msg))|..] == msg.id
  {
    HistoryPrefix(ConversationPeer(msg)) + msg.id
  }

  /**
   * The message `json.Unmarshal` gives back from `json.Marshal(msg)`: every
   * string field with each byte that starts no valid UTF-8 rune replaced
   * by U+FFFD. The record comes back as it was exactly when all its
   * strings are valid UTF-8.
   */
  function AsStored(msg: PrivateMessage): (r: PrivateMessage)
    ensures r == msg <==>
      Utf8.Valid(msg.id) && Utf8.Valid(msg.senderId) && Utf8.Valid(msg.recipientId) && Utf8.Valid(msg.content)
    ensures r.content == msg.content <==> Utf8.Valid(msg.content)
    ensures r.timestamp == msg.timestamp && r.isSent == msg.isSent
  {
    Utf8.CoerceUnchangedIffValid(msg.id);
    Utf8.CoerceUnchangedIffValid(msg.senderId);
    Utf8.CoerceUnchangedIffValid(msg.recipientId);
    Utf8.CoerceUnchangedIffValid(msg.content);
    msg.(id := Utf8.Coerce(msg.id), senderId := Utf8.Coerce(msg.senderId),
         recipientId := Utf8.Coerce(msg.recipientId), content := Utf8.Coerce(msg.content))
  }

  /** Peer texts are ASCII, which JSON keeps as it is. */
  lemma Base58IsUtf8(s: Bytes)
    ensures IsBase58(s) ==> Utf8.Valid(s) && Utf8.Coerce(s) == s
  {
    if IsBase58(s) {
      forall i | 0 <= i < |s| ensures s[i] < 0x80 {
        assert DigitValue(s[i]).Some?;
      }
      Utf8.AsciiValid(s);
      Utf8.CoerceKeepsValid(s);
    }
  }

  /** Decimal IDs are ASCII, which JSON keeps as it is. */
  lemma DecimalIsUtf8(n: int)
    ensures Utf8.Valid(Decimal(n)) && Utf8.Coerce(Decimal(n)) == Decimal(n)
  {
    Utf8.AsciiValid(Decimal(n));
    Utf8.CoerceKeepsValid(Decimal(n));
  }

  /**
   * The record the stream handler builds for `content` read from
   * `remote`: a received message of the conversation with `remote`. Its ID
   * and peer texts are ASCII, so storing it can change only its content.
   */
  function Received(remote: PeerId, self: PeerId, content: Bytes, clock: Clock): (r: PrivateMessage)
    ensures !r.isSent && ConversationPeer(r) == Text(remote) && r.content == content
    ensures AsStored(r) == r.(content := Utf8.Coerce(content))
  {
    DecimalIsUtf8(clock.unixNano as int);
    Base58IsUtf8(Text(remote));
    Base58IsUtf8(Text(self));
    PrivateMessage(Decimal(clock.unixNano as int), Text(remote), Text(self), content, clock.unix, false)
  }

  /**
   * The record `SendPrivateMessage` builds once `message` has been written
   * to `peerIdStr`: a sent message of the conversation with that text. When
   * the text decodes, storing the record can change only its content.
   */
  function Sent(self: PeerId, peerIdStr: Bytes, message: Bytes, clock: Clock): (r: PrivateMessage)
    ensures r.isSent && ConversationPeer(r) == peerIdStr && r.content == message
    ensures Decode(peerIdStr).Some? ==> AsStored(r) == r.(content := Utf8.Coerce(message))
  {
    DecimalIsUtf8(clock.unixNano as int);
    Base58IsUtf8(Text(self));
    Base58IsUtf8(peerIdStr);
    PrivateMessage(Decimal(clock.unixNano as int), Text(self), peerIdStr, message, clock.unix, true)
  }

  /** Storing keeps a message in its conversation under its key when its ID and peer text are valid UTF-8. */
  lemma StorageKeyAsStored(msg: PrivateMessage)
    requires IsBase58(ConversationPeer(msg)) && Utf8.Valid(msg.id)
    ensures ConversationPeer(AsStored(msg)) == ConversationPeer(msg)
    ensures StorageKey(AsStored(msg)) == StorageKey(msg)
  {
    Base58IsUtf8(ConversationPeer(msg));
    Utf8.CoerceKeepsValid(msg.id);
  }

  /** The message's key lies under its conversation's prefix: for a sent message the recipient's, for a received one the sender's. */
  lemma StorageKeyPeer(msg: PrivateMessage)
    ensures msg.isSent ==> StorageKey(msg) == KeyRoot + msg.recipientId + Ascii("/") + msg.id
    ensures !msg.isSent ==> StorageKey(msg) == KeyRoot + msg.senderId + Ascii("/") + msg.id
    ensures IsPrefix(HistoryPrefix(ConversationPeer(msg)), StorageKey(msg))
  {
    assert StorageKey(msg)[..|HistoryPrefix(ConversationPeer(msg))|] == HistoryPrefix(ConversationPeer(msg));
  }

  /**
   * A message sent to a peer's text and a message received from that peer
   * belong to the same conversation: a text `peer.Decode` accepts is the
   * peer's own text.
   */
  lemma SentAndReceivedShareConversation(self: PeerId, peerIdStr: Bytes, remote: PeerId, m1: Bytes, m2: Bytes, c1: Clock, c2: Clock)
    requires Decode(peerIdStr) == Some(remote)
    ensures ConversationPeer(Sent(self, peerIdStr, m1, c1)) == ConversationPeer(Received(remote, self, m2, c2))
  {
    TextDecode(peerIdStr);
  }

  /**
   * With slash-free peer texts, a key under one conversation's prefix
   * belongs to that conversation only: `chat/private/A/` never catches the
   * keys of `chat/private/AB/...`.
   */
  lemma KeyPrefixDeterminesPeer(p: Bytes, q: Bytes, id: Bytes)
    requires IsBase58(p) && IsBase58(q)
    requires IsPrefix(HistoryPrefix(q), HistoryPrefix(p) + id)
    ensures p == q
  {
    Base58HasNoSlash(p);
    Base58HasNoSlash(q);
    var key := HistoryPrefix(p) + id;
    var r := |KeyRoot|;
    assert Ascii("/")[0] == 47;
    // Where the shorter text ends, one key has its '/' and the other a text byte.
    var n := if |p| < |q| then |p| else |q|;
    assert key[r + n] == (p + [47 as byte])[n];
    assert HistoryPrefix(q)[r + n] == (q + [47 as byte])[n];
    assert p == key[r..r + |p|];
    assert q == HistoryPrefix(q)[r..r + |q|];
  }

  /** The messages a scan yields, in scan order, skipping what does not decode. */
  function Decoded(scan: Store<Blob>): seq<PrivateMessage> {
    if scan == [] then []
    else
      Decoded(scan[..|scan| - 1]) +
      match scan[|scan| - 1].value
      case Json(m) => [m]
      case Undecodable(_) => []
  }

  /** `GetChatHistory`'s result as a function of the store: only messages stored under the peer's prefix. */
  function History(store: Store<Blob>, peer: Bytes): (r: seq<PrivateMessage>)
    ensures forall m :: m in r ==> exists e :: e in store && e.value == Json(m) && IsPrefix(HistoryPrefix(peer), e.key)
  {
    var scan := PrefixScan(store, HistoryPrefix(peer));
    DecodedMembers(scan);
    Decoded(scan)
  }

  /** A history holds exactly the decodable messages of the scanned entries. */
  lemma {:induction false} DecodedMembers(scan: Store<Blob>)
    ensures forall m :: m in Decoded(scan) ==> exists e :: e in scan && e.value == Json(m)
    ensures forall e :: e in scan && e.value.Json? ==> e.value.msg in Decoded(scan)
  {
    if scan != [] {
      var front, last := scan[..|scan| - 1], scan[|scan| - 1];
      assert scan == front + [last];
      DecodedMembers(front);
      forall m | m in Decoded(scan) ensures exists e :: e in scan && e.value == Json(m) {
        if m in Decoded(front) {
          var e :| e in front && e.value == Json(m);
          assert e in scan;
        } else {
          assert last.value == Json(m);
        }
      }
      forall e | e in scan && e.value.Json? ensures e.value.msg in Decoded(scan) {
        if e != last {
          assert e in front;
        }
      }
    }
  }

  /** When every decodable entry sits at `prefix + id`, the decoded messages come in strictly increasing ID order. */
  lemma {:induction false} DecodedInIdOrder(scan: Store<Blob>, prefix: Bytes)
    requires Sorted(scan)
    requires forall e :: e in scan && e.value.Json? ==> e.key == prefix + e.value.msg.id
    ensures forall i, j :: 0 <= i < j < |Decoded(scan)| ==> LexLess(Decoded(scan)[i].id, Decoded(scan)[j].id)
  {
    if scan != [] {
      var front, last := scan[..|scan| - 1], scan[|scan| - 1];
      assert scan == front + [last];
      DecodedInIdOrder(front, prefix);
      var d, df := Decoded(scan), Decoded(front);
      if last.value.Json? {
        var m := last.value.msg;
        assert d == df + [m];
        DecodedMembers(front);
        forall i | 0 <= i < |df| ensures LexLess(df[i].id, m.id) {
          var e :| e in front && e.value == Json(df[i]);
          var k :| 0 <= k < |front| && front[k] == e;
          assert scan[k] == e && scan[|scan| - 1] == last;
          LexLessCommonPrefix(prefix, df[i].id, m.id);
        }
      }
    }
  }

  /** Every message written to the store is filed under its conversation with a peer text that holds no '/'. */
  ghost predicate WellKeyed(store: Store<Blob>) {
    forall e :: e in store && e.value.Json? ==>
      e.key == StorageKey(e.value.msg) && IsBase58(ConversationPeer(e.value.msg))
  }

  /**
   * A conversation's history is that conversation and all of it: every
   * message it returns was sent to or received from `peer`, and every
   * stored message of that conversation, sent or received, is in it.
   */
  lemma HistoryIsConversation(store: Store<Blob>, peer: Bytes)
    requires Sorted(store) && WellKeyed(store) && IsBase58(peer)
    ensures forall m :: m in History(store, peer) ==> ConversationPeer(m) == peer
    ensures forall e :: e in store && e.value.Json? && ConversationPeer(e.value.msg) == peer ==>
      e.value.msg in History(store, peer)
  {
    var scan := PrefixScan(store, HistoryPrefix(peer));
    PrefixScanContents(store, HistoryPrefix(peer));
    DecodedMembers(scan);
    forall m | m in History(store, peer) ensures ConversationPeer(m) == peer {
      var e :| e in scan && e.value == Json(m);
      KeyPrefixDeterminesPeer(ConversationPeer(m), peer, m.id);
    }
    forall e | e in store && e.value.Json? && ConversationPeer(e.value.msg) == peer
      ensures e.value.msg in History(store, peer)
    {
      StorageKeyPeer(e.value.msg);
      assert e in scan;
    }
  }

  /**
   * A history comes in strictly increasing ID order. IDs are decimal
   * nanosecond timestamps, and `DigitsOrder` shows that for IDs of equal
   * length this is chronological order.
   */
  lemma HistoryInIdOrder(store: Store<Blob>, peer: Bytes)
    requires Sorted(store) && WellKeyed(store) && IsBase58(peer)
    ensures forall i, j :: 0 <= i < j < |History(store, peer)| ==>
      LexLess(History(store, peer)[i].id, History(store, peer)[j].id)
  {
    var scan := PrefixScan(store, HistoryPrefix(peer));
    PrefixScanContents(store, HistoryPrefix(peer));
    forall e | e in scan && e.value.Json? ensures e.key == HistoryPrefix(peer) + e.value.msg.id {
      KeyPrefixDeterminesPeer(ConversationPeer(e.value.msg), peer, e.value.msg.id);
    }
    DecodedInIdOrder(scan, HistoryPrefix(peer));
  }

  /**
   * Storing a message keeps the store ordered and well keyed. What then
   * shows in its conversation's history is the message as JSON gives it
   * back, and the message itself shows there exactly when JSON leaves it
   * unchanged, i.e. when its strings are valid UTF-8.
   */
  lemma StoreShowsInHistory(store: Store<Blob>, msg: PrivateMessage)
    requires Sorted(store) && WellKeyed(store)
    requires IsBase58(ConversationPeer(msg)) && Utf8.Valid(msg.id)
    ensures Sorted(Put(store, StorageKey(msg), Json(AsStored(msg))))
    ensures WellKeyed(Put(store, StorageKey(msg), Json(AsStored(msg))))
    ensures AsStored(msg) in History(Put(store, StorageKey(msg), Json(AsStored(msg))), ConversationPeer(msg))
    ensures msg in History(Put(store, StorageKey(msg), Json(AsStored(msg))), ConversationPeer(msg)) <==>
      AsStored(msg) == msg
  {
    var key, blob := StorageKey(msg), Json(AsStored(msg));
    var after := Put(store, key, blob);
    StorageKeyAsStored(msg);
    PutSorted(store, key, blob);
    PutContents(store, key, blob);
    HistoryIsConversation(after, ConversationPeer(msg));
    if msg in History(after, ConversationPeer(msg)) {
      var e :| e in after && e.value == Json(msg) && IsPrefix(HistoryPrefix(ConversationPeer(msg)), e.key);
      assert e.key == key;
      SortedKeysUnique(after, e, Entry(key, blob));
    }
  }

  /**
   * A received read shows in the sender's history as it arrived exactly
   * when it is valid UTF-8; otherwise the history holds it with U+FFFD in
   * place of each byte that starts no valid rune, as when the 1024-byte
   * buffer cuts a multi-byte character (`Utf8.CutAfterLeadByte`).
   */
  lemma ReceivedContentInHistory(store: Store<Blob>, remote: PeerId, self: PeerId, content: Bytes, clock: Clock)
    requires Sorted(store) && WellKeyed(store)
    ensures var msg := Received(remote, self, content, clock);
      var after := Put(store, StorageKey(msg), Json(AsStored(msg)));
      && msg.(content := Utf8.Coerce(content)) in History(after, Text(remote))
      && (msg in History(after, Text(remote)) <==> Utf8.Valid(content))
  {
    var msg := Received(remote, self, content, clock);
    DecimalIsUtf8(clock.unixNano as int);
    StoreShowsInHistory(store, msg);
    Utf8.CoerceUnchangedIffValid(content);
  }

  class PrivateChatManager {
    /** The node's own identity, `pcm.host.ID()`. */
    const self: PeerId
    /** Whether `pcm.notifier` is non-nil. */
    const hasNotifier: bool
    var store: Store<Blob>
    /** Every notification handed to the notifier, oldest first. */
    var notifications: seq<Notification>

    ghost predicate Valid()
      reads this
    {
      Sorted(store) && WellKeyed(store)
    }

    constructor (self: PeerId, hasNotifier: bool, store: Store<Blob>)
      requires Sorted(store) && WellKeyed(store)
      ensures Valid()
      ensures this.self == self && this.hasNotifier == hasNotifier
      ensures this.store == store && notifications == []
    {
      this.self := self;
      this.hasNotifier := hasNotifier;
      this.store := store;
      notifications := [];
    }

    /** `storeMessage`: one `Put` under the message's key; `putOk` is the store's answer. */
    method StoreMessage(msg: PrivateMessage, putOk: bool) returns (ok: bool)
      requires Valid() && IsBase58(ConversationPeer(msg)) && Utf8.Valid(msg.id)
      modifies this`store
      ensures Valid()
      ensures ok == putOk
      ensures store == if putOk then Put(old(store), StorageKey(msg), Json(AsStored(msg))) else old(store)
    {
      if putOk {
        StoreShowsInHistory(store, msg);
        store := Put(store, StorageKey(msg), Json(AsStored(msg)));
      }
      ok := putOk;
    }

    /**
     * One read of at most 1024 bytes is the whole message. On data it is
     * stored as received from `remote`, its content as JSON gives it back,
     * and, whatever the store answered,
     * the notifier (when there is one) is called once; on io.EOF or a read
     * error nothing is stored and no one is notified.
     */
    method HandlePrivateChatStream(remote: PeerId, s: Stream, clock: Clock, putOk: bool)
      requires Valid()
      modifies this
      ensures Valid()
      ensures !Read(s, ReadBufferSize).0.Data? ==> store == old(store) && notifications == old(notifications)
      ensures Read(s, ReadBufferSize).0.Data? ==>
        var msg := Received(remote, self, Read(s, ReadBufferSize).0.bytes, clock);
        && store == (if putOk then Put(old(store), StorageKey(msg), Json(msg.(content := Utf8.Coerce(msg.content)))) else old(store))
        && notifications == old(notifications) +
             (if hasNotifier then [Notification(msg.senderId, msg.content, Ascii("private"))] else [])
    {
      var (r, _) := Read(s, ReadBufferSize);
      if !r.Data? {
        return;
      }
      var msg := Received(remote, self, r.bytes, clock);
      DecimalIsUtf8(clock.unixNano as int);
      var _ := StoreMessage(msg, putOk);
      if hasNotifier {
        notifications := notifications + [Notification(msg.senderId, msg.content, Ascii("private"))];
      }
    }

    /**
     * Decodes the peer text, opens a stream and writes the message, failing
     * with nothing stored at the first step that fails; after a successful
     * write the message is stored as sent and the call succeeds even when
     * the store refuses it.
     */
    method SendPrivateMessage(peerIdStr: Bytes, message: Bytes, link: Link, clock: Clock, putOk: bool)
      returns (err: Option<SendError>, written: seq<Bytes>)
      requires Valid()
      modifies this
      ensures Valid()
      ensures notifications == old(notifications)
      ensures Decode(peerIdStr).None? ==> err == Some(InvalidPeerId) && written == [] && store == old(store)
      ensures Decode(peerIdStr).Some? && !link.opens ==>
        err == Some(StreamOpenFailed) && written == [] && store == old(store)
      ensures Decode(peerIdStr).Some? && link.opens && link.acceptedWrites == 0 ==>
        err == Some(WriteFailed) && written == [] && store == old(store)
      ensures Decode(peerIdStr).Some? && link.opens && link.acceptedWrites > 0 ==>
        var msg := Sent(self, peerIdStr, message, clock);
        err == None && written == [message] &&
        store == (if putOk then Put(old(store), StorageKey(msg), Json(msg.(content := Utf8.Coerce(message)))) else old(store))
    {
      var peerId := Decode(peerIdStr);
      if peerId.None? {
        return Some(InvalidPeerId), [];
      }
      if !link.opens {
        return Some(StreamOpenFailed), [];
      }
      if link.acceptedWrites == 0 {
        return Some(WriteFailed), [];
      }
      written := [message];
      var msg := Sent(self, peerIdStr, message, clock);
      DecimalIsUtf8(clock.unixNano as int);
      var _ := StoreMessage(msg, putOk);
      err := None;
    }

    /** Writes exactly "Hello" to the peer and stores nothing. */
    method SendInitialMessage(peerIdStr: Bytes, link: Link) returns (err: Option<SendError>, written: seq<Bytes>)
      ensures Decode(peerIdStr).None? ==> err == Some(InvalidPeerId) && written == []
      ensures Decode(peerIdStr).Some? && !link.opens ==> err == Some(StreamOpenFailed) && written == []
      ensures Decode(peerIdStr).Some? && link.opens && link.acceptedWrites == 0 ==> err == Some(WriteFailed) && written == []
      ensures Decode(peerIdStr).Some? && link.opens && link.acceptedWrites > 0 ==> err == None && written == [Greeting]
    {
      if Decode(peerIdStr).None? {
        return Some(InvalidPeerId), [];
      }
      if !link.opens {
        return Some(StreamOpenFailed), [];
      }
      if link.acceptedWrites == 0 {
        return Some(WriteFailed), [];
      }
      return None, [Greeting];
    }

    /** Walks the prefix iterator over `chat/private/<peer>/`, keeping every value that decodes. */
    method GetChatHistory(peerIdStr: Bytes) returns (messages: seq<PrivateMessage>)
      requires Valid()
      ensures messages == History(store, peerIdStr)
      ensures IsBase58(peerIdStr) ==> forall m :: m in messages ==> ConversationPeer(m) == peerIdStr
      ensures IsBase58(peerIdStr) ==> forall i, j :: 0 <= i < j < |messages| ==> LexLess(messages[i].id, messages[j].id)
    {
      var scan := PrefixScan(store, HistoryPrefix(peerIdStr));
      messages := [];
      for i := 0 to |scan|
        invariant messages == Decoded(scan[..i])
      {
        assert scan[..i + 1][..i] == scan[..i];
        match scan[i].value
        case Json(m) =>
          messages := messages + [m];
        case Undecodable(_) =>
      }
      assert scan[..|scan|] == scan;
      if IsBase58(peerIdStr) {
        HistoryIsConversation(store, peerIdStr);
        HistoryInIdOrder(store, peerIdStr);
      }
    }
  }
}
