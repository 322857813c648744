/**
 * The username directory on the Kademlia DHT (internal/p2p/dht.go). A user
 * publishes the record `/username/<name>` holding its peer ID, and a lookup
 * reads that record back and decodes the peer ID from it. The DHT accepts
 * only keys of the `username` namespace, accepts every record there, and of
 * several records found for a key always takes the first.
 */
module Directory {
  import opened Outcomes
  import opened Bytes
  import opened PeerIds

  const Slash: byte := 47
  const UsernameNamespace: Bytes := Ascii("username")
  const UsernamePrefix: Bytes := Ascii("/username/")

  /** The key a username is published and looked up under: it splits into the `username` namespace and the name. */
  function UsernameKey(username: Bytes): (r: Bytes)
    ensures SplitKey(r) == Some((UsernameNamespace, username))
  {
    var key := UsernamePrefix + username;
    var i := |UsernameNamespace|;
    UsernamePrefixShape();
    assert key[1..] == UsernameNamespace + [Slash] + username;
    IndexOfAfter(UsernameNamespace, Slash, username);
    assert key[1..][..i] == UsernameNamespace;
    assert key[i + 2..] == username;
    key
  }

  /** Distinct usernames have distinct keys. */
  lemma UsernameKeyInjective(u: Bytes, v: Bytes)
    ensures UsernameKey(u) == UsernameKey(v) <==> u == v
  {
    if UsernameKey(u) == UsernameKey(v) {
      assert u == UsernameKey(u)[|UsernamePrefix|..];
      assert v == UsernameKey(v)[|UsernamePrefix|..];
    }
  }

  /** The position of the first `b` in `s`. */
  function IndexOf(s: Bytes, b: byte): (r: Option<nat>)
    ensures r.None? ==> forall i :: 0 <= i < |s| ==> s[i] != b
    ensures r.Some? ==> r.value < |s| && s[r.value] == b && forall i :: 0 <= i < r.value ==> s[i] != b
  {
    if s == [] then None
    else if s[0] == b then Some(0)
    else match IndexOf(s[1..], b)
      case None => None
      case Some(i) => Some(i + 1)
  }

  /**
   * The record library's `SplitKey`: a key `/<namespace>/<rest>` with a
   * non-empty namespace splits at its second slash; any other key is invalid.
   */
  function SplitKey(key: Bytes): (r: Option<(Bytes, Bytes)>)
    ensures r.Some? ==> key == [Slash] + r.value.0 + [Slash] + r.value.1
    ensures r.Some? ==> r.value.0 != [] && forall i :: 0 <= i < |r.value.0| ==> r.value.0[i] != Slash
  {
    if key == [] || key[0] != Slash then None
    else match IndexOf(key[1..], Slash)
      case None => None
      case Some(i) =>
        if i == 0 then None
        else
          assert key == [Slash] + key[1..][..i] + [Slash] + key[i + 2..];
          Some((key[1..][..i], key[i + 2..]))
  }

  datatype ValidationError = InvalidRecordType

  /** `customValidator.Validate`: every key and value is accepted. */
  function Validate(key: Bytes, value: Bytes): (r: Option<ValidationError>)
    ensures r == None
  {
    None
  }

  /** `customValidator.Select`: index 0, and no error, for any list of records. */
  function Select(key: Bytes, values: seq<Bytes>): (r: (nat, Option<ValidationError>))
    ensures r == (0, None)
  {
    (0, None)
  }

  /** The DHT's namespaced validator: the namespace must be `username`, whose validator then decides. */
  function NamespacedValidate(key: Bytes, value: Bytes): (r: Option<ValidationError>)
    ensures r == None <==> SplitKey(key).Some? && SplitKey(key).value.0 == UsernameNamespace
    ensures r == None || r == Some(InvalidRecordType)
  {
    match SplitKey(key)
    case None => Some(InvalidRecordType)
    case Some((ns, _)) =>
      if ns == UsernameNamespace then Validate(key, value) else Some(InvalidRecordType)
  }

  /** A username key is a slash, the namespace, a slash, then the name. */
  lemma UsernamePrefixShape()
    ensures UsernamePrefix == [Slash] + UsernameNamespace + [Slash]
    ensures forall j :: 0 <= j < |UsernameNamespace| ==> UsernameNamespace[j] != Slash
  {
  }

  /** The first `b` after a run without `b`. */
  lemma {:induction false} IndexOfAfter(a: Bytes, b: byte, rest: Bytes)
    requires forall j :: 0 <= j < |a| ==> a[j] != b
    ensures IndexOf(a + [b] + rest, b) == Some(|a|)
  {
    if a != [] {
      assert (a + [b] + rest)[1..] == a[1..] + [b] + rest;
      IndexOfAfter(a[1..], b, rest);
    }
  }

  /** The DHT accepts a record exactly when its key is a username key. */
  lemma AcceptsExactlyUsernameKeys(key: Bytes, value: Bytes)
    ensures NamespacedValidate(key, value) == None <==> exists u :: key == UsernameKey(u)
  {
    UsernamePrefixShape();
    if NamespacedValidate(key, value) == None {
      var (ns, rest) := SplitKey(key).value;
      assert key == UsernameKey(rest);
    }
    if u :| key == UsernameKey(u) {
      assert SplitKey(key).value.0 == UsernameNamespace;
    }
  }

  /** Why a DHT call failed: no record (`routing.ErrNotFound`), a failed query, or a record the validator refused. */
  datatype DhtError = NotFound | QueryFailed | Rejected(reason: ValidationError)

  /**
   * The DHT as this node sees it: for each key, the records a lookup
   * collects, in the order they arrive, and whether queries get through.
   */
  datatype Dht = Dht(records: map<Bytes, seq<Bytes>>, reachable: bool)

  /** `GetValue`: the record `Select` picks among those found, i.e. the first to arrive. */
  function GetValue(d: Dht, key: Bytes): (r: Result<Bytes, DhtError>)
    ensures r.Ok? <==> d.reachable && key in d.records && d.records[key] != []
    ensures r.Ok? ==> r.value == d.records[key][0]
    ensures !d.reachable ==> r == Err(QueryFailed)
    ensures d.reachable && (key !in d.records || d.records[key] == []) ==> r == Err(NotFound)
  {
    if !d.reachable then Err(QueryFailed)
    else if key !in d.records || d.records[key] == [] then Err(NotFound)
    else
      var values := d.records[key];
      var (i, _) := Select(key, values);
      Ok(values[i])
  }

  /**
   * `PutValue`: a record the validator refuses is an error and changes
   * nothing. A validated record is stored first and then sent to the
   * network, so it replaces the key's record even when the network query
   * fails.
   */
  function PutValue(d: Dht, key: Bytes, value: Bytes): (r: (Option<DhtError>, Dht))
    ensures r.0 == None <==> d.reachable && NamespacedValidate(key, value) == None
    ensures NamespacedValidate(key, value) != None ==> r == (Some(Rejected(NamespacedValidate(key, value).value)), d)
    ensures NamespacedValidate(key, value) == None ==>
      r.1.records == d.records[key := [value]] && r.1.reachable == d.reachable
    ensures r.0 == None ==> GetValue(r.1, key) == Ok(value)
    ensures forall k :: k != key ==> GetValue(r.1, k) == GetValue(d, k)
  {
    match NamespacedValidate(key, value)
    case Some(reason) => (Some(Rejected(reason)), d)
    case None =>
      var stored := d.(records := d.records[key := [value]]);
      if d.reachable then (None, stored) else (Some(QueryFailed), stored)
  }

  datatype PublishError = PublishFailed(cause: DhtError)

  /** `PublishUsername` as written: the record holds the raw bytes of the node's peer ID. */
  function PublishUsernameAsWritten(d: Dht, self: PeerId, username: Bytes): (r: (Option<PublishError>, Dht))
    ensures r.0 == None <==> d.reachable
    ensures r.1 == d.(records := d.records[UsernameKey(username) := [self]])
  {
    AcceptsExactlyUsernameKeys(UsernameKey(username), self);
    var (err, after) := PutValue(d, UsernameKey(username), self);
    (if err == None then None else Some(PublishFailed(err.value)), after)
  }

  /** `PublishUsername` as the lookup expects it: the record holds the text of the node's peer ID. */
  function PublishUsername(d: Dht, self: PeerId, username: Bytes): (r: (Option<PublishError>, Dht))
    ensures r.0 == None <==> d.reachable
    ensures r.1 == d.(records := d.records[UsernameKey(username) := [Text(self)]])
  {
    AcceptsExactlyUsernameKeys(UsernameKey(username), Text(self));
    var (err, after) := PutValue(d, UsernameKey(username), Text(self));
    (if err == None then None else Some(PublishFailed(err.value)), after)
  }

  datatype LookupError = UserNotFound | SearchFailed(cause: DhtError) | DecodeFailed

  /**
   * `FindPeerByUsername` up to the address lookup: the peer ID whose
   * addresses are then asked for, or why there is none. A missing record
   * is "user not found", distinct from any other failed search.
   */
  function FindPeerByUsername(d: Dht, username: Bytes): (r: Result<PeerId, LookupError>)
    ensures r == Err(UserNotFound) <==> GetValue(d, UsernameKey(username)) == Err(NotFound)
    ensures r.Err? && r.error.SearchFailed? <==>
      GetValue(d, UsernameKey(username)).Err? && GetValue(d, UsernameKey(username)).error != NotFound
    ensures r == Err(DecodeFailed) <==>
      GetValue(d, UsernameKey(username)).Ok? && Decode(GetValue(d, UsernameKey(username)).value).None?
    ensures r.Ok? ==> Text(r.value) == GetValue(d, UsernameKey(username)).value
  {
    match GetValue(d, UsernameKey(username))
    case Err(e) => if e == NotFound then Err(UserNotFound) else Err(SearchFailed(e))
    case Ok(value) =>
      match Decode(value)
      case None => Err(DecodeFailed)
      case Some(id) =>
        TextDecode(value);
        Ok(id)
  }

  /** Once a reachable DHT has taken a user's record, looking the user up finds the publishing node. */
  lemma PublishThenFind(d: Dht, self: PeerId, username: Bytes)
    requires d.reachable
    ensures FindPeerByUsername(PublishUsername(d, self, username).1, username) == Ok(self)
  {
    DecodeText(self);
  }

  /**
   * With the raw bytes published, the lookup can never succeed: a peer ID
   * is a multihash whose first byte is its hash code, 0x00 (identity) or
   * 0x12 (sha2-256), and neither is a base58 character.
   */
  lemma RawIdLookupFails(d: Dht, self: PeerId, username: Bytes)
    requires d.reachable && self != [] && (self[0] == 0x00 || self[0] == 0x12)
    ensures FindPeerByUsername(PublishUsernameAsWritten(d, self, username).1, username) == Err(DecodeFailed)
  {
    AcceptsExactlyUsernameKeys(UsernameKey(username), self);
    assert DigitValue(self[0]).None?;
    assert !IsBase58(self);
  }

  /** Publishing one username leaves every other username's lookup as it was. */
  lemma PublishIsolated(d: Dht, self: PeerId, username: Bytes, other: Bytes)
    requires other != username
    ensures FindPeerByUsername(PublishUsername(d, self, username).1, other) == FindPeerByUsername(d, other)
  {
    UsernameKeyInjective(username, other);
  }

  /** The bootstrap addresses compiled in (the commented-out local one is not among them). */
  const DefaultBootstrapPeers: seq<Bytes> := [
    Ascii("/ip4/148.251.35.204/tcp/30001/p2p/12D3KooWH4uEYewx2gwwzxQNeGkkTVm1V2dyfvUytcDzr6eh7HSd"),
    Ascii("/dnsaddr/sg1.bootstrap.libp2p.io/p2p/QmcZf59bWwK5XFi76CZX8cbJ4BhTzzA3gU1ZjYZcYW3dwt"),
    Ascii("/dnsaddr/sv15.bootstrap.libp2p.io/p2p/QmNnooDu7bfjPFoTZYxMNLWUQJyrVwtbZg5gBMjTezGAJN"),
    Ascii("/dnsaddr/am6.bootstrap.libp2p.io/p2p/QmbLHAnMoJPWSCR5Zhtx6BHJX9KiKNN6tpvbUcqanj75Nb"),
    Ascii("/dnsaddr/ny5.bootstrap.libp2p.io/p2p/QmQCU2EcMqAqQPR2i9bChDtGNJchTbq5TbXJJ16u19uLTa")
  ]

  /** How many times the routing table is checked before the 10 s wait, polled every 100 ms, runs out. */
  const PollLimit: nat := 100

  /** The addresses of `addrs` that `ok` accepts, in order. */
  function Keep(addrs: seq<Bytes>, ok: Bytes -> bool): seq<Bytes> {
    if addrs == [] then []
    else Keep(addrs[..|addrs| - 1], ok) + (if ok(addrs[|addrs| - 1]) then [addrs[|addrs| - 1]] else [])
  }

  /** `Keep` drops exactly the rejected addresses and leaves a list of accepted ones as it is. */
  lemma {:induction false} KeepContents(addrs: seq<Bytes>, ok: Bytes -> bool)
    ensures forall a :: a in Keep(addrs, ok) ==> a in addrs && ok(a)
    ensures forall a :: a in addrs && ok(a) ==> a in Keep(addrs, ok)
    ensures (forall a :: a in addrs ==> ok(a)) ==> Keep(addrs, ok) == addrs
    ensures |Keep(addrs, ok)| <= |addrs|
  {
    if addrs != [] {
      var front, last := addrs[..|addrs| - 1], addrs[|addrs| - 1];
      assert addrs == front + [last];
      KeepContents(front, ok);
      forall a | a in addrs && ok(a) ensures a in Keep(addrs, ok) {
        if a != last {
          assert a in front;
        }
      }
    }
  }

  /**
   * What `SetupDHT` depends on but cannot decide itself: whether the DHT is
   * created and bootstraps, which strings parse as multiaddrs, which of those
   * carry a peer ID, and the routing table's size at each poll.
   */
  datatype Environment = Environment(
    createOk: bool,
    bootstrapOk: bool,
    parses: Bytes -> bool,
    hasPeerId: Bytes -> bool,
    tableSize: nat -> nat)

  datatype SetupError = CreateFailed | BootstrapFailed | BadBootstrapPeer

  /** The bootstrap addresses in use, the addresses dialled, and whether the routing-table wait ran out. */
  datatype Setup = Setup(peers: seq<Bytes>, dialed: seq<Bytes>, timedOut: bool)

  /** The bootstrap list: the given peer alone when there is one (or `None` when it does not parse), else the defaults that parse. */
  function BootstrapPeers(bootstrapPeer: Bytes, parses: Bytes -> bool): (r: Option<seq<Bytes>>)
    ensures bootstrapPeer != [] ==> (r.Some? <==> parses(bootstrapPeer))
    ensures bootstrapPeer != [] && r.Some? ==> r.value == [bootstrapPeer]
    ensures bootstrapPeer == [] ==>
      r.Some? && forall a :: a in r.value <==> a in DefaultBootstrapPeers && parses(a)
  {
    KeepContents(DefaultBootstrapPeers, parses);
    if bootstrapPeer == [] then Some(Keep(DefaultBootstrapPeers, parses))
    else if parses(bootstrapPeer) then Some([bootstrapPeer])
    else None
  }

  /**
   * `SetupDHT`. It fails when the DHT cannot be created or bootstrapped or
   * when a given bootstrap peer does not parse; otherwise it dials every
   * bootstrap address with a peer ID and waits for the routing table, and
   * succeeds whether or not the wait times out.
   */
  method SetupDHT(bootstrapPeer: Bytes, env: Environment) returns (r: Result<Setup, SetupError>)
    ensures !env.createOk ==> r == Err(CreateFailed)
    ensures env.createOk && !env.bootstrapOk ==> r == Err(BootstrapFailed)
    ensures env.createOk && env.bootstrapOk && BootstrapPeers(bootstrapPeer, env.parses).None? ==>
      r == Err(BadBootstrapPeer)
    ensures env.createOk && env.bootstrapOk && BootstrapPeers(bootstrapPeer, env.parses).Some? ==>
      && r.Ok?
      && r.value.peers == BootstrapPeers(bootstrapPeer, env.parses).value
      && r.value.dialed == Keep(r.value.peers, env.hasPeerId)
    ensures r.Ok? ==> (r.value.timedOut <==> forall k :: 0 <= k < PollLimit ==> env.tableSize(k) == 0)
  {
    if !env.createOk {
      return Err(CreateFailed);
    }
    if !env.bootstrapOk {
      return Err(BootstrapFailed);
    }
    var peers: seq<Bytes> := [];
    for i := 0 to |DefaultBootstrapPeers|
      invariant peers == Keep(DefaultBootstrapPeers[..i], env.parses)
    {
      assert DefaultBootstrapPeers[..i + 1][..i] == DefaultBootstrapPeers[..i];
      if env.parses(DefaultBootstrapPeers[i]) {
        peers := peers + [DefaultBootstrapPeers[i]];
      }
    }
    assert DefaultBootstrapPeers[..|DefaultBootstrapPeers|] == DefaultBootstrapPeers;
    if bootstrapPeer != [] {
      if !env.parses(bootstrapPeer) {
        return Err(BadBootstrapPeer);
      }
      peers := [bootstrapPeer];
    }
    var dialed: seq<Bytes> := [];
    for i := 0 to |peers|
      invariant dialed == Keep(peers[..i], env.hasPeerId)
    {
      assert peers[..i + 1][..i] == peers[..i];
      if env.hasPeerId(peers[i]) {
        dialed := dialed + [peers[i]];
      }
    }
    assert peers[..|peers|] == peers;
    var polls := 0;
    while polls < PollLimit && env.tableSize(polls) == 0
      invariant polls <= PollLimit
      invariant forall k :: 0 <= k < polls ==> env.tableSize(k) == 0
    {
      polls := polls + 1;
    }
    return Ok(Setup(peers, dialed, polls == PollLimit));
  }
}
