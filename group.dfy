/**
 * Group chat membership (internal/chat/group.go). The manager keeps a map
 * from group ID to group, changed in place by create / add / remove; each
 * group's member list is kept free of duplicates by the add check. A group
 * message is fanned out to every member except the node itself.
 */
module GroupChat {
  import opened Outcomes
  import opened Bytes
  import opened PeerIds

  const GroupChatProtocol: Bytes := Ascii("/p2p-chat/group/1.0.0")

  datatype Group = Group(id: Bytes, name: Bytes, members: seq<PeerId>, admin: PeerId)

  /** The four errors the manager returns, each carrying what Go formats into its message. */
  datatype GroupError =
    | GroupExists(groupId: Bytes)
    | NoSuchGroup(groupId: Bytes)
    | AlreadyMember(member: PeerId, groupId: Bytes)
    | NotMember(member: PeerId, groupId: Bytes)

  predicate NoDuplicates(s: seq<PeerId>) {
    forall i, j :: 0 <= i < j < |s| ==> s[i] != s[j]
  }

  /** The peers of `s` that are not in `xs`, in their order in `s`. */
  function Except(s: seq<PeerId>, xs: set<PeerId>): seq<PeerId> {
    if s == [] then []
    else Except(s[..|s| - 1], xs) + (if s[|s| - 1] in xs then [] else [s[|s| - 1]])
  }

  /** `Except` keeps exactly the peers outside `xs`, never adds a duplicate, and leaves a list alone when it has none of `xs`. */
  lemma ExceptMembers(s: seq<PeerId>, xs: set<PeerId>)
    ensures forall p :: p in Except(s, xs) ==> p in s && p !in xs
    ensures forall p :: p in s && p !in xs ==> p in Except(s, xs)
    ensures NoDuplicates(s) ==> NoDuplicates(Except(s, xs))
    ensures (forall p :: p in s ==> p !in xs) ==> Except(s, xs) == s
  {
    ExceptSound(s, xs);
    ExceptComplete(s, xs);
    if NoDuplicates(s) {
      ExceptNoDuplicates(s, xs);
    }
    if forall p :: p in s ==> p !in xs {
      ExceptIdentity(s, xs);
    }
  }

  lemma {:induction false} ExceptSound(s: seq<PeerId>, xs: set<PeerId>)
    ensures forall p :: p in Except(s, xs) ==> p in s && p !in xs
  {
    if s != [] {
      var front, last := s[..|s| - 1], s[|s| - 1];
      assert s == front + [last];
      ExceptSound(front, xs);
      ExceptSnoc(front, last, xs);
    }
  }

  lemma {:induction false} ExceptComplete(s: seq<PeerId>, xs: set<PeerId>)
    ensures forall p :: p in s && p !in xs ==> p in Except(s, xs)
  {
    if s != [] {
      var front, last := s[..|s| - 1], s[|s| - 1];
      assert s == front + [last];
      ExceptComplete(front, xs);
      ExceptSnoc(front, last, xs);
      forall p | p in s && p !in xs ensures p in Except(s, xs) {
        if p != last {
          assert p in front;
        }
      }
    }
  }

  lemma {:induction false} ExceptIdentity(s: seq<PeerId>, xs: set<PeerId>)
    requires forall p :: p in s ==> p !in xs
    ensures Except(s, xs) == s
  {
    if s != [] {
      var front, last := s[..|s| - 1], s[|s| - 1];
      assert s == front + [last];
      ExceptIdentity(front, xs);
      ExceptSnoc(front, last, xs);
    }
  }

  lemma {:induction false} ExceptNoDuplicates(s: seq<PeerId>, xs: set<PeerId>)
    requires NoDuplicates(s)
    ensures NoDuplicates(Except(s, xs))
  {
    if s != [] {
      var front, last := s[..|s| - 1], s[|s| - 1];
      assert s == front + [last];
      assert NoDuplicates(front) by {
        forall i, j | 0 <= i < j < |front| ensures front[i] != front[j] {
          assert front[i] == s[i] && front[j] == s[j];
        }
      }
      ExceptNoDuplicates(front, xs);
      ExceptSound(front, xs);
      ExceptSnoc(front, last, xs);
      var e, ef := Except(s, xs), Except(front, xs);
      forall i, j | 0 <= i < j < |e| ensures e[i] != e[j] {
        if j == |ef| {
          assert e[i] == ef[i] && ef[i] in ef && e[j] == last;
          assert last !in front by {
            forall k | 0 <= k < |front| ensures front[k] != last {
              assert s[k] == front[k];
            }
          }
        } else {
          assert e[i] == ef[i] && e[j] == ef[j];
        }
      }
    }
  }

  lemma ExceptSnoc(s: seq<PeerId>, x: PeerId, xs: set<PeerId>)
    ensures Except(s + [x], xs) == Except(s, xs) + (if x in xs then [] else [x])
  {
    assert (s + [x])[..|s + [x]| - 1] == s;
  }

  /** Removing a peer from a list with no duplicates leaves one fewer element; the fan-out count rests on this. */
  lemma {:induction false} ExceptOneLength(s: seq<PeerId>, x: PeerId)
    requires NoDuplicates(s)
    ensures |Except(s, {x})| == if x in s then |s| - 1 else |s|
  {
    if s != [] {
      var front, last := s[..|s| - 1], s[|s| - 1];
      assert s == front + [last];
      ExceptOneLength(front, x);
      if last == x {
        assert x !in front;
      }
    }
  }

  /** Go's `append(members[:i], members[i+1:]...)` on a duplicate-free list is `Except(members, {members[i]})`. */
  lemma {:induction false} SpliceIsExcept(s: seq<PeerId>, i: nat)
    requires NoDuplicates(s) && i < |s|
    ensures s[..i] + s[i + 1..] == Except(s, {s[i]})
  {
    var front, last, x := s[..|s| - 1], s[|s| - 1], s[i];
    assert s == front + [last];
    ExceptSnoc(front, last, {x});
    assert NoDuplicates(front) by {
      forall k, l | 0 <= k < l < |front| ensures front[k] != front[l] {
        assert front[k] == s[k] && front[l] == s[l];
      }
    }
    if i == |s| - 1 {
      assert x !in front;
      ExceptMembers(front, {x});
      assert s[..i] + s[i + 1..] == front;
    } else {
      assert last != x by {
        assert s[i] != s[|s| - 1];
      }
      SpliceIsExcept(front, i);
      assert front[i] == x;
      assert s[..i] + s[i + 1..] == front[..i] + front[i + 1..] + [last];
    }
  }

  /**
   * The bytes each member is sent: `fmt.Sprintf("[%s] %s", groupID, message)`.
   * The group ID sits between the opening '[' and a "] ", and the message
   * follows it to the end.
   */
  function GroupPayload(groupId: Bytes, message: Bytes): (r: Bytes)
    ensures |r| == |groupId| + |message| + 3
    ensures r[0] == 91 && r[|groupId| + 1] == 93 && r[|groupId| + 2] == 32
    ensures r[1..|groupId| + 1] == groupId && r[|groupId| + 3..] == message
  {
    Ascii("[") + groupId + Ascii("] ") + message
  }

  /**
   * A receiver can tell the group and the message apart: when group IDs
   * hold no ']', distinct (group, message) pairs give distinct payloads.
   */
  lemma GroupPayloadInjective(g1: Bytes, m1: Bytes, g2: Bytes, m2: Bytes)
    requires forall i :: 0 <= i < |g1| ==> g1[i] != 93
    requires forall i :: 0 <= i < |g2| ==> g2[i] != 93
    requires GroupPayload(g1, m1) == GroupPayload(g2, m2)
    ensures g1 == g2 && m1 == m2
  {
    var p1, p2 := GroupPayload(g1, m1), GroupPayload(g2, m2);
    assert Ascii("] ")[0] == 93;
    // Where the shorter ID ends, one payload has its ']' and the other an ID byte.
    var n := if |g1| < |g2| then |g1| else |g2|;
    assert p1[1 + n] == (g1 + [93 as byte])[n];
    assert p2[1 + n] == (g2 + [93 as byte])[n];
    assert g1 == p1[1..1 + |g1|] && g2 == p2[1..1 + |g2|];
    assert m1 == p1[3 + |g1|..] && m2 == p2[3 + |g2|..];
  }

  /** One attempted send of a group message: a new stream to `peer` carrying `payload`. */
  datatype Send = Send(peer: PeerId, payload: Bytes)

  function Sends(peers: seq<PeerId>, payload: Bytes): (r: seq<Send>)
    ensures |r| == |peers|
    ensures forall k :: 0 <= k < |r| ==> r[k] == Send(peers[k], payload)
  {
    seq(|peers|, k requires 0 <= k < |peers| => Send(peers[k], payload))
  }

  /** What `SendGroupMessage` did: the sends it started, and those that reached their peer. */
  datatype FanOut = FanOut(attempted: seq<Send>, delivered: seq<Send>)

  class GroupChatManager {
    /** The node's own identity, `gcm.host.ID()`. */
    const self: PeerId
    var groups: map<Bytes, Group>

    /** Each group is filed under its own ID and lists every member once. */
    ghost predicate Valid()
      reads this
    {
      forall id :: id in groups ==> groups[id].id == id && NoDuplicates(groups[id].members)
    }

    constructor (self: PeerId)
      ensures Valid()
      ensures this.self == self && groups == map[]
    {
      this.self := self;
      groups := map[];
    }

    /** A new group has the admin as its only member; an existing ID is refused. */
    method CreateGroup(groupId: Bytes, groupName: Bytes, adminId: PeerId) returns (err: Option<GroupError>)
      requires Valid()
      modifies this
      ensures Valid()
      ensures groupId in old(groups) ==> err == Some(GroupExists(groupId)) && groups == old(groups)
      ensures groupId !in old(groups) ==>
        err == None && groups == old(groups)[groupId := Group(groupId, groupName, [adminId], adminId)]
    {
      if groupId in groups {
        return Some(GroupExists(groupId));
      }
      groups := groups[groupId := Group(groupId, groupName, [adminId], adminId)];
      return None;
    }

    /** Appends a new member at the end; a missing group or an existing member is refused. */
    method AddMemberToGroup(groupId: Bytes, memberId: PeerId) returns (err: Option<GroupError>)
      requires Valid()
      modifies this
      ensures Valid()
      ensures groupId !in old(groups) ==> err == Some(NoSuchGroup(groupId)) && groups == old(groups)
      ensures groupId in old(groups) && memberId in old(groups)[groupId].members ==>
        err == Some(AlreadyMember(memberId, groupId)) && groups == old(groups)
      ensures groupId in old(groups) && memberId !in old(groups)[groupId].members ==>
        err == None &&
        groups == old(groups)[groupId := old(groups)[groupId].(members := old(groups)[groupId].members + [memberId])]
    {
      if groupId !in groups {
        return Some(NoSuchGroup(groupId));
      }
      var group := groups[groupId];
      for i := 0 to |group.members|
        invariant memberId !in group.members[..i]
      {
        if group.members[i] == memberId {
          return Some(AlreadyMember(memberId, groupId));
        }
      }
      assert group.members[..|group.members|] == group.members;
      groups := groups[groupId := group.(members := group.members + [memberId])];
      return None;
    }

    /** Removes a member and keeps the others in order; a missing group or a non-member is refused. The admin is not protected. */
    method RemoveMemberFromGroup(groupId: Bytes, memberId: PeerId) returns (err: Option<GroupError>)
      requires Valid()
      modifies this
      ensures Valid()
      ensures groupId !in old(groups) ==> err == Some(NoSuchGroup(groupId)) && groups == old(groups)
      ensures groupId in old(groups) && memberId !in old(groups)[groupId].members ==>
        err == Some(NotMember(memberId, groupId)) && groups == old(groups)
      ensures groupId in old(groups) && memberId in old(groups)[groupId].members ==>
        err == None &&
        groups == old(groups)[groupId := old(groups)[groupId].(members := Except(old(groups)[groupId].members, {memberId}))]
    {
      if groupId !in groups {
        return Some(NoSuchGroup(groupId));
      }
      var group := groups[groupId];
      for i := 0 to |group.members|
        invariant memberId !in group.members[..i]
      {
        if group.members[i] == memberId {
          SpliceIsExcept(group.members, i);
          ExceptMembers(group.members, {memberId});
          groups := groups[groupId := group.(members := group.members[..i] + group.members[i + 1..])];
          return None;
        }
      }
      assert group.members[..|group.members|] == group.members;
      return Some(NotMember(memberId, groupId));
    }

    /**
     * Snapshots the member list and starts one send per member other than
     * the node itself, each with the same payload. A send to a peer in
     * `failing` does not arrive, and neither that nor anything else about
     * the members changes the result: only a missing group is an error.
     */
    method SendGroupMessage(groupId: Bytes, message: Bytes, failing: set<PeerId>) returns (r: Result<FanOut, GroupError>)
      ensures groupId !in groups ==> r == Err(NoSuchGroup(groupId))
      ensures groupId in groups ==> r.Ok?
      ensures groupId in groups ==>
        r.value.attempted == Sends(Except(groups[groupId].members, {self}), GroupPayload(groupId, message))
      ensures groupId in groups ==>
        r.value.delivered == Sends(Except(Except(groups[groupId].members, {self}), failing), GroupPayload(groupId, message))
    {
      if groupId !in groups {
        return Err(NoSuchGroup(groupId));
      }
      var members := groups[groupId].members;
      var targets, reached := [], [];
      for i := 0 to |members|
        invariant targets == Except(members[..i], {self})
        invariant reached == Except(targets, failing)
      {
        var peer := members[i];
        assert members[..i + 1] == members[..i] + [peer];
        ExceptSnoc(members[..i], peer, {self});
        if peer != self {
          ExceptSnoc(targets, peer, failing);
          targets := targets + [peer];
          if peer !in failing {
            reached := reached + [peer];
          }
        }
      }
      assert members[..|members|] == members;
      var payload := GroupPayload(groupId, message);
      var attempted, delivered := Sends(targets, payload), Sends(reached, payload);
      return Ok(FanOut(attempted, delivered));
    }

    /** The stored group, or an error when there is none under that ID. */
    function GetGroup(groupId: Bytes): (r: Result<Group, GroupError>)
      reads this
      requires Valid()
      ensures r.Ok? <==> groupId in groups
      ensures r.Ok? ==> r.value == groups[groupId] && r.value.id == groupId
      ensures r.Err? ==> r.error == NoSuchGroup(groupId)
    {
      if groupId in groups then Ok(groups[groupId]) else Err(NoSuchGroup(groupId))
    }

    /** Every stored group exactly once, in the map's (unspecified) iteration order. */
    method ListGroups() returns (r: seq<Group>)
      requires Valid()
      ensures |r| == |groups|
      ensures forall k :: 0 <= k < |r| ==> r[k].id in groups && groups[r[k].id] == r[k]
      ensures forall id :: id in groups ==> groups[id] in r
      ensures forall k, l :: 0 <= k < l < |r| ==> r[k].id != r[l].id
    {
      r := [];
      var todo := groups.Keys;
      while todo != {}
        invariant todo <= groups.Keys
        invariant |r| + |todo| == |groups.Keys|
        invariant forall k :: 0 <= k < |r| ==> r[k].id in groups && groups[r[k].id] == r[k] && r[k].id !in todo
        invariant forall id :: id in groups && id !in todo ==> groups[id] in r
        invariant forall k, l :: 0 <= k < l < |r| ==> r[k].id != r[l].id
        decreases |todo|
      {
        var id :| id in todo;
        r := r + [groups[id]];
        todo := todo - {id};
      }
      assert |groups.Keys| == |groups|;
    }
  }

  /** The fan-out count: a group of N members other than the node itself gets exactly N sends, one per member. */
  lemma FanOutCount(members: seq<PeerId>, self: PeerId, groupId: Bytes, message: Bytes)
    requires NoDuplicates(members)
    ensures |Sends(Except(members, {self}), GroupPayload(groupId, message))| ==
      if self in members then |members| - 1 else |members|
    ensures forall p :: p in members && p != self ==>
      Send(p, GroupPayload(groupId, message)) in Sends(Except(members, {self}), GroupPayload(groupId, message))
    ensures forall snd :: snd in Sends(Except(members, {self}), GroupPayload(groupId, message)) ==>
      snd.peer in members && snd.peer != self && snd.payload == GroupPayload(groupId, message)
  {
    var payload := GroupPayload(groupId, message);
    ExceptOneLength(members, self);
    ExceptSound(members, {self});
    ExceptComplete(members, {self});
    var targets := Except(members, {self});
    var sends := Sends(targets, payload);
    forall snd | snd in sends ensures snd.peer in targets && snd.payload == payload {
      var k :| 0 <= k < |sends| && sends[k] == snd;
      assert targets[k] == snd.peer;
    }
    forall p | p in targets ensures Send(p, payload) in sends {
      var k :| 0 <= k < |targets| && targets[k] == p;
      assert sends[k] == Send(p, payload);
    }
  }

  /** One member's failure affects no one else: a member receives the message exactly when it is not self and not failing. */
  lemma DeliveryIndependent(members: seq<PeerId>, self: PeerId, failing: set<PeerId>, p: PeerId)
    ensures p in Except(Except(members, {self}), failing) <==> p in members && p != self && p !in failing
  {
    ExceptMembers(members, {self});
    ExceptMembers(Except(members, {self}), failing);
  }
}
