/**
 What one exchange between an owner and a member does to a channel: which
 messages leave, what they do where they arrive, and what the roster is then.
 */
module ChannelRounds {
  import opened Text
  import opened ChannelRules
  import opened ChannelProtocol

  // ---- Rosters ---------------------------------------------------------------------------

  lemma {:induction false} WithoutAbsent(members: seq<Member>, id: Id)
    requires !HasMember(members, id)
    ensures Without(members, id) == members
    decreases |members|
  {
    if members != [] {
      var n := |members| - 1;
      assert forall i :: 0 <= i < n ==> members[..n][i] == members[i];
      WithoutAbsent(members[..n], id);
      assert members == members[..n] + [members[n]];
    }
  }

  lemma {:induction false} WithoutAppend(a: seq<Member>, b: seq<Member>, id: Id)
    ensures Without(a + b, id) == Without(a, id) + Without(b, id)
    decreases |b|
  {
    if b == [] {
      assert a + b == a;
    } else {
      assert (a + b)[..|a + b| - 1] == a + b[..|b| - 1];
      WithoutAppend(a, b[..|b| - 1], id);
    }
  }

  /** Dropping a listed peer closes the gap and leaves everyone else in place. */
  lemma {:induction false} WithoutMiddle(a: seq<Member>, m: Member, b: seq<Member>)
    requires !HasMember(a, m.peerId) && !HasMember(b, m.peerId)
    ensures Without(a + [m] + b, m.peerId) == a + b
    ensures HasMember(a + [m] + b, m.peerId) && !HasMember(a + b, m.peerId)
  {
    WithoutAppend(a + [m], b, m.peerId);
    WithoutAppend(a, [m], m.peerId);
    WithoutAbsent(a, m.peerId);
    WithoutAbsent(b, m.peerId);
    assert (a + [m] + b)[|a|].peerId == m.peerId;
    forall i | 0 <= i < |a + b| ensures (a + b)[i].peerId != m.peerId {
      assert (a + b)[i] == if i < |a| then a[i] else b[i - |a|];
    }
  }

  /** Accepting turns the peer's own entry into a joined one, in place. */
  lemma {:induction false} AcceptedMiddle(a: seq<Member>, m: Member, b: seq<Member>)
    requires !HasMember(a, m.peerId)
    ensures Accepted(a + [m] + b, m.peerId) == a + [Member(m.peerId, MemberJoined)] + b
    decreases |a|
  {
    var all := a + [m] + b;
    if a == [] {
      assert all[0] == m && all[1..] == b;
    } else {
      assert all[0] == a[0] && all[1..] == a[1..] + [m] + b;
      assert forall i :: 0 <= i < |a| - 1 ==> a[1..][i] == a[i + 1];
      AcceptedMiddle(a[1..], m, b);
    }
  }

  /** An accepter that is not listed is listed at the end. */
  lemma {:induction false} AcceptedAbsent(members: seq<Member>, id: Id)
    requires !HasMember(members, id)
    ensures Accepted(members, id) == members + [Member(id, MemberJoined)]
    decreases |members|
  {
    if members != [] {
      assert forall i :: 0 <= i < |members| - 1 ==> members[1..][i] == members[i + 1];
      AcceptedAbsent(members[1..], id);
    }
  }

  // ---- Introductions ---------------------------------------------------------------------------

  predicate Listed(infos: seq<PeerInfo>, id: Id)
  {
    exists i :: 0 <= i < |infos| && infos[i].id == id
  }

  /** The member peers of a message are its sender and the listed members that the sender knows, with their keys. */
  lemma {:induction false} MemberPeersMean(self: Id, members: seq<Member>, peers: map<Id, PublicKey>)
    ensures var infos := MemberPeers(self, members, peers);
            && (forall id :: Listed(infos, id) <==> id == self || (HasMember(members, id) && id in peers))
            && forall i :: 0 <= i < |infos| ==>
                 infos[i].publicKey == if infos[i].id == self then KeyOf(self) else if infos[i].id in peers then peers[infos[i].id] else NoKey
    decreases |members|
  {
    if members == [] {
      assert MemberPeers(self, members, peers)[0].id == self;
    } else {
      var n := |members| - 1;
      MemberPeersMean(self, members[..n], peers);
      var before, after := MemberPeers(self, members[..n], peers), MemberPeers(self, members, peers);
      forall id ensures Listed(after, id) <==> id == self || (HasMember(members, id) && id in peers) {
        ListedStep(before, after, id);
        MemberStep(members, id);
      }
    }
  }

  lemma {:induction false} ListedStep(before: seq<PeerInfo>, after: seq<PeerInfo>, id: Id)
    requires after == before || (|after| == |before| + 1 && after[..|before|] == before)
    ensures Listed(after, id) <==> Listed(before, id) || (|after| > |before| && after[|before|].id == id)
  {
    assert forall i :: 0 <= i < |before| ==> after[i] == before[i];
    if Listed(before, id) {
      var i :| 0 <= i < |before| && before[i].id == id;
      assert after[i].id == id;
    }
  }

  lemma {:induction false} MemberStep(members: seq<Member>, id: Id)
    requires members != []
    ensures HasMember(members, id) <==> HasMember(members[..|members| - 1], id) || members[|members| - 1].peerId == id
  {
    var n := |members| - 1;
    if HasMember(members[..n], id) {
      var i :| 0 <= i < n && members[..n][i].peerId == id;
      assert members[i].peerId == id;
    }
    if HasMember(members, id) {
      var i :| 0 <= i < |members| && members[i].peerId == id;
      assert i < n ==> members[..n][i].peerId == id;
    }
  }

  lemma {:induction false} LearnPeersMean(known: map<Id, PublicKey>, infos: seq<PeerInfo>, from: Id)
    ensures var after := LearnPeers(known, infos, from);
            && (forall id :: id in after <==> id in known || (id != "" && id != from && Listed(infos, id)))
            && (forall id :: id in known ==> after[id] == known[id])
            && (forall id :: id in after && id !in known ==> exists i :: 0 <= i < |infos| && infos[i] == PeerInfo(id, after[id]))
    decreases |infos|
  {
    if infos != [] {
      var n := |infos| - 1;
      LearnPeersMean(known, infos[..n], from);
      var before, after := LearnPeers(known, infos[..n], from), LearnPeers(known, infos, from);
      forall id ensures id in after <==> id in known || (id != "" && id != from && Listed(infos, id)) {
        ListedStep(infos[..n], infos, id);
      }
      forall id | id in after && id !in known ensures exists i :: 0 <= i < |infos| && infos[i] == PeerInfo(id, after[id]) {
        if id in before {
          var i :| 0 <= i < n && infos[..n][i] == PeerInfo(id, before[id]);
          assert infos[i] == PeerInfo(id, after[id]);
        } else {
          assert infos[n] == PeerInfo(id, after[id]);
        }
      }
    }
  }

  /**
   `after` is `known` and, under the owner's keys, exactly the members that the
   owner knows; every key that was known is kept.
   */
  ghost predicate Introduced(known: map<Id, PublicKey>, after: map<Id, PublicKey>, owner: Id, ch: Channel, peers: map<Id, PublicKey>)
  {
    && (forall id :: id in after <==> id in known || (id != "" && id != owner && HasMember(ch.members, id) && id in peers))
    && (forall id :: id in known ==> after[id] == known[id])
    && (forall id :: id in after && id !in known ==> id in peers && after[id] == peers[id])
  }

  lemma {:induction false} PeersIntroduced(known: map<Id, PublicKey>, owner: Id, ch: Channel, peers: map<Id, PublicKey>)
    ensures Introduced(known, LearnPeers(known, MemberPeers(owner, ch.members, peers), owner), owner, ch, peers)
  {
    hide MemberPeers, LearnPeers, HasMember;
    var infos := MemberPeers(owner, ch.members, peers);
    MemberPeersMean(owner, ch.members, peers);
    LearnPeersMean(known, infos, owner);
  }

  // ---- What a message does where it arrives --------------------------------------------------

  /**
   An update takes effect exactly where its sender is the owner, its signature
   holds, and it is newer; its members are then introduced.
   */
  lemma {:induction false} UpdateTakesEffectIff(node: Node, from: Id, ch: Channel, peers: map<Id, PublicKey>)
    ensures var o := OnUpdate(node, from, UpdateMessage(from, ch, peers));
            && (o.handled <==> && node.row.Some? && node.row.value.ownerId == from && from in node.peers
                               && (node.peers[from].NoKey? || node.peers[from] == KeyOf(from))
                               && ch.version > node.row.value.version)
            && (o.handled ==> o.node.row == Some(node.row.value.(name := ch.name, members := ch.members, version := ch.version))
                              && Introduced(node.peers, o.node.peers, from, ch, peers) && o.sent == {})
            && (!o.handled ==> o == Ignored(node))
  {
    hide MemberPeers, LearnPeers, Introduced;
    PeersIntroduced(node.peers, from, ch, peers);
  }

  /** Where the sender's key is not known or the message is unsigned, an owner's update or kick is taken unchecked. */
  lemma {:induction false} UncheckedTaken(self: Id, node: Node, from: Id, m: Message)
    requires (m.Update? && node.row.Some? && m.version > node.row.value.version) || m.Kick?
    requires Owns(from, node) && from in node.peers && (m.signature.Unsigned? || node.peers[from].NoKey?)
    ensures OnMessage(self, node, from, m).handled
  {
  }

  /** An update whose signature is another's, or for other content, is ignored by everyone who can check it. */
  lemma {:induction false} ForgedIgnored(self: Id, node: Node, from: Id, m: Message)
    requires m.Update? || m.Kick?
    requires from in node.peers && node.peers[from] == KeyOf(from) && m.signature.Signed?
    requires m.signature != Signed(from, if m.Update? then Payload(m.channelId, m.version, UpdateAction, "")
                                         else Payload(m.channelId, m.version, KickAction, self))
    ensures OnMessage(self, node, from, m) == Ignored(node)
  {
  }

  /** An invite takes effect exactly at the invitee, from the owner itself, when the invitee knows the owner. */
  lemma {:induction false} InviteTakesEffectIff(self: Id, node: Node, from: Id, owner: Id, ch: Channel, target: Id, peers: map<Id, PublicKey>)
    ensures var o := OnInvite(self, node, from, InviteMessage(owner, ch, target, peers));
            && (o.handled <==> ch.id != "" && from == owner && owner in node.peers && self == target)
            && (!o.handled ==> o == Ignored(node))
            && (o.handled && node.row.Some? && node.row.value.status == Joined ==> o.node == node)
            && (o.handled && node.row.None?
                ==> o.node.row == Some(Channel(ch.id, ch.name, owner, ch.members, ch.key, ch.version, Joined)))
            && (o.handled && node.row.Some? && node.row.value.status != Joined
                ==> o.node.row == Some(Channel(node.row.value.id, ch.name, owner, ch.members,
                                               if ch.key != "" then ch.key else node.row.value.key, ch.version, Joined)))
            && (o.handled && (node.row.None? || node.row.value.status != Joined)
                ==> Introduced(node.peers, o.node.peers, owner, ch, peers))
            && o.sent == {}
  {
    hide LearnPeers, Introduced;
    PeersIntroduced(node.peers, owner, ch, peers);
    OwnKeyIsFirst(owner, ch.members, peers);
    var infos := MemberPeers(owner, ch.members, peers);
    assert FindKey(infos, owner) == KeyOf(owner);
  }

  // ---- What leaves --------------------------------------------------------------------------------

  /** `sent` is the update for `ch`, to every listed member but the owner that the owner knows, and nothing else. */
  ghost predicate Announces(owner: Id, ch: Channel, peers: map<Id, PublicKey>, sent: set<Envelope>)
  {
    forall env :: env in sent <==> Addressed(owner, ch, peers, env) && env.message == UpdateMessage(owner, ch, peers)
  }

  predicate Addressed(owner: Id, ch: Channel, peers: map<Id, PublicKey>, env: Envelope)
  {
    env.from == owner && env.to != owner && HasMember(ch.members, env.to) && env.to in peers
  }

  lemma {:induction false} BroadcastIs(owner: Id, ch: Channel, peers: map<Id, PublicKey>, message: Message)
    ensures forall env :: env in Broadcast(owner, ch, peers, message) <==> Addressed(owner, ch, peers, env) && env.message == message
  {
    forall env ensures env in Broadcast(owner, ch, peers, message) <==> Addressed(owner, ch, peers, env) && env.message == message {
      if Addressed(owner, ch, peers, env) && env.message == message {
        var i :| 0 <= i < |ch.members| && ch.members[i].peerId == env.to;
        assert ch.members[i].peerId in Recipients(owner, ch.members, peers);
        assert env == Envelope(owner, env.to, message);
      }
    }
  }

  // ---- Rounds -----------------------------------------------------------------------------------------

  /** The row `ch` of `node` belongs to its owner. */
  predicate Owns(owner: Id, node: Node)
  {
    node.row.Some? && node.row.value.ownerId == owner
  }

  /**
   Leaving: the member tells the owner and is out; the owner drops exactly it,
   raises the version, and tells everyone else when the channel has a key.
   */
  lemma {:induction false} LeaveRound(owner: Id, ownerNode: Node, memberNode: Node, a: seq<Member>, m: Member, b: seq<Member>)
    requires owner != m.peerId && Owns(owner, ownerNode) && ownerNode.row.value.members == a + [m] + b
    requires !HasMember(a, m.peerId) && !HasMember(b, m.peerId)
    requires Owns(owner, memberNode) && owner in memberNode.peers
    ensures var left := LeaveChannel(m.peerId, memberNode);
            var leave := Leave(memberNode.row.value.id);
            && left.sent == {Envelope(m.peerId, owner, leave)}
            && left.node == memberNode.(row := Some(memberNode.row.value.(
                              status := Left, members := Without(memberNode.row.value.members, m.peerId))))
            && var done := OnMessage(owner, ownerNode, m.peerId, leave);
               var ch := ownerNode.row.value.(members := a + b, version := ownerNode.row.value.version + 1);
               && done.handled && done.node == ownerNode.(row := Some(ch))
               && if ch.key == "" then done.sent == {} else Announces(owner, ch, ownerNode.peers, done.sent)
  {
    hide Broadcast, Without, HasMember;
    WithoutMiddle(a, m, b);
    var ch := ownerNode.row.value.(members := a + b, version := ownerNode.row.value.version + 1);
    BroadcastIs(owner, ch, ownerNode.peers, UpdateMessage(owner, ch, ownerNode.peers));
  }

  /** Declining: the invitee tells the owner and forgets the channel; the owner drops exactly it and raises the version. */
  lemma {:induction false} DeclineRound(owner: Id, ownerNode: Node, memberNode: Node, a: seq<Member>, m: Member, b: seq<Member>)
    requires Owns(owner, ownerNode) && ownerNode.row.value.members == a + [m] + b
    requires !HasMember(a, m.peerId) && !HasMember(b, m.peerId)
    requires Owns(owner, memberNode) && owner in memberNode.peers
    ensures var declined := DeclineInvite(m.peerId, memberNode);
            var decline := InviteDecline(memberNode.row.value.id);
            && declined.sent == {Envelope(m.peerId, owner, decline)} && declined.node == memberNode.(row := None)
            && var done := OnMessage(owner, ownerNode, m.peerId, decline);
               && done.handled && done.sent == {}
               && done.node == ownerNode.(row := Some(ownerNode.row.value.(members := a + b, version := ownerNode.row.value.version + 1)))
  {
    hide Without, HasMember;
    WithoutMiddle(a, m, b);
  }

  /** A refusal from someone who is not listed changes nothing. */
  lemma {:induction false} StrangerDeclines(owner: Id, ownerNode: Node, from: Id, id: Id)
    requires Owns(owner, ownerNode) && !HasMember(ownerNode.row.value.members, from)
    ensures OnMessage(owner, ownerNode, from, InviteDecline(id)) == Ignored(ownerNode)
  {
  }

  /** Only the owner takes acceptances, refusals and leaves. */
  lemma {:induction false} OnlyOwnersTake(self: Id, node: Node, from: Id, m: Message)
    requires m.InviteAccept? || m.InviteDecline? || m.Leave?
    requires !Owns(self, node)
    ensures OnMessage(self, node, from, m) == Ignored(node)
  {
  }

  /**
   Accepting: the owner marks exactly the accepter as joined, raises the version,
   learns a key it did not have, and tells everyone when the channel has a key.
   */
  lemma {:induction false} AcceptRound(owner: Id, ownerNode: Node, from: Id, key: PublicKey, a: seq<Member>, m: Member, b: seq<Member>)
    requires Owns(owner, ownerNode) && ownerNode.row.value.id != "" && m.peerId == from
    requires ownerNode.row.value.members == a + [m] + b && !HasMember(a, from)
    ensures var done := OnMessage(owner, ownerNode, from, InviteAccept(ownerNode.row.value.id, key));
            var ch := ownerNode.row.value.(members := a + [Member(from, MemberJoined)] + b, version := ownerNode.row.value.version + 1);
            && done.handled && done.node.row == Some(ch)
            && done.node.peers.Keys == ownerNode.peers.Keys + {from}
            && (forall id :: id in ownerNode.peers && (id != from || ownerNode.peers[id].KeyOf?) ==> done.node.peers[id] == ownerNode.peers[id])
            && (from !in ownerNode.peers || ownerNode.peers[from].NoKey? ==> done.node.peers[from] == key)
            && if ch.key == "" then done.sent == {} else Announces(owner, ch, done.node.peers, done.sent)
  {
    hide Broadcast, Accepted, HasMember;
    AcceptedMiddle(a, m, b);
    var ch := ownerNode.row.value.(members := a + [Member(from, MemberJoined)] + b, version := ownerNode.row.value.version + 1);
    var peers := LearnAccepter(ownerNode.peers, from, key);
    BroadcastIs(owner, ch, peers, UpdateMessage(owner, ch, peers));
  }

  /** Adding: a new peer is listed as pending, the version raised, and only the peer, if known, is sent an invite. */
  lemma {:induction false} AddRound(owner: Id, node: Node, peer: Id)
    requires Owns(owner, node)
    ensures var o, ch := AddMember(owner, node, peer), node.row.value;
            if HasMember(ch.members, peer) then o == Ignored(node)
            else
              var after := ch.(members := ch.members + [Member(peer, MemberPending)], version := ch.version + 1);
              o.handled && o.node == node.(row := Some(after))
              && o.sent == if peer in node.peers then {Envelope(owner, peer, InviteMessage(owner, after, peer, node.peers))} else {}
  {
    hide HasMember;
  }

  /**
   Removing: the owner drops exactly that member and raises the version; the
   member is sent a kick signed for it, everyone who stays the new roster. The
   kick, once delivered to a member that follows the owner, puts it out.
   */
  lemma {:induction false} RemoveRound(owner: Id, node: Node, a: seq<Member>, m: Member, b: seq<Member>, memberNode: Node)
    requires Owns(owner, node) && node.row.value.members == a + [m] + b && m.peerId != owner && m.peerId in node.peers
    requires !HasMember(a, m.peerId) && !HasMember(b, m.peerId)
    requires Follows(memberNode, owner)
    ensures var o := RemoveMember(owner, node, m.peerId);
            var ch := node.row.value.(members := a + b, version := node.row.value.version + 1);
            var kick := Envelope(owner, m.peerId, KickMessage(owner, ch, m.peerId));
            && o.handled && o.node == node.(row := Some(ch)) && kick in o.sent && Announces(owner, ch, node.peers, o.sent - {kick})
            && var out := OnMessage(m.peerId, memberNode, owner, kick.message);
               out.handled && out.node == memberNode.(row := Some(memberNode.row.value.(
                                            status := Kicked, members := Without(memberNode.row.value.members, m.peerId))))
  {
    hide Broadcast, Without, HasMember;
    WithoutMiddle(a, m, b);
    var ch := node.row.value.(members := a + b, version := node.row.value.version + 1);
    BroadcastIs(owner, ch, node.peers, UpdateMessage(owner, ch, node.peers));
    KickTakesEffectIff(m.peerId, memberNode, owner, ch, m.peerId);
  }

  /** Renaming changes the name and the version and nothing else; only an owner tells the others. */
  lemma {:induction false} RenameRound(self: Id, node: Node, name: string)
    requires node.row.Some?
    ensures var o, ch := Rename(self, node, name), node.row.value.(name := name, version := node.row.value.version + 1);
            && o.handled && o.node == node.(row := Some(ch))
            && if Owns(self, node) then Announces(self, ch, node.peers, o.sent) else o.sent == {}
  {
    hide Broadcast;
    var ch := node.row.value.(name := name, version := node.row.value.version + 1);
    BroadcastIs(self, ch, node.peers, UpdateMessage(self, ch, node.peers));
  }

  /** Deleting forgets the row; only an owner sends kicks, one to every other member it knows. */
  lemma {:induction false} DeleteRound(self: Id, node: Node)
    ensures var o := Delete(self, node);
            && o.node == node.(row := None)
            && forall env :: env in o.sent <==> Owns(self, node) && Addressed(self, node.row.value, node.peers, env)
                                                && env.message == KickMessage(self, node.row.value, "")
  {
    hide Broadcast;
    if Owns(self, node) {
      BroadcastIs(self, node.row.value, node.peers, KickMessage(self, node.row.value, ""));
    }
  }

  /**
   An owner's change reaches a member: whoever is sent the announcement, follows
   the owner and is behind ends up with the owner's name, roster and version.
   */
  lemma {:induction false} AnnouncementArrives(owner: Id, ch: Channel, peers: map<Id, PublicKey>, sent: set<Envelope>, n: Id, node: Node)
    requires Announces(owner, ch, peers, sent) && HasMember(ch.members, n) && n != owner && n in peers
    requires Follows(node, owner) && node.row.value.version < ch.version
    ensures var update := Envelope(owner, n, UpdateMessage(owner, ch, peers));
            update in sent
            && OnMessage(n, node, owner, update.message).node.row
               == Some(node.row.value.(name := ch.name, members := ch.members, version := ch.version))
  {
    hide HasMember;
    assert Addressed(owner, ch, peers, Envelope(owner, n, UpdateMessage(owner, ch, peers)));
    UpdateTakesEffectIff(node, owner, ch, peers);
  }
}
