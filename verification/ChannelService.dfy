/**
 The chat service's channel handlers and operations (src/chat/channel/handler.rs,
 ops.rs, sender.rs): each reads a row, changes it, writes it back and sends.
 Every method is proved against the rule of `ChannelRules` for its one channel,
 and leaves all other rows alone.
 */
module ChannelService {
  import opened Text
  import opened ChannelRules

  class ChatService {
    const clientId: Id
    var channels: map<Id, Channel>
    var peers: map<Id, PublicKey>
    var outbox: set<Envelope>

    constructor (clientId: Id)
      ensures this.clientId == clientId && channels == map[] && peers == map[] && outbox == {}
    {
      this.clientId := clientId;
      channels, peers, outbox := map[], map[], {};
    }

    /** This node as the rules see it for channel `id`. */
    function View(id: Id): Node
      reads this
    {
      Node(if id in channels then Some(channels[id]) else None, peers)
    }

    /** The new state is the outcome `o` for channel `id`; the other rows are as before. */
    ghost predicate Became(before: map<Id, Channel>, sent: set<Envelope>, id: Id, o: Outcome)
      reads this
    {
      && channels == (if o.node.row.Some? then before[id := o.node.row.value] else before - {id})
      && peers == o.node.peers
      && outbox == sent + o.sent
    }

    // ---- Sending (sender.rs) ---------------------------------------------------------------

    method BuildMemberPeers(members: seq<Member>) returns (infos: seq<PeerInfo>)
      ensures infos == MemberPeers(clientId, members, peers)
    {
      infos := [PeerInfo(clientId, KeyOf(clientId))];
      for i := 0 to |members|
        invariant infos == MemberPeers(clientId, members[..i], peers)
      {
        assert members[..i + 1][..i] == members[..i];
        var m := members[i];
        if m.peerId == clientId {
          continue;
        }
        if m.peerId in peers {
          infos := infos + [PeerInfo(m.peerId, peers[m.peerId])];
        }
      }
      assert members[..|members|] == members;
    }

    method SendToMembers(ch: Channel, message: Message)
      modifies this`outbox
      ensures outbox == old(outbox) + Broadcast(clientId, ch, peers, message)
    {
      var members := ch.members;
      for i := 0 to |members|
        invariant outbox == old(outbox) + Broadcast(clientId, ch.(members := members[..i]), peers, message)
      {
        RecipientsStep(clientId, members, i, peers);
        var to := members[i].peerId;
        if to != clientId && to in peers {
          outbox := outbox + {Envelope(clientId, to, message)};
        }
      }
      assert members[..|members|] == members;
    }

    method BroadcastUpdate(ch: Channel)
      modifies this`outbox
      ensures outbox == old(outbox) + Broadcast(clientId, ch, peers, UpdateMessage(clientId, ch, peers))
    {
      var memberPeers := BuildMemberPeers(ch.members);
      var signature := Signed(clientId, Payload(ch.id, ch.version, UpdateAction, ""));
      SendToMembers(ch, Update(ch.id, ch.name, ch.members, memberPeers, ch.version, signature));
    }

    method Learn(infos: seq<PeerInfo>, from: Id)
      modifies this`peers
      ensures peers == LearnPeers(old(peers), infos, from)
    {
      for i := 0 to |infos|
        invariant peers == LearnPeers(old(peers), infos[..i], from)
      {
        assert infos[..i + 1][..i] == infos[..i];
        var info := infos[i];
        if info.id == "" || info.id == from || info.id in peers {
          continue;
        }
        peers := peers[info.id := info.publicKey];
      }
      assert infos[..|infos|] == infos;
    }

    // ---- Handlers (handler.rs) -------------------------------------------------------------

    method HandleInvite(from: Id, m: Message) returns (handled: bool)
      requires m.Invite?
      modifies this
      ensures var o := OnInvite(clientId, old(View(m.channelId)), from, m);
              handled == o.handled && Became(old(channels), old(outbox), m.channelId, o)
    {
      hide LearnPeers, FindKey;
      NothingWritten(m.channelId);
      if m.channelId == "" || m.owner != from {
        return false;
      }
      var ownerKey := FindKey(m.memberPeers, m.owner);
      if ownerKey.NoKey? {
        return false;
      }
      if !Verifies(ownerKey, Payload(m.channelId, m.version, InviteAction, clientId), m.signature) {
        return false;
      }
      if from !in peers {
        return false;
      }
      var isReinvite := m.channelId in channels && (channels[m.channelId].status == Left || channels[m.channelId].status == Kicked);
      if m.channelId in channels && !isReinvite {
        return true;
      }
      Learn(m.memberPeers, from);
      if m.channelId in channels {
        var ch := channels[m.channelId];
        ch := ch.(name := m.channelName, ownerId := from, members := m.members);
        if m.key != "" {
          ch := ch.(key := m.key);
        }
        ch := ch.(version := m.version, status := Joined);
        channels := channels[m.channelId := ch];
      } else {
        channels := channels[m.channelId := Channel(m.channelId, m.channelName, from, m.members, m.key, m.version, Joined)];
      }
      return true;
    }

    method HandleInviteAccept(from: Id, m: Message) returns (handled: bool)
      requires m.InviteAccept?
      modifies this
      ensures var o := OnInviteAccept(clientId, old(View(m.channelId)), from, m);
              handled == o.handled && Became(old(channels), old(outbox), m.channelId, o)
    {
      hide Recipients, MemberPeers, Accepted;
      NothingWritten(m.channelId);
      if m.channelId == "" || m.channelId !in channels || channels[m.channelId].ownerId != clientId {
        return false;
      }
      var ch := channels[m.channelId];
      if from !in peers || (peers[from].NoKey? && m.publicKey.KeyOf?) {
        peers := peers[from := m.publicKey];
      }
      var members := AcceptMember(ch.members, from);
      ch := ch.(members := members, version := ch.version + 1);
      channels := channels[m.channelId := ch];
      if ch.key != "" {
        BroadcastUpdate(ch);
      }
      return true;
    }

    method HandleInviteDecline(from: Id, id: Id) returns (handled: bool)
      modifies this
      ensures var o := OnInviteDecline(clientId, old(View(id)), from);
              handled == o.handled && Became(old(channels), old(outbox), id, o)
    {
      NothingWritten(id);
      if id !in channels || channels[id].ownerId != clientId || !HasMember(channels[id].members, from) {
        return false;
      }
      var ch := channels[id];
      channels := channels[id := ch.(members := Without(ch.members, from), version := ch.version + 1)];
      return true;
    }

    method HandleUpdate(from: Id, m: Message) returns (handled: bool)
      requires m.Update?
      modifies this
      ensures var o := OnUpdate(old(View(m.channelId)), from, m);
              handled == o.handled && Became(old(channels), old(outbox), m.channelId, o)
    {
      hide LearnPeers;
      NothingWritten(m.channelId);
      if m.channelId !in channels || channels[m.channelId].ownerId != from || from !in peers {
        return false;
      }
      if !Verifies(peers[from], Payload(m.channelId, m.version, UpdateAction, ""), m.signature) {
        return false;
      }
      var ch := channels[m.channelId];
      if m.version <= ch.version {
        return false;
      }
      Learn(m.memberPeers, from);
      ch := ch.(name := m.channelName);
      ch := ch.(members := m.members);
      ch := ch.(version := m.version);
      channels := channels[m.channelId := ch];
      return true;
    }

    method HandleKick(from: Id, m: Message) returns (handled: bool)
      requires m.Kick?
      modifies this
      ensures var o := OnKick(clientId, old(View(m.channelId)), from, m);
              handled == o.handled && Became(old(channels), old(outbox), m.channelId, o)
    {
      NothingWritten(m.channelId);
      if m.channelId !in channels || channels[m.channelId].ownerId != from || from !in peers {
        return false;
      }
      if !Verifies(peers[from], Payload(m.channelId, m.version, KickAction, clientId), m.signature) {
        return false;
      }
      var ch := channels[m.channelId];
      ch := ch.(status := Kicked);
      ch := ch.(members := Without(ch.members, clientId));
      channels := channels[m.channelId := ch];
      return true;
    }

    method HandleLeave(from: Id, id: Id) returns (handled: bool)
      modifies this
      ensures var o := OnLeave(clientId, old(View(id)), from);
              handled == o.handled && Became(old(channels), old(outbox), id, o)
    {
      hide Recipients, MemberPeers, Without;
      NothingWritten(id);
      if id !in channels || channels[id].ownerId != clientId {
        return false;
      }
      var ch := channels[id];
      ch := ch.(members := Without(ch.members, from), version := ch.version + 1);
      channels := channels[id := ch];
      if ch.key != "" {
        BroadcastUpdate(ch);
      }
      return true;
    }

    // ---- Operations (ops.rs) ---------------------------------------------------------------

    method CreateChannel(id: Id, name: string, key: string)
      modifies this`channels
      ensures channels == old(channels)[id := Created(clientId, id, name, key)]
    {
      var ch := Channel(id, name, clientId, [], "", 1, Joined);
      ch := ch.(members := [Member(clientId, MemberJoined)]);
      ch := ch.(key := key);
      channels := channels[id := ch];
    }

    method UpdateChannelName(id: Id, name: string) returns (ok: bool)
      modifies this
      ensures var o := Rename(clientId, old(View(id)), name);
              ok == o.handled && Became(old(channels), old(outbox), id, o)
    {
      hide Recipients, MemberPeers;
      NothingWritten(id);
      if id !in channels {
        return false;
      }
      var ch := channels[id];
      ch := ch.(name := name, version := ch.version + 1);
      channels := channels[id := ch];
      if ch.ownerId == clientId {
        BroadcastUpdate(ch);
      }
      return true;
    }

    method DeleteChannel(id: Id)
      modifies this
      ensures Became(old(channels), old(outbox), id, Delete(clientId, old(View(id))))
    {
      hide Recipients;
      if id in channels {
        var ch := channels[id];
        if ch.ownerId == clientId {
          SendToMembers(ch, Kick(ch.id, ch.version, Signed(clientId, Payload(ch.id, ch.version, KickAction, ""))));
        }
        channels := channels[id := ch.(status := Left)];
      }
      channels := channels - {id};
      assert channels == old(channels) - {id};
    }

    method LeaveTheChannel(id: Id)
      modifies this
      ensures Became(old(channels), old(outbox), id, LeaveChannel(clientId, old(View(id))))
    {
      hide Without;
      NothingWritten(id);
      if id in channels {
        var ch := channels[id];
        if ch.ownerId != clientId {
          if ch.ownerId in peers {
            outbox := outbox + {Envelope(clientId, ch.ownerId, Leave(ch.id))};
          }
          ch := ch.(members := Without(ch.members, clientId), status := Left);
          channels := channels[id := ch];
        }
      }
    }

    method AddChannelMember(id: Id, peer: Id) returns (ok: bool)
      modifies this
      ensures var o := AddMember(clientId, old(View(id)), peer);
              ok == o.handled && Became(old(channels), old(outbox), id, o)
    {
      hide MemberPeers;
      NothingWritten(id);
      if id !in channels || channels[id].ownerId != clientId || HasMember(channels[id].members, peer) {
        return false;
      }
      var ch := channels[id];
      ch := ch.(members := ch.members + [Member(peer, MemberPending)], version := ch.version + 1);
      channels := channels[id := ch];
      if peer in peers {
        var memberPeers := BuildMemberPeers(ch.members);
        var signature := Signed(clientId, Payload(ch.id, ch.version, InviteAction, peer));
        var invite := Invite(ch.id, ch.name, ch.key, clientId, ch.members, memberPeers, ch.version, signature);
        outbox := outbox + {Envelope(clientId, peer, invite)};
      }
      return true;
    }

    method RemoveChannelMember(id: Id, peer: Id) returns (ok: bool)
      modifies this
      ensures var o := RemoveMember(clientId, old(View(id)), peer);
              ok == o.handled && Became(old(channels), old(outbox), id, o)
    {
      hide Recipients, MemberPeers, Without;
      NothingWritten(id);
      if id !in channels || channels[id].ownerId != clientId || !HasMember(channels[id].members, peer) {
        return false;
      }
      var ch := channels[id];
      ch := ch.(members := Without(ch.members, peer), version := ch.version + 1);
      channels := channels[id := ch];
      if peer in peers {
        outbox := outbox + {Envelope(clientId, peer, KickMessage(clientId, ch, peer))};
      }
      BroadcastUpdate(ch);
      return true;
    }

    method AcceptChannelInvite(id: Id) returns (ok: bool)
      modifies this
      ensures var o := AcceptInvite(clientId, old(View(id)));
              ok == o.handled && Became(old(channels), old(outbox), id, o)
    {
      NothingWritten(id);
      if id !in channels || channels[id].ownerId !in peers {
        return false;
      }
      var ch := channels[id];
      outbox := outbox + {Envelope(clientId, ch.ownerId, InviteAccept(ch.id, KeyOf(clientId)))};
      return true;
    }

    method DeclineChannelInvite(id: Id)
      modifies this
      ensures Became(old(channels), old(outbox), id, DeclineInvite(clientId, old(View(id))))
    {
      if id in channels {
        var ch := channels[id];
        if ch.ownerId in peers {
          outbox := outbox + {Envelope(clientId, ch.ownerId, InviteDecline(ch.id))};
        }
      }
      channels := channels - {id};
    }

    /** Writing a row back unchanged is writing nothing. */
    lemma {:induction false} NothingWritten(id: Id)
      ensures id in channels ==> channels[id := channels[id]] == channels
      ensures id !in channels ==> channels - {id} == channels
      ensures outbox + {} == outbox
    {
    }
  }

  lemma {:induction false} RecipientsStep(self: Id, members: seq<Member>, i: nat, peers: map<Id, PublicKey>)
    requires i < |members|
    ensures Recipients(self, members[..i + 1], peers)
         == Recipients(self, members[..i], peers)
            + if members[i].peerId != self && members[i].peerId in peers then {members[i].peerId} else {}
  {
    var more, less := Recipients(self, members[..i + 1], peers), Recipients(self, members[..i], peers);
    var m := members[i].peerId;
    forall id ensures id in more <==> id in less || (id == m && m != self && m in peers) {
      if id in less {
        var k :| 0 <= k < i && members[..i][k].peerId == id;
        assert members[..i + 1][k].peerId == id;
      }
      if id in more {
        var k :| 0 <= k < i + 1 && members[..i + 1][k].peerId == id;
        assert k < i ==> members[..i][k].peerId == id;
      }
      assert members[..i + 1][i].peerId == m;
    }
  }

  method AcceptMember(members: seq<Member>, from: Id) returns (r: seq<Member>)
    ensures r == Accepted(members, from)
  {
    var idx: nat := 0;
    while idx < |members| && members[idx].peerId != from
      invariant idx <= |members|
      invariant Accepted(members, from) == members[..idx] + Accepted(members[idx..], from)
    {
      assert members[idx..][1..] == members[idx + 1..];
      idx := idx + 1;
    }
    if idx < |members| {
      r := if members[idx].status == MemberPending then members[idx := members[idx].(status := MemberJoined)] else members;
      assert members[idx..][1..] == members[idx + 1..];
      assert r == members[..idx] + ([Member(from, MemberJoined)] + members[idx + 1..]);
    } else {
      r := members + [Member(from, MemberJoined)];
    }
  }
}
