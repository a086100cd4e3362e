/**
 Group channels (src/chat/channel, src/chat/db/channel.rs): the rows, the
 messages, and what each handler and each operation does to one node's row and
 peer table. Rosters are sequences, peer keys name their owner, and a signature
 is the signed payload with its signer.
 */
module ChannelRules {
  import opened Text

  type Id = string

  datatype MemberStatus = MemberJoined | MemberPending

  datatype Member = Member(peerId: Id, status: MemberStatus)

  datatype ChannelStatus = Joined | Left | Kicked

  /** `DChannel` without its timestamps. */
  datatype Channel = Channel(
    id: Id,
    name: string,
    ownerId: Id,
    members: seq<Member>,
    key: string,
    version: int,
    status: ChannelStatus)

  datatype PublicKey = NoKey | KeyOf(owner: Id)

  datatype Action = InviteAction | UpdateAction | KickAction

  /** `channelId|version|action|target` */
  datatype Payload = Payload(channelId: Id, version: int, action: Action, target: Id)

  datatype Signature = Unsigned | Signed(signer: Id, payload: Payload)

  datatype PeerInfo = PeerInfo(id: Id, publicKey: PublicKey)

  datatype Message =
    | Invite(channelId: Id, channelName: string, key: string, owner: Id, members: seq<Member>,
             memberPeers: seq<PeerInfo>, version: int, signature: Signature)
    | InviteAccept(channelId: Id, publicKey: PublicKey)
    | InviteDecline(channelId: Id)
    | Update(channelId: Id, channelName: string, members: seq<Member>, memberPeers: seq<PeerInfo>,
             version: int, signature: Signature)
    | Kick(channelId: Id, version: int, signature: Signature)
    | Leave(channelId: Id)

  datatype Envelope = Envelope(from: Id, to: Id, message: Message)

  /** One node's row for a channel and its peer table. */
  datatype Node = Node(row: Option<Channel>, peers: map<Id, PublicKey>)

  /** What a handler leaves behind: the node, whether it took effect, what it sends. */
  datatype Outcome = Outcome(node: Node, handled: bool, sent: set<Envelope>)

  // ---- Rosters ---------------------------------------------------------------------------

  predicate HasMember(members: seq<Member>, id: Id)
  {
    exists i :: 0 <= i < |members| && members[i].peerId == id
  }

  function Without(members: seq<Member>, id: Id): (r: seq<Member>)
    ensures |r| <= |members|
  {
    if members == [] then []
    else if members[|members| - 1].peerId == id then Without(members[..|members| - 1], id)
    else Without(members[..|members| - 1], id) + [members[|members| - 1]]
  }

  /** Pending becomes joined; an unknown accepter is appended as joined. */
  function Accepted(members: seq<Member>, id: Id): seq<Member>
  {
    if members == [] then [Member(id, MemberJoined)]
    else if members[0].peerId == id then [Member(id, MemberJoined)] + members[1..]
    else [members[0]] + Accepted(members[1..], id)
  }

  /** No peer is listed twice. */
  ghost predicate Distinct(members: seq<Member>)
  {
    forall i, j :: 0 <= i < j < |members| ==> members[i].peerId != members[j].peerId
  }

  // ---- Signatures and peers ----------------------------------------------------------------

  /** `verify_channel_signature`: permissive when the key or the signature is missing. */
  predicate Verifies(key: PublicKey, payload: Payload, signature: Signature)
  {
    key.NoKey? || signature.Unsigned? || signature == Signed(key.owner, payload)
  }

  function FindKey(infos: seq<PeerInfo>, id: Id): PublicKey
  {
    if infos == [] then NoKey else if infos[0].id == id then infos[0].publicKey else FindKey(infos[1..], id)
  }

  /** Peer rows are created for the members that are not known yet. */
  function LearnPeers(peers: map<Id, PublicKey>, infos: seq<PeerInfo>, from: Id): map<Id, PublicKey>
  {
    if infos == [] then peers
    else
      var known, info := LearnPeers(peers, infos[..|infos| - 1], from), infos[|infos| - 1];
      if info.id == "" || info.id == from || info.id in known then known else known[info.id := info.publicKey]
  }

  function LearnAccepter(peers: map<Id, PublicKey>, from: Id, key: PublicKey): map<Id, PublicKey>
  {
    if from !in peers || (peers[from].NoKey? && key.KeyOf?) then peers[from := key] else peers
  }

  // ---- What messages carry --------------------------------------------------------------------

  /** `build_member_peers`: the sender first, then the known members. */
  function MemberPeers(self: Id, members: seq<Member>, peers: map<Id, PublicKey>): seq<PeerInfo>
  {
    if members == [] then [PeerInfo(self, KeyOf(self))]
    else
      var before, m := MemberPeers(self, members[..|members| - 1], peers), members[|members| - 1];
      if m.peerId != self && m.peerId in peers then before + [PeerInfo(m.peerId, peers[m.peerId])] else before
  }

  function InviteMessage(self: Id, ch: Channel, peer: Id, peers: map<Id, PublicKey>): Message
  {
    Invite(ch.id, ch.name, ch.key, self, ch.members, MemberPeers(self, ch.members, peers), ch.version,
           Signed(self, Payload(ch.id, ch.version, InviteAction, peer)))
  }

  function UpdateMessage(self: Id, ch: Channel, peers: map<Id, PublicKey>): Message
  {
    Update(ch.id, ch.name, ch.members, MemberPeers(self, ch.members, peers), ch.version,
           Signed(self, Payload(ch.id, ch.version, UpdateAction, "")))
  }

  function KickMessage(self: Id, ch: Channel, target: Id): Message
  {
    Kick(ch.id, ch.version, Signed(self, Payload(ch.id, ch.version, KickAction, target)))
  }

  /** The members a broadcast reaches: everyone but the sender whose peer row exists. */
  function Recipients(self: Id, members: seq<Member>, peers: map<Id, PublicKey>): set<Id>
  {
    set i | 0 <= i < |members| && members[i].peerId != self && members[i].peerId in peers :: members[i].peerId
  }

  function Broadcast(self: Id, ch: Channel, peers: map<Id, PublicKey>, message: Message): set<Envelope>
  {
    set to | to in Recipients(self, ch.members, peers) :: Envelope(self, to, message)
  }

  // ---- Handlers (src/chat/channel/handler.rs) -------------------------------------------------

  function Ignored(node: Node): Outcome
  {
    Outcome(node, false, {})
  }

  function OnInvite(self: Id, node: Node, from: Id, m: Message): Outcome
    requires m.Invite?
  {
    var ownerKey := FindKey(m.memberPeers, m.owner);
    if m.channelId == "" || m.owner != from || ownerKey.NoKey? then Ignored(node)
    else if !Verifies(ownerKey, Payload(m.channelId, m.version, InviteAction, self), m.signature) then Ignored(node)
    else if from !in node.peers then Ignored(node)
    else if node.row.Some? && node.row.value.status == Joined then Outcome(node, true, {})
    else
      var row :=
        if node.row.Some? then
          node.row.value.(name := m.channelName, ownerId := from, members := m.members,
                          key := if m.key != "" then m.key else node.row.value.key, version := m.version, status := Joined)
        else Channel(m.channelId, m.channelName, from, m.members, m.key, m.version, Joined);
      Outcome(Node(Some(row), LearnPeers(node.peers, m.memberPeers, from)), true, {})
  }

  function OnInviteAccept(self: Id, node: Node, from: Id, m: Message): Outcome
    requires m.InviteAccept?
  {
    if m.channelId == "" || node.row.None? || node.row.value.ownerId != self then Ignored(node)
    else
      var ch := node.row.value.(members := Accepted(node.row.value.members, from), version := node.row.value.version + 1);
      var peers := LearnAccepter(node.peers, from, m.publicKey);
      Outcome(Node(Some(ch), peers), true, if ch.key == "" then {} else Broadcast(self, ch, peers, UpdateMessage(self, ch, peers)))
  }

  function OnInviteDecline(self: Id, node: Node, from: Id): Outcome
  {
    if node.row.None? || node.row.value.ownerId != self || !HasMember(node.row.value.members, from) then Ignored(node)
    else
      var ch := node.row.value;
      Outcome(node.(row := Some(ch.(members := Without(ch.members, from), version := ch.version + 1))), true, {})
  }

  function OnUpdate(node: Node, from: Id, m: Message): Outcome
    requires m.Update?
  {
    if node.row.None? || node.row.value.ownerId != from || from !in node.peers then Ignored(node)
    else if !Verifies(node.peers[from], Payload(m.channelId, m.version, UpdateAction, ""), m.signature) then Ignored(node)
    else if m.version <= node.row.value.version then Ignored(node)
    else
      var ch := node.row.value.(name := m.channelName, members := m.members, version := m.version);
      Outcome(Node(Some(ch), LearnPeers(node.peers, m.memberPeers, from)), true, {})
  }

  function OnKick(self: Id, node: Node, from: Id, m: Message): Outcome
    requires m.Kick?
  {
    if node.row.None? || node.row.value.ownerId != from || from !in node.peers then Ignored(node)
    else if !Verifies(node.peers[from], Payload(m.channelId, m.version, KickAction, self), m.signature) then Ignored(node)
    else
      var ch := node.row.value;
      Outcome(node.(row := Some(ch.(status := Kicked, members := Without(ch.members, self)))), true, {})
  }

  function OnLeave(self: Id, node: Node, from: Id): Outcome
  {
    if node.row.None? || node.row.value.ownerId != self then Ignored(node)
    else
      var ch := node.row.value.(members := Without(node.row.value.members, from), version := node.row.value.version + 1);
      Outcome(node.(row := Some(ch)), true,
              if ch.key == "" then {} else Broadcast(self, ch, node.peers, UpdateMessage(self, ch, node.peers)))
  }

  function OnMessage(self: Id, node: Node, from: Id, m: Message): Outcome
  {
    match m
    case Invite(_, _, _, _, _, _, _, _) => OnInvite(self, node, from, m)
    case InviteAccept(_, _) => OnInviteAccept(self, node, from, m)
    case InviteDecline(_) => OnInviteDecline(self, node, from)
    case Update(_, _, _, _, _, _) => OnUpdate(node, from, m)
    case Kick(_, _, _) => OnKick(self, node, from, m)
    case Leave(_) => OnLeave(self, node, from)
  }

  // ---- Operations (src/chat/channel/ops.rs) -----------------------------------------------------

  function Created(self: Id, id: Id, name: string, key: string): Channel
  {
    Channel(id, name, self, [Member(self, MemberJoined)], key, 1, Joined)
  }

  /** `update_channel_name`: no owner check before the version is bumped. */
  function Rename(self: Id, node: Node, name: string): Outcome
  {
    if node.row.None? then Ignored(node)
    else
      var ch := node.row.value.(name := name, version := node.row.value.version + 1);
      Outcome(node.(row := Some(ch)), true,
              if ch.ownerId == self then Broadcast(self, ch, node.peers, UpdateMessage(self, ch, node.peers)) else {})
  }

  /** `delete_channel`: the kick is signed for the empty target and broadcast, then the row goes. */
  function Delete(self: Id, node: Node): Outcome
  {
    Outcome(node.(row := None), true,
            if node.row.Some? && node.row.value.ownerId == self
            then Broadcast(self, node.row.value, node.peers, KickMessage(self, node.row.value, "")) else {})
  }

  function LeaveChannel(self: Id, node: Node): Outcome
  {
    if node.row.None? || node.row.value.ownerId == self then Outcome(node, true, {})
    else
      var ch := node.row.value;
      Outcome(node.(row := Some(ch.(members := Without(ch.members, self), status := Left))), true,
              if ch.ownerId in node.peers then {Envelope(self, ch.ownerId, Leave(ch.id))} else {})
  }

  function AddMember(self: Id, node: Node, peer: Id): Outcome
  {
    if node.row.None? || node.row.value.ownerId != self || HasMember(node.row.value.members, peer) then Ignored(node)
    else
      var ch := node.row.value.(members := node.row.value.members + [Member(peer, MemberPending)],
                                version := node.row.value.version + 1);
      Outcome(node.(row := Some(ch)), true,
              if peer in node.peers then {Envelope(self, peer, InviteMessage(self, ch, peer, node.peers))} else {})
  }

  function RemoveMember(self: Id, node: Node, peer: Id): Outcome
  {
    if node.row.None? || node.row.value.ownerId != self || !HasMember(node.row.value.members, peer) then Ignored(node)
    else
      var ch := node.row.value.(members := Without(node.row.value.members, peer), version := node.row.value.version + 1);
      Outcome(node.(row := Some(ch)), true,
              (if peer in node.peers then {Envelope(self, peer, KickMessage(self, ch, peer))} else {})
              + Broadcast(self, ch, node.peers, UpdateMessage(self, ch, node.peers)))
  }

  function AcceptInvite(self: Id, node: Node): Outcome
  {
    if node.row.None? || node.row.value.ownerId !in node.peers then Ignored(node)
    else Outcome(node, true, {Envelope(self, node.row.value.ownerId, InviteAccept(node.row.value.id, KeyOf(self)))})
  }

  function DeclineInvite(self: Id, node: Node): Outcome
  {
    Outcome(node.(row := None), true,
            if node.row.Some? && node.row.value.ownerId in node.peers
            then {Envelope(self, node.row.value.ownerId, InviteDecline(node.row.value.id))} else {})
  }
}
