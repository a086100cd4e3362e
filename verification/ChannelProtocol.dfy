/**
 One channel across all nodes: runs of operations and deliveries, where a sent
 message may be lost, duplicated and reordered, and what holds in all of them.
 A handler is one atomic step and the sender of a message is authenticated.
 */
module ChannelProtocol {
  import opened Text
  import opened ChannelRules

  /** What the owner published under one version. */
  datatype Snapshot = Snapshot(name: string, members: seq<Member>)

  /**
   `history[v - 1]` is what the owner assigned version `v`. It is bookkeeping:
   no handler reads it.
   */
  datatype System = System(
    rows: map<Id, Channel>,
    peers: map<Id, map<Id, PublicKey>>,
    sent: set<Envelope>,
    history: seq<Snapshot>)

  datatype Op =
    | DoRename(name: string)
    | DoDelete
    | DoLeave
    | DoAdd(peer: Id)
    | DoRemove(peer: Id)
    | DoAccept
    | DoDecline

  /** A local operation, the delivery of something sent, or a change of a peer table. */
  datatype Event =
    | Local(node: Id, op: Op)
    | Deliver(envelope: Envelope)
    | Peers(at: Id, table: map<Id, PublicKey>)

  function NodeOf(s: System, n: Id): Node
  {
    Node(if n in s.rows then Some(s.rows[n]) else None, if n in s.peers then s.peers[n] else map[])
  }

  function Perform(self: Id, node: Node, op: Op): Outcome
  {
    match op
    case DoRename(name) => Rename(self, node, name)
    case DoDelete => Delete(self, node)
    case DoLeave => LeaveChannel(self, node)
    case DoAdd(peer) => AddMember(self, node, peer)
    case DoRemove(peer) => RemoveMember(self, node, peer)
    case DoAccept => AcceptInvite(self, node)
    case DoDecline => DeclineInvite(self, node)
  }

  /** The history after node `n` ends up with `row`: a new version of the owner's row is recorded. */
  function Extended(history: seq<Snapshot>, owner: Id, n: Id, row: Option<Channel>): seq<Snapshot>
  {
    if n == owner && row.Some? && row.value.version == |history| + 1
    then history + [Snapshot(row.value.name, row.value.members)] else history
  }

  function Settle(s: System, owner: Id, n: Id, o: Outcome): System
  {
    System(
      if o.node.row.Some? then s.rows[n := o.node.row.value] else s.rows - {n},
      s.peers[n := o.node.peers],
      s.sent + o.sent,
      Extended(s.history, owner, n, o.node.row))
  }

  /** A node is never handed a message of its own. */
  function Step(s: System, owner: Id, e: Event): System
  {
    match e
    case Local(n, op) => Settle(s, owner, n, Perform(n, NodeOf(s, n), op))
    case Deliver(env) =>
      if env in s.sent && env.from != env.to
      then Settle(s, owner, env.to, OnMessage(env.to, NodeOf(s, env.to), env.from, env.message)) else s
    case Peers(n, table) => s.(peers := s.peers[n := table])
  }

  function Start(owner: Id, id: Id, name: string, key: string): System
  {
    var ch := Created(owner, id, name, key);
    System(map[owner := ch], map[], {}, [Snapshot(ch.name, ch.members)])
  }

  function Run(owner: Id, id: Id, name: string, key: string, events: seq<Event>): System
  {
    if events == [] then Start(owner, id, name, key)
    else Step(Run(owner, id, name, key, events[..|events| - 1]), owner, events[|events| - 1])
  }

  /** Only the owner renames. */
  predicate OwnerRenamesOnly(owner: Id, e: Event)
  {
    e.Local? && e.op.DoRename? ==> e.node == owner
  }

  // ---- Agreement --------------------------------------------------------------------------

  predicate Published(history: seq<Snapshot>, version: int, name: string, members: seq<Member>)
  {
    1 <= version <= |history| && history[version - 1] == Snapshot(name, members)
  }

  /** A member's row copies a published version; once out, it may have dropped itself. */
  ghost predicate MemberRowAgrees(owner: Id, history: seq<Snapshot>, n: Id, row: Channel)
  {
    && row.ownerId == owner
    && 1 <= row.version <= |history|
    && var h := history[row.version - 1];
       && row.name == h.name
       && (row.members == h.members || (row.status != Joined && row.members == Without(h.members, n)))
  }

  ghost predicate OwnerRowAgrees(owner: Id, history: seq<Snapshot>, row: Channel)
  {
    && row.ownerId == owner && row.status == Joined && row.version == |history|
    && Published(history, row.version, row.name, row.members)
  }

  ghost predicate MessageAgrees(owner: Id, history: seq<Snapshot>, env: Envelope)
  {
    match env.message
    case Invite(_, name, _, o, members, _, version, _) => env.from == owner == o && Published(history, version, name, members)
    case Update(_, name, members, _, version, _) => env.from == owner && Published(history, version, name, members)
    case Kick(_, version, _) => env.from == owner && 1 <= version <= |history|
    case _ => true
  }

  /**
   Every row names the creator as owner and copies a version the owner once
   assigned, no later than the owner's; no roster lists a peer twice.
   */
  ghost predicate Agreement(owner: Id, s: System)
  {
    && |s.history| > 0
    && (forall i :: 0 <= i < |s.history| ==> Distinct(s.history[i].members))
    && (owner in s.rows ==> OwnerRowAgrees(owner, s.history, s.rows[owner]))
    && (forall n :: n in s.rows && n != owner ==> MemberRowAgrees(owner, s.history, n, s.rows[n]))
    && (forall env :: env in s.sent ==> MessageAgrees(owner, s.history, env))
  }

  lemma {:induction false} WithoutDistinct(members: seq<Member>, id: Id)
    requires Distinct(members)
    ensures Distinct(Without(members, id)) && !HasMember(Without(members, id), id)
    ensures forall m :: m in Without(members, id) <==> m in members && m.peerId != id
    decreases |members|
  {
    if members != [] {
      var n := |members| - 1;
      WithoutDistinct(members[..n], id);
      var rest := Without(members[..n], id);
      assert forall m :: m in members <==> m in members[..n] || m == members[n];
      forall i | 0 <= i < |rest| ensures rest[i].peerId != members[n].peerId {
        assert rest[i] in members[..n];
      }
    }
  }

  lemma {:induction false} WithoutTwice(members: seq<Member>, id: Id)
    ensures Without(Without(members, id), id) == Without(members, id)
    decreases |members|
  {
    if members != [] {
      var n := |members| - 1;
      WithoutTwice(members[..n], id);
      var rest := Without(members[..n], id);
      if members[n].peerId != id {
        assert (rest + [members[n]])[..|rest|] == rest;
      }
    }
  }

  lemma {:induction false} AcceptedDistinct(members: seq<Member>, id: Id)
    requires Distinct(members)
    ensures Distinct(Accepted(members, id)) && HasMember(Accepted(members, id), id)
    ensures forall m :: m in Accepted(members, id) ==> m.peerId == id || m in members
    decreases |members|
  {
    if members != [] {
      var rest := Accepted(members[1..], id);
      if members[0].peerId != id {
        AcceptedDistinct(members[1..], id);
        forall i | 0 <= i < |rest| ensures rest[i].peerId != members[0].peerId {
          assert rest[i] in rest;
        }
        var j :| 0 <= j < |rest| && rest[j].peerId == id;
        assert Accepted(members, id)[j + 1] == rest[j];
      } else {
        assert Accepted(members, id)[0].peerId == id;
      }
    } else {
      assert Accepted(members, id)[0].peerId == id;
    }
  }

  // ---- One step keeps the agreement ---------------------------------------------------------

  ghost predicate NodeAgrees(owner: Id, history: seq<Snapshot>, n: Id, row: Option<Channel>)
  {
    row.Some? ==> if n == owner then OwnerRowAgrees(owner, history, row.value) else MemberRowAgrees(owner, history, n, row.value)
  }

  ghost predicate HistoryDistinct(history: seq<Snapshot>)
  {
    |history| > 0 && forall i :: 0 <= i < |history| ==> Distinct(history[i].members)
  }

  ghost predicate OutcomeAgrees(owner: Id, history: seq<Snapshot>, n: Id, o: Outcome)
  {
    var after := Extended(history, owner, n, o.node.row);
    HistoryDistinct(after) && NodeAgrees(owner, after, n, o.node.row) && forall env :: env in o.sent ==> MessageAgrees(owner, after, env)
  }

  lemma {:induction false} PrefixAgrees(owner: Id, h: seq<Snapshot>, more: seq<Snapshot>)
    ensures forall n, row :: MemberRowAgrees(owner, h, n, row) ==> MemberRowAgrees(owner, h + more, n, row)
    ensures forall env :: MessageAgrees(owner, h, env) ==> MessageAgrees(owner, h + more, env)
  {
  }

  lemma {:induction false} SettleAgrees(s: System, owner: Id, n: Id, o: Outcome)
    requires Agreement(owner, s) && OutcomeAgrees(owner, s.history, n, o)
    ensures Agreement(owner, Settle(s, owner, n, o))
  {
    hide MemberRowAgrees, MessageAgrees, OwnerRowAgrees, Distinct;
    var t := Settle(s, owner, n, o);
    if t.history != s.history {
      PrefixAgrees(owner, s.history, t.history[|s.history|..]);
      assert t.history == s.history + t.history[|s.history|..];
    }
  }

  /** The owner's next version: `ch` has one more version than the history and a clean roster. */
  lemma {:induction false} OwnerPublishes(owner: Id, history: seq<Snapshot>, ch: Channel, peers: map<Id, PublicKey>)
    requires HistoryDistinct(history) && ch.ownerId == owner && ch.status == Joined
    requires ch.version == |history| + 1 && Distinct(ch.members)
    ensures var after := Extended(history, owner, owner, Some(ch));
            && HistoryDistinct(after) && NodeAgrees(owner, after, owner, Some(ch))
            && (forall env :: env in Broadcast(owner, ch, peers, UpdateMessage(owner, ch, peers)) ==> MessageAgrees(owner, after, env))
            && (forall to :: MessageAgrees(owner, after, Envelope(owner, to, InviteMessage(owner, ch, to, peers))))
            && (forall to, target :: MessageAgrees(owner, after, Envelope(owner, to, KickMessage(owner, ch, target))))
  {
    hide Distinct, Recipients, MemberPeers;
  }

  lemma {:induction false} OwnerOpAgrees(owner: Id, history: seq<Snapshot>, node: Node, op: Op)
    requires HistoryDistinct(history) && NodeAgrees(owner, history, owner, node.row)
    ensures OutcomeAgrees(owner, history, owner, Perform(owner, node, op))
  {
    hide HasMember, Recipients, MemberPeers, MemberRowAgrees;
    if node.row.Some? {
      var ch := node.row.value;
      match op
      case DoRename(name) => OwnerPublishes(owner, history, ch.(name := name, version := ch.version + 1), node.peers);
      case DoAdd(peer) =>
        if !HasMember(ch.members, peer) {
          NewMemberDistinct(ch.members, peer);
          OwnerPublishes(owner, history, ch.(members := ch.members + [Member(peer, MemberPending)], version := ch.version + 1), node.peers);
        }
      case DoRemove(peer) =>
        WithoutDistinct(ch.members, peer);
        OwnerPublishes(owner, history, ch.(members := Without(ch.members, peer), version := ch.version + 1), node.peers);
      case DoDelete =>
      case DoLeave =>
      case DoAccept =>
      case DoDecline =>
    }
  }

  lemma {:induction false} NewMemberDistinct(members: seq<Member>, peer: Id)
    requires Distinct(members) && !HasMember(members, peer)
    ensures Distinct(members + [Member(peer, MemberPending)])
  {
  }

  lemma {:induction false} MemberOpAgrees(owner: Id, history: seq<Snapshot>, n: Id, node: Node, op: Op)
    requires n != owner && !op.DoRename?
    requires HistoryDistinct(history) && NodeAgrees(owner, history, n, node.row)
    ensures OutcomeAgrees(owner, history, n, Perform(n, node, op))
  {
    hide Without, HasMember, Recipients, MemberPeers, Distinct;
    if node.row.Some? {
      var h := history[node.row.value.version - 1];
      WithoutTwice(h.members, n);
    }
  }

  lemma {:induction false} OwnerReceives(owner: Id, history: seq<Snapshot>, node: Node, env: Envelope)
    requires HistoryDistinct(history) && NodeAgrees(owner, history, owner, node.row)
    requires env.from != owner && MessageAgrees(owner, history, env)
    ensures OutcomeAgrees(owner, history, owner, OnMessage(owner, node, env.from, env.message))
  {
    hide HasMember, Recipients, MemberPeers, MemberRowAgrees, LearnAccepter;
    if node.row.Some? {
      var ch := node.row.value;
      match env.message
      case InviteAccept(_, key) =>
        AcceptedDistinct(ch.members, env.from);
        OwnerPublishes(owner, history, ch.(members := Accepted(ch.members, env.from), version := ch.version + 1),
                       LearnAccepter(node.peers, env.from, key));
      case InviteDecline(_) =>
        WithoutDistinct(ch.members, env.from);
        OwnerPublishes(owner, history, ch.(members := Without(ch.members, env.from), version := ch.version + 1), node.peers);
      case Leave(_) =>
        WithoutDistinct(ch.members, env.from);
        OwnerPublishes(owner, history, ch.(members := Without(ch.members, env.from), version := ch.version + 1), node.peers);
      case _ =>
    }
  }

  lemma {:induction false} MemberReceives(owner: Id, history: seq<Snapshot>, n: Id, node: Node, env: Envelope)
    requires n != owner
    requires HistoryDistinct(history) && NodeAgrees(owner, history, n, node.row) && MessageAgrees(owner, history, env)
    ensures OutcomeAgrees(owner, history, n, OnMessage(n, node, env.from, env.message))
  {
    hide Without, HasMember, Recipients, MemberPeers, Distinct, LearnPeers, Accepted;
    if node.row.Some? {
      var h := history[node.row.value.version - 1];
      WithoutTwice(h.members, n);
    }
  }

  lemma {:induction false} StepAgrees(s: System, owner: Id, e: Event)
    requires Agreement(owner, s) && OwnerRenamesOnly(owner, e)
    ensures Agreement(owner, Step(s, owner, e))
  {
    hide MemberRowAgrees, MessageAgrees, OwnerRowAgrees, Distinct, OutcomeAgrees, OnMessage, Perform;
    match e
    case Peers(n, table) =>
    case Local(n, op) =>
      if n == owner {
        OwnerOpAgrees(owner, s.history, NodeOf(s, n), op);
      } else {
        MemberOpAgrees(owner, s.history, n, NodeOf(s, n), op);
      }
      SettleAgrees(s, owner, n, Perform(n, NodeOf(s, n), op));
    case Deliver(env) =>
      if env in s.sent && env.from != env.to {
        if env.to == owner {
          OwnerReceives(owner, s.history, NodeOf(s, env.to), env);
        } else {
          MemberReceives(owner, s.history, env.to, NodeOf(s, env.to), env);
        }
        SettleAgrees(s, owner, env.to, OnMessage(env.to, NodeOf(s, env.to), env.from, env.message));
      }
  }

  lemma {:induction false} StartAgrees(owner: Id, id: Id, name: string, key: string)
    ensures Agreement(owner, Start(owner, id, name, key))
  {
  }

  /** In every run with loss, duplication and reordering where only the owner renames, all rows agree. */
  lemma {:induction false} RunAgrees(owner: Id, id: Id, name: string, key: string, events: seq<Event>)
    requires forall i :: 0 <= i < |events| ==> OwnerRenamesOnly(owner, events[i])
    ensures Agreement(owner, Run(owner, id, name, key, events))
    decreases |events|
  {
    hide Agreement, OwnerRenamesOnly;
    if events == [] {
      StartAgrees(owner, id, name, key);
    } else {
      var n := |events| - 1;
      assert forall i :: 0 <= i < n ==> events[..n][i] == events[i];
      RunAgrees(owner, id, name, key, events[..n]);
      StepAgrees(Run(owner, id, name, key, events[..n]), owner, events[n]);
    }
  }

  // ---- Convergence ----------------------------------------------------------------------------

  function ApplyUpdates(node: Node, from: Id, updates: seq<Message>): Node
    requires forall i :: 0 <= i < |updates| ==> updates[i].Update?
  {
    if updates == [] then node
    else OnUpdate(ApplyUpdates(node, from, updates[..|updates| - 1]), from, updates[|updates| - 1]).node
  }

  /** An update the owner signed for a version it assigned. */
  predicate Genuine(owner: Id, history: seq<Snapshot>, m: Message)
  {
    && m.Update? && Published(history, m.version, m.channelName, m.members)
    && m.signature == Signed(owner, Payload(m.channelId, m.version, UpdateAction, ""))
  }

  /** The node follows `owner` and can check its signatures. */
  predicate Follows(node: Node, owner: Id)
  {
    && node.row.Some? && node.row.value.ownerId == owner
    && owner in node.peers && (node.peers[owner] == KeyOf(owner) || node.peers[owner].NoKey?)
  }

  function HighestVersion(start: int, updates: seq<Message>): int
    requires forall i :: 0 <= i < |updates| ==> updates[i].Update?
  {
    if updates == [] then start
    else
      var before, last := HighestVersion(start, updates[..|updates| - 1]), updates[|updates| - 1].version;
      if last > before then last else before
  }

  lemma {:induction false} LearnKeepsKnown(peers: map<Id, PublicKey>, infos: seq<PeerInfo>, from: Id, id: Id)
    requires id in peers
    ensures id in LearnPeers(peers, infos, from) && LearnPeers(peers, infos, from)[id] == peers[id]
    decreases |infos|
  {
    if infos != [] {
      LearnKeepsKnown(peers, infos[..|infos| - 1], from, id);
    }
  }

  /**
   After any sequence of the owner's updates, in any order and with repeats, the
   row is the one with the highest version among its start and the updates.
   */
  lemma {:induction false} UpdatesConverge(node: Node, owner: Id, history: seq<Snapshot>, updates: seq<Message>)
    requires Follows(node, owner)
    requires forall i :: 0 <= i < |updates| ==> updates[i].Update? && Genuine(owner, history, updates[i])
    ensures var after, v := ApplyUpdates(node, owner, updates), HighestVersion(node.row.value.version, updates);
            && Follows(after, owner) && v >= node.row.value.version
            && if v == node.row.value.version then after.row == node.row
               else 1 <= v <= |history| && after.row
                    == Some(node.row.value.(name := history[v - 1].name, members := history[v - 1].members, version := v))
    decreases |updates|
  {
    hide LearnPeers;
    if updates != [] {
      var n := |updates| - 1;
      UpdatesConverge(node, owner, history, updates[..n]);
      LearnKeepsKnown(ApplyUpdates(node, owner, updates[..n]).peers, updates[n].memberPeers, owner, owner);
    }
  }

  lemma {:induction false} HighestIsReached(start: int, updates: seq<Message>)
    requires forall i :: 0 <= i < |updates| ==> updates[i].Update?
    ensures var v := HighestVersion(start, updates);
            v >= start && (forall m :: m in updates ==> m.version <= v)
            && (v == start || exists m :: m in updates && m.version == v)
    decreases |updates|
  {
    if updates != [] {
      var n := |updates| - 1;
      HighestIsReached(start, updates[..n]);
      assert forall m :: m in updates <==> m in updates[..n] || m == updates[n];
    }
  }

  lemma {:induction false} SameHighest(start: int, a: seq<Message>, b: seq<Message>)
    requires forall i :: 0 <= i < |a| ==> a[i].Update?
    requires forall i :: 0 <= i < |b| ==> b[i].Update?
    requires forall m :: m in a <==> m in b
    ensures HighestVersion(start, a) == HighestVersion(start, b)
  {
    hide HighestVersion;
    HighestIsReached(start, a);
    HighestIsReached(start, b);
  }

  /** Two deliveries of the same set of updates, in different orders, end in the same row. */
  lemma {:induction false} OrderDoesNotMatter(node: Node, owner: Id, history: seq<Snapshot>, a: seq<Message>, b: seq<Message>)
    requires Follows(node, owner)
    requires forall i :: 0 <= i < |a| ==> a[i].Update? && Genuine(owner, history, a[i])
    requires forall i :: 0 <= i < |b| ==> b[i].Update? && Genuine(owner, history, b[i])
    requires forall m :: m in a <==> m in b
    ensures ApplyUpdates(node, owner, a).row == ApplyUpdates(node, owner, b).row
  {
    hide Genuine, HighestVersion, ApplyUpdates;
    UpdatesConverge(node, owner, history, a);
    UpdatesConverge(node, owner, history, b);
    SameHighest(node.row.value.version, a, b);
  }

  /** Between invites, a row's version never drops. */
  lemma {:induction false} VersionNeverDrops(self: Id, node: Node, from: Id, m: Message)
    requires node.row.Some? && !m.Invite?
    ensures OnMessage(self, node, from, m).node.row.Some?
    ensures OnMessage(self, node, from, m).node.row.value.version >= node.row.value.version
  {
  }

  /** In an agreeing system, delivering the owner's latest update makes a following member equal to the owner. */
  lemma {:induction false} LatestUpdateCatchesUp(s: System, owner: Id, env: Envelope)
    requires Agreement(owner, s) && owner in s.rows && env in s.sent && env.from != env.to && env.message.Update?
    requires env.message.version == |s.history| && env.to in s.rows && s.rows[env.to].status == Joined
    requires Follows(NodeOf(s, env.to), owner)
    requires env.message.signature == Signed(owner, Payload(env.message.channelId, env.message.version, UpdateAction, ""))
    ensures var t := Step(s, owner, Deliver(env));
            env.to in t.rows && owner in t.rows && t.rows[env.to].version == t.rows[owner].version
            && t.rows[env.to].name == t.rows[owner].name && t.rows[env.to].members == t.rows[owner].members
  {
    hide LearnPeers, Distinct, Without;
    assert MessageAgrees(owner, s.history, env);
    if env.to != owner {
      assert MemberRowAgrees(owner, s.history, env.to, s.rows[env.to]);
    }
  }

  // ---- Messages do what they are for ----------------------------------------------------------

  lemma {:induction false} OwnKeyIsFirst(self: Id, members: seq<Member>, peers: map<Id, PublicKey>)
    ensures var infos := MemberPeers(self, members, peers); |infos| > 0 && infos[0] == PeerInfo(self, KeyOf(self))
    decreases |members|
  {
    if members != [] {
      OwnKeyIsFirst(self, members[..|members| - 1], peers);
    }
  }

  /** An invite is accepted by every invitee that knows the owner and is not in already; the row is the owner's. */
  lemma {:induction false} InviteIsAccepted(owner: Id, ch: Channel, peers: map<Id, PublicKey>, peer: Id, node: Node)
    requires ch.id != "" && owner in node.peers && (node.row.Some? ==> node.row.value.status != Joined)
    ensures var o := OnInvite(peer, node, owner, InviteMessage(owner, ch, peer, peers));
            o.handled && o.node.row.Some?
            && var row := o.node.row.value;
               row.ownerId == owner && row.name == ch.name && row.members == ch.members && row.version == ch.version
               && row.status == Joined && (ch.key != "" ==> row.key == ch.key)
               && row.id == if node.row.Some? then node.row.value.id else ch.id
    ensures forall id :: id in node.peers ==>
              var o := OnInvite(peer, node, owner, InviteMessage(owner, ch, peer, peers));
              id in o.node.peers && o.node.peers[id] == node.peers[id]
  {
    hide MemberPeers, LearnPeers;
    OwnKeyIsFirst(owner, ch.members, peers);
    forall id | id in node.peers
      ensures id in LearnPeers(node.peers, MemberPeers(owner, ch.members, peers), owner)
              && LearnPeers(node.peers, MemberPeers(owner, ch.members, peers), owner)[id] == node.peers[id]
    {
      LearnKeepsKnown(node.peers, MemberPeers(owner, ch.members, peers), owner, id);
    }
  }

  /** Every other member the owner has a peer row for is sent the row the owner ended up with. */
  lemma {:induction false} OwnerChangeReachesMembers(owner: Id, ch: Channel, peers: map<Id, PublicKey>, m: Member)
    requires m in ch.members && m.peerId != owner && m.peerId in peers
    ensures Envelope(owner, m.peerId, UpdateMessage(owner, ch, peers)) in Broadcast(owner, ch, peers, UpdateMessage(owner, ch, peers))
  {
    hide MemberPeers;
    var i :| 0 <= i < |ch.members| && ch.members[i] == m;
    assert m.peerId in Recipients(owner, ch.members, peers);
  }

  /**
   The whole join: the owner adds a peer, the peer takes the invite and accepts
   it, the owner takes the acceptance and its broadcast reaches the peer. Both
   rows then agree, two versions later, with the peer joined.
   */
  lemma {:induction false} JoinHandshake(owner: Id, peer: Id, ownerNode: Node, peerNode: Node)
    requires owner != peer && ownerNode.row.Some? && ownerNode.row.value.ownerId == owner
    requires ownerNode.row.value.id != "" && ownerNode.row.value.key != "" && !HasMember(ownerNode.row.value.members, peer)
    requires peer in ownerNode.peers && owner in peerNode.peers
    requires peerNode.peers[owner] == KeyOf(owner) || peerNode.peers[owner].NoKey?
    requires peerNode.row.Some? ==> peerNode.row.value.status != Joined && peerNode.row.value.id == ownerNode.row.value.id
    ensures var added := AddMember(owner, ownerNode, peer);
            var invite := InviteMessage(owner, added.node.row.value, peer, added.node.peers);
            var invited := OnInvite(peer, peerNode, owner, invite);
            var accept := InviteAccept(ownerNode.row.value.id, KeyOf(peer));
            var done := OnInviteAccept(owner, added.node, peer, accept);
            var update := UpdateMessage(owner, done.node.row.value, done.node.peers);
            var updated := OnUpdate(invited.node, owner, update);
            && Envelope(owner, peer, invite) in added.sent
            && Envelope(peer, owner, accept) in AcceptInvite(peer, invited.node).sent
            && done.handled && Envelope(owner, peer, update) in done.sent
            && updated.handled && updated.node.row.Some? && done.node.row.Some?
            && updated.node.row.value == done.node.row.value.(status := Joined)
            && Member(peer, MemberJoined) in done.node.row.value.members
            && done.node.row.value.version == ownerNode.row.value.version + 2
  {
    hide MemberPeers, LearnPeers, Recipients, HasMember, Accepted;
    var ch := ownerNode.row.value;
    var added := AddMember(owner, ownerNode, peer);
    var ch1 := added.node.row.value;
    InviteIsAccepted(owner, ch1, added.node.peers, peer, peerNode);
    var done := OnInviteAccept(owner, added.node, peer, InviteAccept(ch.id, KeyOf(peer)));
    var ch2 := done.node.row.value;
    AcceptedIn(ch1.members, peer);
    OwnerChangeReachesMembers(owner, ch2, done.node.peers, Member(peer, MemberJoined));
  }

  lemma {:induction false} AcceptedIn(members: seq<Member>, id: Id)
    ensures Member(id, MemberJoined) in Accepted(members, id)
    decreases |members|
  {
    if members != [] && members[0].peerId != id {
      AcceptedIn(members[1..], id);
    } else {
      assert Accepted(members, id)[0] == Member(id, MemberJoined);
    }
  }

  // ---- When a rename keeps the agreement ------------------------------------------------------

  /**
   A rename by a node other than the owner repeats what the owner published as
   the version after the node's own: its name, and the roster the node has.
   `update_channel_name` has no owner check, so such renames happen.
   */
  predicate RenameRepeatsOwner(s: System, owner: Id, e: Event)
  {
    e.Local? && e.op.DoRename? && e.node != owner && e.node in s.rows ==>
      var row := s.rows[e.node];
      && 0 <= row.version < |s.history|
      && var next := s.history[row.version];
         && next.name == e.op.name
         && (row.members == next.members || (row.status != Joined && row.members == Without(next.members, e.node)))
  }

  /** Any event keeps the agreement, except exactly the renames by others that do not repeat the owner. */
  lemma {:induction false} StepAgreesIff(s: System, owner: Id, e: Event)
    requires Agreement(owner, s)
    ensures Agreement(owner, Step(s, owner, e)) <==> RenameRepeatsOwner(s, owner, e)
  {
    hide Agreement, Step;
    if e.Local? && e.op.DoRename? && e.node != owner {
      ForeignRenameIff(s, owner, e.node, e.op.name);
    } else {
      StepAgrees(s, owner, e);
    }
  }

  lemma {:induction false} ForeignRenameIff(s: System, owner: Id, n: Id, x: string)
    requires Agreement(owner, s) && n != owner
    ensures Agreement(owner, Step(s, owner, Local(n, DoRename(x)))) <==> RenameRepeatsOwner(s, owner, Local(n, DoRename(x)))
  {
    hide OwnerRowAgrees, MessageAgrees, Distinct, Without;
    var t := Step(s, owner, Local(n, DoRename(x)));
    assert t.history == s.history && t.sent == s.sent + {};
    if n in s.rows {
      var row := s.rows[n];
      assert MemberRowAgrees(owner, s.history, n, row);
      assert t.rows == s.rows[n := row.(name := x, version := row.version + 1)];
      assert MemberRowAgrees(owner, t.history, n, t.rows[n]) <==> RenameRepeatsOwner(s, owner, Local(n, DoRename(x)));
    } else {
      assert t.rows == s.rows;
    }
  }

  /** A run agrees throughout exactly when every rename in it by others repeats the owner. */
  lemma {:induction false} RunAgreesIff(owner: Id, id: Id, name: string, key: string, events: seq<Event>)
    ensures (forall k :: 0 <= k <= |events| ==> Agreement(owner, Run(owner, id, name, key, events[..k])))
       <==> (forall k :: 0 <= k < |events| ==> RenameRepeatsOwner(Run(owner, id, name, key, events[..k]), owner, events[k]))
  {
    hide Agreement, RenameRepeatsOwner, Step, Run;
    if forall k :: 0 <= k <= |events| ==> Agreement(owner, Run(owner, id, name, key, events[..k])) {
      forall k | 0 <= k < |events| ensures RenameRepeatsOwner(Run(owner, id, name, key, events[..k]), owner, events[k]) {
        RunStep(owner, id, name, key, events, k);
        assert Agreement(owner, Run(owner, id, name, key, events[..k + 1]));
        StepAgreesIff(Run(owner, id, name, key, events[..k]), owner, events[k]);
      }
    }
    if forall k :: 0 <= k < |events| ==> RenameRepeatsOwner(Run(owner, id, name, key, events[..k]), owner, events[k]) {
      forall k | 0 <= k <= |events| ensures Agreement(owner, Run(owner, id, name, key, events[..k])) {
        RunAgreesAt(owner, id, name, key, events, k);
      }
    }
  }

  lemma {:induction false} RunStep(owner: Id, id: Id, name: string, key: string, events: seq<Event>, k: nat)
    requires k < |events|
    ensures Run(owner, id, name, key, events[..k + 1]) == Step(Run(owner, id, name, key, events[..k]), owner, events[k])
  {
    hide Step;
    assert events[..k + 1][..k] == events[..k];
  }

  lemma {:induction false} RunAgreesAt(owner: Id, id: Id, name: string, key: string, events: seq<Event>, k: nat)
    requires k <= |events|
    requires forall j :: 0 <= j < k ==> RenameRepeatsOwner(Run(owner, id, name, key, events[..j]), owner, events[j])
    ensures Agreement(owner, Run(owner, id, name, key, events[..k]))
    decreases k
  {
    hide Agreement, RenameRepeatsOwner, Step;
    if k == 0 {
      StartAgrees(owner, id, name, key);
    } else {
      RunAgreesAt(owner, id, name, key, events, k - 1);
      RunStep(owner, id, name, key, events, k - 1);
      StepAgreesIff(Run(owner, id, name, key, events[..k - 1]), owner, events[k - 1]);
    }
  }

  // ---- Where the agreement does not hold -----------------------------------------------------

  /**
   The missing owner check in `update_channel_name`: when a member that is up to
   date renames the channel and the owner then renames it too, both rows have
   the same version and different names, and the owner's update is ignored as stale.
   */
  lemma {:induction false} ForeignRenameDiverges(s: System, owner: Id, n: Id, x: string, y: string, env: Envelope)
    requires Agreement(owner, s) && owner in s.rows && n in s.rows && n != owner
    requires s.rows[n].version == |s.history| && x != y
    requires env.to == n && env.from == owner && env.message.Update? && env.message.version <= |s.history| + 1
    ensures var t := Step(Step(s, owner, Local(n, DoRename(x))), owner, Local(owner, DoRename(y)));
            var u := Step(t, owner, Deliver(env));
            && n in u.rows && owner in u.rows && u.rows[n].version == u.rows[owner].version
            && u.rows[n].name == x && u.rows[owner].name == y && !Agreement(owner, u)
  {
    hide Recipients, MemberPeers, Distinct, Without, MessageAgrees;
    var t := Step(Step(s, owner, Local(n, DoRename(x))), owner, Local(owner, DoRename(y)));
    assert t.rows[n].version == |s.history| + 1 && t.rows[n].name == x;
    assert t.history == s.history + [Snapshot(y, s.rows[owner].members)];
    var u := Step(t, owner, Deliver(env));
    assert u.rows[n] == t.rows[n] && u.rows[owner] == t.rows[owner] && u.history == t.history;
    assert !MemberRowAgrees(owner, u.history, n, u.rows[n]);
  }

  /**
   A kick by the owner takes effect exactly when the receiver holds no key of
   the owner, or holds it and the kick was signed for this receiver.
   */
  lemma {:induction false} KickTakesEffectIff(self: Id, node: Node, owner: Id, ch: Channel, target: Id)
    ensures var o := OnKick(self, node, owner, KickMessage(owner, ch, target));
            && (o.handled <==> && node.row.Some? && node.row.value.ownerId == owner && owner in node.peers
                               && (node.peers[owner].NoKey? || (node.peers[owner] == KeyOf(owner) && target == self)))
            && (o.handled ==> o.node == node.(row := Some(node.row.value.(status := Kicked, members := Without(node.row.value.members, self)))))
            && (!o.handled ==> o == Ignored(node))
  {
    hide Without;
  }

  /**
   The kick that a deletion broadcasts is signed for the empty id: a member of
   the channel takes it exactly when it has the owner's peer row without a key,
   or is the node with the empty id; every other node that can check it ignores it.
   */
  lemma {:induction false} DeletionKickTakesEffectIff(owner: Id, node: Node, env: Envelope, receiver: Node)
    requires env in Delete(owner, node).sent
    ensures var o := OnMessage(env.to, receiver, env.from, env.message);
            && (o.handled <==> && receiver.row.Some? && receiver.row.value.ownerId == owner
                               && owner in receiver.peers
                               && (receiver.peers[owner].NoKey? || (receiver.peers[owner] == KeyOf(owner) && env.to == "")))
            && (o.handled ==> o.node == receiver.(row := Some(receiver.row.value.(
                                  status := Kicked, members := Without(receiver.row.value.members, env.to)))))
            && (!o.handled ==> o == Ignored(receiver))
  {
    hide Recipients, Without;
    assert env.message == KickMessage(owner, node.row.value, "");
    KickTakesEffectIff(env.to, receiver, owner, node.row.value, "");
  }

  /**
   A kick carries no freshness: delivered once more after a re-invite, it puts
   the member out again while the owner still lists it.
   */
  lemma {:induction false} KickReplayUndoesReinvite(s: System, owner: Id, env: Envelope, version: int)
    requires Agreement(owner, s) && owner in s.rows && env in s.sent && env.from == owner != env.to
    requires env.message == Kick(s.rows[owner].id, version, Signed(owner, Payload(s.rows[owner].id, version, KickAction, env.to)))
    requires Follows(NodeOf(s, env.to), owner) && s.rows[env.to].status == Joined
    requires s.rows[env.to].version == |s.history| && HasMember(s.rows[owner].members, env.to)
    ensures var t := Step(s, owner, Deliver(env));
            && env.to in t.rows && t.rows[env.to].status == Kicked && !HasMember(t.rows[env.to].members, env.to)
            && owner in t.rows && HasMember(t.rows[owner].members, env.to) && Agreement(owner, t)
  {
    hide MessageAgrees, Published;
    StepAgrees(s, owner, Deliver(env));
    assert MemberRowAgrees(owner, s.history, env.to, s.rows[env.to]);
    WithoutDistinct(s.rows[env.to].members, env.to);
  }

  // ---- Runs that get there ----------------------------------------------------------------------

  lemma {:induction false} RunSnoc(owner: Id, id: Id, name: string, key: string, events: seq<Event>, e: Event)
    ensures Run(owner, id, name, key, events + [e]) == Step(Run(owner, id, name, key, events), owner, e)
  {
    hide Step;
    assert (events + [e])[..|events|] == events;
  }

  /** The owner's row once it has added `n` to a roster of its own, as version `version`. */
  function WithPending(owner: Id, n: Id, id: Id, name: string, key: string, version: int): Channel
  {
    Channel(id, name, owner, [Member(owner, MemberJoined), Member(n, MemberPending)], key, version, Joined)
  }

  function InviteTo(owner: Id, n: Id, id: Id, name: string, key: string, version: int): Envelope
  {
    Envelope(owner, n, InviteMessage(owner, WithPending(owner, n, id, name, key, version), n, map[n := KeyOf(n)]))
  }

  /** Owner and `n` get to know each other, the owner adds `n`, and `n` takes the invite. */
  function JoinEvents(owner: Id, n: Id, id: Id, name: string, key: string): seq<Event>
  {
    [Peers(owner, map[n := KeyOf(n)]), Peers(n, map[owner := KeyOf(owner)])]
    + [Local(owner, DoAdd(n))] + [Deliver(InviteTo(owner, n, id, name, key, 2))]
  }

  /** `n` is in with version `version`, knows the owner, and the owner has published that much. */
  ghost predicate InWith(s: System, owner: Id, n: Id, id: Id, name: string, key: string, version: int)
  {
    && Agreement(owner, s) && |s.history| == version
    && owner in s.rows && s.rows[owner] == WithPending(owner, n, id, name, key, version)
    && n in s.rows && s.rows[n] == WithPending(owner, n, id, name, key, version)
    && owner in s.peers && s.peers[owner] == map[n := KeyOf(n)]
    && n in s.peers && owner in s.peers[n] && s.peers[n][owner] == KeyOf(owner)
  }

  lemma {:induction false} JoinRun(owner: Id, n: Id, id: Id, name: string, key: string)
    requires owner != n && id != ""
    ensures InWith(Run(owner, id, name, key, JoinEvents(owner, n, id, name, key)), owner, n, id, name, key, 2)
  {
    hide Agreement, Step, Run;
    var known := [Peers(owner, map[n := KeyOf(n)]), Peers(n, map[owner := KeyOf(owner)])];
    var s := Run(owner, id, name, key, known);
    TwoPeers(owner, n, id, name, key);
    RunSnoc(owner, id, name, key, known, Local(owner, DoAdd(n)));
    RunSnoc(owner, id, name, key, known + [Local(owner, DoAdd(n))], Deliver(InviteTo(owner, n, id, name, key, 2)));
    AddAndInvite(s, owner, n, id, name, key, 1);
  }

  lemma {:induction false} TwoPeers(owner: Id, n: Id, id: Id, name: string, key: string)
    requires owner != n
    ensures var s := Run(owner, id, name, key, [Peers(owner, map[n := KeyOf(n)]), Peers(n, map[owner := KeyOf(owner)])]);
            OutWith(s, owner, n, id, name, key, 1)
  {
    hide Agreement;
    var a, b := Peers(owner, map[n := KeyOf(n)]), Peers(n, map[owner := KeyOf(owner)]);
    RunSnoc(owner, id, name, key, [], a);
    RunSnoc(owner, id, name, key, [a], b);
    assert [] + [a] == [a] && [a] + [b] == [a, b];
    StartAgrees(owner, id, name, key);
    StepAgrees(Start(owner, id, name, key), owner, a);
    StepAgrees(Step(Start(owner, id, name, key), owner, a), owner, b);
  }

  /** The owner is alone in the roster; `n` is not in, but knows the owner. */
  ghost predicate OutWith(s: System, owner: Id, n: Id, id: Id, name: string, key: string, version: int)
  {
    && Agreement(owner, s) && |s.history| == version
    && owner in s.rows && s.rows[owner] == Channel(id, name, owner, [Member(owner, MemberJoined)], key, version, Joined)
    && (n in s.rows ==> s.rows[n].status != Joined && s.rows[n].id == id && s.rows[n].key == key)
    && owner in s.peers && s.peers[owner] == map[n := KeyOf(n)]
    && n in s.peers && owner in s.peers[n] && s.peers[n][owner] == KeyOf(owner)
  }

  lemma {:induction false} AddAndInvite(s: System, owner: Id, n: Id, id: Id, name: string, key: string, version: int)
    requires owner != n && id != "" && OutWith(s, owner, n, id, name, key, version)
    ensures var added := Step(s, owner, Local(owner, DoAdd(n)));
            var invited := Step(added, owner, Deliver(InviteTo(owner, n, id, name, key, version + 1)));
            InWith(invited, owner, n, id, name, key, version + 1) && s.sent <= added.sent <= invited.sent
  {
    hide Agreement, MemberPeers, LearnPeers, Recipients;
    var add, deliver := Local(owner, DoAdd(n)), Deliver(InviteTo(owner, n, id, name, key, version + 1));
    var ch := WithPending(owner, n, id, name, key, version + 1);
    var added := Step(s, owner, add);
    StepAgrees(s, owner, add);
    assert s.rows[owner].members + [Member(n, MemberPending)] == ch.members;
    assert !HasMember(s.rows[owner].members, n);
    assert added.rows == s.rows[owner := ch] && InviteTo(owner, n, id, name, key, version + 1) in added.sent;
    assert NodeOf(added, n).peers[owner] == KeyOf(owner);
    InviteIsAccepted(owner, ch, s.peers[owner], n, NodeOf(added, n));
    StepAgrees(added, owner, deliver);
  }

  function RenameUpdate(owner: Id, n: Id, id: Id, key: string, y: string): Envelope
  {
    Envelope(owner, n, UpdateMessage(owner, WithPending(owner, n, id, y, key, 3), map[n := KeyOf(n)]))
  }

  /** The member renames, the owner renames, and the owner's update reaches the member. */
  function RenameEvents(owner: Id, n: Id, id: Id, name: string, key: string, x: string, y: string): seq<Event>
  {
    JoinEvents(owner, n, id, name, key) + [Local(n, DoRename(x))] + [Local(owner, DoRename(y))]
    + [Deliver(RenameUpdate(owner, n, id, key, y))]
  }

  /** From the start, a member's rename and the owner's lead to one version with two names. */
  lemma {:induction false} RenameRunDiverges(owner: Id, n: Id, id: Id, name: string, key: string, x: string, y: string)
    requires owner != n && id != "" && x != y
    ensures var s := Run(owner, id, name, key, RenameEvents(owner, n, id, name, key, x, y));
            && RenameUpdate(owner, n, id, key, y) in s.sent && !Agreement(owner, s)
            && n in s.rows && owner in s.rows && s.rows[n].version == s.rows[owner].version == 3
            && s.rows[n].name == x && s.rows[owner].name == y
  {
    hide Agreement, Step, Run, JoinEvents;
    var update, joined := RenameUpdate(owner, n, id, key, y), JoinEvents(owner, n, id, name, key);
    var s := Run(owner, id, name, key, joined);
    JoinRun(owner, n, id, name, key);
    RunSnoc(owner, id, name, key, joined, Local(n, DoRename(x)));
    RunSnoc(owner, id, name, key, joined + [Local(n, DoRename(x))], Local(owner, DoRename(y)));
    RunSnoc(owner, id, name, key, joined + [Local(n, DoRename(x))] + [Local(owner, DoRename(y))], Deliver(update));
    ForeignRenameDiverges(s, owner, n, x, y, update);
    RenameIsSent(s, owner, n, id, name, key, x, y);
  }

  lemma {:induction false} RenameIsSent(s: System, owner: Id, n: Id, id: Id, name: string, key: string, x: string, y: string)
    requires owner != n && InWith(s, owner, n, id, name, key, 2)
    ensures var t := Step(Step(s, owner, Local(n, DoRename(x))), owner, Local(owner, DoRename(y)));
            var update := RenameUpdate(owner, n, id, key, y);
            var u := Step(t, owner, Deliver(update));
            update in t.sent && update in u.sent && owner in u.rows && u.rows[owner].version == 3
  {
    hide Agreement, MemberPeers, Recipients, OnMessage;
    var ch := WithPending(owner, n, id, y, key, 3);
    assert ch.members[1] == Member(n, MemberPending);
    OwnerChangeReachesMembers(owner, ch, s.peers[owner], Member(n, MemberPending));
    var t := Step(s, owner, Local(n, DoRename(x)));
    assert t.rows[owner] == s.rows[owner] && NodeOf(t, owner).peers == s.peers[owner];
  }

  function KickOf(owner: Id, n: Id, id: Id, name: string, key: string): Envelope
  {
    Envelope(owner, n, KickMessage(owner, Channel(id, name, owner, [Member(owner, MemberJoined)], key, 3, Joined), n))
  }

  /** The owner removes the member, adds it again, and the kick of the removal reaches it a second time. */
  function KickReplayEvents(owner: Id, n: Id, id: Id, name: string, key: string): seq<Event>
  {
    JoinEvents(owner, n, id, name, key) + [Local(owner, DoRemove(n))] + [Deliver(KickOf(owner, n, id, name, key))]
    + [Local(owner, DoAdd(n))] + [Deliver(InviteTo(owner, n, id, name, key, 4))] + [Deliver(KickOf(owner, n, id, name, key))]
  }

  /** From the start, a replayed kick puts a member out that took a new invite and that the owner lists. */
  lemma {:induction false} KickReplayRun(owner: Id, n: Id, id: Id, name: string, key: string)
    requires owner != n && id != ""
    ensures var s := Run(owner, id, name, key, KickReplayEvents(owner, n, id, name, key));
            && owner in s.rows && HasMember(s.rows[owner].members, n) && Agreement(owner, s)
            && n in s.rows && s.rows[n].status == Kicked && !HasMember(s.rows[n].members, n)
  {
    hide Agreement, Step, Run, JoinEvents, OutWith, InWith;
    var kick, joined := KickOf(owner, n, id, name, key), JoinEvents(owner, n, id, name, key);
    var out := joined + [Local(owner, DoRemove(n))] + [Deliver(kick)];
    var again := out + [Local(owner, DoAdd(n))] + [Deliver(InviteTo(owner, n, id, name, key, 4))];
    JoinRun(owner, n, id, name, key);
    RunSnoc(owner, id, name, key, joined, Local(owner, DoRemove(n)));
    RunSnoc(owner, id, name, key, joined + [Local(owner, DoRemove(n))], Deliver(kick));
    RemoveAndKick(Run(owner, id, name, key, joined), owner, n, id, name, key);
    RunSnoc(owner, id, name, key, out, Local(owner, DoAdd(n)));
    RunSnoc(owner, id, name, key, out + [Local(owner, DoAdd(n))], Deliver(InviteTo(owner, n, id, name, key, 4)));
    AddAndInvite(Run(owner, id, name, key, out), owner, n, id, name, key, 3);
    RunSnoc(owner, id, name, key, again, Deliver(kick));
    KickedAgain(Run(owner, id, name, key, again), owner, n, id, name, key);
  }

  lemma {:induction false} RemoveAndKick(s: System, owner: Id, n: Id, id: Id, name: string, key: string)
    requires owner != n && InWith(s, owner, n, id, name, key, 2)
    ensures var kick := KickOf(owner, n, id, name, key);
            var out := Step(Step(s, owner, Local(owner, DoRemove(n))), owner, Deliver(kick));
            OutWith(out, owner, n, id, name, key, 3) && kick in out.sent
  {
    hide Agreement, Recipients, MemberPeers;
    var kick, remove := KickOf(owner, n, id, name, key), Local(owner, DoRemove(n));
    var members := s.rows[owner].members;
    assert members[1].peerId == n;
    assert Without(members, n) == [Member(owner, MemberJoined)] by {
      assert members[..1] == [Member(owner, MemberJoined)] && members[..1][..0] == [];
    }
    StepAgrees(s, owner, remove);
    var removed := Step(s, owner, remove);
    assert removed.rows[owner] == Channel(id, name, owner, [Member(owner, MemberJoined)], key, 3, Joined) && kick in removed.sent;
    assert removed.rows[n] == s.rows[n] && NodeOf(removed, n).peers == s.peers[n];
    KickTakesEffectIff(n, NodeOf(removed, n), owner, removed.rows[owner], n);
    StepAgrees(removed, owner, Deliver(kick));
  }

  lemma {:induction false} KickedAgain(s: System, owner: Id, n: Id, id: Id, name: string, key: string)
    requires owner != n && InWith(s, owner, n, id, name, key, 4) && KickOf(owner, n, id, name, key) in s.sent
    ensures var t := Step(s, owner, Deliver(KickOf(owner, n, id, name, key)));
            && owner in t.rows && HasMember(t.rows[owner].members, n) && Agreement(owner, t)
            && n in t.rows && t.rows[n].status == Kicked && !HasMember(t.rows[n].members, n)
  {
    hide Agreement, Step;
    assert s.rows[owner].members[1].peerId == n;
    KickReplayUndoesReinvite(s, owner, KickOf(owner, n, id, name, key), 3);
  }
}
