/**
 What the responder and the browser guarantee together: a PTR answer resolves
 the service from any state, a goodbye removes exactly one instance, and the
 browser state stays consistent over every run.
 */
module Discovery {
  import opened Text
  import opened DnsNames
  import opened DnsMessages
  import opened AddressText
  import opened ServiceInfo
  import opened Responder
  import opened BrowserState

  // ---- Lowercased names ------------------------------------------------------------------

  lemma {:induction false} LowerIdempotent(s: Name)
    ensures Lower(Lower(s)) == Lower(s)
  {
  }

  lemma {:induction false} LowerConcat(a: Name, b: Name)
    ensures Lower(a + b) == Lower(a) + Lower(b)
  {
  }

  lemma {:induction false} KeyIsItsOwnKey(name: Name)
    requires InstanceKeyOf(name).Some?
    ensures InstanceKeyOf(InstanceKeyOf(name).value) == InstanceKeyOf(name)
  {
    LowerIdempotent(name);
  }

  lemma {:induction false} FqdnKey(s: Service)
    requires s.serviceType == SERVICE_TYPE && s.instanceName != []
    ensures InstanceKeyOf(s.Fqdn()) == Some(Lower(s.Fqdn()))
  {
    hide Lower, SERVICE_TYPE;
    LowerConcat(s.instanceName + [DOT], SERVICE_TYPE);
  }

  /** A name is an instance of ours exactly when it ends in our service type, in any casing, with room for a label and a dot. */
  lemma {:induction false} InstanceKeyIff(name: Name)
    ensures InstanceKeyOf(name).Some?
       <==> |name| > |SERVICE_TYPE| + 1 && EqIgnoreCase(name[|name| - |SERVICE_TYPE|..], SERVICE_TYPE)
    ensures InstanceKeyOf(name).Some? ==> EqIgnoreCase(InstanceKeyOf(name).value, name)
  {
    LowerIdempotent(name);
    if |SERVICE_TYPE| <= |name| {
      assert Lower(name)[|name| - |SERVICE_TYPE|..] == Lower(name[|name| - |SERVICE_TYPE|..]);
    }
  }

  /** Addresses belong to hosts: withdrawing them withdraws no instance. */
  lemma {:induction false} AddressesWithdrawNothing(recs: seq<Record>)
    requires forall i :: 0 <= i < |recs| ==> recs[i].ttl != 0 || recs[i].rtype == TYPE_A || recs[i].rtype == TYPE_AAAA
    ensures GoodbyeKeys(recs) == {} && LiveRecords(recs) == recs
    decreases |recs|
  {
    if recs != [] {
      AddressesWithdrawNothing(recs[..|recs| - 1]);
    }
  }

  // ---- The state invariant ----------------------------------------------------------------

  /** The instance label of a service name. */
  function LabelOf(name: Name): Name
  {
    if |name| > |SERVICE_TYPE| then name[..|name| - |SERVICE_TYPE| - 1] else []
  }

  /** The instance belongs under the key `k`: its service name is `k`, and its own name is the label of `k` up to case. */
  predicate BelongsUnder(inst: Instance, k: Name)
  {
    inst.fqdn == k && InstanceKeyOf(k) == Some(k) && Lower(inst.name) == LabelOf(k)
  }

  /** Hostnames map to live instances; every instance is stored under its own lowercased service name. */
  ghost predicate Consistent(instances: map<Name, Instance>, hostnames: map<Name, Name>)
  {
    && (forall h :: h in hostnames ==> hostnames[h] in instances)
    && (forall k :: k in instances ==> BelongsUnder(instances[k], k))
  }

  ghost predicate Invariant(st: State)
  {
    Consistent(st.instances, st.hostnames)
  }

  ghost predicate Sound(p: Progress)
  {
    Consistent(p.instances, p.hostnames) && p.touched <= p.instances.Keys
  }

  lemma {:induction false} FoundInstance(current: map<Name, Instance>, hostnames: map<Name, Name>, name: Name)
    requires Consistent(current, hostnames) && FindInstance(current, name).Some?
    ensures var (key, inst) := FindInstance(current, name).value; BelongsUnder(inst, key)
  {
    KeyIsItsOwnKey(name);
    assert Lower(LabelOf(name)) == LabelOf(Lower(name));
  }

  /** A service that is known is known by its own name, up to case. */
  lemma {:induction false} KnownByName(st: State, s: Service)
    requires Invariant(st) && s.serviceType == SERVICE_TYPE
    ensures Lower(Known(st.instances, s).name) == Lower(s.instanceName)
  {
    var key := Lower(s.Fqdn());
    if key in st.instances {
      assert BelongsUnder(st.instances[key], key);
      assert LabelOf(s.Fqdn()) == s.instanceName;
      assert LabelOf(key) == Lower(LabelOf(s.Fqdn()));
    }
  }

  lemma {:induction false} MergeRecordSound(p: Progress, rec: Record)
    requires rec.InPacket() && Sound(p)
    ensures Sound(MergeRecord(p, rec))
  {
    hide InstanceKeyOf, NameAt, TxtFrom;
    if rec.rtype == TYPE_PTR {
      if PtrTarget(rec).Some? && FindInstance(p.instances, PtrTarget(rec).value).Some? {
        FoundInstance(p.instances, p.hostnames, PtrTarget(rec).value);
      }
    } else if FindInstance(p.instances, rec.name).Some? {
      FoundInstance(p.instances, p.hostnames, rec.name);
      if rec.rtype == TYPE_TXT && TxtStrings(rec).Some? {
        var (_, inst) := FindInstance(p.instances, rec.name).value;
        var strings := TxtStrings(rec).value;
        EntriesSetAttributes(inst.(txt := strings), strings);
      }
    }
  }

  lemma {:induction false} MergeRecordsSound(p: Progress, recs: seq<Record>)
    requires AllInPacket(recs) && Sound(p)
    ensures Sound(MergeRecords(p, recs))
    decreases |recs|
  {
    hide MergeRecord, Sound;
    if recs != [] {
      MergeRecordsSound(p, recs[..|recs| - 1]);
      MergeRecordSound(MergeRecords(p, recs[..|recs| - 1]), recs[|recs| - 1]);
    }
  }

  lemma {:induction false} ApplyGroupSound(p: Progress, hostname: Name, ips: set<Ascii>, v6: bool)
    requires Sound(p)
    ensures Sound(ApplyGroup(p, hostname, ips, v6))
  {
    hide InstanceKeyOf;
  }

  lemma {:induction false} ApplyGroupsSound(p: Progress, groups: Groups, order: seq<Name>, v6: bool)
    requires Sound(p)
    ensures Sound(ApplyGroups(p, groups, order, v6))
    decreases |order|
  {
    hide ApplyGroup, Sound;
    if order != [] {
      ApplyGroupsSound(p, groups, order[..|order| - 1], v6);
      var h := order[|order| - 1];
      if h in groups {
        ApplyGroupSound(ApplyGroups(p, groups, order[..|order| - 1], v6), h, groups[h], v6);
      }
    }
  }

  /** Whatever a packet carries, the merged state is consistent and only live instances are touched. */
  lemma {:induction false} MergePacketSound(st: State, recs: seq<Record>, aOrder: seq<Name>, v6Order: seq<Name>)
    requires AllInPacket(recs) && Invariant(st)
    ensures Sound(MergePacket(st, recs, aOrder, v6Order))
  {
    hide InstanceKeyOf, GoodbyeKeys, LiveRecords, MergeRecords, ApplyGroups, AddressGroups;
    var live := LiveRecords(recs);
    LiveInPacket(recs);
    var start := DropInstances(st, GoodbyeKeys(recs));
    MergeRecordsSound(start, live);
    var merged := MergeRecords(start, live);
    ApplyGroupsSound(merged, AddressGroups(live, false), aOrder, false);
    ApplyGroupsSound(ApplyGroups(merged, AddressGroups(live, false), aOrder, false), AddressGroups(live, true), v6Order, true);
  }

  // ---- Runs --------------------------------------------------------------------------------

  /** Any packet at any time, a periodic browse, or `clear_instances`. */
  datatype Event =
    | Packet(data: Bytes, fromSelf: bool, now: nat, aOrder: seq<Name>, v6Order: seq<Name>)
    | Browse(at: nat)
    | Clear

  function Step(st: State, e: Event): State
  {
    match e
    case Clear => EMPTY_STATE
    case Browse(now) => AfterBrowse(st, now)
    case Packet(data, fromSelf, now, aOrder, v6Order) =>
      var parsed := Parse(data);
      if fromSelf || parsed.None? || !parsed.value.IsResponse() then st
      else
        ParsedInPacket(data);
        StateAfter(st, parsed.value.AllRecords(), now, aOrder, v6Order)
  }

  lemma {:induction false} ParsedInPacket(data: Bytes)
    requires Parse(data).Some?
    ensures AllInPacket(Parse(data).value.AllRecords())
  {
    hide Parse;
    var recs := Parse(data).value.AllRecords();
    forall i | 0 <= i < |recs| ensures recs[i].InPacket() {
      assert recs[i] in recs;
    }
  }

  function Run(events: seq<Event>): State
  {
    if events == [] then EMPTY_STATE else Step(Run(events[..|events| - 1]), events[|events| - 1])
  }

  lemma {:induction false} StepKeepsInvariant(st: State, e: Event)
    requires Invariant(st)
    ensures Invariant(Step(st, e))
  {
    hide InstanceKeyOf, Parse, MergePacket;
    match e
    case Clear =>
    case Browse(now) =>
    case Packet(data, fromSelf, now, aOrder, v6Order) =>
      var parsed := Parse(data);
      if !fromSelf && parsed.Some? && parsed.value.IsResponse() {
        ParsedInPacket(data);
        MergePacketSound(st, parsed.value.AllRecords(), aOrder, v6Order);
      }
  }

  /** In every run, over arbitrary packets, the state is consistent. */
  lemma {:induction false} RunKeepsInvariant(events: seq<Event>)
    ensures Invariant(Run(events))
    decreases |events|
  {
    if events != [] {
      RunKeepsInvariant(events[..|events| - 1]);
      StepKeepsInvariant(Run(events[..|events| - 1]), events[|events| - 1]);
    }
  }

  // ---- A PTR answer resolves the service ---------------------------------------------------

  /** A well-formed service of our type with something to reach it by. */
  ghost predicate Announceable(s: Service)
  {
    && Publishable(s) && s.serviceType == SERVICE_TYPE && s.instanceName != [] && s.targetHostname != []
    && s.port > 0 && s.ips != [] && LastOf(s.txtRecords, KEY_ID).Some? && LastOf(s.txtRecords, KEY_ID).value != []
  }

  predicate IsPtrOf(rec: Record, s: Service)
  {
    rec.rtype == TYPE_PTR && PtrTarget(rec) == Some(s.Fqdn())
  }

  predicate IsSrvOf(rec: Record, s: Service)
  {
    rec.InPacket() && rec.rtype == TYPE_SRV && rec.name == s.Fqdn() && SrvOf(rec) == Some(Srv(s.port, s.targetHostname))
  }

  predicate IsTxtOf(rec: Record, s: Service)
  {
    rec.InPacket() && rec.rtype == TYPE_TXT && rec.name == s.Fqdn() && TxtStrings(rec) == Some(s.txtRecords)
  }

  predicate IsAOf(rec: Record, s: Service, ip: Ascii)
  {
    rec.InPacket() && rec.rtype == TYPE_A && rec.name == s.targetHostname && IpOf(rec) == Some(ip)
  }

  /** One of the service's own records. */
  predicate IsRecordOf(rec: Record, s: Service)
  {
    IsPtrOf(rec, s) || IsSrvOf(rec, s) || IsTxtOf(rec, s) || (exists ip :: ip in s.ips && IsAOf(rec, s, ip))
  }

  lemma {:induction false} PtrCarried(rec: Record, s: Service, ttl: nat)
    requires Publishable(s) && Carries(rec, PtrRR(s, ttl))
    ensures IsPtrOf(rec, s) && rec.ttl == ttl
  {
    hide NameAt, NameBytes, ReadableName, NoEmptyLabel, Canonical, CanonicalIp, TxtRdata;
    NameReadBack(rec.packet, rec.rdataStart, 0, s.Fqdn());
    CanonicalId(s.Fqdn());
  }

  lemma {:induction false} SrvCarried(rec: Record, s: Service, ttl: nat)
    requires Publishable(s) && rec.InPacket() && Carries(rec, SrvRR(s, ttl))
    ensures IsSrvOf(rec, s) && rec.ttl == ttl
  {
    hide NameAt, NameBytes, ReadableName, NoEmptyLabel, Canonical, CanonicalIp, TxtRdata, SrvOf, SrvRdata;
    SrvReadBack(rec, s.port, s.targetHostname);
    CanonicalId(s.Fqdn());
    CanonicalId(s.targetHostname);
  }

  lemma {:induction false} TxtCarried(rec: Record, s: Service, ttl: nat)
    requires Publishable(s) && rec.InPacket() && Carries(rec, TxtRR(s, ttl))
    ensures IsTxtOf(rec, s) && rec.ttl == ttl
  {
    hide NameAt, NameBytes, ReadableName, NoEmptyLabel, Canonical, CanonicalIp, TxtRdata, TxtFrom;
    TxtReadBack(rec.packet, rec.rdataStart, s.txtRecords);
    CanonicalId(s.Fqdn());
  }

  lemma {:induction false} ACarried(rec: Record, s: Service, ip: Ascii)
    requires Publishable(s) && ip in s.ips && rec.InPacket() && Carries(rec, ARR(s, ip))
    ensures IsAOf(rec, s, ip) && rec.ttl == TTL_SECONDS
  {
    hide NameAt, NameBytes, ReadableName, NoEmptyLabel, Canonical, TxtRdata, IpText, IpToBytes;
    CanonicalId(s.targetHostname);
    var bytes := CanonicalIpBytes(ip);
    IpReadBackAt(rec, bytes);
  }

  /** What is known under the key of `s`: an empty instance with the published name if there is none. */
  function Known(instances: map<Name, Instance>, s: Service): Instance
  {
    var key := Lower(s.Fqdn());
    if key in instances then instances[key] else NewInstance(key, s.instanceName)
  }

  /** `inst` once the SRV record of `s` has been merged, or the TXT record, or both. */
  function Learned(inst: Instance, s: Service, srv: bool, txt: bool): Instance
  {
    var located := if srv then inst.(port := s.port, target := s.targetHostname) else inst;
    if txt then WithAttributes(located.(txt := s.txtRecords), s.txtRecords) else located
  }

  lemma {:induction false} LearnedTwice(inst: Instance, s: Service, srv: bool, txt: bool, srvAgain: bool, txtAgain: bool)
    ensures Learned(Learned(inst, s, srv, txt), s, srvAgain, txtAgain) == Learned(inst, s, srv || srvAgain, txt || txtAgain)
  {
    hide LastOf;
  }

  /** The hostname of `s` leads to its instance. */
  predicate HostKnown(p: Progress, s: Service)
  {
    Lower(s.Fqdn()) in p.instances && Lower(s.targetHostname) in p.hostnames
    && p.hostnames[Lower(s.targetHostname)] == Lower(s.Fqdn())
  }

  lemma {:induction false} MergeOwnRecord(p: Progress, rec: Record, s: Service)
    requires Announceable(s) && rec.InPacket() && IsRecordOf(rec, s)
    ensures var q := MergeRecord(p, rec);
            && Known(q.instances, s) == Learned(Known(p.instances, s), s, IsSrvOf(rec, s), IsTxtOf(rec, s))
            && (Lower(s.Fqdn()) in p.instances ==> Lower(s.Fqdn()) in q.instances)
            && (HostKnown(p, s) || IsSrvOf(rec, s) ==> HostKnown(q, s))
            && (Lower(s.Fqdn()) in p.touched || IsPtrOf(rec, s) ==> Lower(s.Fqdn()) in q.touched)
  {
    hide InstanceKeyOf, NameAt, TxtFrom, Lower, IpOf, Publishable, LastOf, ApplyEntries;
    FqdnKey(s);
    assert s.Fqdn()[..|s.Fqdn()| - |SERVICE_TYPE| - 1] == s.instanceName;
    if IsTxtOf(rec, s) {
      EntriesSetAttributes(Known(p.instances, s).(txt := s.txtRecords), s.txtRecords);
    }
  }

  predicate OwnRecords(recs: seq<Record>, s: Service)
  {
    AllInPacket(recs) && forall i :: 0 <= i < |recs| ==> IsRecordOf(recs[i], s)
  }

  ghost predicate HasSrv(recs: seq<Record>, s: Service)
  {
    exists i :: 0 <= i < |recs| && IsSrvOf(recs[i], s)
  }

  ghost predicate HasTxt(recs: seq<Record>, s: Service)
  {
    exists i :: 0 <= i < |recs| && IsTxtOf(recs[i], s)
  }

  ghost predicate HasPtr(recs: seq<Record>, s: Service)
  {
    exists i :: 0 <= i < |recs| && IsPtrOf(recs[i], s)
  }

  lemma {:induction false} HasStep(recs: seq<Record>, s: Service)
    requires recs != []
    ensures var n := |recs| - 1;
            && (HasSrv(recs, s) <==> HasSrv(recs[..n], s) || IsSrvOf(recs[n], s))
            && (HasTxt(recs, s) <==> HasTxt(recs[..n], s) || IsTxtOf(recs[n], s))
            && (HasPtr(recs, s) <==> HasPtr(recs[..n], s) || IsPtrOf(recs[n], s))
  {
    hide IsSrvOf, IsTxtOf, IsPtrOf;
    assert forall i :: 0 <= i < |recs| - 1 ==> recs[..|recs| - 1][i] == recs[i];
  }

  /** Records of one service, in any order: exactly what they say has been merged at the end. */
  lemma {:induction false} MergeOwnRecords(p: Progress, recs: seq<Record>, s: Service)
    requires Announceable(s) && OwnRecords(recs, s)
    ensures var q := MergeRecords(p, recs);
            && Known(q.instances, s) == Learned(Known(p.instances, s), s, HasSrv(recs, s), HasTxt(recs, s))
            && (HasSrv(recs, s) ==> HostKnown(q, s))
            && (HasPtr(recs, s) ==> Lower(s.Fqdn()) in q.touched)
    decreases |recs|
  {
    hide MergeRecord, Known, Learned, HostKnown, IsPtrOf, IsSrvOf, IsTxtOf, IsRecordOf, Announceable, Lower, HasSrv, HasTxt, HasPtr;
    if recs == [] {
      NothingLearned(Known(p.instances, s), s);
    } else {
      var n := |recs| - 1;
      MergeOwnRecords(p, recs[..n], s);
      MergeOwnRecord(MergeRecords(p, recs[..n]), recs[n], s);
      HasStep(recs, s);
      LearnedTwice(Known(p.instances, s), s, HasSrv(recs[..n], s), HasTxt(recs[..n], s), IsSrvOf(recs[n], s), IsTxtOf(recs[n], s));
    }
  }

  lemma {:induction false} NothingLearned(inst: Instance, s: Service)
    ensures Learned(inst, s, false, false) == inst
    ensures !HasSrv([], s) && !HasTxt([], s) && !HasPtr([], s)
  {
  }

  /** The addresses announced by `recs`. */
  function Addresses(recs: seq<Record>): set<Ascii>
    requires AllInPacket(recs)
  {
    if recs == [] then {}
    else
      Addresses(recs[..|recs| - 1])
      + match IpOf(recs[|recs| - 1])
        case None => {}
        case Some(ip) => {ip}
  }

  lemma {:induction false} AddressesMembers(recs: seq<Record>, ip: Ascii)
    requires AllInPacket(recs)
    ensures ip in Addresses(recs) <==> exists i :: 0 <= i < |recs| && IpOf(recs[i]) == Some(ip)
    decreases |recs|
  {
    hide IpOf;
    if recs != [] {
      var n := |recs| - 1;
      AddressesMembers(recs[..n], ip);
      assert forall i :: 0 <= i < n ==> recs[..n][i] == recs[i];
    }
  }

  /** The A records of one service form one group; there is no AAAA group. */
  lemma {:induction false} OwnAddressGroup(recs: seq<Record>, s: Service)
    requires OwnRecords(recs, s)
    ensures AddressGroups(recs, false)
         == if Addresses(recs) == {} then map[] else map[Lower(s.targetHostname) := Addresses(recs)]
    ensures AddressGroups(recs, true) == map[]
    decreases |recs|
  {
    hide IsRecordOf, Lower, IpOf, Ipv6Of;
    if recs != [] {
      var n := |recs| - 1;
      OwnAddressGroup(recs[..n], s);
      NotSixRecord(recs[n], s);
      OwnAddress(recs[n], s);
      AddOwnAddress(AddressGroups(recs[..n], false), Lower(s.targetHostname), Addresses(recs[..n]), IpOf(recs[n]));
    }
  }

  lemma {:induction false} AddOwnAddress(groups: Groups, host: Name, ips: set<Ascii>, ip: Option<Ascii>)
    requires groups == if ips == {} then map[] else map[host := ips]
    ensures ip.Some? ==> ips + {ip.value} != {} && AddToGroup(groups, host, ip.value) == map[host := ips + {ip.value}]
    ensures ips + {} == ips
  {
    if ip.Some? {
      assert ip.value in ips + {ip.value};
      assert AddToGroup(groups, host, ip.value).Keys == {host};
    }
  }

  lemma {:induction false} NotSixRecord(rec: Record, s: Service)
    requires rec.InPacket() && IsRecordOf(rec, s)
    ensures Ipv6Of(rec) == None
  {
  }

  lemma {:induction false} OwnAddress(rec: Record, s: Service)
    requires rec.InPacket() && IsRecordOf(rec, s)
    ensures IpOf(rec).Some? ==> rec.name == s.targetHostname && rec.rtype == TYPE_A
    ensures forall ip :: IsAOf(rec, s, ip) <==> IpOf(rec) == Some(ip)
  {
  }

  lemma {:induction false} OrderAt(order: seq<Name>, groups: Groups, host: Name, i: nat)
    requires IsOrderOf(order, groups) && (forall h :: h in groups <==> h == host) && i < |order|
    ensures order[i] == host && i == 0
  {
    assert order[i] in order;
    assert order[0] in order;
  }

  lemma {:induction false} OnlyOneOrder(order: seq<Name>, groups: Groups, host: Name)
    requires IsOrderOf(order, groups) && forall h :: h in groups <==> h == host
    ensures order == [host]
  {
    assert host in order;
    OrderAt(order, groups, host, |order| - 1);
  }

  lemma {:induction false} FirstHasGroup(order: seq<Name>, groups: Groups)
    requires IsOrderOf(order, groups)
    ensures order == [] || order[0] in groups
  {
    if order != [] {
      assert order[0] in order;
    }
  }

  lemma {:induction false} NoOrder(order: seq<Name>, groups: Groups)
    requires IsOrderOf(order, groups) && groups == map[]
    ensures order == []
  {
    FirstHasGroup(order, groups);
  }

  function IpSet(s: Service): set<Ascii>
  {
    set ip | ip in s.ips
  }

  /** What resolving means: of what was known, exactly what `s` publishes has been replaced. */
  ghost predicate Resolves(was: Instance, p: Progress, s: Service)
  {
    var key := Lower(s.Fqdn());
    && key in p.instances && key in p.touched && p.instances[key].Complete()
    && p.instances[key] == Resolved(was, s)
  }

  function Resolved(was: Instance, s: Service): Instance
  {
    Learned(was, s, true, true).(ips := IpSet(s))
  }

  lemma {:induction false} ApplyOwnGroup(was: Instance, merged: Progress, s: Service, order: seq<Name>, groups: Groups)
    requires Announceable(s) && HostKnown(merged, s) && Known(merged.instances, s) == Learned(was, s, true, true)
    requires groups == map[Lower(s.targetHostname) := IpSet(s)] && IsOrderOf(order, groups)
    ensures Resolves(was, ApplyGroups(merged, groups, order, false), s)
  {
    hide Lower, Publishable, LastOf;
    var host := Lower(s.targetHostname);
    OnlyOneOrder(order, groups, host);
    assert ApplyGroups(merged, groups, [host][..0], false) == merged;
    assert ApplyGroups(merged, groups, [host], false) == ApplyGroup(merged, host, groups[host], false);
    assert s.ips[0] in groups[host];
  }

  /**
   All the live records of one service, whichever section each is in and
   whatever the packet withdraws, resolve it from what is left of any state.
   */
  lemma {:induction false} OwnRecordsResolve(st: State, recs: seq<Record>, s: Service, aOrder: seq<Name>, v6Order: seq<Name>)
    requires Announceable(s) && AllInPacket(recs) && OwnRecords(LiveRecords(recs), s)
    requires HasSrv(LiveRecords(recs), s) && HasTxt(LiveRecords(recs), s) && HasAddresses(LiveRecords(recs), s)
    requires Walks(recs, aOrder, v6Order)
    ensures Resolves(Known(st.instances - GoodbyeKeys(recs), s), MergePacket(st, recs, aOrder, v6Order), s)
  {
    hide IsSrvOf, IsTxtOf, Lower, HostKnown, Resolves, AddressGroups, MergeRecords, IsRecordOf, InstanceKeyOf, LiveRecords,
         GoodbyeKeys, Learned, Known, HasSrv, HasTxt, HasAddresses, Announceable;
    var live := LiveRecords(recs);
    var start := DropInstances(st, GoodbyeKeys(recs));
    var was := Known(st.instances - GoodbyeKeys(recs), s);
    MergeOwnRecords(start, live, s);
    OwnAddressGroup(live, s);
    OwnGroupIs(live, s);
    ApplyOwnGroup(was, MergeRecords(start, live), s, aOrder, AddressGroups(live, false));
    NoOrder(v6Order, AddressGroups(live, true));
  }

  ghost predicate HasAddresses(recs: seq<Record>, s: Service)
  {
    forall ip :: ip in s.ips ==> exists i :: 0 <= i < |recs| && IsAOf(recs[i], s, ip)
  }

  lemma {:induction false} OwnGroupIs(recs: seq<Record>, s: Service)
    requires Announceable(s) && OwnRecords(recs, s) && HasAddresses(recs, s)
    ensures AddressGroups(recs, false) == map[Lower(s.targetHostname) := IpSet(s)]
  {
    hide IsRecordOf, Lower, AddressGroups, Publishable, IpOf;
    OwnAddressGroup(recs, s);
    forall ip ensures ip in Addresses(recs) <==> ip in s.ips {
      AddressesMembers(recs, ip);
      if ip in Addresses(recs) {
        var i :| 0 <= i < |recs| && IpOf(recs[i]) == Some(ip);
        OwnAddress(recs[i], s);
        OwnIp(recs[i], s, ip);
      }
    }
    assert s.ips[0] in Addresses(recs);
    assert Addresses(recs) == IpSet(s);
  }

  lemma {:induction false} OwnIp(rec: Record, s: Service, ip: Ascii)
    requires rec.InPacket() && IsRecordOf(rec, s) && IsAOf(rec, s, ip)
    ensures ip in s.ips
  {
  }

  // ---- From the answer's bytes to the resolved instance ----------------------------------------

  function ResponseRRs(s: Service, w: Wants): seq<RR>
  {
    AnswerRRs(s, w) + AdditionalRRs(s, w)
  }

  lemma {:induction false} OwnRR(rec: Record, rr: RR, s: Service)
    requires Publishable(s) && rec.InPacket() && Carries(rec, rr)
    requires rr == PtrRR(s, TTL_SECONDS) || rr == SrvRR(s, TTL_SECONDS) || rr == TxtRR(s, TTL_SECONDS)
             || exists ip :: ip in s.ips && rr == ARR(s, ip)
    ensures IsRecordOf(rec, s) && rec.ttl == TTL_SECONDS
  {
    hide Publishable, Carries, IsPtrOf, IsSrvOf, IsTxtOf, IsAOf, PtrRR, SrvRR, TxtRR, ARR;
    if rr == PtrRR(s, TTL_SECONDS) {
      PtrCarried(rec, s, TTL_SECONDS);
    } else if rr == SrvRR(s, TTL_SECONDS) {
      SrvCarried(rec, s, TTL_SECONDS);
    } else if rr == TxtRR(s, TTL_SECONDS) {
      TxtCarried(rec, s, TTL_SECONDS);
    } else {
      var ip :| ip in s.ips && rr == ARR(s, ip);
      ACarried(rec, s, ip);
    }
  }

  /** With PTR wanted, every record of the service is in the message, in one section or the other. */
  lemma {:induction false} AllRecordsSent(s: Service, w: Wants)
    requires w.ptr
    ensures var rrs := ResponseRRs(s, w);
            && PtrRR(s, TTL_SECONDS) in rrs && SrvRR(s, TTL_SECONDS) in rrs && TxtRR(s, TTL_SECONDS) in rrs
            && (forall ip :: ip in s.ips ==> ARR(s, ip) in rrs)
            && forall rr :: rr in rrs ==> rr == PtrRR(s, TTL_SECONDS) || rr == SrvRR(s, TTL_SECONDS)
                                          || rr == TxtRR(s, TTL_SECONDS) || exists ip :: ip in s.ips && rr == ARR(s, ip)
  {
    hide PtrRR, SrvRR, TxtRR, ARR;
    var addresses := ARRs(s, s.ips);
    forall ip | ip in s.ips ensures ARR(s, ip) in addresses {
      var i :| 0 <= i < |s.ips| && s.ips[i] == ip;
      assert addresses[i] == ARR(s, ip);
    }
    forall rr | rr in addresses ensures exists ip :: ip in s.ips && rr == ARR(s, ip) {
      var i :| 0 <= i < |s.ips| && addresses[i] == rr;
      assert s.ips[i] in s.ips;
    }
  }

  lemma {:induction false} CarriedRecords(s: Service, w: Wants, recs: seq<Record>)
    requires Publishable(s) && w.ptr && AllInPacket(recs) && AllCarry(recs, ResponseRRs(s, w))
    ensures OwnRecords(recs, s) && forall i :: 0 <= i < |recs| ==> recs[i].ttl == TTL_SECONDS
    ensures HasSrv(recs, s) && HasTxt(recs, s) && HasPtr(recs, s) && HasAddresses(recs, s)
  {
    hide Publishable, Carries, IsPtrOf, IsSrvOf, IsTxtOf, IsAOf, PtrRR, SrvRR, TxtRR, ARR, ResponseRRs, IsRecordOf;
    var rrs := ResponseRRs(s, w);
    AllRecordsSent(s, w);
    forall i | 0 <= i < |recs| ensures IsRecordOf(recs[i], s) && recs[i].ttl == TTL_SECONDS {
      assert rrs[i] in rrs;
      OwnRR(recs[i], rrs[i], s);
    }
    var p :| 0 <= p < |rrs| && rrs[p] == PtrRR(s, TTL_SECONDS);
    PtrCarried(recs[p], s, TTL_SECONDS);
    var v :| 0 <= v < |rrs| && rrs[v] == SrvRR(s, TTL_SECONDS);
    SrvCarried(recs[v], s, TTL_SECONDS);
    var t :| 0 <= t < |rrs| && rrs[t] == TxtRR(s, TTL_SECONDS);
    TxtCarried(recs[t], s, TTL_SECONDS);
    forall ip | ip in s.ips ensures exists i :: 0 <= i < |recs| && IsAOf(recs[i], s, ip) {
      assert ARR(s, ip) in rrs;
      var i :| 0 <= i < |rrs| && rrs[i] == ARR(s, ip);
      ACarried(recs[i], s, ip);
    }
  }

  lemma {:induction false} NoGoodbye(recs: seq<Record>)
    requires forall i :: 0 <= i < |recs| ==> recs[i].ttl != 0
    ensures GoodbyeKeys(recs) == {}
    decreases |recs|
  {
    if recs != [] {
      NoGoodbye(recs[..|recs| - 1]);
    }
  }

  /** The orders in which the two address maps of a packet can be walked. */
  ghost predicate Walks(recs: seq<Record>, aOrder: seq<Name>, v6Order: seq<Name>)
    requires AllInPacket(recs)
  {
    LiveInPacket(recs);
    IsOrderOf(aOrder, AddressGroups(LiveRecords(recs), false)) && IsOrderOf(v6Order, AddressGroups(LiveRecords(recs), true))
  }

  /** `data` parses as a response, with every RDATA inside it. */
  predicate ParsesAsResponse(data: Bytes)
  {
    var p := Parse(data);
    p.Some? && p.value.IsResponse() && AllInPacket(p.value.AllRecords())
  }

  /** Merging the response `data` into `st` resolves `s`, whatever the walking orders. */
  ghost predicate Delivers(st: State, data: Bytes, s: Service)
  {
    ParsesAsResponse(data)
    && forall aOrder: seq<Name>, v6Order: seq<Name> :: Walks(Parse(data).value.AllRecords(), aOrder, v6Order)
         ==> Resolves(Known(st.instances, s), MergePacket(st, Parse(data).value.AllRecords(), aOrder, v6Order), s)
  }

  /** Merging the response `data` into `st` hands `device` to the consumer. */
  ghost predicate Shows(st: State, data: Bytes, device: FoundDevice, clientId: Bytes)
  {
    ParsesAsResponse(data)
    && forall aOrder: seq<Name>, v6Order: seq<Name> :: Walks(Parse(data).value.AllRecords(), aOrder, v6Order)
         ==> device in Devices(Emitted(MergePacket(st, Parse(data).value.AllRecords(), aOrder, v6Order), clientId))
  }

  /** `data` is a response, and handling it in `st` at `now` can only end in `after`. */
  ghost predicate LeadsTo(st: State, data: Bytes, now: nat, after: State)
  {
    ParsesAsResponse(data)
    && forall aOrder: seq<Name>, v6Order: seq<Name> :: Walks(Parse(data).value.AllRecords(), aOrder, v6Order)
         ==> StateAfter(st, Parse(data).value.AllRecords(), now, aOrder, v6Order) == after
  }

  /**
   One PTR answer resolves a service from any state: for every combination of
   wanted records that includes PTR, the printed bytes parse as a response, and
   merging them leaves the instance complete with exactly the published port,
   target, TXT strings, attributes and addresses, and otherwise as it was
   (section 12.1 of RFC 6763).
   */
  lemma {:induction false} PtrAnswerResolves(st: State, s: Service, w: Wants)
    requires Announceable(s) && w.ptr && FitsCounts(s, w)
    ensures Delivers(st, ResponseBytes(s, w), s)
  {
    hide Parse, ResponseBytes, Resolves, IsOrderOf, MergePacket, AddressGroups, Publishable, Carries, AnswerRRs, AdditionalRRs,
         IsPtrOf, IsSrvOf, IsTxtOf, IsAOf, OwnRecords, HasSrv, HasTxt, HasPtr, HasAddresses, LastOf;
    ResponseReadBack(s, w);
    ParsedInPacket(ResponseBytes(s, w));
    var recs := Parse(ResponseBytes(s, w)).value.AllRecords();
    CarriedRecords(s, w, recs);
    NoGoodbye(recs);
    assert LiveRecords(recs) == recs;
    forall aOrder: seq<Name>, v6Order: seq<Name> | Walks(recs, aOrder, v6Order)
      ensures Resolves(Known(st.instances, s), MergePacket(st, recs, aOrder, v6Order), s)
    {
      OwnRecordsResolve(st, recs, s, aOrder, v6Order);
    }
  }

  /** The same from query to consumer: the answer to a PTR question hands every other node the device. */
  lemma {:induction false} QueryToConsumer(st: State, name: Name, unicast: bool, s: Service, clientId: Bytes)
    requires Announceable(s) && FitsCounts(s, Wants(true, false, false, false))
    requires ReadableName(name) && NoEmptyLabel(name) && EqIgnoreCase(name, SERVICE_TYPE)
    requires LastOf(s.txtRecords, KEY_ID).value != clientId
    ensures var answer := Response(QueryBytes(name, TYPE_PTR, unicast), s);
            answer.Some? && Shows(st, answer.value, DeviceOf(Resolved(Known(st.instances, s), s)), clientId)
  {
    hide Parse, ResponseBytes, Response, QueryBytes, Walks, Resolves, MergePacket, Publishable, LastOf, Lower,
         ReadableName, NoEmptyLabel, EqIgnoreCase, Known, Resolved, Emitted, Devices;
    PtrQueryAnswered(name, unicast, s);
    PtrAnswerResolves(st, s, Wants(true, false, false, false));
    var recs := Parse(Response(QueryBytes(name, TYPE_PTR, unicast), s).value).value.AllRecords();
    forall aOrder: seq<Name>, v6Order: seq<Name> | Walks(recs, aOrder, v6Order)
      ensures DeviceOf(Resolved(Known(st.instances, s), s)) in Devices(Emitted(MergePacket(st, recs, aOrder, v6Order), clientId))
    {
      ResolvedIsEmitted(Known(st.instances, s), MergePacket(st, recs, aOrder, v6Order), s, clientId);
    }
  }

  lemma {:induction false} ResolvedIsEmitted(was: Instance, p: Progress, s: Service, clientId: Bytes)
    requires Resolves(was, p, s) && LastOf(s.txtRecords, KEY_ID).Some? && LastOf(s.txtRecords, KEY_ID).value != clientId
    ensures DeviceOf(Resolved(was, s)) in Devices(Emitted(p, clientId))
  {
    hide LastOf, Lower;
    var key := Lower(s.Fqdn());
    assert Emits(p, key, clientId);
    assert p.instances[key] in Emitted(p, clientId);
  }

  /**
   A device that advertises itself is found by every other node as what it is:
   its id, type, version, platform, port and addresses. Its name is the published
   one, or the one it is already known by.
   */
  lemma {:induction false} DeviceDiscovered(st: State, name: Name, unicast: bool, s: Service, clientId: Bytes,
                                            id: Bytes, deviceType: Bytes, version: Bytes, platform: Bytes)
    requires s == BuildServiceInfo(s.instanceName, s.targetHostname, s.port, id, deviceType, version, platform, s.ips)
    requires Publishable(s) && s.instanceName != [] && s.targetHostname != [] && s.port > 0 && s.ips != []
    requires FitsCounts(s, Wants(true, false, false, false)) && id != [] && id != clientId
    requires ReadableName(name) && NoEmptyLabel(name) && EqIgnoreCase(name, SERVICE_TYPE)
    ensures var answer, was := Response(QueryBytes(name, TYPE_PTR, unicast), s), Known(st.instances, s);
            answer.Some?
            && Shows(st, answer.value, FoundDevice(id, was.name, (set ip | ip in s.ips), was.addrs6, s.port, deviceType, version, platform),
                     clientId)
    ensures Lower(s.Fqdn()) !in st.instances ==> Known(st.instances, s).name == s.instanceName && Known(st.instances, s).addrs6 == {}
    ensures Invariant(st) ==> Lower(Known(st.instances, s).name) == Lower(s.instanceName)
  {
    hide Response, QueryBytes, Publishable, ReadableName, NoEmptyLabel, EqIgnoreCase, Shows, Lower, FitsCounts, LastOf, InstanceKeyOf;
    AdvertisedAttributes(s, id, deviceType, version, platform);
    QueryToConsumer(st, name, unicast, s, clientId);
    if Invariant(st) {
      KnownByName(st, s);
    }
  }

  lemma {:induction false} AdvertisedAttributes(s: Service, id: Bytes, deviceType: Bytes, version: Bytes, platform: Bytes)
    requires s == BuildServiceInfo(s.instanceName, s.targetHostname, s.port, id, deviceType, version, platform, s.ips)
    ensures LastOf(s.txtRecords, KEY_ID) == Some(id) && LastOf(s.txtRecords, KEY_DEVICE_TYPE) == Some(deviceType)
    ensures LastOf(s.txtRecords, KEY_VERSION) == Some(version) && LastOf(s.txtRecords, KEY_PLATFORM) == Some(platform)
  {
    hide IsEntry, Entry, LastOf;
    var t := s.txtRecords;
    Flags();
    forall key | key in [KEY_ID, KEY_DEVICE_TYPE, KEY_VERSION, KEY_PLATFORM]
      ensures (IsEntry(t[0], key) <==> key == KEY_ID) && (IsEntry(t[1], key) <==> key == KEY_DEVICE_TYPE)
      ensures (IsEntry(t[2], key) <==> key == KEY_VERSION) && (IsEntry(t[3], key) <==> key == KEY_PLATFORM)
      ensures !IsEntry(t[4], key) && !IsEntry(t[5], key)
    {
      EntryOf(KEY_ID, id, key);
      EntryOf(KEY_DEVICE_TYPE, deviceType, key);
      EntryOf(KEY_VERSION, version, key);
      EntryOf(KEY_PLATFORM, platform, key);
      EntryOf([97, 119], [48], key);
      EntryOf([97, 114], [48], key);
    }
    LastOfAt(t, 0, KEY_ID);
    LastOfAt(t, 1, KEY_DEVICE_TYPE);
    LastOfAt(t, 2, KEY_VERSION);
    LastOfAt(t, 3, KEY_PLATFORM);
    EntryOf(KEY_ID, id, KEY_ID);
    EntryOf(KEY_DEVICE_TYPE, deviceType, KEY_DEVICE_TYPE);
    EntryOf(KEY_VERSION, version, KEY_VERSION);
    EntryOf(KEY_PLATFORM, platform, KEY_PLATFORM);
  }

  lemma {:induction false} LastOfAt(entries: seq<Bytes>, i: nat, key: Bytes)
    requires i < |entries| && IsEntry(entries[i], key) && forall j :: i < j < |entries| ==> !IsEntry(entries[j], key)
    ensures |entries[i]| > |key| && LastOf(entries, key) == Some(entries[i][|key| + 1..])
    decreases |entries|
  {
    if i < |entries| - 1 {
      LastOfAt(entries[..|entries| - 1], i, key);
    }
  }

  lemma {:induction false} Flags()
    ensures AWARE_FLAGS == [Entry([97, 119], [48]), Entry([97, 114], [48])]
  {
    assert Entry([97, 119], [48]) == AWARE_FLAGS[0] && Entry([97, 114], [48]) == AWARE_FLAGS[1];
  }

  /** An advertised entry has its own key, its value, and no other key. */
  lemma {:induction false} EntryOf(key: Bytes, value: Bytes, other: Bytes)
    requires EQUALS !in key && EQUALS !in other
    ensures IsEntry(Entry(key, value), other) <==> other == key
    ensures |Entry(key, value)| > |key| && Entry(key, value)[|key| + 1..] == value
  {
    EntryIff(Entry(key, value), key);
    EntryIff(Entry(key, value), other);
  }

  // ---- Address answers are authoritative ---------------------------------------------------

  predicate HostRecord(rec: Record, hostname: Name, ips: seq<Ascii>)
  {
    && rec.InPacket() && rec.rtype == TYPE_A && rec.ttl == TTL_SECONDS && rec.name == hostname
    && IpOf(rec).Some? && IpOf(rec).value in ips
  }

  lemma {:induction false} HostCarried(rec: Record, hostname: Name, ips: seq<Ascii>, ip: Ascii)
    requires PublishableHost(hostname, ips) && ip in ips && rec.InPacket() && Carries(rec, ARR(HostService(hostname, ips), ip))
    ensures HostRecord(rec, hostname, ips) && IpOf(rec) == Some(ip)
  {
    hide NoEmptyLabel, Canonical, IpText, IpToBytes, ReadableName;
    CanonicalId(hostname);
    var bytes := CanonicalIpBytes(ip);
    IpReadBackAt(rec, bytes);
  }

  lemma {:induction false} HostRecordsMergeNothing(p: Progress, recs: seq<Record>, hostname: Name, ips: seq<Ascii>)
    requires AllInPacket(recs) && forall i :: 0 <= i < |recs| ==> HostRecord(recs[i], hostname, ips)
    ensures MergeRecords(p, recs) == p && GoodbyeKeys(recs) == {}
    ensures AddressGroups(recs, false) == if Addresses(recs) == {} then map[] else map[Lower(hostname) := Addresses(recs)]
    ensures AddressGroups(recs, true) == map[]
    decreases |recs|
  {
    hide Lower, IpOf;
    if recs != [] {
      var n := |recs| - 1;
      HostRecordsMergeNothing(p, recs[..n], hostname, ips);
      AddOwnAddress(AddressGroups(recs[..n], false), Lower(hostname), Addresses(recs[..n]), IpOf(recs[n]));
    }
  }

  lemma {:induction false} HostAddresses(recs: seq<Record>, hostname: Name, ips: seq<Ascii>)
    requires PublishableHost(hostname, ips) && AllInPacket(recs) && AllCarry(recs, HostRRs(hostname, ips))
    ensures forall i :: 0 <= i < |recs| ==> HostRecord(recs[i], hostname, ips)
    ensures Addresses(recs) == set ip | ip in ips
  {
    hide PublishableHost, Carries, HostRecord, IpOf, ARR;
    forall i | 0 <= i < |recs| ensures HostRecord(recs[i], hostname, ips) && IpOf(recs[i]) == Some(ips[i]) {
      assert ips[i] in ips;
      HostCarried(recs[i], hostname, ips, ips[i]);
    }
    forall ip ensures ip in Addresses(recs) <==> ip in ips {
      AddressesMembers(recs, ip);
      if ip in ips {
        var i :| 0 <= i < |ips| && ips[i] == ip;
        assert IpOf(recs[i]) == Some(ip);
      }
    }
  }

  /**
   The answer to an address query replaces the addresses of the instance known
   under that hostname by exactly the announced ones, and changes nothing else.
   */
  lemma {:induction false} HostAnswerReplacesAddresses(st: State, hostname: Name, ips: seq<Ascii>, now: nat)
    requires PublishableHost(hostname, ips) && ips != []
    requires Lower(hostname) in st.hostnames && st.hostnames[Lower(hostname)] in st.instances
    ensures var key := st.hostnames[Lower(hostname)];
            LeadsTo(st, HostBytes(hostname, ips), now,
                    st.(instances := st.instances[key := st.instances[key].(ips := set ip | ip in ips)]))
  {
    hide Parse, HostBytes, PublishableHost, Carries, Lower, HostRRs, AddressGroups, MergeRecords, HostRecord;
    HostResponseReadBack(hostname, ips);
    ParsedInPacket(HostBytes(hostname, ips));
    var recs := Parse(HostBytes(hostname, ips)).value.AllRecords();
    assert recs == Parse(HostBytes(hostname, ips)).value.answers;
    HostAddresses(recs, hostname, ips);
    HostRecordsMergeNothing(DropInstances(st, {}), recs, hostname, ips);
    assert ips[0] in Addresses(recs);
    OneGroupApplied(st, recs, Lower(hostname), (set ip | ip in ips), now);
    forall aOrder: seq<Name>, v6Order: seq<Name> | Walks(recs, aOrder, v6Order)
      ensures aOrder == [Lower(hostname)] && v6Order == []
    {
      OnlyOneOrder(aOrder, AddressGroups(recs, false), Lower(hostname));
      NoOrder(v6Order, AddressGroups(recs, true));
    }
  }

  lemma {:induction false} OneGroupApplied(st: State, recs: seq<Record>, host: Name, ips: set<Ascii>, now: nat)
    requires AllInPacket(recs) && GoodbyeKeys(recs) == {} && MergeRecords(DropInstances(st, {}), recs) == DropInstances(st, {})
    requires AddressGroups(recs, false) == map[host := ips] && AddressGroups(recs, true) == map[]
    requires host in st.hostnames && st.hostnames[host] in st.instances
    ensures var key := st.hostnames[host];
            StateAfter(st, recs, now, [host], []) == st.(instances := st.instances[key := st.instances[key].(ips := ips)])
  {
    hide GoodbyeKeys, MergeRecords, AddressGroups, WithTtl;
    var start, groups := DropInstances(st, {}), map[host := ips];
    assert start == Progress(st.instances, st.hostnames, {}, []);
    assert ApplyGroups(start, groups, [host][..0], false) == start;
    assert ApplyGroups(start, groups, [host], false) == ApplyGroup(start, host, ips, false);
    assert st.srvTxtQueriedAt - {} == st.srvTxtQueriedAt && st.aQueriedAt - {} == st.aQueriedAt;
  }

  /** The addresses of one kind in `recs`. */
  function AddressesOf(recs: seq<Record>, v6: bool): set<Ascii>
    requires AllInPacket(recs)
  {
    set i | 0 <= i < |recs| && (if v6 then Ipv6Of(recs[i]) else IpOf(recs[i])).Some?
      :: (if v6 then Ipv6Of(recs[i]) else IpOf(recs[i])).value
  }

  /** Live address records of one host. */
  predicate AddressRecords(recs: seq<Record>, host: Name)
  {
    AllInPacket(recs)
    && forall i :: 0 <= i < |recs| ==> recs[i].ttl != 0 && (recs[i].rtype == TYPE_A || recs[i].rtype == TYPE_AAAA) && Lower(recs[i].name) == host
  }

  lemma {:induction false} AddressesStep(recs: seq<Record>, v6: bool)
    requires recs != [] && AllInPacket(recs)
    ensures var n := |recs| - 1;
            var ip := if v6 then Ipv6Of(recs[n]) else IpOf(recs[n]);
            AddressesOf(recs, v6) == AddressesOf(recs[..n], v6) + if ip.Some? then {ip.value} else {}
  {
    hide IpOf, Ipv6Of;
    assert forall i :: 0 <= i < |recs| - 1 ==> recs[..|recs| - 1][i] == recs[i];
  }

  lemma {:induction false} AddressRecordsGroup(p: Progress, recs: seq<Record>, host: Name, v6: bool)
    requires AddressRecords(recs, host)
    ensures MergeRecords(p, recs) == p && GoodbyeKeys(recs) == {}
    ensures AddressGroups(recs, v6) == if AddressesOf(recs, v6) == {} then map[] else map[host := AddressesOf(recs, v6)]
    decreases |recs|
  {
    hide Lower, IpOf, Ipv6Of, AddressesOf;
    if recs == [] {
      NoAddresses(v6);
    } else {
      var n := |recs| - 1;
      AddressRecordsGroup(p, recs[..n], host, v6);
      AddressesStep(recs, v6);
      AddOwnAddress(AddressGroups(recs[..n], v6), host, AddressesOf(recs[..n], v6), if v6 then Ipv6Of(recs[n]) else IpOf(recs[n]));
    }
  }

  lemma {:induction false} NoAddresses(v6: bool)
    ensures AddressesOf([], v6) == {}
  {
  }

  /**
   A packet of addresses, IPv4 or IPv6 or both, of a host that is known replaces
   each kind it carries by exactly its own, and changes nothing else.
   */
  lemma {:induction false} AddressesReplaceKinds(st: State, recs: seq<Record>, host: Name, now: nat, aOrder: seq<Name>, v6Order: seq<Name>)
    requires AddressRecords(recs, host) && host in st.hostnames && st.hostnames[host] in st.instances
    requires Walks(recs, aOrder, v6Order)
    ensures var key, v4, v6 := st.hostnames[host], AddressesOf(recs, false), AddressesOf(recs, true);
            var was := st.instances[key];
            StateAfter(st, recs, now, aOrder, v6Order)
            == st.(instances := st.instances[key := was.(ips := if v4 == {} then was.ips else v4,
                                                         addrs6 := if v6 == {} then was.addrs6 else v6)])
  {
    hide Lower, AddressesOf, MergeRecords, AddressGroups, GoodbyeKeys, ApplyGroups;
    var start := DropInstances(st, {});
    AddressRecordsGroup(start, recs, host, false);
    AddressRecordsGroup(start, recs, host, true);
    var v4, v6 := AddressesOf(recs, false), AddressesOf(recs, true);
    assert start == Progress(st.instances, st.hostnames, {}, []);
    OneKindApplied(start, AddressGroups(recs, false), aOrder, host, v4, false);
    OneKindApplied(ApplyGroups(start, AddressGroups(recs, false), aOrder, false), AddressGroups(recs, true), v6Order, host, v6, true);
    assert st.srvTxtQueriedAt - {} == st.srvTxtQueriedAt && st.aQueriedAt - {} == st.aQueriedAt;
  }

  lemma {:induction false} OneKindApplied(p: Progress, groups: Groups, order: seq<Name>, host: Name, ips: set<Ascii>, v6: bool)
    requires groups == (if ips == {} then map[] else map[host := ips]) && IsOrderOf(order, groups)
    requires host in p.hostnames && p.hostnames[host] in p.instances
    ensures var q, key := ApplyGroups(p, groups, order, v6), p.hostnames[host];
            var inst := p.instances[key];
            && q.hostnames == p.hostnames && q.discovered == p.discovered
            && q.instances == p.instances[key := if ips == {} then inst else if v6 then inst.(addrs6 := ips) else inst.(ips := ips)]
  {
    if ips == {} {
      NoOrder(order, groups);
    } else {
      OnlyOneOrder(order, groups, host);
      assert ApplyGroups(p, groups, [host][..0], v6) == p;
      assert ApplyGroups(p, groups, [host], v6) == ApplyGroup(p, host, ips, v6);
    }
  }

  // ---- A bare PTR discovers ---------------------------------------------------------------

  /**
   A PTR record alone makes an unknown instance known under its published name
   and asks for its SRV and TXT at once; a known instance stays and is not asked for.
   */
  lemma {:induction false} PtrDiscovers(st: State, rec: Record, target: Name, key: Name, now: nat)
    requires rec.InPacket() && rec.rtype == TYPE_PTR && rec.ttl != 0 && PtrTarget(rec) == Some(target)
    requires InstanceKeyOf(target) == Some(key)
    ensures StateAfter(st, [rec], now, [], [])
         == if key in st.instances then st
            else st.(instances := st.instances[key := NewInstance(key, LabelOf(target))],
                     srvTxtQueriedAt := st.srvTxtQueriedAt[key := now])
    ensures var p := MergePacket(st, [rec], [], []);
            FollowUps(p, p.discovered) == if key in st.instances then [] else [key]
  {
    hide PtrTarget, InstanceKeyOf, MergePacket, GoodbyeKeys, FollowUps, Stamp;
    OnePtrMerged(st, rec, target, key);
    OneGoodbye(rec);
    var p := MergePacket(st, [rec], [], []);
    assert st.srvTxtQueriedAt - {} == st.srvTxtQueriedAt && st.aQueriedAt - {} == st.aQueriedAt;
    OneFollowUp(p, key);
    OneStamp(st.srvTxtQueriedAt, key, now);
    if key in st.instances {
      assert st.instances[key := st.instances[key]] == st.instances;
    } else {
      assert !p.instances[key].Complete();
    }
  }

  lemma {:induction false} OneFollowUp(p: Progress, key: Name)
    ensures FollowUps(p, []) == []
    ensures key in p.instances && !p.instances[key].Complete() ==> FollowUps(p, [key]) == [key]
  {
    assert [key][..0] == [] && [] + [key] == [key];
  }

  lemma {:induction false} OneStamp(times: map<Name, nat>, key: Name, now: nat)
    ensures Stamp(times, [], now) == times && Stamp(times, [key], now) == times[key := now]
  {
  }

  lemma {:induction false} OneGoodbye(rec: Record)
    requires rec.ttl != 0
    ensures GoodbyeKeys([rec]) == {}
  {
    assert [rec][..0] == [];
  }

  lemma {:induction false} OnePtrMerged(st: State, rec: Record, target: Name, key: Name)
    requires rec.InPacket() && rec.rtype == TYPE_PTR && rec.ttl != 0 && PtrTarget(rec) == Some(target)
    requires InstanceKeyOf(target) == Some(key)
    ensures MergePacket(st, [rec], [], [])
         == if key in st.instances then Progress(st.instances[key := st.instances[key]], st.hostnames, {key}, [])
            else Progress(st.instances[key := NewInstance(key, LabelOf(target))], st.hostnames, {key}, [key])
  {
    hide PtrTarget, GoodbyeKeys, AddressGroups;
    OneGoodbye(rec);
    KeyHasLabel(target);
    hide InstanceKeyOf;
    var start := DropInstances(st, {});
    assert start == Progress(st.instances, st.hostnames, {}, []);
    assert [rec][..0] == [] && MergeRecords(start, []) == start;
    assert MergeRecords(start, [rec]) == MergePtr(start, rec);
  }

  lemma {:induction false} KeyHasLabel(name: Name)
    requires InstanceKeyOf(name).Some?
    ensures |name| > |SERVICE_TYPE| + 1
  {
  }

  // ---- A goodbye is exact ------------------------------------------------------------------

  lemma {:induction false} GoodbyeRecords(s: Service, recs: seq<Record>)
    requires Publishable(s) && s.serviceType == SERVICE_TYPE && s.instanceName != []
    requires AllInPacket(recs) && AllCarry(recs, GoodbyeRRs(s))
    ensures GoodbyeKeys(recs) == {Lower(s.Fqdn())} && LiveRecords(recs) == []
  {
    hide Publishable, Carries, PtrRR, SrvRR, TxtRR, InstanceKeyOf, Lower;
    PtrCarried(recs[0], s, 0);
    SrvCarried(recs[1], s, 0);
    TxtCarried(recs[2], s, 0);
    FqdnKey(s);
    var key := Lower(s.Fqdn());
    assert recs[..3] == recs && recs[..2] == recs[..3][..2] && recs[..1] == recs[..2][..1] && recs[..0] == recs[..1][..0];
    assert GoodbyeKey(recs[0]) == GoodbyeKey(recs[1]) == GoodbyeKey(recs[2]) == Some(key);
    assert GoodbyeKeys(recs[..1]) == {key};
    assert GoodbyeKeys(recs[..2]) == {key};
    assert GoodbyeKeys(recs[..3]) == {key};
    assert WithTtl(recs[..1]) == [];
    assert WithTtl(recs[..2]) == [];
    assert WithTtl(recs[..3]) == [];
  }

  /**
   Merging the goodbye of a service into any state removes its instance, every
   hostname that maps to it and its follow-up times, and nothing else.
   */
  lemma {:induction false} GoodbyeIsExact(st: State, s: Service, now: nat)
    requires Publishable(s) && s.serviceType == SERVICE_TYPE && s.instanceName != []
    ensures var key := Lower(s.Fqdn());
            LeadsTo(st, GoodbyeBytes(s), now,
                    State(st.instances - {key}, map h | h in st.hostnames && st.hostnames[h] != key :: st.hostnames[h],
                          st.srvTxtQueriedAt - {key}, st.aQueriedAt - {key}))
  {
    hide Parse, GoodbyeBytes, Publishable, Carries, Lower, GoodbyeKeys, LiveRecords, GoodbyeRRs;
    GoodbyeReadBack(s);
    ParsedInPacket(GoodbyeBytes(s));
    var recs := Parse(GoodbyeBytes(s)).value.AllRecords();
    assert recs == Parse(GoodbyeBytes(s)).value.answers;
    GoodbyeRecords(s, recs);
    NothingMerged(st, recs, Lower(s.Fqdn()), now);
    forall aOrder: seq<Name>, v6Order: seq<Name> | Walks(recs, aOrder, v6Order) ensures aOrder == [] && v6Order == [] {
      NoOrder(aOrder, AddressGroups([], false));
      NoOrder(v6Order, AddressGroups([], true));
    }
  }

  lemma {:induction false} NothingMerged(st: State, recs: seq<Record>, key: Name, now: nat)
    requires AllInPacket(recs) && GoodbyeKeys(recs) == {key} && LiveRecords(recs) == []
    ensures StateAfter(st, recs, now, [], [])
         == State(st.instances - {key}, map h | h in st.hostnames && st.hostnames[h] != key :: st.hostnames[h],
                  st.srvTxtQueriedAt - {key}, st.aQueriedAt - {key})
  {
    hide GoodbyeKeys, LiveRecords;
  }
}
