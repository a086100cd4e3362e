/**
 The state of the service browser (src/mdns/service_browser.rs) and what one
 parsed packet does to it, record by record and address group by group.
 */
module BrowserState {
  import opened Bits
  import opened Text
  import opened DnsNames
  import opened DnsMessages
  import opened AddressText
  import opened ServiceInfo

  const FOLLOW_UP_RETRY_MS: nat := 10000

  datatype Instance = Instance(
    fqdn: Name,
    name: Name,
    id: Bytes,
    port: nat,
    deviceType: Bytes,
    version: Bytes,
    platform: Bytes,
    target: Name,
    ips: set<Ascii>,
    addrs6: set<Ascii>,
    txt: seq<Bytes>)
  {
    predicate Complete()
    {
      id != [] && port > 0 && (ips != {} || addrs6 != {})
    }
  }

  function NewInstance(fqdn: Name, name: Name): Instance
  {
    Instance(fqdn, name, [], 0, [], [], [], [], {}, {}, [])
  }

  datatype State = State(
    instances: map<Name, Instance>,
    hostnames: map<Name, Name>,
    srvTxtQueriedAt: map<Name, nat>,
    aQueriedAt: map<Name, nat>)

  const EMPTY_STATE := State(map[], map[], map[], map[])

  // ---- Instance keys -----------------------------------------------------------------

  predicate EndsWith(s: Name, suffix: Name)
  {
    |suffix| <= |s| && s[|s| - |suffix|..] == suffix
  }

  /** `instance_key_of`: the lowercased name when it ends in the service type and has room for an instance label. */
  function InstanceKeyOf(name: Name): Option<Name>
  {
    if !EndsWith(Lower(name), Lower(SERVICE_TYPE)) then None
    else if |name| <= |SERVICE_TYPE| + 1 then None
    else Some(Lower(name))
  }

  /** `find_instance`: the key with the known instance, or with a fresh one. */
  function FindInstance(current: map<Name, Instance>, name: Name): Option<(Name, Instance)>
  {
    match InstanceKeyOf(name)
    case None => None
    case Some(key) =>
      var instanceName := name[..|name| - |SERVICE_TYPE| - 1];
      Some((key, if key in current then current[key] else NewInstance(key, instanceName)))
  }

  // ---- TXT entries ---------------------------------------------------------------------

  /** The position of the first `=`, the length when there is none. */
  function FindEquals(entry: Bytes): (i: nat)
    ensures i <= |entry| && (i < |entry| ==> entry[i] == EQUALS)
    ensures forall k :: 0 <= k < i ==> entry[k] != EQUALS
  {
    if entry == [] || entry[0] == EQUALS then 0 else 1 + FindEquals(entry[1..])
  }

  function ApplyEntry(inst: Instance, entry: Bytes): Instance
  {
    var eq := FindEquals(entry);
    if eq == |entry| || eq == 0 then inst
    else
      var key, value := entry[..eq], entry[eq + 1..];
      if key == KEY_ID then inst.(id := value)
      else if key == KEY_DEVICE_TYPE then inst.(deviceType := value)
      else if key == KEY_VERSION then inst.(version := value)
      else if key == KEY_PLATFORM then inst.(platform := value)
      else inst
  }

  function ApplyEntries(inst: Instance, entries: seq<Bytes>): Instance
  {
    if entries == [] then inst
    else ApplyEntry(ApplyEntries(inst, entries[..|entries| - 1]), entries[|entries| - 1])
  }

  /** An entry `key=value`. */
  predicate IsEntry(entry: Bytes, key: Bytes)
  {
    |entry| > |key| && entry[..|key|] == key && entry[|key|] == EQUALS
  }

  /** The value of the last entry with that key. */
  function LastOf(entries: seq<Bytes>, key: Bytes): Option<Bytes>
  {
    if entries == [] then None
    else
      var last := entries[|entries| - 1];
      if IsEntry(last, key) then Some(last[|key| + 1..]) else LastOf(entries[..|entries| - 1], key)
  }

  function LastOr(entries: seq<Bytes>, key: Bytes, was: Bytes): Bytes
  {
    match LastOf(entries, key)
    case Some(value) => value
    case None => was
  }

  /** Every attribute is the value of the last entry with its key, and stays without one. */
  function WithAttributes(inst: Instance, entries: seq<Bytes>): Instance
  {
    inst.(id := LastOr(entries, KEY_ID, inst.id), deviceType := LastOr(entries, KEY_DEVICE_TYPE, inst.deviceType),
          version := LastOr(entries, KEY_VERSION, inst.version), platform := LastOr(entries, KEY_PLATFORM, inst.platform))
  }

  lemma {:induction false} EntryIff(entry: Bytes, key: Bytes)
    requires EQUALS !in key
    ensures var eq := FindEquals(entry); IsEntry(entry, key) <==> eq < |entry| && entry[..eq] == key
    ensures IsEntry(entry, key) ==> FindEquals(entry) == |key|
  {
    var eq := FindEquals(entry);
    if IsEntry(entry, key) {
      assert forall k :: 0 <= k < |key| ==> entry[k] == entry[..|key|][k] == key[k];
    }
  }

  /** Whatever the instance was, reading its TXT entries gives it exactly the attributes they name. */
  lemma {:induction false} EntriesSetAttributes(inst: Instance, entries: seq<Bytes>)
    ensures ApplyEntries(inst, entries) == WithAttributes(inst, entries)
  {
    hide FindEquals, IsEntry;
    if entries != [] {
      var last := entries[|entries| - 1];
      EntriesSetAttributes(inst, entries[..|entries| - 1]);
      EntryIff(last, KEY_ID);
      EntryIff(last, KEY_DEVICE_TYPE);
      EntryIff(last, KEY_VERSION);
      EntryIff(last, KEY_PLATFORM);
    }
  }

  // ---- Goodbyes (section 10.1 of RFC 6762) -----------------------------------------------

  function GoodbyeKey(rec: Record): Option<Name>
  {
    if rec.ttl != 0 then None
    else if rec.rtype == TYPE_PTR then
      match PtrTarget(rec)
      case None => None
      case Some(target) => InstanceKeyOf(target)
    else if rec.rtype == TYPE_SRV || rec.rtype == TYPE_TXT then InstanceKeyOf(rec.name)
    else None
  }

  /** `goodbye_instance_keys` */
  function GoodbyeKeys(recs: seq<Record>): set<Name>
  {
    if recs == [] then {}
    else
      GoodbyeKeys(recs[..|recs| - 1])
      + match GoodbyeKey(recs[|recs| - 1])
        case None => {}
        case Some(key) => {key}
  }

  function WithTtl(recs: seq<Record>): (r: seq<Record>)
    ensures forall rec :: rec in r <==> rec in recs && rec.ttl != 0
  {
    if recs == [] then []
    else if recs[|recs| - 1].ttl != 0 then WithTtl(recs[..|recs| - 1]) + [recs[|recs| - 1]]
    else WithTtl(recs[..|recs| - 1])
  }

  /** Withdrawn records are merged only when the packet withdraws no instance. */
  function LiveRecords(recs: seq<Record>): (r: seq<Record>)
    ensures forall rec :: rec in r ==> rec in recs
    ensures forall rec :: rec in recs && rec.ttl != 0 ==> rec in r
  {
    if GoodbyeKeys(recs) == {} then recs else WithTtl(recs)
  }

  // ---- Address groups ----------------------------------------------------------------------

  type Groups = map<Name, set<Ascii>>

  function AddToGroup(groups: Groups, hostname: Name, ip: Ascii): Groups
  {
    groups[hostname := (if hostname in groups then groups[hostname] else {}) + {ip}]
  }

  predicate AllInPacket(recs: seq<Record>)
  {
    forall i :: 0 <= i < |recs| ==> recs[i].InPacket()
  }

  /** The addresses of one record type, grouped by lowercased hostname. */
  function AddressGroups(recs: seq<Record>, v6: bool): Groups
    requires AllInPacket(recs)
  {
    if recs == [] then map[]
    else
      var rec, groups := recs[|recs| - 1], AddressGroups(recs[..|recs| - 1], v6);
      match if v6 then Ipv6Of(rec) else IpOf(rec)
      case None => groups
      case Some(ip) => AddToGroup(groups, Lower(rec.name), ip)
  }

  // ---- Merging records -----------------------------------------------------------------------

  datatype Progress = Progress(
    instances: map<Name, Instance>,
    hostnames: map<Name, Name>,
    touched: set<Name>,
    discovered: seq<Name>)

  function MergeRecord(p: Progress, rec: Record): Progress
    requires rec.InPacket()
  {
    if rec.rtype == TYPE_PTR then MergePtr(p, rec)
    else if rec.rtype == TYPE_SRV then MergeSrv(p, rec)
    else if rec.rtype == TYPE_TXT then MergeTxt(p, rec)
    else p
  }

  function MergePtr(p: Progress, rec: Record): Progress
  {
    match PtrTarget(rec)
    case None => p
    case Some(target) =>
      match FindInstance(p.instances, target)
      case None => p
      case Some((key, inst)) =>
        Progress(p.instances[key := inst], p.hostnames, p.touched + {key},
                 if key in p.instances then p.discovered else p.discovered + [key])
  }

  function MergeSrv(p: Progress, rec: Record): Progress
    requires rec.InPacket()
  {
    match SrvOf(rec)
    case None => p
    case Some(srv) =>
      match FindInstance(p.instances, rec.name)
      case None => p
      case Some((key, inst)) =>
        Progress(p.instances[key := inst.(port := srv.port, target := srv.target)],
                 if srv.target == [] then p.hostnames else p.hostnames[Lower(srv.target) := key],
                 p.touched + {key}, p.discovered)
  }

  function MergeTxt(p: Progress, rec: Record): Progress
    requires rec.InPacket()
  {
    match TxtStrings(rec)
    case None => p
    case Some(strings) =>
      match FindInstance(p.instances, rec.name)
      case None => p
      case Some((key, inst)) =>
        Progress(p.instances[key := ApplyEntries(inst.(txt := strings), strings)], p.hostnames, p.touched + {key}, p.discovered)
  }

  function MergeRecords(p: Progress, recs: seq<Record>): Progress
    requires AllInPacket(recs)
  {
    if recs == [] then p else MergeRecord(MergeRecords(p, recs[..|recs| - 1]), recs[|recs| - 1])
  }

  /** The packet's address set for a hostname replaces the instance's. */
  function ApplyGroup(p: Progress, hostname: Name, ips: set<Ascii>, v6: bool): Progress
  {
    if hostname in p.hostnames && p.hostnames[hostname] in p.instances then
      var key := p.hostnames[hostname];
      var inst := p.instances[key];
      p.(instances := p.instances[key := if v6 then inst.(addrs6 := ips) else inst.(ips := ips)], touched := p.touched + {key})
    else p
  }

  /** The groups applied in the order `order`; a hash map fixes none. */
  function ApplyGroups(p: Progress, groups: Groups, order: seq<Name>, v6: bool): Progress
  {
    if order == [] then p
    else
      var before, hostname := ApplyGroups(p, groups, order[..|order| - 1], v6), order[|order| - 1];
      if hostname in groups then ApplyGroup(before, hostname, groups[hostname], v6) else before
  }

  /** `order` lists the hostnames of `groups`, each once. */
  ghost predicate IsOrderOf(order: seq<Name>, groups: Groups)
  {
    && (forall h :: h in order <==> h in groups)
    && forall i, j :: 0 <= i < j < |order| ==> order[i] != order[j]
  }

  function DropInstances(st: State, goodbye: set<Name>): Progress
  {
    Progress(st.instances - goodbye, map h | h in st.hostnames && st.hostnames[h] !in goodbye :: st.hostnames[h], {}, [])
  }

  /** All of `handle_packet` up to the follow-up queries. */
  function MergePacket(st: State, recs: seq<Record>, aOrder: seq<Name>, v6Order: seq<Name>): Progress
    requires AllInPacket(recs)
  {
    var live := LiveRecords(recs);
    assert AllInPacket(live) by { LiveInPacket(recs); }
    var merged := MergeRecords(DropInstances(st, GoodbyeKeys(recs)), live);
    ApplyGroups(ApplyGroups(merged, AddressGroups(live, false), aOrder, false), AddressGroups(live, true), v6Order, true)
  }

  lemma {:induction false} LiveInPacket(recs: seq<Record>)
    requires AllInPacket(recs)
    ensures AllInPacket(LiveRecords(recs))
  {
    var live := LiveRecords(recs);
    forall i | 0 <= i < |live| ensures live[i].InPacket() {
      assert live[i] in recs;
    }
  }

  /** Newly discovered instances that are still incomplete are asked for at once. */
  function FollowUps(p: Progress, keys: seq<Name>): seq<Name>
  {
    if keys == [] then []
    else
      var rest, key := FollowUps(p, keys[..|keys| - 1]), keys[|keys| - 1];
      if key in p.instances && !p.instances[key].Complete() then rest + [key] else rest
  }

  function Stamp(times: map<Name, nat>, keys: seq<Name>, now: nat): map<Name, nat>
  {
    times + map k | k in keys :: now
  }

  /** The state after a packet with records `recs` at time `now`. */
  function StateAfter(st: State, recs: seq<Record>, now: nat, aOrder: seq<Name>, v6Order: seq<Name>): State
    requires AllInPacket(recs)
  {
    var p, goodbye := MergePacket(st, recs, aOrder, v6Order), GoodbyeKeys(recs);
    State(p.instances, p.hostnames,
          Stamp(st.srvTxtQueriedAt - goodbye, FollowUps(p, p.discovered), now), st.aQueriedAt - goodbye)
  }

  /** `FoundDevice`; the addresses are handed over sorted. */
  datatype FoundDevice = FoundDevice(
    id: Bytes,
    name: Name,
    ips: set<Ascii>,
    ipv6: set<Ascii>,
    port: nat,
    deviceType: Bytes,
    version: Bytes,
    platform: Bytes)

  function DeviceOf(inst: Instance): FoundDevice
  {
    FoundDevice(inst.id, inst.name, inst.ips, inst.addrs6, inst.port, inst.deviceType, inst.version, inst.platform)
  }

  function Devices(insts: set<Instance>): (r: set<FoundDevice>)
    ensures forall inst :: inst in insts ==> DeviceOf(inst) in r
  {
    set inst | inst in insts :: DeviceOf(inst)
  }

  /** The touched instances handed to the consumer. */
  function Emitted(p: Progress, clientId: Bytes): (r: set<Instance>)
    ensures forall key :: key in p.touched && Emits(p, key, clientId) ==> p.instances[key] in r
    ensures forall inst :: inst in r ==> inst.id != clientId && inst.Complete()
  {
    set key | key in p.touched && Emits(p, key, clientId) :: p.instances[key]
  }

  predicate Emits(p: Progress, key: Name, clientId: Bytes)
  {
    key in p.instances && p.instances[key].id != clientId && p.instances[key].Complete()
  }

  // ---- The periodic follow-up (`browse_once`) ----------------------------------------------

  function LastAsked(times: map<Name, nat>, key: Name): nat
  {
    if key in times then times[key] else 0
  }

  predicate Due(times: map<Name, nat>, key: Name, now: nat)
  {
    (if now >= LastAsked(times, key) then now - LastAsked(times, key) else 0) >= FOLLOW_UP_RETRY_MS
  }

  function DueForSrvTxt(st: State, now: nat): set<Name>
  {
    set k | k in st.instances && !st.instances[k].Complete() && Due(st.srvTxtQueriedAt, st.instances[k].fqdn, now)
      :: st.instances[k].fqdn
  }

  function DueForA(st: State, now: nat): set<Name>
  {
    set k | k in st.instances && !st.instances[k].Complete() && st.instances[k].target != []
            && Due(st.aQueriedAt, st.instances[k].fqdn, now)
      :: st.instances[k].fqdn
  }

  function AfterBrowse(st: State, now: nat): State
  {
    st.(srvTxtQueriedAt := st.srvTxtQueriedAt + map k | k in DueForSrvTxt(st, now) :: now,
        aQueriedAt := st.aQueriedAt + map k | k in DueForA(st, now) :: now)
  }
}
