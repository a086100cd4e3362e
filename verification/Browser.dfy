/**
 The service browser object (src/mdns/service_browser.rs): `handle_packet`,
 `browse_once` and `clear_instances` update the maps in place. Each method is
 proved against the state functions of `BrowserState`, and keeps the invariant.
 */
module Browser {
  import opened DnsNames
  import opened DnsMessages
  import opened ServiceInfo
  import opened BrowserState
  import opened Discovery

  class ServiceBrowser {
    const clientId: Bytes
    var instances: map<Name, Instance>
    var hostnameToInstance: map<Name, Name>
    var srvTxtQueriedAt: map<Name, nat>
    var aQueriedAt: map<Name, nat>

    function Current(): State
      reads this
    {
      State(instances, hostnameToInstance, srvTxtQueriedAt, aQueriedAt)
    }

    ghost predicate Valid()
      reads this
    {
      Invariant(Current())
    }

    constructor (clientId: Bytes)
      ensures Valid() && Current() == EMPTY_STATE && this.clientId == clientId
    {
      this.clientId := clientId;
      instances, hostnameToInstance := map[], map[];
      srvTxtQueriedAt, aQueriedAt := map[], map[];
    }

    method ClearInstances()
      modifies this
      ensures Valid() && Current() == EMPTY_STATE
    {
      instances, hostnameToInstance := map[], map[];
      srvTxtQueriedAt, aQueriedAt := map[], map[];
    }

    /**
     The packet handler: `found` are the devices handed to the consumer,
     `asked` the discovered instances asked for at once. The hash maps of
     addresses are walked in an arbitrary order.
     */
    method HandlePacket(data: Bytes, fromSelf: bool, now: nat) returns (found: set<FoundDevice>, asked: seq<Name>)
      requires Valid()
      modifies this
      ensures Valid()
      ensures fromSelf || Parse(data).None? || !Parse(data).value.IsResponse()
              ==> Current() == old(Current()) && found == {} && asked == []
      ensures !fromSelf && Parse(data).Some? && Parse(data).value.IsResponse()
              ==> AllInPacket(Parse(data).value.AllRecords())
                  && exists aOrder, v6Order :: Handled(old(Current()), Parse(data).value.AllRecords(), now, aOrder, v6Order,
                                                       Current(), found, asked, clientId)
      ensures forall d :: d in found ==> d.id != clientId && d.id != [] && d.port > 0 && (d.ips != {} || d.ipv6 != {})
    {
      hide Parse, MergePacket, Emitted, StateAfter, Consistent;
      found, asked := {}, [];
      if fromSelf {
        return;
      }
      var parsed := ParseResponse(data);
      if parsed.None? || !parsed.value.IsResponse() {
        return;
      }
      ParsedInPacket(data);
      ghost var before := Current();
      var recs := parsed.value.AllRecords();
      ghost var aOrder: seq<Name>, v6Order: seq<Name>;
      found, asked, aOrder, v6Order := MergeAndEmit(recs, now);
      assert Handled(before, recs, now, aOrder, v6Order, Current(), found, asked, clientId);
    }

    method MergeAndEmit(recs: seq<Record>, now: nat)
      returns (found: set<FoundDevice>, asked: seq<Name>, ghost aOrder: seq<Name>, ghost v6Order: seq<Name>)
      requires Valid() && AllInPacket(recs)
      modifies this
      ensures Valid()
      ensures Handled(old(Current()), recs, now, aOrder, v6Order, Current(), found, asked, clientId)
      ensures forall d :: d in found ==> d.id != clientId && d.id != [] && d.port > 0 && (d.ips != {} || d.ipv6 != {})
    {
      hide GoodbyeKeys, LiveRecords, MergePacket, AddressGroups, FollowUps, Stamp, IsOrderOf, Consistent;
      ghost var before := Current();
      var goodbye: set<Name>, touched: set<Name>, discovered: seq<Name>;
      goodbye, touched, discovered, aOrder, v6Order := MergeParsed(recs);
      MergePacketSound(before, recs, aOrder, v6Order);
      if goodbye != {} {
        srvTxtQueriedAt := srvTxtQueriedAt - goodbye;
        aQueriedAt := aQueriedAt - goodbye;
      }
      assert srvTxtQueriedAt == before.srvTxtQueriedAt - goodbye && aQueriedAt == before.aQueriedAt - goodbye;
      asked := AskForDiscovered(discovered, touched, now);
      var complete := CollectFound(touched, discovered);
      found := Devices(complete);
    }

    /** The state update under the lock, without the follow-up times. */
    method MergeParsed(recs: seq<Record>)
      returns (goodbye: set<Name>, touched: set<Name>, discovered: seq<Name>, ghost aOrder: seq<Name>, ghost v6Order: seq<Name>)
      requires AllInPacket(recs)
      modifies this`instances, this`hostnameToInstance
      ensures goodbye == GoodbyeKeys(recs)
      ensures AllInPacket(LiveRecords(recs))
      ensures IsOrderOf(aOrder, AddressGroups(LiveRecords(recs), false))
      ensures IsOrderOf(v6Order, AddressGroups(LiveRecords(recs), true))
      ensures Progress(instances, hostnameToInstance, touched, discovered) == MergePacket(old(Current()), recs, aOrder, v6Order)
    {
      hide GoodbyeKeys, LiveRecords, MergeRecords, ApplyGroups, AddressGroups, IsOrderOf, AllInPacket;
      ghost var start := DropInstances(Current(), GoodbyeKeys(recs));
      goodbye := GoodbyeInstanceKeys(recs);
      var live := recs;
      if goodbye != {} {
        live := KeepWithTtl(recs);
      }
      LiveIs(recs, live);
      LiveInPacket(recs);
      var aByHostname := GroupAddresses(live, false);
      var aaaaByHostname := GroupAddresses(live, true);
      if goodbye != {} {
        instances := instances - goodbye;
        hostnameToInstance := map h | h in hostnameToInstance && hostnameToInstance[h] !in goodbye :: hostnameToInstance[h];
      }
      assert Progress(instances, hostnameToInstance, {}, []) == start;
      touched, discovered := MergeAll(live);
      touched, aOrder := ApplyAddressGroups(aByHostname, false, touched, discovered);
      touched, v6Order := ApplyAddressGroups(aaaaByHostname, true, touched, discovered);
    }

    /** What is handed to the consumer; our own looped-back announcement is not. */
    method CollectFound(touched: set<Name>, ghost discovered: seq<Name>) returns (found: set<Instance>)
      ensures found == Emitted(Progress(instances, hostnameToInstance, touched, discovered), clientId)
      ensures forall inst :: inst in found ==> inst.id != clientId && inst.Complete() && inst in instances.Values
    {
      found := {};
      ghost var p := Progress(instances, hostnameToInstance, touched, discovered);
      ghost var done: set<Name> := {};
      var todo := touched;
      while todo != {}
        invariant todo + done == touched && todo !! done
        invariant found == set key | key in done && Emits(p, key, clientId) :: instances[key]
        decreases |todo|
      {
        var key :| key in todo;
        if key in instances && instances[key].id != clientId {
          if instances[key].Complete() {
            found := found + {instances[key]};
          }
        }
        todo, done := todo - {key}, done + {key};
      }
      assert done == touched;
    }

    /** The loop over the live records. */
    method MergeAll(recs: seq<Record>) returns (touched: set<Name>, discovered: seq<Name>)
      requires AllInPacket(recs)
      modifies this`instances, this`hostnameToInstance
      ensures Progress(instances, hostnameToInstance, touched, discovered)
           == MergeRecords(Progress(old(instances), old(hostnameToInstance), {}, []), recs)
    {
      hide NameAt, TxtFrom, InstanceKeyOf, FindInstance, ApplyEntries, SrvOf;
      touched, discovered := {}, [];
      for i := 0 to |recs|
        invariant Progress(instances, hostnameToInstance, touched, discovered)
               == MergeRecords(Progress(old(instances), old(hostnameToInstance), {}, []), recs[..i])
      {
        var record := recs[i];
        assert recs[..i + 1][..i] == recs[..i];
        if record.rtype == TYPE_PTR {
          var target := PtrTarget(record);
          if target.Some? {
            var known := FindInstance(instances, target.value);
            if known.Some? {
              var (key, instance) := known.value;
              if key !in instances {
                discovered := discovered + [key];
              }
              instances := instances[key := instance];
              touched := touched + {key};
            }
          }
        } else if record.rtype == TYPE_SRV {
          var srv := SrvOf(record);
          if srv.Some? {
            var known := FindInstance(instances, record.name);
            if known.Some? {
              var (key, instance) := known.value;
              var updated := instance.(port := srv.value.port, target := srv.value.target);
              if srv.value.target != [] {
                hostnameToInstance := hostnameToInstance[Lower(srv.value.target) := key];
              }
              instances := instances[key := updated];
              touched := touched + {key};
            }
          }
        } else if record.rtype == TYPE_TXT {
          var strings := ParseTxtStrings(record);
          var known := FindInstance(instances, record.name);
          if known.Some? {
            var (key, instance) := known.value;
            var updated := ReadEntries(instance.(txt := strings), strings);
            instances := instances[key := updated];
            touched := touched + {key};
          }
        }
      }
      assert recs[..|recs|] == recs;
    }

    /** One address set per hostname, applied in whatever order the hash map yields them. */
    method ApplyAddressGroups(groups: Groups, v6: bool, touchedBefore: set<Name>, ghost discovered: seq<Name>)
      returns (touched: set<Name>, ghost order: seq<Name>)
      modifies this`instances
      ensures IsOrderOf(order, groups)
      ensures Progress(instances, hostnameToInstance, touched, discovered)
           == ApplyGroups(Progress(old(instances), hostnameToInstance, touchedBefore, discovered), groups, order, v6)
    {
      touched, order := touchedBefore, [];
      ghost var start := Progress(instances, hostnameToInstance, touchedBefore, discovered);
      var todo := groups.Keys;
      while todo != {}
        invariant todo <= groups.Keys
        invariant forall h :: h in order <==> h in groups.Keys - todo
        invariant forall i, j :: 0 <= i < j < |order| ==> order[i] != order[j]
        invariant Progress(instances, hostnameToInstance, touched, discovered) == ApplyGroups(start, groups, order, v6)
        decreases |todo|
      {
        var hostname :| hostname in todo;
        assert hostname !in order;
        ghost var next := order + [hostname];
        assert next[..|next| - 1] == order;
        if hostname in hostnameToInstance {
          var key := hostnameToInstance[hostname];
          if key in instances {
            var instance := instances[key];
            instances := instances[key := if v6 then instance.(addrs6 := groups[hostname]) else instance.(ips := groups[hostname])];
            touched := touched + {key};
          }
        }
        order := next;
        todo := todo - {hostname};
      }
    }

    /** Stamps and returns the discovered instances that are still incomplete. */
    method AskForDiscovered(discovered: seq<Name>, ghost touched: set<Name>, now: nat) returns (asked: seq<Name>)
      modifies this`srvTxtQueriedAt
      ensures asked == FollowUps(Progress(instances, hostnameToInstance, touched, discovered), discovered)
      ensures srvTxtQueriedAt == Stamp(old(srvTxtQueriedAt), asked, now)
    {
      hide FollowUps, Stamp;
      asked := [];
      ghost var p := Progress(instances, hostnameToInstance, touched, discovered);
      StampNone(srvTxtQueriedAt, now);
      FollowUpsNone(p);
      for i := 0 to |discovered|
        invariant asked == FollowUps(p, discovered[..i])
        invariant srvTxtQueriedAt == Stamp(old(srvTxtQueriedAt), asked, now)
      {
        FollowUpsStep(p, discovered, i);
        var key := discovered[i];
        if key in instances && !instances[key].Complete() {
          StampStep(old(srvTxtQueriedAt), asked, key, now);
          srvTxtQueriedAt := srvTxtQueriedAt[key := now];
          asked := asked + [key];
        }
      }
      assert discovered[..|discovered|] == discovered;
    }

    /** The bookkeeping of one browse cycle; the keys returned are asked for SRV and TXT, and for A. */
    method BrowseOnce(now: nat) returns (srvTxt: set<Name>, a: set<Name>)
      requires Valid()
      modifies this`srvTxtQueriedAt, this`aQueriedAt
      ensures Valid() && Current() == AfterBrowse(old(Current()), now)
      ensures srvTxt == DueForSrvTxt(old(Current()), now) && a == DueForA(old(Current()), now)
      ensures forall k :: k in srvTxt || k in a ==> k in instances && !instances[k].Complete()
      ensures forall k :: k in srvTxt ==> now >= LastAsked(old(srvTxtQueriedAt), k) + FOLLOW_UP_RETRY_MS
      ensures forall k :: k in a ==> now >= LastAsked(old(aQueriedAt), k) + FOLLOW_UP_RETRY_MS
    {
      hide Invariant;
      srvTxt, a := DueForSrvTxt(Current(), now), DueForA(Current(), now);
      DueKeys(Current(), now);
      srvTxtQueriedAt := srvTxtQueriedAt + map k | k in srvTxt :: now;
      aQueriedAt := aQueriedAt + map k | k in a :: now;
      BrowseKeepsInvariant(old(Current()), now);
    }
  }

  lemma {:induction false} StampNone(times: map<Name, nat>, now: nat)
    ensures Stamp(times, [], now) == times
  {
  }

  lemma {:induction false} StampStep(times: map<Name, nat>, keys: seq<Name>, key: Name, now: nat)
    ensures Stamp(times, keys, now)[key := now] == Stamp(times, keys + [key], now)
  {
  }

  lemma {:induction false} FollowUpsNone(p: Progress)
    ensures FollowUps(p, []) == []
  {
  }

  lemma {:induction false} FollowUpsStep(p: Progress, keys: seq<Name>, i: nat)
    requires i < |keys|
    ensures FollowUps(p, keys[..i + 1])
         == if keys[i] in p.instances && !p.instances[keys[i]].Complete() then FollowUps(p, keys[..i]) + [keys[i]] else FollowUps(p, keys[..i])
  {
    assert keys[..i + 1][..i] == keys[..i];
  }

  lemma {:induction false} DueKeys(st: State, now: nat)
    requires Invariant(st)
    ensures forall k :: k in DueForSrvTxt(st, now) <==>
              k in st.instances && !st.instances[k].Complete() && now >= LastAsked(st.srvTxtQueriedAt, k) + FOLLOW_UP_RETRY_MS
    ensures forall k :: k in DueForA(st, now) <==>
              k in st.instances && !st.instances[k].Complete() && st.instances[k].target != [] && now >= LastAsked(st.aQueriedAt, k) + FOLLOW_UP_RETRY_MS
  {
    hide InstanceKeyOf;
    assert forall k :: k in st.instances ==> BelongsUnder(st.instances[k], k);
  }

  /** An instance that was just asked for is not asked for again within the retry time. */
  lemma {:induction false} NotAskedTwice(st: State, now: nat, later: nat, k: Name)
    requires Invariant(st) && now <= later < now + FOLLOW_UP_RETRY_MS
    ensures k in DueForSrvTxt(st, now) ==> k !in DueForSrvTxt(AfterBrowse(st, now), later)
    ensures k in DueForA(st, now) ==> k !in DueForA(AfterBrowse(st, now), later)
  {
    hide InstanceKeyOf, DueForSrvTxt, DueForA;
    BrowseKeepsInvariant(st, now);
    DueKeys(AfterBrowse(st, now), later);
  }

  lemma {:induction false} BrowseKeepsInvariant(st: State, now: nat)
    requires Invariant(st)
    ensures Invariant(AfterBrowse(st, now))
  {
    hide InstanceKeyOf;
  }

  /** One packet has been merged, in some order of its address groups. */
  ghost predicate Handled(st: State, recs: seq<Record>, now: nat, aOrder: seq<Name>, v6Order: seq<Name>,
                          after: State, found: set<FoundDevice>, asked: seq<Name>, clientId: Bytes)
    requires AllInPacket(recs)
  {
    var p := MergePacket(st, recs, aOrder, v6Order);
    LiveInPacket(recs);
    && IsOrderOf(aOrder, AddressGroups(LiveRecords(recs), false))
    && IsOrderOf(v6Order, AddressGroups(LiveRecords(recs), true))
    && after == StateAfter(st, recs, now, aOrder, v6Order)
    && found == Devices(Emitted(p, clientId))
    && asked == FollowUps(p, p.discovered)
  }

  lemma {:induction false} LiveIs(recs: seq<Record>, live: seq<Record>)
    requires live == if GoodbyeKeys(recs) != {} then WithTtl(recs) else recs
    ensures live == LiveRecords(recs)
  {
  }

  method GoodbyeInstanceKeys(recs: seq<Record>) returns (keys: set<Name>)
    ensures keys == GoodbyeKeys(recs)
  {
    hide GoodbyeKey;
    keys := {};
    for i := 0 to |recs|
      invariant keys == GoodbyeKeys(recs[..i])
    {
      assert recs[..i + 1][..i] == recs[..i];
      var key := GoodbyeKey(recs[i]);
      if key.Some? {
        keys := keys + {key.value};
      }
    }
    assert recs[..|recs|] == recs;
  }

  method KeepWithTtl(recs: seq<Record>) returns (live: seq<Record>)
    ensures live == WithTtl(recs)
  {
    live := [];
    for i := 0 to |recs|
      invariant live == WithTtl(recs[..i])
    {
      assert recs[..i + 1][..i] == recs[..i];
      if recs[i].ttl != 0 {
        live := live + [recs[i]];
      }
    }
    assert recs[..|recs|] == recs;
  }

  method GroupAddresses(recs: seq<Record>, v6: bool) returns (groups: Groups)
    requires AllInPacket(recs)
    ensures groups == AddressGroups(recs, v6)
  {
    hide IpOf, Ipv6Of;
    groups := map[];
    for i := 0 to |recs|
      invariant groups == AddressGroups(recs[..i], v6)
    {
      assert recs[..i + 1][..i] == recs[..i];
      var ip := if v6 then Ipv6Of(recs[i]) else IpOf(recs[i]);
      if ip.Some? {
        groups := AddToGroup(groups, Lower(recs[i].name), ip.value);
      }
    }
    assert recs[..|recs|] == recs;
  }

  method ReadEntries(inst: Instance, entries: seq<Bytes>) returns (updated: Instance)
    ensures updated == ApplyEntries(inst, entries)
  {
    updated := inst;
    for i := 0 to |entries|
      invariant updated == ApplyEntries(inst, entries[..i])
    {
      assert entries[..i + 1][..i] == entries[..i];
      var entry := entries[i];
      var eq := FindEquals(entry);
      if eq == |entry| || eq == 0 {
        continue;
      }
      var key, value := entry[..eq], entry[eq + 1..];
      if key == KEY_ID {
        updated := updated.(id := value);
      } else if key == KEY_DEVICE_TYPE {
        updated := updated.(deviceType := value);
      } else if key == KEY_VERSION {
        updated := updated.(version := value);
      } else if key == KEY_PLATFORM {
        updated := updated.(platform := value);
      }
    }
    assert entries[..|entries|] == entries;
  }
}
