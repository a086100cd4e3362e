/**
 The cache of nearby devices (src/chat/db/nearby_device.rs) and its verification
 pass (src/local_api/discover/nearby_discover_manager.rs): rows carry a version,
 `last_seen`, that every write raises, and stale rows are refreshed or deleted
 only if nobody wrote them since they were read.
 */
module NearbyCache {
  type Id = string

  /** Everything a row holds besides its id and `last_seen`. */
  datatype Device = Device(name: string, ips: seq<string>, port: nat, deviceType: string, version: string, platform: string)

  datatype Row = Row(device: Device, lastSeen: int)

  /**
   What a session has emitted for a device: the fields `same_snapshot` compares.
   Addresses are sorted before the comparison, so they count as a multiset.
   */
  datatype Discovered = Discovered(name: string, ips: multiset<string>, port: nat, deviceType: string, version: string,
                                   platform: string, status: string)

  function DiscoveredOf(device: Device, status: string): Discovered
  {
    Discovered(device.name, multiset(device.ips), device.port, device.deviceType, device.version, device.platform, status)
  }

  const STALE_AFTER_MS: int := 60000

  function Max(a: int, b: int): int
  {
    if a >= b then a else b
  }

  // ---- The three statements ------------------------------------------------------------------

  /** Insert, or on conflict overwrite with `last_seen = MAX(last_seen + 1, excluded.last_seen)`. */
  function Saved(rows: map<Id, Row>, id: Id, device: Device, now: int): map<Id, Row>
  {
    rows[id := Row(device, if id in rows then Max(rows[id].lastSeen + 1, now) else now)]
  }

  predicate Matches(rows: map<Id, Row>, id: Id, lastSeen: int)
  {
    id in rows && rows[id].lastSeen == lastSeen
  }

  function Refreshed(rows: map<Id, Row>, id: Id, lastSeen: int, now: int): map<Id, Row>
  {
    if Matches(rows, id, lastSeen) then rows[id := rows[id].(lastSeen := Max(lastSeen + 1, now))] else rows
  }

  function Deleted(rows: map<Id, Row>, id: Id, lastSeen: int): map<Id, Row>
  {
    if Matches(rows, id, lastSeen) then rows - {id} else rows
  }

  /** The table and the rows emitted this session. */
  class DeviceCache {
    var rows: map<Id, Row>
    var seenInSession: map<Id, Discovered>

    constructor ()
      ensures rows == map[] && seenInSession == map[]
    {
      rows, seenInSession := map[], map[];
    }

    /** `save_cached_nearby_device` */
    method Save(id: Id, device: Device, now: int)
      modifies this`rows
      ensures rows == Saved(old(rows), id, device, now)
    {
      if id in rows {
        var seen := Max(rows[id].lastSeen + 1, now);
        rows := rows[id := Row(device, seen)];
      } else {
        rows := rows[id := Row(device, now)];
      }
    }

    /** `refresh_cached_nearby_device_if_last_seen_matches` */
    method RefreshIfMatches(id: Id, lastSeen: int, now: int) returns (changed: bool)
      modifies this`rows
      ensures changed == Matches(old(rows), id, lastSeen) && rows == Refreshed(old(rows), id, lastSeen, now)
    {
      changed := false;
      if id in rows && rows[id].lastSeen == lastSeen {
        rows := rows[id := rows[id].(lastSeen := Max(rows[id].lastSeen + 1, now))];
        changed := true;
      }
    }

    /** `delete_cached_nearby_device_if_last_seen_matches` */
    method DeleteIfMatches(id: Id, lastSeen: int) returns (changed: bool)
      modifies this`rows
      ensures changed == Matches(old(rows), id, lastSeen) && rows == Deleted(old(rows), id, lastSeen)
    {
      changed := false;
      if id in rows && rows[id].lastSeen == lastSeen {
        rows := rows - {id};
        changed := true;
      }
    }

    /** The save step of `process_discovered_device`; emits only what changed, the pairing status included. */
    method Announce(id: Id, device: Device, status: string, now: int) returns (emit: bool)
      modifies this
      ensures rows == Saved(old(rows), id, device, now)
      ensures emit <==> !(id in old(seenInSession) && old(seenInSession)[id] == DiscoveredOf(device, status))
      ensures seenInSession == old(seenInSession)[id := DiscoveredOf(device, status)]
    {
      Save(id, device, now);
      var discovered := DiscoveredOf(device, status);
      if id in seenInSession && seenInSession[id] == discovered {
        emit := false;
        assert seenInSession[id := discovered] == seenInSession;
      } else {
        seenInSession := seenInSession[id := discovered];
        emit := true;
      }
    }

    /** One result of a verification pass: refresh after a ping that succeeded, delete otherwise. */
    method Settle(id: Id, lastSeen: int, pingSucceeded: bool, now: int) returns (unreachable: bool)
      modifies this
      ensures rows == if pingSucceeded then Refreshed(old(rows), id, lastSeen, now) else Deleted(old(rows), id, lastSeen)
      ensures unreachable <==> !pingSucceeded && Matches(old(rows), id, lastSeen)
      ensures seenInSession == if unreachable then old(seenInSession) - {id} else old(seenInSession)
    {
      unreachable := false;
      if pingSucceeded {
        var changed := RefreshIfMatches(id, lastSeen, now);
      } else {
        unreachable := DeleteIfMatches(id, lastSeen);
        if unreachable {
          seenInSession := seenInSession - {id};
        }
      }
    }
  }

  // ---- Interleavings -----------------------------------------------------------------------------
  /** A row as a verification pass read it; `writes` counts the row's writes so far. */
  datatype Snapshot = Snapshot(id: Id, row: Row, writes: nat)

  /** The rows read by passes, and those of them found stale; `writes` is bookkeeping for the statements below. */
  datatype System = System(clock: int, rows: map<Id, Row>, writes: map<Id, nat>, fetched: set<Snapshot>, pending: set<Snapshot>)

  /**
   Time passes, a device announces itself, a pass reads all rows, a pass keeps
   the stale ones by a cutoff taken later, a pass settles one of them.
   */
  datatype Event =
    | Tick(ms: nat)
    | Announce(id: Id, device: Device)
    | ReadRows
    | KeepStale
    | SettleOne(snapshot: Snapshot, pingSucceeded: bool)

  function WritesOf(s: System, id: Id): nat
  {
    if id in s.writes then s.writes[id] else 0
  }

  /** A write of `id` that takes effect. */
  function Counted(s: System, id: Id, rows: map<Id, Row>): System
  {
    s.(rows := rows, writes := s.writes[id := WritesOf(s, id) + 1])
  }

  function AllRows(s: System): set<Snapshot>
  {
    set id | id in s.rows :: Snapshot(id, s.rows[id], WritesOf(s, id))
  }

  function StaleRows(s: System): set<Snapshot>
  {
    set p | p in s.fetched && p.row.lastSeen < s.clock - STALE_AFTER_MS
  }

  function Step(s: System, e: Event): System
  {
    match e
    case Tick(ms) => s.(clock := s.clock + ms)
    case Announce(id, device) => Counted(s, id, Saved(s.rows, id, device, s.clock))
    case ReadRows => s.(fetched := s.fetched + AllRows(s))
    case KeepStale => s.(pending := s.pending + StaleRows(s))
    case SettleOne(p, pingSucceeded) =>
      if p !in s.pending then s
      else if pingSucceeded then
        if Matches(s.rows, p.id, p.row.lastSeen) then Counted(s, p.id, Refreshed(s.rows, p.id, p.row.lastSeen, s.clock)) else s
      else s.(rows := Deleted(s.rows, p.id, p.row.lastSeen))
  }

  function Run(start: int, events: seq<Event>): System
  {
    if events == [] then System(start, map[], map[], {}, {}) else Step(Run(start, events[..|events| - 1]), events[|events| - 1])
  }

  /** A row not written since it was read is as read, one written since is newer, one gone was older than the clock. */
  ghost predicate SnapshotSound(s: System, p: Snapshot)
  {
    && (p.id !in s.rows ==> p.row.lastSeen < s.clock)
    && p.writes <= WritesOf(s, p.id)
    && (p.id in s.rows && p.writes == WritesOf(s, p.id) ==> s.rows[p.id] == p.row)
    && (p.id in s.rows && p.writes < WritesOf(s, p.id) ==> s.rows[p.id].lastSeen > p.row.lastSeen)
  }

  ghost predicate Sound(s: System)
  {
    && (forall p :: p in s.fetched ==> SnapshotSound(s, p))
    && (forall p :: p in s.pending ==> p in s.fetched && p.row.lastSeen < s.clock - STALE_AFTER_MS)
  }

  lemma {:induction false} StepSound(s: System, e: Event)
    requires Sound(s)
    ensures Sound(Step(s, e))
  {
    forall p | p in Step(s, e).fetched ensures SnapshotSound(Step(s, e), p) {
      if p in s.fetched {
        assert SnapshotSound(s, p);
      }
      if e.SettleOne? && e.snapshot in s.pending {
        assert SnapshotSound(s, e.snapshot);
      }
    }
  }

  lemma {:induction false} RunSound(start: int, events: seq<Event>)
    ensures Sound(Run(start, events))
    decreases |events|
  {
    if events != [] {
      RunSound(start, events[..|events| - 1]);
      StepSound(Run(start, events[..|events| - 1]), events[|events| - 1]);
    }
  }

  /**
   In every interleaving of announcements, refreshes and verification passes, a
   snapshot still matches exactly when the row is there and no write of that
   device took effect since it was taken, even if the row was deleted and
   inserted again in between; and then the row is the one that was read.
   */
  lemma {:induction false} MatchesIffUnwritten(start: int, events: seq<Event>, p: Snapshot)
    requires p in Run(start, events).pending
    ensures var s := Run(start, events);
            && (Matches(s.rows, p.id, p.row.lastSeen) <==> p.id in s.rows && WritesOf(s, p.id) == p.writes)
            && (Matches(s.rows, p.id, p.row.lastSeen) ==> s.rows[p.id] == p.row)
  {
    RunSound(start, events);
    assert SnapshotSound(Run(start, events), p);
  }

  /** A stale-record delete removes a row only if nothing wrote that device since the snapshot. */
  lemma {:induction false} DeleteOnlyUnwritten(start: int, events: seq<Event>, p: Snapshot)
    requires p in Run(start, events).pending
    ensures var s, t := Run(start, events), Step(Run(start, events), SettleOne(p, false));
            && (p.id in s.rows && p.id !in t.rows <==> p.id in s.rows && WritesOf(s, p.id) == p.writes)
            && forall id :: id != p.id ==> (id in s.rows <==> id in t.rows) && (id in s.rows ==> t.rows[id] == s.rows[id])
  {
    hide Run;
    MatchesIffUnwritten(start, events, p);
  }

  /** A save stores the announced fields, at the announced time or just above the last; other devices stay. */
  lemma {:induction false} SavedRow(rows: map<Id, Row>, id: Id, device: Device, now: int)
    ensures var after := Saved(rows, id, device, now);
            && after.Keys == rows.Keys + {id} && after[id].device == device && after[id].lastSeen >= now
            && (after[id].lastSeen > now ==> id in rows && after[id].lastSeen == rows[id].lastSeen + 1)
            && forall other :: other in rows && other != id ==> after[other] == rows[other]
  {
  }

  /** A refresh or a delete that does not match changes nothing; one that matches keeps the fields, or drops only its row. */
  lemma {:induction false} SettledRow(rows: map<Id, Row>, id: Id, lastSeen: int, now: int)
    ensures var refreshed, deleted := Refreshed(rows, id, lastSeen, now), Deleted(rows, id, lastSeen);
            && refreshed.Keys == rows.Keys
            && (forall other :: other in rows ==> refreshed[other].device == rows[other].device)
            && (forall other :: other in rows && !(other == id && Matches(rows, id, lastSeen)) ==> refreshed[other] == rows[other])
            && (Matches(rows, id, lastSeen) ==> refreshed[id].lastSeen >= now && refreshed[id].lastSeen > lastSeen)
            && (forall other :: other in deleted <==> other in rows && !(other == id && rows[id].lastSeen == lastSeen))
            && (forall other :: other in deleted ==> deleted[other] == rows[other])
  {
  }

  /** Two announcements count as the same exactly when all fields agree, the addresses up to their order. */
  lemma {:induction false} SameDiscoveredIff(a: Device, b: Device, s: string, t: string)
    ensures DiscoveredOf(a, s) == DiscoveredOf(b, t)
       <==> s == t && multiset(a.ips) == multiset(b.ips) && a == b.(ips := a.ips)
  {
  }

  /** Every write raises `last_seen`, also when the clock stands still. */
  lemma {:induction false} WritesRaiseLastSeen(rows: map<Id, Row>, id: Id, device: Device, lastSeen: int, now: int)
    requires id in rows
    ensures Saved(rows, id, device, now)[id].lastSeen > rows[id].lastSeen
    ensures Matches(rows, id, lastSeen) ==> Refreshed(rows, id, lastSeen, now)[id].lastSeen > rows[id].lastSeen
    ensures Matches(rows, id, lastSeen) ==> !Matches(Refreshed(rows, id, lastSeen, now), id, lastSeen)
    ensures !Matches(Saved(rows, id, device, now), id, rows[id].lastSeen)
  {
  }

  /**
   A row deleted and inserted again matches an old snapshot exactly when the
   clock reads the old `last_seen` at the insert. Taking only rows that are
   60 seconds behind the clock is what rules this out.
   */
  lemma {:induction false} ReinsertedMatchesIff(rows: map<Id, Row>, id: Id, device: Device, now: int)
    requires id in rows
    ensures Matches(Saved(Deleted(rows, id, rows[id].lastSeen), id, device, now), id, rows[id].lastSeen)
       <==> now == rows[id].lastSeen
    ensures rows[id].lastSeen < now - STALE_AFTER_MS
        ==> !Matches(Saved(Deleted(rows, id, rows[id].lastSeen), id, device, now), id, rows[id].lastSeen)
  {
  }
}
