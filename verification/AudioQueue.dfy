/**
 The audio tables and the queue operations on them (src/library/audio_queue.rs,
 src/library/db/audio_queue.rs). Tables are sequences in sort order; the library
 is one fixed sequence of tracks with distinct paths, whatever it is sorted by.
 */
module AudioQueue {
  import opened Text
  import opened PlaybackOrder
  import opened Playback

  datatype SourceKind = NoSource | Playlist | Library

  datatype QueueSource = QueueSource(kind: SourceKind, playlistId: string, currentPath: string, currentIndex: int)

  const DEFAULT_SOURCE := QueueSource(NoSource, "", "", -1)

  datatype PlaylistRow = PlaylistRow(track: Track, sortOrder: int)

  function Tracks(rows: seq<PlaylistRow>): (r: seq<Track>)
    ensures |r| == |rows| && forall i :: 0 <= i < |r| ==> r[i] == rows[i].track
  {
    seq(|rows|, i requires 0 <= i < |rows| => rows[i].track)
  }

  ghost predicate Ascending(rows: seq<PlaylistRow>)
  {
    forall i, j :: 0 <= i < j < |rows| ==> rows[i].sortOrder < rows[j].sortOrder
  }

  ghost predicate GoodRows(rows: seq<PlaylistRow>)
  {
    Ascending(rows) && DistinctPaths(Tracks(rows))
  }

  // ---- What the edits mean ------------------------------------------------------------------

  /** Already queued entries of the incoming paths move; the others keep their order. */
  function Enqueued(queue: seq<Track>, items: seq<Track>, playNext: bool): seq<Track>
  {
    var kept := WithoutPaths(queue, Paths(items));
    if playNext then items + kept else kept + items
  }

  function FoundInOrder(all: seq<Track>, paths: seq<string>): seq<Track>
  {
    if paths == [] then []
    else
      var rest, i := FoundInOrder(all, paths[..|paths| - 1]), IndexOf(all, paths[|paths| - 1]);
      if i < 0 then rest else rest + [all[i]]
  }

  function PathSet(paths: seq<string>): set<string>
  {
    set i | 0 <= i < |paths| :: paths[i]
  }

  /** The listed tracks in the listed order, then the unlisted ones. */
  function Reordered(all: seq<Track>, paths: seq<string>): seq<Track>
  {
    FoundInOrder(all, paths) + WithoutPaths(all, PathSet(paths))
  }

  function AddedTracks(existing: seq<Track>, items: seq<Track>): seq<Track>
  {
    if items == [] then existing
    else
      var before, last := AddedTracks(existing, items[..|items| - 1]), items[|items| - 1];
      if IndexOf(before, last.path) >= 0 then before else before + [last]
  }

  /** Enqueueing distinct tracks never duplicates a path and loses none. */
  lemma {:induction false} EnqueuedIsExact(queue: seq<Track>, items: seq<Track>, playNext: bool)
    requires DistinctPaths(queue)
    ensures DistinctPaths(Enqueued(queue, items, playNext)) <==> DistinctPaths(items)
    ensures Paths(Enqueued(queue, items, playNext)) == Paths(queue) + Paths(items)
  {
    hide Paths, WithoutPaths, DistinctPaths;
    var kept := WithoutPaths(queue, Paths(items));
    WithoutPathsMembers(queue, Paths(items));
    PathsKept(queue, Paths(items));
    PathsOfBoth(items, kept);
    PathsOfBoth(kept, items);
    forall t, u | t in kept && u in items ensures t.path != u.path {
      PathIn(items, t.path);
    }
    if DistinctPaths(items) {
      AppendDistinct(items, kept);
      AppendDistinct(kept, items);
    }
    if DistinctPaths(Enqueued(queue, items, playNext)) {
      PartDistinct(Enqueued(queue, items, playNext), items, if playNext then 0 else |kept|);
    }
  }

  /** The incoming tracks stand at the end asked for; the others keep their order. */
  lemma {:induction false} EnqueuedAtEnd(queue: seq<Track>, items: seq<Track>, playNext: bool)
    ensures var r, others := Enqueued(queue, items, playNext), WithoutPaths(queue, Paths(items));
            && |r| == |items| + |others|
            && (playNext ==> r[..|items|] == items && r[|items|..] == others)
            && (!playNext ==> r[|others|..] == items && r[..|others|] == others)
  {
    hide WithoutPaths, Paths;
  }

  predicate HasPath(tracks: seq<Track>, path: string)
  {
    path in Paths(tracks)
  }

  lemma {:induction false} KeptHasPath(queue: seq<Track>, items: seq<Track>, path: string)
    requires !HasPath(items, path)
    ensures HasPath(WithoutPaths(queue, Paths(items)), path) <==> HasPath(queue, path)
  {
    hide Paths, WithoutPaths;
    PathsKept(queue, Paths(items));
  }

  predicate EndsIn(tracks: seq<Track>, path: string)
  {
    tracks != [] && tracks[|tracks| - 1].path == path
  }

  /** "Next" returns the track `t`. */
  predicate NextIs(o: Order, path: string, t: Track)
    requires WellPlaced(o) && o.Total() > 0
  {
    var next := Walked(o, StartRank(o, path, true), true);
    next.Some? && next.value < o.Total() && Slots(o)[next.value] == t
  }

  lemma {:induction false} NextIsBeside(o: Order, path: string, r: nat, t: Track)
    requires o == OrderOf(o.source, o.queued, path) && path != "" && Superseded(o) == {}
    requires DistinctPaths(o.source) && DistinctPaths(o.queued) && r < o.Total() && Slots(o)[r].path == path
    ensures NextIs(o, path, t) <==> Slots(o)[NextRank(o.Total(), r, true)] == t
  {
    hide Slots, DistinctPaths, Superseded, IndexOf, Walked, StartRank;
    StepFromSlot(o, path, true, r);
  }

  lemma {:induction false} EnqueuedFront(queue: seq<Track>, items: seq<Track>)
    requires DistinctPaths(queue) && DistinctPaths(items)
    ensures DistinctPaths(Enqueued(queue, items, true))
    ensures Enqueued(queue, items, true) == items + WithoutPaths(queue, Paths(items))
  {
    hide Paths, WithoutPaths, DistinctPaths;
    EnqueuedIsExact(queue, items, true);
  }

  /**
   Tracks enqueued to play next are next exactly while the current track is not
   itself a queued one, or closes a queue that has no source behind it.
   */
  lemma {:induction false} PlayNextIff(o: Order, queue: seq<Track>, items: seq<Track>, path: string, r: nat)
    requires o == OrderOf(o.source, o.queued, path) && o.queued == Enqueued(queue, items, true) && path != ""
    requires DistinctPaths(o.source) && DistinctPaths(queue) && DistinctPaths(items) && items != []
    requires Superseded(o) == {} && StandsAt(o, path, r) && !HasPath(items, path)
    ensures NextIs(o, path, items[0])
       <==> !HasPath(queue, path) || (o.source == [] && EndsIn(WithoutPaths(queue, Paths(items)), path))
  {
    hide DistinctPaths, WithoutPaths, Superseded, Enqueued, NextIs, Paths, IndexOf, NextRank, Slots, PositionOf, HasPath, OrderOf, WellPlaced;
    var others := WithoutPaths(queue, Paths(items));
    EnqueuedFront(queue, items);
    KeptHasPath(queue, items, path);
    NextIsBeside(o, path, r, items[0]);
    NextSlotIs(o, path, r, items, others);
  }

  /** Where the slot after the current one stands, for a queue that starts with `items`. */
  lemma {:induction false} NextSlotIs(o: Order, path: string, r: nat, items: seq<Track>, others: seq<Track>)
    requires o == OrderOf(o.source, o.queued, path) && path != "" && Superseded(o) == {}
    requires DistinctPaths(o.source) && DistinctPaths(o.queued) && r < o.Total() && Slots(o)[r].path == path
    requires items != [] && o.queued == items + others && !HasPath(items, path)
    ensures Slots(o)[NextRank(o.Total(), r, true)] == items[0]
       <==> !HasPath(others, path) || (o.source == [] && others != [] && others[|others| - 1].path == path)
  {
    hide Slots, Superseded, DistinctPaths;
    OnlyManual(o, path, r);
    SlotIsCurrent(o, path, r);
    PathsOfBoth(items, others);
    TrackAtIsSlot(o, r);
    TrackAtIsSlot(o, NextRank(o.Total(), r, true));
    if path in Paths(o.queued) {
      QueuedIsCurrent(o, path, r, items, others);
    }
  }

  lemma {:induction false} QueuedIsCurrent(o: Order, path: string, r: nat, items: seq<Track>, others: seq<Track>)
    requires o == OrderOf(o.source, o.queued, path) && path != "" && Superseded(o) == {}
    requires DistinctPaths(o.queued) && r < o.Total() && StandsAt(o, path, r) && path in Paths(o.queued)
    requires items != [] && o.queued == items + others && path !in Paths(items)
    ensures path in Paths(others)
    ensures Slots(o)[NextRank(o.Total(), r, true)] == items[0] <==> o.source == [] && others[|others| - 1].path == path
  {
    hide Superseded, NextRank;
    PathsOfBoth(items, others);
    PathIn(o.queued, path);
    var t :| t in o.queued && t.path == path;
    NotInSource(o, t);
    assert o.pos == -1;
    assert o.queued[r].path == path;
    assert r >= |items|;
    if r + 1 < |o.queued| {
      assert o.queued[r + 1].path != o.queued[0].path && o.queued[|o.queued| - 1].path != o.queued[r].path;
      assert others[|others| - 1] == o.queued[|o.queued| - 1];
    } else if o.source != [] {
      NotInSource(o, o.queued[0]);
      assert Slots(o)[r + 1] == o.source[0];
    }
  }

  lemma {:induction false} NotInSource(o: Order, t: Track)
    requires WellPlaced(o) && Superseded(o) == {} && t in o.queued
    ensures t.path !in Paths(o.source)
    ensures IndexOf(o.source, t.path) == -1
  {
    PathIn(o.queued, t.path);
    assert t.path in Paths(o.source) * Paths(o.queued) ==> t.path in Superseded(o);
  }

  lemma {:induction false} PathsOfBoth(a: seq<Track>, b: seq<Track>)
    ensures Paths(a + b) == Paths(a) + Paths(b)
  {
    hide Paths;
    forall p ensures p in Paths(a + b) <==> p in Paths(a) || p in Paths(b) {
      PathIn(a + b, p);
      PathIn(a, p);
      PathIn(b, p);
    }
  }

  lemma {:induction false} PathsKept(tracks: seq<Track>, gone: set<string>)
    ensures Paths(WithoutPaths(tracks, gone)) == Paths(tracks) - gone
  {
    hide Paths, WithoutPaths;
    WithoutPathsMembers(tracks, gone);
    forall p ensures p in Paths(WithoutPaths(tracks, gone)) <==> p in Paths(tracks) && p !in gone {
      PathIn(WithoutPaths(tracks, gone), p);
      PathIn(tracks, p);
    }
  }

  lemma {:induction false} PartDistinct(all: seq<Track>, part: seq<Track>, at: nat)
    requires at + |part| <= |all| && all[at..at + |part|] == part && DistinctPaths(all)
    ensures DistinctPaths(part)
  {
    forall i, j | 0 <= i < j < |part| ensures part[i].path != part[j].path {
      assert part[i] == all[at + i] && part[j] == all[at + j];
    }
  }

  lemma {:induction false} FoundMembers(all: seq<Track>, paths: seq<string>)
    requires DistinctPaths(all)
    ensures forall t :: t in FoundInOrder(all, paths) <==> t in all && t.path in PathSet(paths)
    decreases |paths|
  {
    if paths == [] {
      assert PathSet(paths) == {};
    } else {
      var n := |paths| - 1;
      FoundMembers(all, paths[..n]);
      PathSetStep(paths);
      var i := IndexOf(all, paths[n]);
      forall t ensures t in FoundInOrder(all, paths) <==> t in all && t.path in PathSet(paths) {
        if t in all && t.path == paths[n] {
          var k :| 0 <= k < |all| && all[k] == t;
          assert k == i;
        }
      }
    }
  }

  lemma {:induction false} PathSetStep(paths: seq<string>)
    requires paths != []
    ensures PathSet(paths) == PathSet(paths[..|paths| - 1]) + {paths[|paths| - 1]}
  {
    var n := |paths| - 1;
    forall p ensures p in PathSet(paths) <==> p in PathSet(paths[..n]) || p == paths[n] {
      if p in PathSet(paths) {
        var i :| 0 <= i < |paths| && paths[i] == p;
        assert i < n ==> paths[..n][i] == p;
      }
      if p in PathSet(paths[..n]) {
        var i :| 0 <= i < n && paths[..n][i] == p;
        assert paths[i] == p;
      }
    }
  }

  lemma {:induction false} ReorderedMembers(all: seq<Track>, paths: seq<string>)
    requires DistinctPaths(all)
    ensures forall t :: t in Reordered(all, paths) <==> t in all
  {
    hide PathSet, WithoutPaths, FoundInOrder;
    FoundMembers(all, paths);
    WithoutPathsMembers(all, PathSet(paths));
  }

  lemma {:induction false} DistinctCount(tracks: seq<Track>, t: Track)
    requires DistinctPaths(tracks)
    ensures multiset(tracks)[t] == if t in tracks then 1 else 0
    decreases |tracks|
  {
    if tracks != [] {
      var n := |tracks| - 1;
      assert tracks == tracks[..n] + [tracks[n]];
      DistinctCount(tracks[..n], t);
    }
  }

  /** A reordering that takes effect is a permutation. */
  lemma {:induction false} ReorderedIsPermutation(all: seq<Track>, paths: seq<string>)
    requires DistinctPaths(all) && DistinctPaths(Reordered(all, paths))
    ensures multiset(Reordered(all, paths)) == multiset(all)
  {
    hide Reordered;
    ReorderedMembers(all, paths);
    forall t ensures multiset(Reordered(all, paths))[t] == multiset(all)[t] {
      DistinctCount(Reordered(all, paths), t);
      DistinctCount(all, t);
    }
  }

  /** No queued path is listed twice. */
  ghost predicate ListedOnce(all: seq<Track>, paths: seq<string>)
  {
    forall i, j :: 0 <= i < j < |paths| && paths[i] == paths[j] ==> IndexOf(all, paths[i]) < 0
  }

  lemma {:induction false} DistinctSnoc(before: seq<Track>, t: Track)
    ensures DistinctPaths(before + [t]) <==> DistinctPaths(before) && !exists i :: 0 <= i < |before| && before[i].path == t.path
  {
    var all := before + [t];
    if DistinctPaths(all) {
      PartDistinct(all, before, 0);
      forall i | 0 <= i < |before| ensures before[i].path != t.path {
        assert all[i].path != all[|before|].path;
      }
    }
  }

  lemma {:induction false} ListedSnoc(all: seq<Track>, paths: seq<string>)
    requires paths != []
    ensures ListedOnce(all, paths)
       <==> ListedOnce(all, paths[..|paths| - 1])
            && (IndexOf(all, paths[|paths| - 1]) < 0 || !exists i :: 0 <= i < |paths| - 1 && paths[i] == paths[|paths| - 1])
  {
    hide IndexOf;
    var n := |paths| - 1;
    assert forall i :: 0 <= i < n ==> paths[..n][i] == paths[i];
    if ListedOnce(all, paths) {
      forall i, j | 0 <= i < j < n && paths[..n][i] == paths[..n][j] ensures IndexOf(all, paths[..n][i]) < 0 {
        assert paths[i] == paths[j];
      }
    }
  }

  lemma {:induction false} FoundDistinctIff(all: seq<Track>, paths: seq<string>)
    requires DistinctPaths(all)
    ensures DistinctPaths(FoundInOrder(all, paths)) <==> ListedOnce(all, paths)
    decreases |paths|
  {
    hide PathSet, DistinctPaths, ListedOnce;
    if paths == [] {
      NoneListed(all);
    } else {
      var n := |paths| - 1;
      FoundDistinctIff(all, paths[..n]);
      FoundMembers(all, paths[..n]);
      ListedSnoc(all, paths);
      var before, k := FoundInOrder(all, paths[..n]), IndexOf(all, paths[n]);
      if k >= 0 {
        LastRepeats(all, paths, before, k);
        DistinctSnoc(before, all[k]);
      }
    }
  }

  lemma {:induction false} NoneListed(all: seq<Track>)
    ensures DistinctPaths([]) && ListedOnce(all, [])
  {
  }

  lemma {:induction false} LastRepeats(all: seq<Track>, paths: seq<string>, before: seq<Track>, k: nat)
    requires DistinctPaths(all) && paths != [] && before == FoundInOrder(all, paths[..|paths| - 1])
    requires k == IndexOf(all, paths[|paths| - 1]) && k < |all|
    requires forall t :: t in before <==> t in all && t.path in PathSet(paths[..|paths| - 1])
    ensures (exists i :: 0 <= i < |before| && before[i].path == all[k].path)
       <==> exists i :: 0 <= i < |paths| - 1 && paths[i] == paths[|paths| - 1]
  {
    var n := |paths| - 1;
    if i :| 0 <= i < |before| && before[i].path == all[k].path {
      assert before[i] in before;
      var j :| 0 <= j < n && paths[..n][j] == before[i].path;
      assert paths[j] == paths[n];
    }
    if i :| 0 <= i < n && paths[i] == paths[n] {
      assert paths[..n][i] == all[k].path;
      assert all[k] in before;
    }
  }

  /** A reordering takes effect exactly when it lists no queued path twice. */
  lemma {:induction false} ReorderTakesEffectIff(all: seq<Track>, paths: seq<string>)
    requires DistinctPaths(all)
    ensures DistinctPaths(Reordered(all, paths)) <==> ListedOnce(all, paths)
  {
    hide WithoutPaths, FoundInOrder, ListedOnce, PathSet;
    FoundDistinctIff(all, paths);
    FoundMembers(all, paths);
    WithoutPathsMembers(all, PathSet(paths));
    var found, rest := FoundInOrder(all, paths), WithoutPaths(all, PathSet(paths));
    if DistinctPaths(found) {
      AppendDistinct(found, rest);
    }
    if DistinctPaths(found + rest) {
      PartDistinct(found + rest, found, 0);
    }
  }

  /** The listed tracks come first, in the order listed; the others follow in their old order. */
  lemma {:induction false} ReorderedInOrder(all: seq<Track>, paths: seq<string>)
    requires forall k :: 0 <= k < |paths| ==> paths[k] in Paths(all)
    ensures var r := Reordered(all, paths);
            && |r| >= |paths| && (forall k :: 0 <= k < |paths| ==> r[k].path == paths[k] && r[k] in all)
            && r[|paths|..] == WithoutPaths(all, PathSet(paths))
  {
    hide Paths, WithoutPaths, PathSet;
    FoundListed(all, paths);
  }

  lemma {:induction false} FoundListed(all: seq<Track>, paths: seq<string>)
    requires forall k :: 0 <= k < |paths| ==> paths[k] in Paths(all)
    ensures var r := FoundInOrder(all, paths);
            |r| == |paths| && forall k :: 0 <= k < |paths| ==> r[k].path == paths[k] && r[k] in all
    decreases |paths|
  {
    hide Paths, IndexOf;
    if paths != [] {
      var n := |paths| - 1;
      FoundListed(all, paths[..n]);
      ListedIsQueued(all, paths[n]);
    }
  }

  lemma {:induction false} ListedIsQueued(all: seq<Track>, p: string)
    requires p in Paths(all)
    ensures var i := IndexOf(all, p); i >= 0 && all[i].path == p && all[i] in all
  {
  }

  /** Paths that are not queued are passed over. */
  lemma {:induction false} UnknownPassedOver(all: seq<Track>, paths: seq<string>, p: string)
    requires p !in Paths(all)
    ensures FoundInOrder(all, paths + [p]) == FoundInOrder(all, paths)
  {
    assert (paths + [p])[..|paths|] == paths;
  }

  /** New tracks are added at the end, in their order. */
  lemma {:induction false} AddedInOrder(existing: seq<Track>, items: seq<Track>)
    requires DistinctPaths(items) && Paths(existing) !! Paths(items)
    ensures AddedTracks(existing, items) == existing + items
    decreases |items|
  {
    if items == [] {
      assert existing + [] == existing;
    } else {
      var n := |items| - 1;
      PathsStep(items);
      AddedInOrder(existing, items[..n]);
      PathsOfBoth(existing, items[..n]);
      assert items[n].path !in Paths(existing + items[..n]);
      assert existing + items == existing + items[..n] + [items[n]];
    }
  }

  lemma {:induction false} AddedIsExact(existing: seq<Track>, items: seq<Track>)
    requires DistinctPaths(existing)
    ensures var r := AddedTracks(existing, items);
            DistinctPaths(r) && existing <= r && forall p :: p in Paths(r) <==> p in Paths(existing) || p in Paths(items)
    decreases |items|
  {
    hide Paths;
    if items == [] {
      PathsOfNone();
    } else {
      var n := |items| - 1;
      AddedIsExact(existing, items[..n]);
      PathsStep(items);
      var before := AddedTracks(existing, items[..n]);
      var r := AddedTracks(existing, items);
      if IndexOf(before, items[n].path) >= 0 {
        PathIn(before, items[n].path);
      } else {
        assert r[..|r| - 1] == before;
        PathsStep(r);
      }
    }
  }

  lemma {:induction false} PathsOfNone()
    ensures Paths([]) == {}
  {
  }

  // ---- The tables ------------------------------------------------------------------------------

  class LibraryDb {
    var source: QueueSource
    var queueItems: seq<Track>
    var playlists: map<string, seq<PlaylistRow>>

    /** No path is queued twice, no playlist lists a path twice, sort orders grow. */
    ghost predicate Valid()
      reads this
    {
      DistinctPaths(queueItems) && forall id :: id in playlists ==> GoodRows(playlists[id])
    }

    constructor ()
      ensures Valid() && source == DEFAULT_SOURCE && queueItems == [] && playlists == map[]
    {
      source, queueItems, playlists := DEFAULT_SOURCE, [], map[];
    }

    function PlaylistItems(id: string): seq<PlaylistRow>
      reads this
    {
      if id in playlists then playlists[id] else []
    }

    function SourceTracks(lib: seq<Track>): seq<Track>
      reads this
    {
      match source.kind
      case NoSource => []
      case Playlist => Tracks(PlaylistItems(source.playlistId))
      case Library => lib
    }

    /** The playback order for the stored source, queue and current track. */
    function CurrentOrder(lib: seq<Track>): (o: Order)
      reads this
      ensures WellPlaced(o)
    {
      OrderOf(SourceTracks(lib), queueItems, source.currentPath)
    }

    // ---- Manual queue --------------------------------------------------------------------------

    /** One transaction: the path is the primary key, and a failed insert rolls everything back. */
    method ReplaceQueueItems(items: seq<Track>)
      modifies this`queueItems
      ensures queueItems == if DistinctPaths(items) then items else old(queueItems)
    {
      var table: seq<Track> := [];
      for i := 0 to |items|
        invariant table == items[..i] && DistinctPaths(table)
      {
        var at := IndexOf(table, items[i].path);
        if at >= 0 {
          assert items[at].path == items[i].path;
          return;
        }
        table := table + [items[i]];
      }
      queueItems := table;
    }

    method Enqueue(items: seq<Track>, playNext: bool)
      requires Valid()
      modifies this`queueItems
      ensures Valid()
      ensures queueItems
           == if items != [] && DistinctPaths(items) then Enqueued(old(queueItems), items, playNext) else old(queueItems)
    {
      if items == [] {
        return;
      }
      var queued := WithoutPaths(queueItems, Paths(items));
      EnqueuedIsExact(queueItems, items, playNext);
      if playNext {
        queued := items + queued;
      } else {
        queued := queued + items;
      }
      ReplaceQueueItems(queued);
    }

    method RemoveQueued(path: string)
      requires Valid()
      modifies this`queueItems
      ensures Valid() && queueItems == WithoutPaths(old(queueItems), {path})
    {
      WithoutPathsMembers(queueItems, {path});
      queueItems := WithoutPaths(queueItems, {path});
    }

    method ReorderQueued(paths: seq<string>)
      requires Valid()
      modifies this`queueItems
      ensures Valid() && multiset(queueItems) == multiset(old(queueItems))
      ensures queueItems
           == if paths != [] && ListedOnce(old(queueItems), paths) then Reordered(old(queueItems), paths) else old(queueItems)
    {
      hide ListedOnce, WithoutPaths, GoodRows;
      ReorderTakesEffectIff(queueItems, paths);
      ReorderedMembers(queueItems, paths);
      if DistinctPaths(Reordered(queueItems, paths)) {
        ReorderedIsPermutation(queueItems, paths);
      }
      if paths == [] {
        return;
      }
      var all := queueItems;
      if all == [] {
        NothingToReorder(paths);
        return;
      }
      var ordered: seq<Track> := [];
      for i := 0 to |paths|
        invariant ordered == FoundInOrder(all, paths[..i])
      {
        assert paths[..i + 1][..i] == paths[..i];
        var at := IndexOf(all, paths[i]);
        if at >= 0 {
          ordered := ordered + [all[at]];
        }
      }
      assert paths[..|paths|] == paths;
      ordered := ordered + WithoutPaths(all, PathSet(paths));
      ReplaceQueueItems(ordered);
    }

    method ClearQueue()
      requires Valid()
      modifies this`queueItems, this`source
      ensures Valid() && queueItems == [] && source == DEFAULT_SOURCE
    {
      ReplaceQueueItems([]);
      source := DEFAULT_SOURCE;
    }

    /** Cascade cleanup of deleted files. */
    method RemovePaths(paths: seq<string>)
      requires Valid()
      modifies this
      ensures Valid()
      ensures queueItems == WithoutPaths(old(queueItems), PathSet(paths))
      ensures playlists.Keys == old(playlists).Keys
      ensures forall id :: id in playlists ==> playlists[id] == KeepRows(old(playlists)[id], PathSet(paths))
      ensures source == if old(source).currentPath != "" && old(source).currentPath in paths
                        then old(source).(currentPath := "", currentIndex := -1) else old(source)
    {
      var gone := PathSet(paths);
      if paths == [] {
        NothingGone(queueItems, gone);
        forall id | id in playlists ensures KeepRows(playlists[id], gone) == playlists[id] {
          NothingKeptOut(playlists[id], gone);
        }
        return;
      }
      WithoutPathsMembers(queueItems, gone);
      queueItems := WithoutPaths(queueItems, gone);
      forall id | id in playlists ensures GoodRows(KeepRows(playlists[id], gone)) {
        KeptRowsGood(playlists[id], gone);
      }
      playlists := map id | id in playlists :: KeepRows(playlists[id], gone);
      if source.currentPath != "" && source.currentPath in paths {
        source := source.(currentPath := "", currentIndex := -1);
      }
    }

    // ---- Playlists -----------------------------------------------------------------------------

    /** Adds the tracks whose path is new to the playlist; says how many. */
    method AddPlaylistItems(id: string, items: seq<Track>) returns (added: nat)
      requires Valid()
      modifies this`playlists
      ensures Valid() && playlists.Keys == old(playlists).Keys + {id}
      ensures Tracks(PlaylistItems(id)) == AddedTracks(Tracks(old(PlaylistItems(id))), items)
      ensures added == |PlaylistItems(id)| - |old(PlaylistItems(id))|
      ensures forall other :: other in old(playlists) && other != id ==> playlists[other] == old(playlists)[other]
    {
      hide GoodRows, IndexOf, AddedTracks;
      var existing := PlaylistItems(id);
      GoodPlaylist(id);
      AddedNothing(Tracks(existing));
      var next := if existing == [] then 0 else existing[|existing| - 1].sortOrder + 1;
      added := 0;
      ghost var before := existing;
      for i := 0 to |items|
        invariant playlists == old(playlists)
        invariant GoodRows(existing) && added == |existing| - |before|
        invariant forall k :: 0 <= k < |existing| ==> existing[k].sortOrder < next
        invariant Tracks(existing) == AddedTracks(Tracks(before), items[..i])
      {
        AddedStep(Tracks(before), items, i);
        var a := items[i];
        if IndexOf(Tracks(existing), a.path) >= 0 {
          continue;
        }
        GoodWithNew(existing, PlaylistRow(a, next));
        existing := existing + [PlaylistRow(a, next)];
        next := next + 1;
        added := added + 1;
      }
      assert items[..|items|] == items;
      playlists := playlists[id := existing];
    }

    lemma {:induction false} AddedNothing(existing: seq<Track>)
      ensures AddedTracks(existing, []) == existing
    {
    }

    lemma {:induction false} AddedStep(existing: seq<Track>, items: seq<Track>, i: nat)
      requires i < |items|
      ensures var before := AddedTracks(existing, items[..i]);
              AddedTracks(existing, items[..i + 1]) == if IndexOf(before, items[i].path) >= 0 then before else before + [items[i]]
    {
      assert items[..i + 1][..i] == items[..i];
    }

    lemma {:induction false} GoodWithNew(rows: seq<PlaylistRow>, row: PlaylistRow)
      requires GoodRows(rows) && IndexOf(Tracks(rows), row.track.path) < 0
      requires forall k :: 0 <= k < |rows| ==> rows[k].sortOrder < row.sortOrder
      ensures GoodRows(rows + [row]) && Tracks(rows + [row]) == Tracks(rows) + [row.track]
    {
      assert Tracks(rows + [row]) == Tracks(rows) + [row.track];
    }

    lemma {:induction false} GoodPlaylist(id: string)
      requires Valid()
      ensures GoodRows(PlaylistItems(id))
      ensures forall k :: 0 <= k < |PlaylistItems(id)| ==>
                PlaylistItems(id)[k].sortOrder <= PlaylistItems(id)[|PlaylistItems(id)| - 1].sortOrder
    {
    }

    method RemovePlaylistItem(id: string, path: string)
      requires Valid()
      modifies this`playlists
      ensures Valid() && playlists.Keys == old(playlists).Keys
      ensures PlaylistItems(id) == KeepRows(old(PlaylistItems(id)), {path})
      ensures forall other :: other in playlists && other != id ==> playlists[other] == old(playlists)[other]
    {
      if id in playlists {
        KeptRowsGood(playlists[id], {path});
        playlists := playlists[id := KeepRows(playlists[id], {path})];
      }
    }

    method DeletePlaylist(id: string)
      requires Valid()
      modifies this`playlists, this`source
      ensures Valid() && playlists == old(playlists) - {id}
      ensures source == if old(source).kind == Playlist && old(source).playlistId == id
                        then old(source).(kind := NoSource, playlistId := "") else old(source)
    {
      playlists := playlists - {id};
      if source.kind == Playlist && source.playlistId == id {
        source := source.(kind := NoSource, playlistId := "");
      }
    }

    // ---- Source and current track -----------------------------------------------------------------

    method SetPlaylistSource(id: string, startPath: Option<string>) returns (start: Option<Track>)
      requires Valid()
      modifies this`queueItems, this`source
      ensures Valid() && queueItems == []
      ensures start.None? <==> PlaylistItems(id) == []
      ensures start.None? ==> source == DEFAULT_SOURCE
      ensures start.Some? ==> source.kind == Playlist && source.playlistId == id && source.currentPath == start.value.path
      ensures start.Some? ==> PlaylistRow(start.value, source.currentIndex) in PlaylistItems(id)
      ensures start.Some? && startPath.Some? && startPath.value in Paths(Tracks(PlaylistItems(id)))
              ==> start.value.path == startPath.value
      ensures start.Some? && (startPath.None? || startPath.value !in Paths(Tracks(PlaylistItems(id))))
              ==> start.value == PlaylistItems(id)[0].track
    {
      ReplaceQueueItems([]);
      var items := PlaylistItems(id);
      if items == [] {
        source := DEFAULT_SOURCE;
        return None;
      }
      var at := if startPath.Some? then IndexOf(Tracks(items), startPath.value) else 0;
      var row := if at >= 0 then items[at] else items[0];
      assert Tracks(items)[if at >= 0 then at else 0] == row.track;
      assert row in items && row == PlaylistRow(row.track, row.sortOrder);
      source := QueueSource(Playlist, id, row.track.path, row.sortOrder);
      return Some(row.track);
    }

    /** A manual jump: the cached library position becomes unknown. */
    method OnPlaying(path: string)
      requires Valid()
      modifies this`source
      ensures Valid()
      ensures source.kind == old(source).kind && source.playlistId == old(source).playlistId
      ensures source.currentPath == if path == "" then old(source).currentPath else path
      ensures source.currentIndex
           == if path != "" && source.kind == Library && path != old(source).currentPath then -1 else old(source).currentIndex
    {
      if path == "" {
        return;
      }
      var newIndex := if source.kind == Library && path != source.currentPath then -1 else source.currentIndex;
      if source.currentPath != path || newIndex != source.currentIndex {
        source := source.(currentPath := path, currentIndex := newIndex);
      }
    }

    /** Any cached index, stale or not, gives the position of a full lookup; a located index is stored. */
    method CurrentPosInSource(lib: seq<Track>) returns (pos: int)
      requires Valid() && DistinctPaths(lib)
      modifies this`source
      ensures Valid() && source == old(source).(currentIndex := source.currentIndex)
      ensures pos == PositionOf(SourceTracks(lib), source.currentPath)
      ensures if source.kind == Library && pos >= 0 then source.currentIndex == pos else source == old(source)
    {
      var path := source.currentPath;
      if path == "" || SourceTracks(lib) == [] {
        return -1;
      }
      match source.kind {
        case Playlist =>
          return IndexOf(Tracks(PlaylistItems(source.playlistId)), path);
        case Library =>
          var cached := source.currentIndex;
          if 0 <= cached < |lib| && lib[cached].path == path {
            return cached;
          }
          var found := IndexOf(lib, path);
          if found >= 0 {
            source := source.(currentIndex := found);
          }
          return found;
        case NoSource =>
          return -1;
      }
    }

    method LoadOrder(lib: seq<Track>) returns (o: Order)
      requires Valid() && DistinctPaths(lib)
      modifies this`source
      ensures Valid() && source == old(source).(currentIndex := source.currentIndex)
      ensures WellPlaced(o) && o == CurrentOrder(lib) && o == old(CurrentOrder(lib))
      ensures DistinctPaths(o.source) && DistinctPaths(o.queued)
    {
      DistinctSource(lib);
      var pos := CurrentPosInSource(lib);
      o := Order(SourceTracks(lib), queueItems, pos);
    }

    lemma {:induction false} DistinctSource(lib: seq<Track>)
      requires Valid() && DistinctPaths(lib)
      ensures DistinctPaths(SourceTracks(lib))
    {
    }

    // ---- Totals and pages -----------------------------------------------------------------------

    /** The total is the length of the rendered queue, which shows every source or queued path once. */
    method CountQueue(lib: seq<Track>) returns (total: int)
      requires Valid() && DistinctPaths(lib)
      modifies this`source
      ensures Valid() && source == old(source).(currentIndex := source.currentIndex)
      ensures var shown := Rendered(CurrentOrder(lib));
              total == |shown| && DistinctPaths(shown) && Paths(shown) == Paths(SourceTracks(lib)) + Paths(queueItems)
      ensures var sources := match source.kind
                             case NoSource => {}
                             case Playlist => Paths(Tracks(PlaylistItems(source.playlistId)))
                             case Library => Paths(lib);
              Paths(Rendered(CurrentOrder(lib))) == sources + Paths(queueItems)
    {
      PathsOfNone();
      hide Rendered, Superseded, Paths, GoodRows;
      var o := LoadOrder(lib);
      RenderedIsExact(o);
      total := o.Total() - |Superseded(o)|;
    }

    method PageQueue(lib: seq<Track>, offset: int, limit: int) returns (page: seq<Track>)
      requires Valid() && DistinctPaths(lib)
      modifies this`source
      ensures Valid() && source == old(source).(currentIndex := source.currentIndex)
      ensures page == Page(CurrentOrder(lib), offset, limit)
    {
      hide Page, GoodRows;
      var o := LoadOrder(lib);
      page := QueuePageUnfiltered(o, offset, limit);
    }

    // ---- Next and previous -----------------------------------------------------------------------

    /**
     `resolve_next`. The loop of the code does not end when the walk cannot stop,
     which `HangsIff` characterises; otherwise the track returned is not
     superseded, stands at the rank the walk ends at and becomes the current one.
     */
    method ResolveNext(lib: seq<Track>, isNext: bool, shuffle: bool) returns (r: Option<Track>, ghost start: nat)
      requires Valid() && DistinctPaths(lib)
      requires CurrentOrder(lib).Total() > 0 ==> CanStop(CurrentOrder(lib), isNext)
      modifies this`source
      ensures Valid() && queueItems == old(queueItems)
      ensures var o := old(CurrentOrder(lib));
              if o.Total() == 0 then r == None
              else start < o.Total() && (!shuffle ==> start == StartRank(o, old(source).currentPath, isNext))
                   && match Walked(o, start, isNext)
                      case None => r == None
                      case Some(rank) => r == Some(Slots(o)[rank]) && r.value.path !in Superseded(o)
      ensures var o := old(CurrentOrder(lib));
              r.Some? <==> o.Total() > 0 && Reaches(o, start, isNext)
      ensures !shuffle && Superseded(old(CurrentOrder(lib))) == {}
              ==> StepsBeside(old(CurrentOrder(lib)), old(source).currentPath, isNext, r)
      ensures old(queueItems) == [] && !shuffle && old(SourceTracks(lib)) != []
              ==> r.Some? && source.currentPath == PathAfter(old(SourceTracks(lib)), old(source).currentPath, isNext)
      ensures r == None ==> source == old(source).(currentIndex := source.currentIndex)
      ensures r.Some? ==> source.kind == old(source).kind && source.playlistId == old(source).playlistId
                          && source.currentPath == r.value.path
      ensures var o := old(CurrentOrder(lib));
              r.Some? ==> CachedFor(source.kind, o, Walked(o, start, isNext).value, source.currentIndex)
    {
      hide Superseded, Slots, Walked, CanStop, GoodRows, StartRank, Paths;
      r, start := None, 0;
      var o := LoadOrder(lib);
      if o.Total() == 0 {
        return;
      }
      TotalPositive(o);
      var total := QueueTotal(o);
      var target: nat;
      if shuffle {
        target :| target < total;
        TotalBound(o);
      } else {
        target := StartRank(o, source.currentPath, isNext);
      }
      start := target;
      WalkedIff(o, start, isNext);
      PlainResult(o, source.currentPath, isNext);
      BesideResult(o, source.currentPath, isNext);
      var rank, audio := WalkSkipping(o, target, isNext);
      if audio.path in Superseded(o) {
        return;
      }
      assert rank < o.Total() by { WalkedInRange(o, start, isNext); }
      r := Some(audio);
      SaveCurrent(lib, o, rank);
      TrackAtIsSlot(o, rank);
    }

    /** `save_current` for a rank of the order just loaded. */
    method SaveCurrent(lib: seq<Track>, o: Order, rank: nat)
      requires Valid() && o == CurrentOrder(lib) && rank < o.Total()
      modifies this`source
      ensures source.kind == old(source).kind && source.playlistId == old(source).playlistId
      ensures source.currentPath == Slots(o)[rank].path && CachedFor(source.kind, o, rank, source.currentIndex)
    {
      hide Slots, GoodRows, Tracks, IndexOf, Superseded;
      TrackAtIsSlot(o, rank);
      var path := TrackAt(o, rank).value.path;
      var sourcePos: int;
      match source.kind {
        case Playlist =>
          sourcePos := IndexOf(Tracks(PlaylistItems(source.playlistId)), path);
        case Library =>
          if o.pos >= 0 && rank <= o.pos {
            sourcePos := rank;
          } else if o.pos >= 0 && rank <= o.pos + |o.queued| {
            sourcePos := -1;
          } else {
            sourcePos := rank - |o.queued|;
          }
        case NoSource =>
          sourcePos := -1;
      }
      source := source.(currentPath := path, currentIndex := sourcePos);
    }
  }

  /**
   What is cached for the track at `rank`: its position in the source. A library
   slot is located by rank, so a manual slot has no position there.
   */
  predicate CachedFor(kind: SourceKind, o: Order, rank: nat, index: int)
    requires WellPlaced(o)
  {
    rank < o.Total()
    && match kind
       case NoSource => index == -1
       case Playlist => index == IndexOf(o.source, Slots(o)[rank].path)
       case Library =>
         if IsManual(o, rank) then index == if o.pos >= 0 then -1 else rank - |o.queued|
         else 0 <= index < |o.source| && SourceRank(o, index) == rank
  }

  /** The track `r` is the one in the slot beside that of the current track, around the order. */
  ghost predicate StepsBeside(o: Order, path: string, isNext: bool, r: Option<Track>)
    requires WellPlaced(o)
  {
    path != "" ==> forall k: nat :: k < o.Total() && Slots(o)[k].path == path
                     ==> r == Some(Slots(o)[if isNext then (if k + 1 < o.Total() then k + 1 else 0)
                                            else if k > 0 then k - 1 else o.Total() - 1])
  }

  lemma {:induction false} BesideResult(o: Order, path: string, isNext: bool)
    requires o == OrderOf(o.source, o.queued, path) && DistinctPaths(o.source) && DistinctPaths(o.queued) && o.Total() > 0
    ensures Superseded(o) == {}
            ==> var w := Walked(o, StartRank(o, path, isNext), isNext);
                StepsBeside(o, path, isNext, if w.Some? && w.value < o.Total() then Some(Slots(o)[w.value]) else None)
  {
    hide Slots, Superseded, Walked, StartRank, DistinctPaths, IndexOf;
    if Superseded(o) == {} && path != "" {
      forall k: nat | k < o.Total() && Slots(o)[k].path == path
        ensures Walked(o, StartRank(o, path, isNext), isNext) == Some(NextRank(o.Total(), k, isNext))
      {
        StepFromSlot(o, path, isNext, k);
      }
    }
  }

  /** With an empty manual queue the step is that of the plain source. */
  lemma {:induction false} PlainResult(o: Order, path: string, isNext: bool)
    requires o == OrderOf(o.source, o.queued, path)
    ensures o.queued == [] && o.source != []
            ==> var w := Walked(o, StartRank(o, path, isNext), isNext);
                w.Some? && w.value < o.Total() && Slots(o)[w.value].path == PathAfter(o.source, path, isNext)
  {
    if o.queued == [] && o.source != [] {
      PlainStep(o.source, path, isNext);
    }
  }

  lemma {:induction false} TotalBound(o: Order)
    ensures QueueTotal(o) <= o.Total()
  {
  }

  lemma {:induction false} WalkedInRange(o: Order, start: nat, isNext: bool)
    requires WellPlaced(o) && start < o.Total() && Walked(o, start, isNext).Some?
    ensures Walked(o, start, isNext).value < o.Total()
  {
  }

  lemma {:induction false} NothingToReorder(paths: seq<string>)
    ensures Reordered([], paths) == []
    decreases |paths|
  {
    if paths != [] {
      NothingToReorder(paths[..|paths| - 1]);
    }
  }

  function KeepRows(rows: seq<PlaylistRow>, gone: set<string>): seq<PlaylistRow>
  {
    if rows == [] then []
    else
      var rest, last := KeepRows(rows[..|rows| - 1], gone), rows[|rows| - 1];
      if last.track.path in gone then rest else rest + [last]
  }

  lemma {:induction false} KeptRows(rows: seq<PlaylistRow>, gone: set<string>)
    ensures forall row :: row in KeepRows(rows, gone) <==> row in rows && row.track.path !in gone
    decreases |rows|
  {
    if rows != [] {
      var n := |rows| - 1;
      KeptRows(rows[..n], gone);
      assert rows == rows[..n] + [rows[n]];
    }
  }

  /** The tracks that stay are those of the playlist without the removed paths, in their order. */
  lemma {:induction false} KeptRowsTracks(rows: seq<PlaylistRow>, gone: set<string>)
    ensures Tracks(KeepRows(rows, gone)) == WithoutPaths(Tracks(rows), gone)
    decreases |rows|
  {
    if rows != [] {
      var n := |rows| - 1;
      KeptRowsTracks(rows[..n], gone);
      assert Tracks(rows)[..n] == Tracks(rows[..n]);
      var rest := KeepRows(rows[..n], gone);
      assert Tracks(rest + [rows[n]]) == Tracks(rest) + [rows[n].track];
    }
  }

  lemma {:induction false} KeptRowsGood(rows: seq<PlaylistRow>, gone: set<string>)
    requires GoodRows(rows)
    ensures GoodRows(KeepRows(rows, gone))
    decreases |rows|
  {
    if rows != [] {
      hide GoodRows;
      var n := |rows| - 1;
      GoodPrefix(rows, n);
      KeptRowsGood(rows[..n], gone);
      KeptRows(rows[..n], gone);
      if rows[n].track.path !in gone {
        GoodWithLast(rows, KeepRows(rows[..n], gone));
      }
    }
  }

  lemma {:induction false} GoodPrefix(rows: seq<PlaylistRow>, n: nat)
    requires GoodRows(rows) && n <= |rows|
    ensures GoodRows(rows[..n])
  {
    assert Tracks(rows[..n]) == Tracks(rows)[..n];
  }

  lemma {:induction false} GoodWithLast(rows: seq<PlaylistRow>, rest: seq<PlaylistRow>)
    requires rows != [] && GoodRows(rows) && GoodRows(rest)
    requires forall row :: row in rest ==> row in rows[..|rows| - 1]
    ensures GoodRows(rest + [rows[|rows| - 1]])
  {
    var n := |rows| - 1;
    forall i | 0 <= i < |rest| ensures rest[i].sortOrder < rows[n].sortOrder && Tracks(rest)[i].path != rows[n].track.path {
      assert rest[i] in rest && rest[i] in rows[..n];
      var k :| 0 <= k < n && rows[k] == rest[i];
      assert Tracks(rows)[k].path != Tracks(rows)[n].path;
    }
    assert Tracks(rest + [rows[n]]) == Tracks(rest) + [rows[n].track];
  }

  lemma {:induction false} NothingGone(tracks: seq<Track>, gone: set<string>)
    requires gone == {}
    ensures WithoutPaths(tracks, gone) == tracks
    decreases |tracks|
  {
    if tracks != [] {
      NothingGone(tracks[..|tracks| - 1], gone);
      assert tracks == tracks[..|tracks| - 1] + [tracks[|tracks| - 1]];
    }
  }

  lemma {:induction false} NothingKeptOut(rows: seq<PlaylistRow>, gone: set<string>)
    requires gone == {}
    ensures KeepRows(rows, gone) == rows
    decreases |rows|
  {
    if rows != [] {
      NothingKeptOut(rows[..|rows| - 1], gone);
      assert rows == rows[..|rows| - 1] + [rows[|rows| - 1]];
    }
  }
}
