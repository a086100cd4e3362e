/**
 Next and previous (`resolve_next` in src/library/audio_queue.rs): where the
 walk starts, how it skips superseded tracks, when it ends, and what a tour of
 a plain source visits.
 */
module Playback {
  import Bits
  import opened Text
  import opened PlaybackOrder

  function IndexOf(tracks: seq<Track>, path: string): (i: int)
    ensures -1 <= i < |tracks|
    ensures i >= 0 ==> tracks[i].path == path && forall k :: 0 <= k < i ==> tracks[k].path != path
    ensures i < 0 ==> forall k :: 0 <= k < |tracks| ==> tracks[k].path != path
  {
    if tracks == [] then -1
    else if tracks[0].path == path then 0
    else
      var rest := IndexOf(tracks[1..], path);
      if rest < 0 then -1 else rest + 1
  }

  /** Position of the current track in the source, -1 when there is none or it is not in it. */
  function PositionOf(source: seq<Track>, path: string): int
  {
    if path == "" then -1 else IndexOf(source, path)
  }

  function OrderOf(source: seq<Track>, queued: seq<Track>, path: string): (o: Order)
    ensures WellPlaced(o)
  {
    Order(source, queued, PositionOf(source, path))
  }

  /** `current_rank` */
  function CurrentRank(o: Order, path: string): (r: int)
    requires WellPlaced(o)
    ensures -1 <= r
  {
    if path == "" then -1
    else if IndexOf(o.queued, path) >= 0 then o.pos + 1 + IndexOf(o.queued, path)
    else o.pos
  }

  lemma {:induction false} PathsSize(tracks: seq<Track>)
    ensures |Paths(tracks)| <= |tracks|
    decreases |tracks|
  {
    if tracks == [] {
      assert Paths(tracks) == {};
    } else {
      PathsStep(tracks);
      PathsSize(tracks[..|tracks| - 1]);
    }
  }

  lemma {:induction false} SubsetSize(a: set<string>, b: set<string>)
    requires a <= b
    ensures |a| <= |b|
  {
    assert b == a + (b - a);
  }

  /** A non-empty order has something to show. */
  lemma {:induction false} TotalPositive(o: Order)
    requires WellPlaced(o) && o.Total() > 0
    ensures QueueTotal(o) > 0
  {
    PathsSize(o.source);
    PathsSize(o.queued);
    SubsetSize(Superseded(o), Paths(o.source));
    SubsetSize(Superseded(o), Paths(o.queued));
  }

  /** Where the walk starts. */
  function StartRank(o: Order, path: string, isNext: bool): (r: nat)
    requires WellPlaced(o) && o.Total() > 0
    ensures r < o.Total()
  {
    TotalPositive(o);
    var total, current := QueueTotal(o), CurrentRank(o, path);
    var from := if current >= 0 then current else if isNext then -1 else 0;
    if isNext then (from + 1) % total else (from - 1 + total) % total
  }

  // ---- The walk -----------------------------------------------------------------------------

  function NextRank(t: nat, r: nat, isNext: bool): (q: nat)
    requires r < t
    ensures q < t
    ensures q == if isNext then (if r + 1 < t then r + 1 else 0) else (if r > 0 then r - 1 else t - 1)
  {
    if isNext then (r + 1) % t
    else
      WrapAround(t, r);
      (r - 1 + t) % t
  }

  lemma {:induction false} WrapAround(t: nat, r: nat)
    requires r < t
    ensures (r - 1 + t) % t == if r > 0 then r - 1 else t - 1
  {
    if r > 0 {
      Bits.DivModUnique(r - 1 + t, t, 1, r - 1);
    }
  }

  /** The rank `n` steps away from `r` around the order. */
  function Rotate(t: nat, r: nat, isNext: bool, n: nat): (q: nat)
    requires r < t && n <= t
    ensures q < t
  {
    if isNext then (if r + n < t then r + n else r + n - t)
    else (if n <= r then r - n else r + t - n)
  }

  lemma {:induction false} RotateStep(t: nat, r: nat, isNext: bool, n: nat)
    requires r < t && n < t
    ensures Rotate(t, r, isNext, n + 1) == NextRank(t, Rotate(t, r, isNext, n), isNext)
  {
  }

  /** The number of steps from `r` to `q`. */
  function StepsTo(t: nat, r: nat, isNext: bool, q: nat): (n: nat)
    requires r < t && q < t
    ensures n < t && Rotate(t, r, isNext, n) == q
  {
    if isNext then (if q >= r then q - r else q + t - r) else (if q <= r then r - q else r + t - q)
  }

  /** The track at `r` may play: it is not both in the source and in the manual queue. */
  predicate Playable(o: Order, r: nat)
    requires WellPlaced(o) && r < o.Total()
  {
    Slots(o)[r].path !in Superseded(o)
  }

  /** The slot after `r` in the direction of the walk has the same path. */
  predicate SameAsNext(o: Order, r: nat, isNext: bool)
    requires WellPlaced(o) && r < o.Total()
  {
    Slots(o)[NextRank(o.Total(), r, isNext)].path == Slots(o)[r].path
  }

  /** The walk ends at rank `r`: the track may play, or its neighbour has the same path. */
  predicate Stops(o: Order, r: nat, isNext: bool)
    requires WellPlaced(o) && r < o.Total()
  {
    Playable(o, r) || SameAsNext(o, r, isNext)
  }

  ghost predicate CanStop(o: Order, isNext: bool)
    requires WellPlaced(o)
  {
    exists r: nat :: r < o.Total() && Stops(o, r, isNext)
  }

  /** The number of steps to the first stop from `r`, looking from `n` on. */
  function FirstStop(o: Order, r: nat, isNext: bool, n: nat): nat
    requires WellPlaced(o) && r < o.Total()
    decreases if n < o.Total() then o.Total() - n else 0
  {
    if n >= o.Total() || Stops(o, Rotate(o.Total(), r, isNext, n), isNext) then n else FirstStop(o, r, isNext, n + 1)
  }

  lemma {:induction false} FirstStopIsFirst(o: Order, r: nat, isNext: bool, n: nat, m: nat)
    requires WellPlaced(o) && r < o.Total() && n <= m < o.Total()
    requires Stops(o, Rotate(o.Total(), r, isNext, m), isNext)
    ensures var f := FirstStop(o, r, isNext, n);
            n <= f <= m && Stops(o, Rotate(o.Total(), r, isNext, f), isNext)
            && forall k: nat :: n <= k < f ==> !Stops(o, Rotate(o.Total(), r, isNext, k), isNext)
    decreases m - n
  {
    hide Stops, Rotate;
    if !Stops(o, Rotate(o.Total(), r, isNext, n), isNext) {
      FirstStopIsFirst(o, r, isNext, n + 1, m);
    }
  }

  /** If the walk can stop at all, it stops within one round, wherever it starts. */
  lemma {:induction false} StopsWithinOneRound(o: Order, r: nat, isNext: bool)
    requires WellPlaced(o) && r < o.Total() && CanStop(o, isNext)
    ensures var f := FirstStop(o, r, isNext, 0);
            f < o.Total() && Stops(o, Rotate(o.Total(), r, isNext, f), isNext)
            && forall k: nat :: k < f ==> !Stops(o, Rotate(o.Total(), r, isNext, k), isNext)
  {
    hide Stops, Rotate;
    var q: nat :| q < o.Total() && Stops(o, q, isNext);
    FirstStopIsFirst(o, r, isNext, 0, StepsTo(o.Total(), r, isNext, q));
  }

  function IterRank(t: nat, r: nat, isNext: bool, n: nat): (q: nat)
    requires r < t
    ensures q < t
  {
    if n == 0 then r else NextRank(t, IterRank(t, r, isNext, n - 1), isNext)
  }

  /** Otherwise it never stops, however long it walks. */
  lemma {:induction false} WalksForever(o: Order, r: nat, isNext: bool, n: nat)
    requires WellPlaced(o) && r < o.Total() && !CanStop(o, isNext)
    ensures !Stops(o, IterRank(o.Total(), r, isNext, n), isNext)
  {
  }

  /** Two cyclic neighbours with the same path. */
  ghost predicate EqualNeighbours(o: Order)
    requires WellPlaced(o)
  {
    exists r: nat :: r < o.Total() && Slots(o)[NextRank(o.Total(), r, true)].path == Slots(o)[r].path
  }

  lemma {:induction false} NeighboursBothWays(o: Order, r: nat)
    requires WellPlaced(o) && r < o.Total()
    ensures NextRank(o.Total(), NextRank(o.Total(), r, true), false) == r
    ensures NextRank(o.Total(), NextRank(o.Total(), r, false), true) == r
  {
  }

  /**
   The walk of a non-empty order runs forever exactly when source and manual
   queue hold the same paths and no two neighbouring slots share one.
   */
  lemma {:induction false} HangsIff(o: Order, isNext: bool)
    requires WellPlaced(o) && o.Total() > 0
    ensures !CanStop(o, isNext) <==> Paths(o.source) == Paths(o.queued) && !EqualNeighbours(o)
  {
    hide NextRank, Superseded, Paths;
    AllSupersededIff(o);
    if EqualNeighbours(o) {
      var r: nat :| r < o.Total() && Slots(o)[NextRank(o.Total(), r, true)].path == Slots(o)[r].path;
      NeighboursBothWays(o, r);
      assert Stops(o, if isNext then r else NextRank(o.Total(), r, true), isNext);
    }
    if CanStop(o, isNext) && Paths(o.source) == Paths(o.queued) {
      var r: nat :| r < o.Total() && Stops(o, r, isNext);
      NeighboursBothWays(o, r);
      var q := if isNext then r else NextRank(o.Total(), r, false);
      assert Slots(o)[NextRank(o.Total(), q, true)].path == Slots(o)[q].path;
    }
    if Paths(o.source) != Paths(o.queued) {
      var r: nat :| r < o.Total() && Slots(o)[r].path !in Superseded(o);
      assert Stops(o, r, isNext);
    }
  }

  lemma {:induction false} AllSupersededIff(o: Order)
    requires WellPlaced(o)
    ensures (forall r: nat :: r < o.Total() ==> Slots(o)[r].path in Superseded(o)) <==> Paths(o.source) == Paths(o.queued)
  {
    if forall r: nat :: r < o.Total() ==> Slots(o)[r].path in Superseded(o) {
      forall i: nat | i < |o.source| ensures o.source[i].path in Superseded(o) {
        assert Slots(o)[SourceRank(o, i)] == o.source[i];
      }
      forall j: nat | j < |o.queued| ensures o.queued[j].path in Superseded(o) {
        assert Slots(o)[ManualRank(o, j)] == o.queued[j];
      }
    }
    if Paths(o.source) == Paths(o.queued) {
      forall r: nat | r < o.Total() ensures Slots(o)[r].path in Superseded(o) {
        TrackAtIsSlot(o, r);
      }
    }
  }

  /** Two source tracks, both queued in the other order, while the first one is current: the walk never ends. */
  lemma {:induction false} TwoTracksHang(a: Track, b: Track, isNext: bool)
    requires a.path != b.path && a.path != ""
    ensures !CanStop(OrderOf([a, b], [b, a], a.path), isNext)
  {
    var o := OrderOf([a, b], [b, a], a.path);
    assert o.pos == 0;
    assert Slots(o) == [a, b, a, b];
    SameTwoPaths(a, b);
    HangsIff(o, isNext);
  }

  lemma {:induction false} SameTwoPaths(a: Track, b: Track)
    ensures Paths([a, b]) == Paths([b, a])
  {
    assert [a, b][0] == a && [a, b][1] == b && [b, a][0] == b && [b, a][1] == a;
    assert Paths([a, b]) == {a.path, b.path};
    assert Paths([b, a]) == {a.path, b.path};
  }

  // ---- The result ------------------------------------------------------------------------------

  /** The rank the walk from `start` ends at, if that track may play. */
  function Walked(o: Order, start: nat, isNext: bool): Option<nat>
    requires WellPlaced(o) && start < o.Total()
  {
    var f := FirstStop(o, start, isNext, 0);
    if f >= o.Total() then None
    else
      var rank := Rotate(o.Total(), start, isNext, f);
      if Slots(o)[rank].path in Superseded(o) then None else Some(rank)
  }

  /** The skipping loop of `resolve_next`. */
  method WalkSkipping(o: Order, start: nat, isNext: bool) returns (rank: nat, track: Track)
    requires WellPlaced(o) && start < o.Total() && CanStop(o, isNext)
    ensures track.path !in Superseded(o) <==> Walked(o, start, isNext).Some?
    ensures Walked(o, start, isNext).Some? ==> rank == Walked(o, start, isNext).value && track == Slots(o)[rank]
  {
    hide Superseded, Slots, NextRank;
    var superseded := Superseded(o);
    var t := o.Total();
    StopsWithinOneRound(o, start, isNext);
    ghost var f := FirstStop(o, start, isNext, 0);
    ghost var n: nat := 0;
    rank := start;
    TrackAtIsSlot(o, rank);
    track := TrackAt(o, rank).value;
    while track.path in superseded
      invariant n <= f && rank == Rotate(t, start, isNext, n) && track == Slots(o)[rank]
      decreases f - n
    {
      RotateStep(t, start, isNext, n);
      rank := NextRank(t, rank, isNext);
      TrackAtIsSlot(o, rank);
      var next := TrackAt(o, rank).value;
      if next.path == track.path {
        break;
      }
      track := next;
      n := n + 1;
    }
  }

  /** Some track may play, and the walk is not blocked by a superseded pair before it: it is found. */
  lemma {:induction false} WalkFinds(o: Order, start: nat, isNext: bool, m: nat)
    requires WellPlaced(o) && start < o.Total() && m < o.Total()
    requires Slots(o)[Rotate(o.Total(), start, isNext, m)].path !in Superseded(o)
    requires forall k: nat :: k < m ==> !Stops(o, Rotate(o.Total(), start, isNext, k), isNext)
    ensures Walked(o, start, isNext) == Some(Rotate(o.Total(), start, isNext, m))
  {
    hide Slots, Superseded, Rotate;
    assert Stops(o, Rotate(o.Total(), start, isNext, m), isNext);
    FirstStopIsFirst(o, start, isNext, 0, m);
  }

  /** From `start`, a playable slot comes before any two neighbouring slots with one path. */
  ghost predicate Reaches(o: Order, start: nat, isNext: bool)
    requires WellPlaced(o) && start < o.Total()
  {
    exists m: nat :: m < o.Total() && Playable(o, Rotate(o.Total(), start, isNext, m))
                     && forall k: nat :: k < m ==> !SameAsNext(o, Rotate(o.Total(), start, isNext, k), isNext)
  }

  /** A step returns a track exactly when it reaches one. */
  lemma {:induction false} WalkedIff(o: Order, start: nat, isNext: bool)
    requires WellPlaced(o) && start < o.Total()
    ensures Walked(o, start, isNext).Some? <==> Reaches(o, start, isNext)
  {
    hide Slots, Superseded, Rotate, NextRank, SameAsNext;
    if Walked(o, start, isNext).Some? {
      WalkedIsPlayable(o, start, isNext);
      assert Stops(o, Walked(o, start, isNext).value, isNext);
      StopsWithinOneRound(o, start, isNext);
    }
    if Reaches(o, start, isNext) {
      var m: nat :| m < o.Total() && Playable(o, Rotate(o.Total(), start, isNext, m))
                    && forall k: nat :: k < m ==> !SameAsNext(o, Rotate(o.Total(), start, isNext, k), isNext);
      FirstStopIsFirst(o, start, isNext, 0, m);
    }
  }

  lemma {:induction false} WalkedIsPlayable(o: Order, start: nat, isNext: bool)
    requires WellPlaced(o) && start < o.Total() && Walked(o, start, isNext).Some?
    ensures Walked(o, start, isNext).value < o.Total() && Playable(o, Walked(o, start, isNext).value)
  {
    hide Slots, Superseded, Rotate;
  }

  /**
   A step returns a track from every start exactly when source and manual queue
   differ and no superseded slot has its own copy next to it.
   */
  lemma {:induction false} NeverStallsIff(o: Order, isNext: bool)
    requires WellPlaced(o) && o.Total() > 0
    ensures (forall start: nat :: start < o.Total() ==> Walked(o, start, isNext).Some?)
       <==> Paths(o.source) != Paths(o.queued)
            && forall r: nat :: r < o.Total() ==> Playable(o, r) || !SameAsNext(o, r, isNext)
  {
    hide Slots, Superseded, Rotate, NextRank, SameAsNext, Paths, Walked, Playable;
    PlayableIff(o);
    if forall start: nat :: start < o.Total() ==> Walked(o, start, isNext).Some? {
      WalkedIsPlayable(o, 0, isNext);
      forall r: nat | r < o.Total() ensures Playable(o, r) || !SameAsNext(o, r, isNext) {
        StallsAtOnce(o, r, isNext);
      }
    }
    if Paths(o.source) != Paths(o.queued) && forall r: nat :: r < o.Total() ==> Playable(o, r) || !SameAsNext(o, r, isNext) {
      var q: nat :| q < o.Total() && Playable(o, q);
      forall start: nat | start < o.Total() ensures Walked(o, start, isNext).Some? {
        PlayableReached(o, start, isNext, q);
      }
    }
  }

  lemma {:induction false} PlayableIff(o: Order)
    requires WellPlaced(o)
    ensures (exists r: nat :: r < o.Total() && Playable(o, r)) <==> Paths(o.source) != Paths(o.queued)
  {
    hide Slots, Superseded, Paths;
    AllSupersededIff(o);
    if Paths(o.source) != Paths(o.queued) {
      var r: nat :| r < o.Total() && Slots(o)[r].path !in Superseded(o);
      assert Playable(o, r);
    }
  }

  lemma {:induction false} StallsAtOnce(o: Order, r: nat, isNext: bool)
    requires WellPlaced(o) && r < o.Total() && Walked(o, r, isNext).Some?
    ensures Playable(o, r) || !SameAsNext(o, r, isNext)
  {
    hide Slots, Superseded, NextRank, SameAsNext;
    assert Rotate(o.Total(), r, isNext, 0) == r;
  }

  lemma {:induction false} PlayableReached(o: Order, start: nat, isNext: bool, q: nat)
    requires WellPlaced(o) && start < o.Total() && q < o.Total() && Playable(o, q)
    requires forall r: nat :: r < o.Total() ==> Playable(o, r) || !SameAsNext(o, r, isNext)
    ensures Walked(o, start, isNext).Some?
  {
    hide Slots, Superseded, Rotate, NextRank, SameAsNext;
    assert Stops(o, q, isNext);
    StopsWithinOneRound(o, start, isNext);
  }

  /**
   Queueing exactly the next source track stalls "next": both copies are
   superseded by path and stand side by side, so nothing is returned.
   */
  lemma {:induction false} QueueingTheNextTrackStalls(source: seq<Track>, i: nat)
    requires DistinctPaths(source) && NoEmptyPath(source) && i + 1 < |source|
    ensures var o := OrderOf(source, [source[i + 1]], source[i].path);
            Walked(o, StartRank(o, source[i].path, true), true) == None
  {
    var t := source[i + 1];
    var o := OrderOf(source, [t], source[i].path);
    PositionOfTrack(source, i);
    OneSuperseded(source, i + 1);
    assert CurrentRank(o, source[i].path) == i;
    var n := |source|;
    assert QueueTotal(o) == n;
    SmallMod(n, i + 1);
    assert StartRank(o, source[i].path, true) == i + 1;
    assert Slots(o)[i + 1] == t && Slots(o)[i + 2] == t;
    assert Stops(o, i + 1, true);
  }

  lemma {:induction false} SmallMod(n: nat, r: nat)
    requires r < n
    ensures r % n == r
  {
  }

  lemma {:induction false} OneSuperseded(source: seq<Track>, k: nat)
    requires k < |source|
    ensures Paths(source) * Paths([source[k]]) == {source[k].path}
  {
    assert [source[k]][0] == source[k];
    assert Paths([source[k]]) == {source[k].path};
  }

  // ---- A plain source --------------------------------------------------------------------------

  /** The position after one step with an empty manual queue. */
  function NextPosition(n: nat, pos: int, isNext: bool): nat
    requires n > 0 && -1 <= pos < n
  {
    if pos < 0 then (if isNext then 0 else n - 1) else NextRank(n, pos, isNext)
  }

  lemma {:induction false} PlainOrder(source: seq<Track>, path: string)
    ensures var o := OrderOf(source, [], path);
            Superseded(o) == {} && QueueTotal(o) == |source| && CurrentRank(o, path) == o.pos && Slots(o) == source
  {
    assert Paths([]) == {};
  }

  lemma {:induction false} PlainStart(source: seq<Track>, path: string, isNext: bool)
    requires source != []
    ensures StartRank(OrderOf(source, [], path), path, isNext)
         == NextPosition(|source|, PositionOf(source, path), isNext)
  {
    hide PositionOf, Superseded, CurrentRank, Slots;
    PlainOrder(source, path);
    WrapAround(|source|, 0);
  }

  /** With an empty manual queue, a step moves by one position around the source. */
  lemma {:induction false} PlainStep(source: seq<Track>, path: string, isNext: bool)
    requires source != []
    ensures var o := OrderOf(source, [], path);
            var p := NextPosition(|source|, PositionOf(source, path), isNext);
            Walked(o, StartRank(o, path, isNext), isNext) == Some(p) && Slots(o)[p] == source[p]
  {
    hide PositionOf, Superseded, CurrentRank, Slots, StartRank, NextPosition;
    var o := OrderOf(source, [], path);
    PlainOrder(source, path);
    PlainStart(source, path, isNext);
    WalkFinds(o, StartRank(o, path, isNext), isNext, 0);
  }

  // ---- The current track's slot ------------------------------------------------------------------

  /** The slot of the current track: a queued track stands in its manual slot, whether or not the source has it too. */
  predicate StandsAt(o: Order, path: string, r: nat)
    requires WellPlaced(o)
  {
    r < o.Total() && Slots(o)[r].path == path && (IsManual(o, r) || path !in Paths(o.queued))
  }

  lemma {:induction false} SlotIsCurrent(o: Order, path: string, r: nat)
    requires o == OrderOf(o.source, o.queued, path) && path != "" && StandsAt(o, path, r)
    requires DistinctPaths(o.source) && DistinctPaths(o.queued)
    ensures CurrentRank(o, path) == r
  {
    TrackAtIsSlot(o, r);
    RanksAreSlots(o, r);
    if IsManual(o, r) {
      var j := r - o.pos - 1;
      SamePlace(o.queued, IndexOf(o.queued, path), j);
    } else {
      var i := if r <= o.pos then r else r - |o.queued|;
      SamePlace(o.source, IndexOf(o.source, path), i);
    }
  }

  lemma {:induction false} SamePlace(tracks: seq<Track>, i: int, j: nat)
    requires DistinctPaths(tracks) && j < |tracks| && -1 <= i < |tracks|
    requires i == IndexOf(tracks, tracks[j].path)
    ensures i == j
  {
  }

  /**
   The walk starts right beside the current slot exactly when that neighbour is
   within the visible total, by which the code wraps around.
   */
  lemma {:induction false} StartsBesideIff(o: Order, path: string, isNext: bool, r: nat)
    requires o == OrderOf(o.source, o.queued, path) && path != "" && StandsAt(o, path, r)
    requires DistinctPaths(o.source) && DistinctPaths(o.queued)
    ensures var t, total := o.Total(), QueueTotal(o);
            0 < total <= t
            && StartRank(o, path, isNext) == (if isNext then (r + 1) % total else (r - 1 + total) % total)
            && (StartRank(o, path, isNext) == NextRank(t, r, isNext)
                <==> if isNext then r + 1 < total || (r + 1 == t && t % total == 0)
                     else if r > 0 then r <= total else total == t)
  {
    hide Slots, Superseded, IndexOf, Paths, DistinctPaths;
    TotalPositive(o);
    SlotIsCurrent(o, path, r);
    var total := QueueTotal(o);
    if isNext {
      if r + 1 < total {
        SmallMod(total, r + 1);
      }
    } else if r > 0 {
      if r <= total {
        Bits.DivModUnique(r - 1 + total, total, 1, r - 1);
      }
    } else {
      SmallMod(total, total - 1);
    }
  }

  /** Where no path is both queued and in the source, a step moves to the slot beside the current one. */
  lemma {:induction false} StepFromSlot(o: Order, path: string, isNext: bool, r: nat)
    requires o == OrderOf(o.source, o.queued, path) && path != "" && Superseded(o) == {}
    requires DistinctPaths(o.source) && DistinctPaths(o.queued) && r < o.Total() && Slots(o)[r].path == path
    ensures Walked(o, StartRank(o, path, isNext), isNext) == Some(NextRank(o.Total(), r, isNext))
  {
    hide Slots, DistinctPaths, NextRank;
    assert StandsAt(o, path, r) by { OnlyManual(o, path, r); }
    SlotIsCurrent(o, path, r);
    StartsBesideIff(o, path, isNext, r);
    assert Rotate(o.Total(), NextRank(o.Total(), r, isNext), isNext, 0) == NextRank(o.Total(), r, isNext);
    WalkFinds(o, NextRank(o.Total(), r, isNext), isNext, 0);
  }

  lemma {:induction false} OnlyManual(o: Order, path: string, r: nat)
    requires WellPlaced(o) && Superseded(o) == {} && r < o.Total() && Slots(o)[r].path == path
    ensures StandsAt(o, path, r)
  {
    TrackAtIsSlot(o, r);
    RanksAreSlots(o, r);
    if !IsManual(o, r) {
      assert path in Paths(o.source);
      assert path !in Paths(o.queued) by {
        assert path in Paths(o.source) * Paths(o.queued) ==> path in Superseded(o);
      }
    }
  }

  /** With no current track, "next" begins at the first slot and "previous" at the last visible one. */
  lemma {:induction false} StartFromNowhere(o: Order, path: string, isNext: bool)
    requires o == OrderOf(o.source, o.queued, path) && o.Total() > 0
    requires path == "" || (path !in Paths(o.source) && path !in Paths(o.queued))
    ensures StartRank(o, path, isNext) == if isNext then 0 else QueueTotal(o) - 1
  {
    TotalPositive(o);
    SmallMod(QueueTotal(o), 0);
    SmallMod(QueueTotal(o), QueueTotal(o) - 1);
  }

  /** Over a plain source every walk ends. */
  lemma {:induction false} PlainCanStop(source: seq<Track>, path: string, isNext: bool)
    requires source != []
    ensures CanStop(OrderOf(source, [], path), isNext)
  {
    PlainOrder(source, path);
    assert Stops(OrderOf(source, [], path), 0, isNext);
  }

  /** The current path after one step over a plain source. */
  function PathAfter(source: seq<Track>, path: string, isNext: bool): string
    requires source != []
  {
    source[NextPosition(|source|, PositionOf(source, path), isNext)].path
  }

  /** No track without a path. */
  predicate NoEmptyPath(source: seq<Track>)
  {
    forall i :: 0 <= i < |source| ==> source[i].path != ""
  }

  lemma {:induction false} PositionOfTrack(source: seq<Track>, i: nat)
    requires DistinctPaths(source) && NoEmptyPath(source) && i < |source|
    ensures PositionOf(source, source[i].path) == i
  {
    var k := IndexOf(source, source[i].path);
    assert k >= 0;
  }

  /** "Previous" undoes "next", and "next" undoes "previous", exactly when the current track is in the source. */
  lemma {:induction false} StepsUndo(source: seq<Track>, path: string, isNext: bool)
    requires source != [] && DistinctPaths(source) && NoEmptyPath(source)
    ensures PathAfter(source, PathAfter(source, path, isNext), !isNext) == path <==> PositionOf(source, path) >= 0
  {
    var p := NextPosition(|source|, PositionOf(source, path), isNext);
    PositionOfTrack(source, p);
  }

  function PathAfterN(source: seq<Track>, path: string, n: nat): string
    requires source != []
  {
    if n == 0 then path else PathAfter(source, PathAfterN(source, path, n - 1), true)
  }

  lemma {:induction false} PositionAfterN(source: seq<Track>, i: nat, n: nat)
    requires DistinctPaths(source) && NoEmptyPath(source) && i < |source| && n <= |source|
    ensures PathAfterN(source, source[i].path, n) == source[Rotate(|source|, i, true, n)].path
    decreases n
  {
    if n > 0 {
      hide DistinctPaths, NoEmptyPath, IndexOf, PositionOf, Rotate;
      PositionAfterN(source, i, n - 1);
      RotateStep(|source|, i, true, n - 1);
      PositionOfTrack(source, Rotate(|source|, i, true, n - 1));
    }
  }

  /** `path` becomes the current path within one tour from `start`. */
  ghost predicate VisitedFrom(source: seq<Track>, start: string, path: string)
    requires source != []
  {
    exists n: nat :: 1 <= n <= |source| && PathAfterN(source, start, n) == path
  }

  lemma {:induction false} TourReaches(source: seq<Track>, i: nat, q: nat)
    requires DistinctPaths(source) && NoEmptyPath(source) && i < |source| && q < |source|
    ensures VisitedFrom(source, source[i].path, source[q].path)
  {
    hide PathAfterN;
    var n := if q == i then |source| else StepsTo(|source|, i, true, q);
    PositionAfterN(source, i, n);
    assert Rotate(|source|, i, true, n) == q;
  }

  /** As many "next" steps as there are tracks visit each of them exactly once and come back to the start. */
  lemma {:induction false} TourVisitsAll(source: seq<Track>, i: nat)
    requires DistinctPaths(source) && NoEmptyPath(source) && i < |source|
    ensures PathAfterN(source, source[i].path, |source|) == source[i].path
    ensures forall q: nat :: q < |source| ==> VisitedFrom(source, source[i].path, source[q].path)
    ensures forall n: nat, m: nat :: 1 <= n < m <= |source| ==>
              PathAfterN(source, source[i].path, n) != PathAfterN(source, source[i].path, m)
  {
    hide PathAfterN, VisitedFrom;
    var t := |source|;
    PositionAfterN(source, i, t);
    forall q: nat | q < t ensures VisitedFrom(source, source[i].path, source[q].path) {
      TourReaches(source, i, q);
    }
    forall n: nat, m: nat | 1 <= n < m <= t
      ensures PathAfterN(source, source[i].path, n) != PathAfterN(source, source[i].path, m)
    {
      PositionAfterN(source, i, n);
      PositionAfterN(source, i, m);
      assert Rotate(t, i, true, n) != Rotate(t, i, true, m);
    }
  }
}
