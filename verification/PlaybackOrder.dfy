/**
 The virtual playback order (src/library/audio_queue.rs): source head, manual
 queue, source tail, never materialised. The rank functions are those of the
 code; `Slots` and `Rendered` are the lists they stand for.
 */
module PlaybackOrder {
  import opened Text

  datatype Track = Track(title: string, artist: string, path: string, durationSecs: int)

  /** `pos` is the current track's position in the source, -1 when it is not in it. */
  datatype Order = Order(source: seq<Track>, queued: seq<Track>, pos: int)
  {
    function Total(): nat
    {
      |queued| + |source|
    }
  }

  predicate WellPlaced(o: Order)
  {
    -1 <= o.pos < |o.source|
  }

  ghost predicate DistinctPaths(tracks: seq<Track>)
  {
    forall i, j :: 0 <= i < j < |tracks| ==> tracks[i].path != tracks[j].path
  }

  function Paths(tracks: seq<Track>): (r: set<string>)
    ensures forall i :: 0 <= i < |tracks| ==> tracks[i].path in r
    ensures forall p :: p in r ==> exists i :: 0 <= i < |tracks| && tracks[i].path == p
  {
    set i | 0 <= i < |tracks| :: tracks[i].path
  }

  // ---- Ranks ---------------------------------------------------------------------------------

  function Slots(o: Order): (r: seq<Track>)
    requires WellPlaced(o)
    ensures |r| == o.Total()
  {
    o.source[..o.pos + 1] + o.queued + o.source[o.pos + 1..]
  }

  /** `track_at` */
  function TrackAt(o: Order, rank: int): Option<Track>
    requires WellPlaced(o)
  {
    if rank < 0 || rank >= o.Total() then None
    else if rank <= o.pos then Some(o.source[rank])
    else if rank <= o.pos + |o.queued| then Some(o.queued[rank - o.pos - 1])
    else Some(o.source[rank - |o.queued|])
  }

  predicate IsManual(o: Order, rank: int)
  {
    o.pos < rank <= o.pos + |o.queued|
  }

  /** The rank function reads the list of slots. */
  lemma {:induction false} TrackAtIsSlot(o: Order, rank: int)
    requires WellPlaced(o)
    ensures TrackAt(o, rank) == if 0 <= rank < o.Total() then Some(Slots(o)[rank]) else None
  {
  }

  function SourceRank(o: Order, i: nat): nat
  {
    if i <= o.pos then i else i + |o.queued|
  }

  function ManualRank(o: Order, j: nat): nat
    requires WellPlaced(o)
  {
    o.pos + 1 + j
  }

  /** Every rank is the rank of exactly one source track or one manual slot. */
  lemma {:induction false} RanksAreSlots(o: Order, rank: nat)
    requires WellPlaced(o) && rank < o.Total()
    ensures if IsManual(o, rank)
            then var j := rank - o.pos - 1; j < |o.queued| && ManualRank(o, j) == rank && TrackAt(o, rank) == Some(o.queued[j])
            else var i := if rank <= o.pos then rank else rank - |o.queued|;
                 i < |o.source| && SourceRank(o, i) == rank && TrackAt(o, rank) == Some(o.source[i])
    ensures forall i: nat, k: nat :: i < k < |o.source| ==> SourceRank(o, i) < SourceRank(o, k) < o.Total()
    ensures forall i: nat :: i < |o.source| ==> !IsManual(o, SourceRank(o, i))
    ensures forall j: nat :: j < |o.queued| ==> IsManual(o, ManualRank(o, j)) && ManualRank(o, j) < o.Total()
  {
  }

  // ---- Superseded source copies -----------------------------------------------------------------

  /** `superseded_source_paths`: the queued paths that are also in the source. */
  function Superseded(o: Order): set<string>
  {
    Paths(o.source) * Paths(o.queued)
  }

  /** A source slot whose track plays from its manual slot instead. */
  predicate Hidden(o: Order, rank: nat)
    requires WellPlaced(o) && rank < o.Total()
  {
    !IsManual(o, rank) && Slots(o)[rank].path in Superseded(o)
  }

  function WithoutPaths(tracks: seq<Track>, paths: set<string>): seq<Track>
  {
    if tracks == [] then []
    else
      var rest, last := WithoutPaths(tracks[..|tracks| - 1], paths), tracks[|tracks| - 1];
      if last.path in paths then rest else rest + [last]
  }

  /** The visible tracks of the ranks from `from` up to `upto`. */
  function RenderRange(o: Order, from: nat, upto: nat): seq<Track>
    requires WellPlaced(o) && upto <= o.Total()
  {
    if from >= upto then []
    else
      var rest := RenderRange(o, from, upto - 1);
      if Hidden(o, upto - 1) then rest else rest + [Slots(o)[upto - 1]]
  }

  /** The whole rendered queue. */
  function Rendered(o: Order): seq<Track>
    requires WellPlaced(o)
  {
    RenderRange(o, 0, o.Total())
  }

  function QueueTotal(o: Order): int
  {
    o.Total() - |Superseded(o)|
  }

  function Max0(x: int): nat
  {
    if x < 0 then 0 else x
  }

  /** The page `[offset, offset + limit)` of the order. */
  function Page(o: Order, offset: int, limit: int): seq<Track>
    requires WellPlaced(o)
  {
    var end := if offset + limit < o.Total() then offset + limit else o.Total();
    if end <= 0 then [] else RenderRange(o, Max0(offset), end)
  }

  // ---- Segments: what the page loop appends -----------------------------------------------------

  lemma {:induction false} RenderSplit(o: Order, a: nat, b: nat, c: nat)
    requires WellPlaced(o) && a <= b <= c <= o.Total()
    ensures RenderRange(o, a, c) == RenderRange(o, a, b) + RenderRange(o, b, c)
    decreases c
  {
    hide Slots, Hidden;
    if b < c {
      RenderSplit(o, a, b, c - 1);
    }
  }

  /** Source slots `[from, to)` on one side of the manual queue render as the filtered source rows. */
  lemma {:induction false} SourceSegment(o: Order, from: nat, upto: nat, shift: nat)
    requires WellPlaced(o) && from <= upto <= o.Total()
    requires (shift == 0 && upto <= o.pos + 1) || (shift == |o.queued| && from > o.pos + |o.queued|)
    ensures upto - shift <= |o.source| && shift <= from
    ensures RenderRange(o, from, upto) == WithoutPaths(o.source[from - shift..upto - shift], Superseded(o))
    decreases upto
  {
    hide Superseded, Slots;
    if from < upto {
      SourceSegment(o, from, upto - 1, shift);
      TrackAtIsSlot(o, upto - 1);
      var rows := o.source[from - shift..upto - shift];
      assert rows[..|rows| - 1] == o.source[from - shift..upto - 1 - shift];
      assert Slots(o)[upto - 1] == rows[|rows| - 1];
    }
  }

  lemma {:induction false} ManualSegment(o: Order, from: nat, upto: nat)
    requires WellPlaced(o) && o.pos < from <= upto <= o.pos + 1 + |o.queued|
    ensures upto <= o.Total()
    ensures RenderRange(o, from, upto) == o.queued[from - o.pos - 1..upto - o.pos - 1]
    decreases upto
  {
    hide Superseded, Slots;
    if from < upto {
      ManualSegment(o, from, upto - 1);
      TrackAtIsSlot(o, upto - 1);
      assert Slots(o)[upto - 1] == o.queued[upto - 1 - o.pos - 1];
      assert o.queued[from - o.pos - 1..upto - o.pos - 1]
          == o.queued[from - o.pos - 1..upto - 1 - o.pos - 1] + [o.queued[upto - 1 - o.pos - 1]];
    }
  }

  function SkipTake<T>(s: seq<T>, skip: int, take: int): seq<T>
  {
    var from := if Max0(skip) < |s| then Max0(skip) else |s|;
    var n := if Max0(take) < |s| - from then Max0(take) else |s| - from;
    s[from..from + n]
  }

  /** `queue_page_unfiltered`: head, manual and tail segments, one after the other. */
  method QueuePageUnfiltered(o: Order, offset: int, limit: int) returns (page: seq<Track>)
    requires WellPlaced(o)
    ensures page == Page(o, offset, limit)
  {
    hide Superseded, Hidden, Slots, WithoutPaths, RenderRange, SkipTake;
    var superseded := Superseded(o);
    page := [];
    var rank: int := Max0(offset);
    var end := if offset + limit < o.Total() then offset + limit else o.Total();
    if end <= rank {
      EmptyRange(o, rank, Max0(end));
    }
    EmptyRange(o, Max0(offset), Max0(offset));
    while rank < end
      invariant end <= Max0(offset) ==> rank == Max0(offset) && page == []
      invariant Max0(offset) < end ==> Max0(offset) <= rank <= end && page == RenderRange(o, Max0(offset), rank)
    {
      ghost var before := rank;
      if rank <= o.pos {
        var segEnd := if end < o.pos + 1 then end else o.pos + 1;
        var rows := SkipTake(o.source, rank, segEnd - rank);
        SkipTakeIs(o.source, rank, segEnd);
        SourceSegment(o, rank, segEnd, 0);
        page := page + WithoutPaths(rows, superseded);
        rank := segEnd;
      } else if rank <= o.pos + |o.queued| {
        var segEnd := if end < o.pos + 1 + |o.queued| then end else o.pos + 1 + |o.queued|;
        ManualSegment(o, rank, segEnd);
        SkipTakeIs(o.queued, rank - o.pos - 1, segEnd - o.pos - 1);
        page := page + SkipTake(o.queued, rank - o.pos - 1, segEnd - rank);
        rank := segEnd;
      } else {
        var rows := SkipTake(o.source, rank - |o.queued|, end - rank);
        SkipTakeIs(o.source, rank - |o.queued|, end - |o.queued|);
        SourceSegment(o, rank, end, |o.queued|);
        page := page + WithoutPaths(rows, superseded);
        rank := end;
      }
      RenderSplit(o, Max0(offset), before, rank);
    }
  }

  lemma {:induction false} SkipTakeIs(s: seq<Track>, from: nat, upto: nat)
    requires from <= upto <= |s|
    ensures SkipTake(s, from, upto - from) == s[from..upto]
  {
  }

  lemma {:induction false} EmptyRange(o: Order, from: nat, upto: nat)
    requires WellPlaced(o) && upto <= from
    ensures upto <= o.Total() ==> RenderRange(o, from, upto) == []
  {
  }

  /** Adjacent pages concatenate to the page of both. */
  lemma {:induction false} AdjacentPages(o: Order, offset: nat, a: nat, b: nat)
    requires WellPlaced(o)
    ensures Page(o, offset, a) + Page(o, offset + a, b) == Page(o, offset, a + b)
  {
    hide Superseded, Hidden, Slots, RenderRange;
    var t := o.Total();
    var m := if offset + a < t then offset + a else t;
    var e := if offset + a + b < t then offset + a + b else t;
    if offset <= t {
      RenderSplit(o, offset, m, e);
      EmptyRange(o, m, m);
      if m == t {
        EmptyRange(o, offset + a, e);
      }
    } else {
      EmptyRange(o, offset, e);
      EmptyRange(o, offset, m);
      EmptyRange(o, offset + a, e);
    }
    NoPage(o, offset, 0);
    NoPage(o, 0, 0);
  }

  lemma {:induction false} NoPage(o: Order, offset: nat, limit: nat)
    requires WellPlaced(o) && limit == 0
    ensures Page(o, offset, limit) == []
  {
  }

  // ---- The rendered queue ------------------------------------------------------------------------

  lemma {:induction false} RenderedIsThreeParts(o: Order)
    requires WellPlaced(o)
    ensures Rendered(o) == WithoutPaths(o.source[..o.pos + 1], Superseded(o)) + o.queued + WithoutPaths(o.source[o.pos + 1..], Superseded(o))
  {
    hide Superseded, Hidden, Slots, WithoutPaths, RenderRange;
    var h, m, t := o.pos + 1, o.pos + 1 + |o.queued|, o.Total();
    SourceSegment(o, 0, h, 0);
    ManualSegment(o, h, m);
    SourceSegment(o, m, t, |o.queued|);
    RenderSplit(o, 0, h, t);
    RenderSplit(o, h, m, t);
    assert o.source[0..h] == o.source[..h];
    assert o.source[h..|o.source|] == o.source[h..];
    assert o.queued[0..|o.queued|] == o.queued;
  }

  lemma {:induction false} WithoutPathsMembers(tracks: seq<Track>, paths: set<string>)
    ensures forall t :: t in WithoutPaths(tracks, paths) <==> t in tracks && t.path !in paths
    ensures DistinctPaths(tracks) ==> DistinctPaths(WithoutPaths(tracks, paths))
    decreases |tracks|
  {
    if tracks != [] {
      var n := |tracks| - 1;
      WithoutPathsMembers(tracks[..n], paths);
      assert forall t :: t in tracks <==> t in tracks[..n] || t == tracks[n];
      var rest := WithoutPaths(tracks[..n], paths);
      if DistinctPaths(tracks) {
        forall i | 0 <= i < |rest| ensures rest[i].path != tracks[n].path {
          assert rest[i] in tracks[..n];
        }
      }
    }
  }

  /** Every superseded path removes exactly one of the distinct source tracks. */
  lemma {:induction false} WithoutPathsSize(tracks: seq<Track>, paths: set<string>)
    requires DistinctPaths(tracks)
    ensures |WithoutPaths(tracks, paths)| == |tracks| - |paths * Paths(tracks)|
    decreases |tracks|
  {
    if tracks == [] {
      assert Paths(tracks) == {};
      assert paths * Paths(tracks) == {};
    } else {
      hide Paths, DistinctPaths;
      var n := |tracks| - 1;
      var last := tracks[n].path;
      PathsStep(tracks);
      WithoutPathsSize(tracks[..n], paths);
      CommonWithOneMore(paths, Paths(tracks[..n]), last);
    }
  }

  lemma {:induction false} CommonWithOneMore(paths: set<string>, some: set<string>, last: string)
    requires last !in some
    ensures |paths * (some + {last})| == |paths * some| + if last in paths then 1 else 0
  {
    if last in paths {
      assert paths * (some + {last}) == paths * some + {last};
    } else {
      assert paths * (some + {last}) == paths * some;
    }
  }

  lemma {:induction false} PathsStep(tracks: seq<Track>)
    requires tracks != []
    ensures Paths(tracks) == Paths(tracks[..|tracks| - 1]) + {tracks[|tracks| - 1].path}
    ensures DistinctPaths(tracks) ==> DistinctPaths(tracks[..|tracks| - 1])
    ensures DistinctPaths(tracks) ==> tracks[|tracks| - 1].path !in Paths(tracks[..|tracks| - 1])
  {
    var n := |tracks| - 1;
    forall p ensures p in Paths(tracks) <==> p in Paths(tracks[..n]) || p == tracks[n].path {
      if p in Paths(tracks) {
        var i :| 0 <= i < |tracks| && tracks[i].path == p;
        assert i < n ==> tracks[..n][i].path == p;
      }
      if p in Paths(tracks[..n]) {
        var i :| 0 <= i < n && tracks[..n][i].path == p;
        assert tracks[i].path == p;
      }
    }
  }

  lemma {:induction false} WithoutPathsAppend(a: seq<Track>, b: seq<Track>, paths: set<string>)
    ensures WithoutPaths(a + b, paths) == WithoutPaths(a, paths) + WithoutPaths(b, paths)
    decreases |b|
  {
    if b == [] {
      assert a + b == a;
    } else {
      assert (a + b)[..|a + b| - 1] == a + b[..|b| - 1];
      WithoutPathsAppend(a, b[..|b| - 1], paths);
    }
  }

  /**
   The rendered queue shows every source or manually queued track, has no
   duplicate path and exactly `queue_total` entries.
   */
  lemma {:induction false} RenderedIsExact(o: Order)
    requires WellPlaced(o) && DistinctPaths(o.source) && DistinctPaths(o.queued)
    ensures DistinctPaths(Rendered(o))
    ensures Paths(Rendered(o)) == Paths(o.source) + Paths(o.queued)
    ensures |Rendered(o)| == QueueTotal(o)
  {
    hide Slots, WithoutPaths, RenderRange, Hidden, Paths, Rendered;
    var s, h := Superseded(o), o.pos + 1;
    RenderedIsThreeParts(o);
    HeadAndTail(o);
    RenderedSize(o);
    var head, tail := WithoutPaths(o.source[..h], s), WithoutPaths(o.source[h..], s);
    ThreePartsDistinct(o, head, tail);
    ThreePartsPaths(o, head, tail);
  }

  lemma {:induction false} HeadAndTail(o: Order)
    requires WellPlaced(o)
    ensures o.source[..o.pos + 1] + o.source[o.pos + 1..] == o.source
  {
  }

  lemma {:induction false} RenderedSize(o: Order)
    requires WellPlaced(o) && DistinctPaths(o.source)
    ensures |Rendered(o)| == QueueTotal(o)
  {
    hide Slots, WithoutPaths, RenderRange, Hidden, Rendered;
    var s, h := Superseded(o), o.pos + 1;
    RenderedIsThreeParts(o);
    HeadAndTail(o);
    WithoutPathsAppend(o.source[..h], o.source[h..], s);
    WithoutPathsSize(o.source, s);
    assert s * Paths(o.source) == s;
  }

  /** Visible source tracks are not queued and come from different source positions. */
  lemma {:induction false} ThreePartsDistinct(o: Order, head: seq<Track>, tail: seq<Track>)
    requires WellPlaced(o) && DistinctPaths(o.source) && DistinctPaths(o.queued)
    requires head == WithoutPaths(o.source[..o.pos + 1], Superseded(o)) && tail == WithoutPaths(o.source[o.pos + 1..], Superseded(o))
    ensures DistinctPaths(head + o.queued + tail)
  {
    hide WithoutPaths, Paths;
    var s, h := Superseded(o), o.pos + 1;
    WithoutPathsMembers(o.source[..h], s);
    WithoutPathsMembers(o.source[h..], s);
    forall t, u | t in head && u in tail ensures t.path != u.path {
      var i :| 0 <= i < h && o.source[..h][i] == t;
      var j :| 0 <= j < |o.source| - h && o.source[h..][j] == u;
      assert o.source[i].path != o.source[h + j].path;
    }
    forall t, q | (t in head || t in tail) && q in o.queued ensures t.path != q.path {
      NotQueued(o, t, q);
    }
    AppendDistinct(head, o.queued);
    forall t, u | t in head + o.queued && u in tail ensures t.path != u.path {
      assert t in head || t in o.queued;
    }
    AppendDistinct(head + o.queued, tail);
  }

  lemma {:induction false} NotQueued(o: Order, t: Track, q: Track)
    requires t in o.source && t.path !in Superseded(o) && q in o.queued
    ensures t.path != q.path
  {
    var i :| 0 <= i < |o.source| && o.source[i] == t;
    var j :| 0 <= j < |o.queued| && o.queued[j] == q;
  }

  lemma {:induction false} AppendDistinct(a: seq<Track>, b: seq<Track>)
    requires DistinctPaths(a) && DistinctPaths(b)
    requires forall t, u :: t in a && u in b ==> t.path != u.path
    ensures DistinctPaths(a + b)
  {
    forall i, j | 0 <= i < j < |a + b| ensures (a + b)[i].path != (a + b)[j].path {
      if i < |a| && j >= |a| {
        assert a[i] in a && b[j - |a|] in b;
      }
    }
  }

  lemma {:induction false} PathIn(tracks: seq<Track>, p: string)
    ensures p in Paths(tracks) <==> exists t :: t in tracks && t.path == p
  {
    if p in Paths(tracks) {
      var i :| 0 <= i < |tracks| && tracks[i].path == p;
      assert tracks[i] in tracks;
    }
  }

  lemma {:induction false} ThreePartsPaths(o: Order, head: seq<Track>, tail: seq<Track>)
    requires WellPlaced(o)
    requires head == WithoutPaths(o.source[..o.pos + 1], Superseded(o)) && tail == WithoutPaths(o.source[o.pos + 1..], Superseded(o))
    ensures Paths(head + o.queued + tail) == Paths(o.source) + Paths(o.queued)
  {
    hide WithoutPaths, Paths;
    var s, h := Superseded(o), o.pos + 1;
    WithoutPathsMembers(o.source[..h], s);
    WithoutPathsMembers(o.source[h..], s);
    HeadAndTail(o);
    assert forall t :: t in o.source <==> t in o.source[..h] || t in o.source[h..] by {
      assert forall t :: t in o.source[..h] + o.source[h..] <==> t in o.source[..h] || t in o.source[h..];
    }
    forall p ensures p in Paths(head + o.queued + tail) <==> p in Paths(o.source) || p in Paths(o.queued) {
      PathIn(head + o.queued + tail, p);
      PathIn(o.source, p);
      PathIn(o.queued, p);
      if t :| t in o.source && t.path == p && p !in Paths(o.queued) {
        assert t in head || t in tail;
        assert t in head + o.queued + tail;
      }
      if t :| t in o.queued && t.path == p {
        assert t in head + o.queued + tail;
      }
    }
  }
}
