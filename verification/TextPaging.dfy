/**
 Paging with a text filter (`queue_page` in src/library/audio_queue.rs): the
 order is read in chunks, and the reader advances by the length of the page it
 got, which is shorter than the chunk when source copies are superseded.
 */
module TextPaging {
  import opened PlaybackOrder

  const CHUNK: nat := 500

  // ---- Text that matches ---------------------------------------------------------------------

  function LowerChar(c: char): char
  {
    if 'A' <= c <= 'Z' then (c as int + 32) as char else c
  }

  function Lowercase(s: string): (r: string)
    ensures |r| == |s|
  {
    seq(|s|, i requires 0 <= i < |s| => LowerChar(s[i]))
  }

  predicate IsSpace(c: char)
  {
    c == ' ' || 9 <= c as int <= 13
  }

  function Trim(s: string): string
  {
    if s == "" then ""
    else if IsSpace(s[0]) then Trim(s[1..])
    else if IsSpace(s[|s| - 1]) then Trim(s[..|s| - 1])
    else s
  }

  function Needle(text: string): string
  {
    Lowercase(Trim(text))
  }

  predicate StandsAt(s: string, i: nat, needle: string)
  {
    i + |needle| <= |s| && s[i..i + |needle|] == needle
  }

  predicate Contains(s: string, needle: string)
  {
    exists i: nat :: i <= |s| && StandsAt(s, i, needle)
  }

  /** `audio_matches_text` */
  predicate MatchesText(t: Track, needle: string)
  {
    Contains(Lowercase(t.title), needle) || Contains(Lowercase(t.artist), needle) || Contains(Lowercase(t.path), needle)
  }

  predicate AllSpace(s: string)
  {
    forall k :: 0 <= k < |s| ==> IsSpace(s[k])
  }

  /** Trimming takes white space off both ends, and nothing else. */
  lemma {:induction false} TrimMeans(s: string) returns (front: string, back: string)
    ensures s == front + Trim(s) + back && AllSpace(front) && AllSpace(back)
    ensures Trim(s) != "" ==> !IsSpace(Trim(s)[0]) && !IsSpace(Trim(s)[|Trim(s)| - 1])
  {
    if s == "" {
      front, back := "", "";
    } else if IsSpace(s[0]) {
      front, back := TrimMeans(s[1..]);
      assert s == [s[0]] + (front + Trim(s) + back) == [s[0]] + front + Trim(s) + back;
      front := [s[0]] + front;
    } else if IsSpace(s[|s| - 1]) {
      front, back := TrimMeans(s[..|s| - 1]);
      assert s == front + Trim(s) + back + [s[|s| - 1]] == front + Trim(s) + (back + [s[|s| - 1]]);
      back := back + [s[|s| - 1]];
    } else {
      front, back := "", "";
    }
  }

  /** A track is found by its own path. */
  lemma {:induction false} PathMatches(t: Track)
    ensures MatchesText(t, Needle(t.path))
  {
    var front, back := TrimMeans(t.path);
    var needle := Needle(t.path);
    assert t.path[|front|..|front| + |Trim(t.path)|] == Trim(t.path);
    assert StandsAt(Lowercase(t.path), |front|, needle);
  }

  /** The same letter in upper or lower case. */
  predicate SameLetter(c: char, d: char)
  {
    c == d || ('A' <= c <= 'Z' && d as int == c as int + 32) || ('A' <= d <= 'Z' && c as int == d as int + 32)
  }

  predicate SameText(a: string, b: string)
  {
    |a| == |b| && forall k :: 0 <= k < |a| ==> SameLetter(a[k], b[k])
  }

  predicate TextAt(s: string, i: nat, text: string)
  {
    i + |text| <= |s| && SameText(s[i..i + |text|], text)
  }

  /** `text` stands somewhere in `s`, in any casing. */
  ghost predicate StandsIn(s: string, text: string)
  {
    exists i: nat :: TextAt(s, i, text)
  }

  lemma {:induction false} SameLetterIff(c: char, d: char)
    ensures LowerChar(c) == LowerChar(d) <==> SameLetter(c, d)
  {
  }

  lemma {:induction false} SameTextIff(a: string, b: string)
    ensures Lowercase(a) == Lowercase(b) <==> SameText(a, b)
  {
    hide SameLetter, LowerChar;
    forall k | 0 <= k < |a| && |a| == |b| ensures Lowercase(a)[k] == Lowercase(b)[k] <==> SameLetter(a[k], b[k]) {
      SameLetterIff(a[k], b[k]);
    }
  }

  lemma {:induction false} StandsAtIff(s: string, i: nat, text: string)
    ensures StandsAt(Lowercase(s), i, Lowercase(text)) <==> TextAt(s, i, text)
    ensures TextAt(s, i, text) ==> i <= |s|
  {
    hide SameText;
    if i + |text| <= |s| {
      assert Lowercase(s)[i..i + |text|] == Lowercase(s[i..i + |text|]);
      SameTextIff(s[i..i + |text|], text);
    }
  }

  lemma {:induction false} ContainsIff(s: string, text: string)
    ensures Contains(Lowercase(s), Lowercase(text)) <==> StandsIn(s, text)
  {
    hide Lowercase, StandsAt, TextAt;
    if Contains(Lowercase(s), Lowercase(text)) {
      var i: nat :| i <= |Lowercase(s)| && StandsAt(Lowercase(s), i, Lowercase(text));
      StandsAtIff(s, i, text);
    }
    if StandsIn(s, text) {
      var i: nat :| TextAt(s, i, text);
      StandsAtIff(s, i, text);
    }
  }

  /** A track matches exactly when the trimmed text stands in its title, artist or path, in any casing. */
  lemma {:induction false} MatchesIff(t: Track, text: string)
    ensures MatchesText(t, Needle(text))
       <==> StandsIn(t.title, Trim(text)) || StandsIn(t.artist, Trim(text)) || StandsIn(t.path, Trim(text))
  {
    hide Lowercase, Contains, StandsIn, Trim;
    ContainsIff(t.title, Trim(text));
    ContainsIff(t.artist, Trim(text));
    ContainsIff(t.path, Trim(text));
  }

  // ---- Paging ---------------------------------------------------------------------------------

  function Matching(tracks: seq<Track>, needle: string): seq<Track>
  {
    if tracks == [] then []
    else
      var rest, last := Matching(tracks[..|tracks| - 1], needle), tracks[|tracks| - 1];
      if MatchesText(last, needle) then rest + [last] else rest
  }

  /** The chunk loop at `rank`, with `matched` kept so far. */
  function Collect(o: Order, rank: nat, want: nat, needle: string, matched: seq<Track>): seq<Track>
    requires WellPlaced(o)
    decreases if rank <= o.Total() then o.Total() - rank else 0
  {
    if |matched| >= want then matched
    else
      var page := Page(o, rank, CHUNK);
      if page == [] then matched
      else
        PageBounds(o, rank);
        Collect(o, rank + |page|, want, needle, matched + Matching(page, needle))
  }

  lemma {:induction false} RangeSize(o: Order, from: nat, end: nat)
    requires WellPlaced(o) && from <= end <= o.Total()
    ensures |RenderRange(o, from, end)| <= end - from
    ensures |RenderRange(o, from, end)| == end - from <==> forall r: nat :: from <= r < end ==> !Hidden(o, r)
    ensures RenderRange(o, from, end) == [] <==> forall r: nat :: from <= r < end ==> Hidden(o, r)
    decreases end
  {
    hide Slots, Superseded, Hidden;
    if from < end {
      RangeSize(o, from, end - 1);
    }
  }

  lemma {:induction false} PageBounds(o: Order, rank: nat)
    requires WellPlaced(o)
    ensures Page(o, rank, CHUNK) != [] ==> rank < o.Total() && rank + |Page(o, rank, CHUNK)| <= o.Total()
  {
    hide Slots, Superseded, Hidden, RenderRange;
    var end := if rank + CHUNK < o.Total() then rank + CHUNK else o.Total();
    if rank <= end {
      RangeSize(o, rank, end);
    } else {
      EmptyRange(o, rank, end);
    }
    if rank == end {
      EmptyRange(o, rank, end);
    }
  }

  /** `queue_page`: blank text takes the unfiltered branch. */
  function QueuePage(o: Order, offset: int, limit: int, text: string): seq<Track>
    requires WellPlaced(o)
  {
    var needle := Needle(text);
    if needle == "" then Page(o, offset, limit)
    else SkipTake(Collect(o, 0, Max0(offset) + Max0(limit), needle, []), offset, limit)
  }

  method QueuePageText(o: Order, offset: int, limit: int, text: string) returns (page: seq<Track>)
    requires WellPlaced(o)
    ensures page == QueuePage(o, offset, limit, text)
  {
    hide Page, Matching, SkipTake, Needle;
    var needle := Needle(text);
    if needle == "" {
      page := QueuePageUnfiltered(o, offset, limit);
      return;
    }
    var want := Max0(offset) + Max0(limit);
    var matched: seq<Track> := [];
    var rank: nat := 0;
    while |matched| < want
      invariant Collect(o, 0, want, needle, []) == Collect(o, rank, want, needle, matched)
      decreases if rank <= o.Total() then o.Total() - rank else 0
    {
      var chunk := QueuePageUnfiltered(o, rank, CHUNK);
      if chunk == [] {
        break;
      }
      PageBounds(o, rank);
      rank := rank + |chunk|;
      matched := matched + Matching(chunk, needle);
    }
    page := SkipTake(matched, offset, limit);
  }

  /** What is wanted: filter the whole rendered queue, then slice. */
  function FilterThenSlice(o: Order, offset: int, limit: int, needle: string): seq<Track>
    requires WellPlaced(o)
  {
    SkipTake(Matching(Rendered(o), needle), offset, limit)
  }

  /** No visible slot comes after a hidden one. */
  ghost predicate HiddenLast(o: Order)
    requires WellPlaced(o)
  {
    forall r: nat, q: nat :: r < q < o.Total() && Hidden(o, r) ==> Hidden(o, q)
  }

  // ---- Hidden slots last: exact -----------------------------------------------------------

  lemma {:induction false} MatchingAppend(a: seq<Track>, b: seq<Track>, needle: string)
    ensures Matching(a + b, needle) == Matching(a, needle) + Matching(b, needle)
    decreases |b|
  {
    if b == [] {
      assert a + b == a;
    } else {
      assert (a + b)[..|a + b| - 1] == a + b[..|b| - 1];
      MatchingAppend(a, b[..|b| - 1], needle);
    }
  }

  /** Visible up to `n`, hidden from `n` on. */
  ghost predicate SplitAt(o: Order, n: nat)
    requires WellPlaced(o)
  {
    n <= o.Total() && forall r: nat :: r < o.Total() ==> (Hidden(o, r) <==> n <= r)
  }

  lemma {:induction false} FirstHidden(o: Order, r: nat) returns (n: nat)
    requires WellPlaced(o) && HiddenLast(o) && r <= o.Total()
    requires forall q: nat :: q < r ==> !Hidden(o, q)
    ensures SplitAt(o, n)
    decreases o.Total() - r
  {
    if r == o.Total() || Hidden(o, r) {
      n := r;
    } else {
      n := FirstHidden(o, r + 1);
    }
  }

  /** A chunk read below the split is full of visible slots; the reader stays in step. */
  lemma {:induction false} ChunkBelowSplit(o: Order, n: nat, rank: nat)
    requires WellPlaced(o) && SplitAt(o, n) && rank <= n
    ensures var end := if rank + CHUNK < n then rank + CHUNK else n;
            end <= o.Total() && Page(o, rank, CHUNK) == RenderRange(o, rank, end) && |RenderRange(o, rank, end)| == end - rank
  {
    hide Slots, Superseded, Hidden, RenderRange;
    var end := if rank + CHUNK < n then rank + CHUNK else n;
    var stop := if rank + CHUNK < o.Total() then rank + CHUNK else o.Total();
    RangeSize(o, rank, end);
    RangeSize(o, end, stop);
    RenderSplit(o, rank, end, stop);
    if stop == 0 {
      EmptyRange(o, rank, end);
    }
  }

  /** The loop ends with enough matches, or with all of them. */
  lemma {:induction false} CollectIsPrefix(o: Order, n: nat, rank: nat, want: nat, needle: string, matched: seq<Track>)
    requires WellPlaced(o) && SplitAt(o, n) && rank <= n && n <= o.Total()
    requires matched == Matching(RenderRange(o, 0, rank), needle)
    ensures var all, c := Matching(RenderRange(o, 0, n), needle), Collect(o, rank, want, needle, matched);
            c == all || (|c| >= want && |c| <= |all| && c == all[..|c|])
    decreases n - rank
  {
    hide Slots, Superseded, Hidden, RenderRange, Page, Matching, SplitAt;
    RenderSplit(o, 0, rank, n);
    MatchingAppend(RenderRange(o, 0, rank), RenderRange(o, rank, n), needle);
    if |matched| < want {
      ChunkBelowSplit(o, n, rank);
      var end := if rank + CHUNK < n then rank + CHUNK else n;
      if end > rank {
        RenderSplit(o, 0, rank, end);
        MatchingAppend(RenderRange(o, 0, rank), RenderRange(o, rank, end), needle);
        CollectIsPrefix(o, n, end, want, needle, Matching(RenderRange(o, 0, end), needle));
      }
    }
  }

  lemma {:induction false} SlicePrefix(all: seq<Track>, c: seq<Track>, offset: int, limit: int)
    requires c == all || (|c| >= Max0(offset) + Max0(limit) && |c| <= |all| && c == all[..|c|])
    ensures SkipTake(c, offset, limit) == SkipTake(all, offset, limit)
  {
  }

  lemma {:induction false} ExactWhenHiddenLast(o: Order, offset: int, limit: int, text: string)
    requires WellPlaced(o) && HiddenLast(o) && Needle(text) != ""
    ensures QueuePage(o, offset, limit, text) == FilterThenSlice(o, offset, limit, Needle(text))
  {
    hide Slots, Superseded, Hidden, RenderRange, Matching, SkipTake, Collect, HiddenLast, Needle;
    var needle := Needle(text);
    var n := FirstHidden(o, 0);
    EmptyRange(o, 0, 0);
    NoMatches(needle);
    CollectIsPrefix(o, n, 0, Max0(offset) + Max0(limit), needle, []);
    RenderedBelowSplit(o, n);
    SlicePrefix(Matching(Rendered(o), needle), Collect(o, 0, Max0(offset) + Max0(limit), needle, []), offset, limit);
  }

  lemma {:induction false} NoMatches(needle: string)
    ensures Matching([], needle) == []
  {
  }

  lemma {:induction false} RenderedBelowSplit(o: Order, n: nat)
    requires WellPlaced(o) && SplitAt(o, n)
    ensures Rendered(o) == RenderRange(o, 0, n)
  {
    hide Slots, Superseded, Hidden, RenderRange;
    RenderSplit(o, 0, n, o.Total());
    RangeSize(o, n, o.Total());
  }

  // ---- A visible slot after a hidden one: some query goes wrong ----------------------------------

  /** Every track the loop reads from `rank` on, when it is never satisfied. */
  function ReadAll(o: Order, rank: nat): seq<Track>
    requires WellPlaced(o)
    decreases if rank <= o.Total() then o.Total() - rank else 0
  {
    var page := Page(o, rank, CHUNK);
    if page == [] then []
    else
      PageBounds(o, rank);
      page + ReadAll(o, rank + |page|)
  }

  /** The reader's rank is the number of tracks it has read; it ends at an empty page. */
  lemma {:induction false} ReadAllEnds(o: Order, rank: nat, before: seq<Track>)
    requires WellPlaced(o) && |before| == rank <= o.Total()
    requires forall t :: t in before ==> t in RenderRange(o, 0, if rank + CHUNK < o.Total() then rank + CHUNK else o.Total())
    ensures var c := before + ReadAll(o, rank);
            |c| <= o.Total() && Page(o, |c|, CHUNK) == []
            && forall t :: t in c ==> t in RenderRange(o, 0, if |c| + CHUNK < o.Total() then |c| + CHUNK else o.Total())
    decreases o.Total() - rank
  {
    hide Slots, Superseded, Hidden, RenderRange;
    var page := Page(o, rank, CHUNK);
    if page == [] {
      assert before + [] == before;
    } else {
      PageBounds(o, rank);
      var end := if rank + CHUNK < o.Total() then rank + CHUNK else o.Total();
      var next := rank + |page|;
      var more := if next + CHUNK < o.Total() then next + CHUNK else o.Total();
      RenderSplit(o, 0, rank, end);
      RenderSplit(o, 0, end, more);
      ReadAllEnds(o, next, before + page);
      assert before + page + ReadAll(o, next) == before + (page + ReadAll(o, next));
    }
  }

  lemma {:induction false} MatchingSize(tracks: seq<Track>, needle: string)
    ensures |Matching(tracks, needle)| <= |tracks|
    decreases |tracks|
  {
    if tracks != [] {
      MatchingSize(tracks[..|tracks| - 1], needle);
    }
  }

  /** A query that is never satisfied filters everything that is read. */
  lemma {:induction false} CollectIsMatching(o: Order, rank: nat, want: nat, needle: string, matched: seq<Track>)
    requires WellPlaced(o) && |matched| <= rank <= o.Total() < want
    ensures Collect(o, rank, want, needle, matched) == matched + Matching(ReadAll(o, rank), needle)
    decreases o.Total() - rank
  {
    hide Page, Matching;
    var page := Page(o, rank, CHUNK);
    NoMatches(needle);
    if page == [] {
      assert matched + [] == matched;
    } else {
      PageBounds(o, rank);
      MatchingSize(page, needle);
      CollectIsMatching(o, rank + |page|, want, needle, matched + Matching(page, needle));
      MatchingAppend(page, ReadAll(o, rank + |page|), needle);
    }
  }

  lemma {:induction false} MatchingCount(tracks: seq<Track>, needle: string, t: Track)
    requires MatchesText(t, needle)
    ensures multiset(Matching(tracks, needle))[t] == multiset(tracks)[t]
    decreases |tracks|
  {
    hide MatchesText;
    if tracks != [] {
      MatchingCount(tracks[..|tracks| - 1], needle, t);
      assert tracks == tracks[..|tracks| - 1] + [tracks[|tracks| - 1]];
    }
  }

  lemma {:induction false} PlacedOnce(tracks: seq<Track>, i: nat, j: nat)
    requires DistinctPaths(tracks) && i < |tracks| && j < |tracks| && tracks[i] == tracks[j]
    ensures i == j
  {
  }

  /** When the loop has collected exactly the rendered queue, nothing visible is left behind the reader. */
  lemma {:induction false} CollectedMeansLast(o: Order, r: nat)
    requires WellPlaced(o) && DistinctPaths(o.source) && DistinctPaths(o.queued)
    requires r == |Rendered(o)| <= o.Total() && Page(o, r, CHUNK) == []
    requires forall t :: t in Rendered(o) ==> t in RenderRange(o, 0, if r + CHUNK < o.Total() then r + CHUNK else o.Total())
    ensures HiddenLast(o)
  {
    hide Slots, Superseded, RenderRange, Hidden, DistinctPaths;
    var t := o.Total();
    var end := if r + CHUNK < t then r + CHUNK else t;
    RenderedIsExact(o);
    RenderSplit(o, 0, r, t);
    RenderSplit(o, 0, r, end);
    EmptyRange(o, r, if end == 0 then 0 else r);
    var front, back := RenderRange(o, 0, r), RenderRange(o, r, t);
    assert RenderRange(o, 0, end) == front;
    if back != [] {
      assert Rendered(o)[|front|] == back[0] && Rendered(o)[|front|] in Rendered(o);
      var i :| 0 <= i < |front| && front[i] == back[0];
      PlacedOnce(Rendered(o), i, |front|);
    }
    RangeSize(o, 0, r);
    RangeSize(o, r, t);
  }

  predicate NoBlankPath(tracks: seq<Track>)
  {
    forall i :: 0 <= i < |tracks| ==> Needle(tracks[i].path) != ""
  }

  /**
   Text paging is filtering the whole queue and then slicing, for every text,
   offset and limit, exactly when all superseded source copies come last.
   Otherwise the path of a track that is read twice, or never, is a text that fails.
   */
  lemma {:induction false} TextPagingExactIff(o: Order)
    requires WellPlaced(o) && DistinctPaths(o.source) && DistinctPaths(o.queued)
    requires NoBlankPath(o.source) && NoBlankPath(o.queued)
    ensures HiddenLast(o)
            <==> forall offset: int, limit: int, text: string :: Needle(text) != ""
                   ==> QueuePage(o, offset, limit, text) == FilterThenSlice(o, offset, limit, Needle(text))
  {
    hide HiddenLast, QueuePage, FilterThenSlice, Needle, DistinctPaths, NoBlankPath;
    if HiddenLast(o) {
      forall offset: int, limit: int, text: string | Needle(text) != ""
        ensures QueuePage(o, offset, limit, text) == FilterThenSlice(o, offset, limit, Needle(text))
      {
        ExactWhenHiddenLast(o, offset, limit, text);
      }
    }
    if forall offset: int, limit: int, text: string :: Needle(text) != ""
         ==> QueuePage(o, offset, limit, text) == FilterThenSlice(o, offset, limit, Needle(text))
    {
      var want: nat := o.Total() + 1;
      assert forall text: string :: Needle(text) != "" ==> QueuePage(o, 0, want, text) == FilterThenSlice(o, 0, want, Needle(text));
      ExactMeansLast(o, want);
    }
  }

  lemma {:induction false} ExactMeansLast(o: Order, want: nat)
    requires WellPlaced(o) && DistinctPaths(o.source) && DistinctPaths(o.queued) && want == o.Total() + 1
    requires NoBlankPath(o.source) && NoBlankPath(o.queued)
    requires forall text: string :: Needle(text) != "" ==> QueuePage(o, 0, want, text) == FilterThenSlice(o, 0, want, Needle(text))
    ensures HiddenLast(o)
  {
    hide Slots, Superseded, Hidden, RenderRange, HiddenLast, Rendered, Page, Needle, QueuePage, FilterThenSlice, DistinctPaths,
         NoBlankPath;
    var c, shown := ReadAll(o, 0), Rendered(o);
    ReadAllEnds(o, 0, []);
    assert [] + c == c;
    AllRendered(o, |c|);
    RangeSize(o, 0, o.Total());
    forall t | t in c || t in shown ensures multiset(c)[t] == multiset(shown)[t] {
      assert t in shown;
      RenderedIsPlaced(o, t);
      ReadAsOften(o, want, t);
    }
    assert multiset(c) == multiset(shown);
    assert |c| == |multiset(c)| == |multiset(shown)| == |shown|;
    forall t | t in shown ensures t in c {
      assert t in multiset(c);
    }
    CollectedMeansLast(o, |c|);
  }

  lemma {:induction false} AllRendered(o: Order, rank: nat)
    requires WellPlaced(o)
    ensures Rendered(o) == RenderRange(o, 0, o.Total())
    ensures forall t :: t in RenderRange(o, 0, if rank + CHUNK < o.Total() then rank + CHUNK else o.Total()) ==> t in Rendered(o)
  {
    hide RenderRange;
    RenderSplit(o, 0, if rank + CHUNK < o.Total() then rank + CHUNK else o.Total(), o.Total());
  }

  lemma {:induction false} RenderedIsPlaced(o: Order, t: Track)
    requires WellPlaced(o) && t in Rendered(o) && NoBlankPath(o.source) && NoBlankPath(o.queued)
    ensures Needle(t.path) != ""
  {
    hide Needle, Rendered, Superseded, WithoutPaths;
    RenderedIsThreeParts(o);
    WithoutPathsMembers(o.source[..o.pos + 1], Superseded(o));
    WithoutPathsMembers(o.source[o.pos + 1..], Superseded(o));
  }

  /** Asking for a track by its path shows that it is read as often as it is rendered. */
  lemma {:induction false} ReadAsOften(o: Order, want: nat, t: Track)
    requires WellPlaced(o) && want == o.Total() + 1 && Needle(t.path) != ""
    requires QueuePage(o, 0, want, t.path) == FilterThenSlice(o, 0, want, Needle(t.path))
    ensures multiset(ReadAll(o, 0))[t] == multiset(Rendered(o))[t]
  {
    hide Slots, Superseded, Hidden, RenderRange, Rendered, Page, Needle, Collect, Matching, MatchesText, ReadAll;
    var needle, c, shown := Needle(t.path), ReadAll(o, 0), Rendered(o);
    ReadAllEnds(o, 0, []);
    assert [] + c == c;
    AllRendered(o, 0);
    RangeSize(o, 0, o.Total());
    CollectIsMatching(o, 0, want, needle, []);
    assert [] + Matching(c, needle) == Matching(c, needle);
    MatchingSize(c, needle);
    MatchingSize(shown, needle);
    assert SkipTake(Matching(c, needle), 0, want) == Matching(c, needle);
    assert SkipTake(Matching(shown, needle), 0, want) == Matching(shown, needle);
    PathMatches(t);
    MatchingCount(c, needle, t);
    MatchingCount(shown, needle, t);
  }

  /** With no queued path in the source nothing is hidden. */
  lemma {:induction false} NothingSuperseded(o: Order)
    requires WellPlaced(o) && Superseded(o) == {}
    ensures HiddenLast(o)
  {
  }
}
