/** The spans of the asks that hold a run, their union, and the waits without them
    (`ask_spans`, `overlap` and part of `m7` of scripts/docs-metrics.py). Instants
    are integers, in milliseconds. */
module AskSpans {
  import opened Wrappers
  import opened Sorting

  /** From an ask's opening to its end; open-ended when it has none. The end may be
      before the start. */
  datatype Span = Span(start: int, end: Option<int>)

  predicate Covers(s: Span, t: int) {
    s.start <= t && (s.end.None? || t < s.end.value)
  }

  ghost predicate Covered(spans: seq<Span>, t: int) {
    exists s :: s in spans && Covers(s, t)
  }

  // ----- the union

  /** By start, a closed span before an open-ended one, then by end. */
  predicate Before(a: Span, b: Span) {
    || a.start < b.start
    || (a.start == b.start && (b.end.None? || (a.end.Some? && a.end.value <= b.end.value)))
  }

  /** The spans follow one another with a gap in between. */
  ghost predicate Apart(spans: seq<Span>) {
    forall i, j :: 0 <= i < j < |spans| ==> Gap(spans[i], spans[j])
  }

  predicate Gap(a: Span, b: Span) {
    a.start <= b.start && a.end.Some? && a.end.value < b.start
  }

  /** One turn of the merge: into the last span when it reaches the new one. */
  function Merge(merged: seq<Span>, s: Span): seq<Span> {
    var n := |merged|;
    if n > 0 && (merged[n - 1].end.None? || s.start <= merged[n - 1].end.value) then
      var last := merged[n - 1];
      merged[..n - 1] + [Span(last.start, if last.end.None? || s.end.None? then None
                                          else Some(if last.end.value < s.end.value then s.end.value else last.end.value))]
    else merged + [s]
  }

  ghost predicate StartsBy(merged: seq<Span>, start: int) {
    forall i :: 0 <= i < |merged| ==> merged[i].start <= start
  }

  lemma MergeKeepsApart(merged: seq<Span>, s: Span)
    requires Apart(merged) && StartsBy(merged, s.start)
    ensures Apart(Merge(merged, s)) && StartsBy(Merge(merged, s), s.start)
  {
    var n, m := |merged|, Merge(merged, s);
    forall i, j | 0 <= i < j < |m| ensures Gap(m[i], m[j]) {
      if j < n {
        assert Gap(merged[i], merged[j]);
      } else {
        assert i < n - 1 ==> Gap(merged[i], merged[n - 1]);
      }
    }
  }

  lemma CoveredJoin(a: seq<Span>, s: Span, t: int)
    ensures Covered(a + [s], t) <==> Covered(a, t) || Covers(s, t)
  {
    assert s in a + [s];
    assert forall x :: x in a ==> x in a + [s];
  }

  lemma MergeCovers(merged: seq<Span>, s: Span, t: int)
    requires StartsBy(merged, s.start)
    ensures Covered(Merge(merged, s), t) <==> Covered(merged, t) || Covers(s, t)
  {
    var n := |merged|;
    if n > 0 && (merged[n - 1].end.None? || s.start <= merged[n - 1].end.value) {
      var init, last := merged[..n - 1], merged[n - 1];
      assert merged == init + [last];
      var both := Merge(merged, s)[n - 1];
      CoveredJoin(init, last, t);
      CoveredJoin(init, both, t);
      assert last.start <= s.start;
      assert Covers(both, t) <==> Covers(last, t) || Covers(s, t);
    } else {
      CoveredJoin(merged, s, t);
    }
  }

  lemma BeforeIsOrder()
    ensures TotalOrder(Before)
  {
  }

  ghost predicate SameCover(a: seq<Span>, b: seq<Span>) {
    forall t :: Covered(a, t) <==> Covered(b, t)
  }

  lemma MergeStep(merged: seq<Span>, seen: seq<Span>, s: Span)
    requires StartsBy(merged, s.start) && SameCover(merged, seen)
    ensures SameCover(Merge(merged, s), seen + [s])
  {
    hide Merge, StartsBy;
    forall t ensures Covered(Merge(merged, s), t) <==> Covered(seen + [s], t) {
      MergeCovers(merged, s, t);
      CoveredJoin(seen, s, t);
    }
  }

  lemma NothingMerged(sorted: seq<Span>)
    ensures Apart([]) && SameCover([], sorted[..0]) && (sorted != [] ==> StartsBy([], sorted[0].start))
  {
    assert sorted[..0] == [];
  }

  lemma SameCoverJoin(a: seq<Span>, b: seq<Span>, c: seq<Span>)
    requires SameCover(a, b) && SameCover(b, c)
    ensures forall t :: Covered(a, t) <==> Covered(c, t)
  {
    hide Covered;
  }

  /** One turn of the loop, with everything it keeps. */
  lemma MergeTurn(merged: seq<Span>, sorted: seq<Span>, i: nat)
    requires i < |sorted| && StartsInOrder(sorted) && Apart(merged) && StartsBy(merged, sorted[i].start)
    requires SameCover(merged, sorted[..i])
    ensures Apart(Merge(merged, sorted[i])) && SameCover(Merge(merged, sorted[i]), sorted[..i + 1])
    ensures i + 1 < |sorted| ==> StartsBy(Merge(merged, sorted[i]), sorted[i + 1].start)
  {
    MergeKeepsApart(merged, sorted[i]);
    MergeStep(merged, sorted[..i], sorted[i]);
    hide Merge, Apart, SameCover;
    assert sorted[..i + 1] == sorted[..i] + [sorted[i]];
    if i + 1 < |sorted| {
      assert sorted[i].start <= sorted[i + 1].start;
    }
  }

  ghost predicate StartsInOrder(spans: seq<Span>) {
    forall i, j :: 0 <= i < j < |spans| ==> spans[i].start <= spans[j].start
  }

  lemma SortedSpans(items: seq<Span>)
    ensures StartsInOrder(Sort(Before, items)) && SameCover(Sort(Before, items), items)
  {
    hide Sort;
    BeforeIsOrder();
    SortSorts(Before, items);
    SortKeeps(Before, items);
    var s := Sort(Before, items);
    forall i, j | 0 <= i < j < |s| ensures s[i].start <= s[j].start {
      assert Before(s[i], s[j]);
    }
  }

  /** The union of a run's spans: apart from one another, and covering exactly the
      instants of the spans, open-ended and inverted ones included. */
  method Union(items: seq<Span>) returns (merged: seq<Span>)
    ensures Apart(merged)
    ensures forall t :: Covered(merged, t) <==> Covered(items, t)
  {
    merged := [];
    NothingMerged(Sort(Before, items));
    hide Merge, Apart, Sort, Covered, Before, SameCover, StartsBy, StartsInOrder;
    var sorted := Sort(Before, items);
    SortedSpans(items);
    for i := 0 to |sorted|
      invariant Apart(merged)
      invariant i < |sorted| ==> StartsBy(merged, sorted[i].start)
      invariant SameCover(merged, sorted[..i])
    {
      MergeTurn(merged, sorted, i);
      merged := Merge(merged, sorted[i]);
    }
    assert sorted[..|sorted|] == sorted;
    SameCoverJoin(merged, sorted, items);
  }

  // ----- the covered part of a window

  /** The instants of [start, end) that the spans cover. */
  ghost function CoveredIn(spans: seq<Span>, start: int, end: int): set<int> {
    set t | start <= t < end && Covered(spans, t)
  }

  function Length(start: int, end: int): nat {
    if start < end then end - start else 0
  }

  /** The instants of [start, end). */
  ghost function Window(start: int, end: int): (w: set<int>)
    ensures forall t :: t in w <==> start <= t < end
    ensures |w| == Length(start, end)
    decreases end - start
  {
    if start < end then Window(start, end - 1) + {end - 1} else {}
  }

  /** What one span adds: max(a, start) to min(b, end). */
  function Part(s: Span, start: int, end: int): nat {
    var low := if s.start < start then start else s.start;
    var high := if s.end.Some? && s.end.value < end then s.end.value else end;
    Length(low, high)
  }

  /** A span after the others adds its own part of the window. */
  lemma PartAdds(spans: seq<Span>, s: Span, start: int, end: int)
    requires Apart(spans + [s])
    ensures |CoveredIn(spans + [s], start, end)| == |CoveredIn(spans, start, end)| + Part(s, start, end)
  {
    hide Window, Covered, Apart;
    var low := if s.start < start then start else s.start;
    var high := if s.end.Some? && s.end.value < end then s.end.value else end;
    var part := Window(low, high);
    var all, before := spans + [s], CoveredIn(spans, start, end);
    forall t | t in part ensures t !in before {
      NotBefore(spans, s, t);
    }
    forall t ensures t in CoveredIn(all, start, end) <==> t in before + part {
      CoveredJoin(spans, s, t);
    }
    assert CoveredIn(all, start, end) == before + part && before !! part;
  }

  lemma NotBefore(spans: seq<Span>, s: Span, t: int)
    requires Apart(spans + [s]) && s.start <= t
    ensures !Covered(spans, t)
  {
    var all := spans + [s];
    forall x | x in spans ensures !Covers(x, t) {
      var i :| 0 <= i < |spans| && spans[i] == x;
      assert Gap(all[i], all[|spans|]);
    }
  }

  /** `overlap`: over spans that are apart, the number of instants of the window
      they cover. */
  method Overlap(spans: seq<Span>, start: int, end: int) returns (total: nat)
    requires Apart(spans)
    ensures total == |CoveredIn(spans, start, end)|
  {
    total := 0;
    assert CoveredIn([], start, end) == {};
    for i := 0 to |spans|
      invariant total == |CoveredIn(spans[..i], start, end)|
    {
      var a, b := spans[i].start, spans[i].end;
      var low := if a < start then start else a;
      var high := if b.None? then end else if b.value < end then b.value else end;
      assert spans[..i + 1] == spans[..i] + [spans[i]];
      PartAdds(spans[..i], spans[i], start, end);
      if high > low {
        total := total + (high - low);
      }
    }
    assert spans[..|spans|] == spans;
  }

  /** The overlap of adjacent windows adds up, and never exceeds the window. */
  lemma OverlapIsAdditive(spans: seq<Span>, start: int, mid: int, end: int)
    requires start <= mid <= end
    ensures |CoveredIn(spans, start, end)| == |CoveredIn(spans, start, mid)| + |CoveredIn(spans, mid, end)|
    ensures |CoveredIn(spans, start, end)| <= end - start
  {
    assert CoveredIn(spans, start, end) == CoveredIn(spans, start, mid) + CoveredIn(spans, mid, end);
    assert CoveredIn(spans, start, mid) !! CoveredIn(spans, mid, end);
    OverlapWithin(spans, start, end);
  }

  lemma OverlapWithin(spans: seq<Span>, start: int, end: int)
    ensures |CoveredIn(spans, start, end)| <= Length(start, end)
  {
    SubsetSize(CoveredIn(spans, start, end), Window(start, end));
  }

  lemma {:induction false} SubsetSize(a: set<int>, b: set<int>)
    requires a <= b
    ensures |a| <= |b|
  {
    assert b == a + (b - a);
  }

  // ----- the asks that hold a run

  datatype EventKind = AskOpened | AskAnswered | AskClosed | OtherKind

  /** An event with a time; `holds` is false for the kinds of asks that hold no run. */
  datatype Event = Event(at: int, id: int, kind: EventKind, ask: Option<int>, run: Option<string>,
                         holds: bool, runtimeClosed: bool)

  predicate Earlier(a: Event, b: Event) {
    a.at < b.at || (a.at == b.at && a.id <= b.id)
  }

  predicate Opens(e: Event, ask: int) {
    e.kind.AskOpened? && e.ask == Some(ask)
  }

  predicate Ends(e: Event, ask: int) {
    (e.kind.AskAnswered? || e.kind.AskClosed?) && e.ask == Some(ask)
  }

  /** The first of the events that opens (or ends) the ask. */
  function First(events: seq<Event>, ask: int, opening: bool): Option<Event> {
    if events == [] then None
    else
      var before := First(events[..|events| - 1], ask, opening);
      var last := events[|events| - 1];
      if before.Some? then before
      else if (if opening then Opens(last, ask) else Ends(last, ask)) then Some(last) else None
  }

  /** An ask's span holds run `run`: it was opened for the run, is of a kind that
      holds it, and the runtime did not close it. */
  ghost predicate Holds(events: seq<Event>, ask: int, run: string, s: Span) {
    var openings, end := First(events, ask, true), First(events, ask, false);
    && openings.Some? && openings.value.run == Some(run) && openings.value.holds
    && !(end.Some? && end.value.runtimeClosed)
    && s == Span(openings.value.at, if end.Some? then Some(end.value.at) else None)
  }

  /** The first opening and the first end of each ask, in the order of the events. */
  method FirstEvents(events: seq<Event>) returns (openings: map<int, Event>, ends: map<int, Event>)
    ensures forall ask :: (if ask in openings then Some(openings[ask]) else None) == First(events, ask, true)
    ensures forall ask :: (if ask in ends then Some(ends[ask]) else None) == First(events, ask, false)
  {
    openings, ends := map[], map[];
    for i := 0 to |events|
      invariant forall ask :: (if ask in openings then Some(openings[ask]) else None) == First(events[..i], ask, true)
      invariant forall ask :: (if ask in ends then Some(ends[ask]) else None) == First(events[..i], ask, false)
    {
      var e := events[i];
      assert events[..i + 1][..i] == events[..i];
      if e.ask.Some? {
        if e.kind.AskOpened? {
          if e.ask.value !in openings {
            openings := openings[e.ask.value := e];
          }
        } else if e.kind.AskAnswered? || e.kind.AskClosed? {
          if e.ask.value !in ends {
            ends := ends[e.ask.value := e];
          }
        }
      }
    }
    assert events[..|events|] == events;
  }

  /** The spans of each run, one for each ask that holds it. */
  ghost predicate SpansOf(events: seq<Event>, asks: set<int>, spans: map<string, seq<Span>>) {
    && (forall run, s :: run in spans && s in spans[run] ==> exists ask :: ask in asks && Holds(events, ask, run, s))
    && (forall run, s, ask :: ask in asks && Holds(events, ask, run, s) ==> run in spans && s in spans[run])
  }

  lemma SpansOfMore(events: seq<Event>, asks: set<int>, spans: map<string, seq<Span>>, ask: int, run: string, s: Span)
    requires SpansOf(events, asks, spans) && Holds(events, ask, run, s)
    ensures SpansOf(events, asks + {ask}, spans[run := (if run in spans then spans[run] else []) + [s]])
  {
  }

  lemma SpansOfNone(events: seq<Event>, asks: set<int>, spans: map<string, seq<Span>>, ask: int)
    requires SpansOf(events, asks, spans) && forall run, s :: !Holds(events, ask, run, s)
    ensures SpansOf(events, asks + {ask}, spans)
  {
  }

  method CollectSpans(events: seq<Event>) returns (spans: map<string, seq<Span>>, asks: set<int>)
    ensures SpansOf(events, asks, spans)
    ensures forall ask :: First(events, ask, true).Some? ==> ask in asks
  {
    var openings, ends := FirstEvents(events);
    spans, asks := map[], {};
    var rest := openings.Keys;
    while rest != {}
      invariant rest <= openings.Keys && asks == openings.Keys - rest
      invariant SpansOf(events, asks, spans)
      decreases rest
    {
      var ask := Pick(rest);
      var e := openings[ask];
      assert First(events, ask, true) == Some(e);
      rest := rest - {ask};
      if e.run.None? || !e.holds || (ask in ends && ends[ask].runtimeClosed) {
        SpansOfNone(events, asks, spans, ask);
      } else {
        var s := Span(e.at, if ask in ends then Some(ends[ask].at) else None);
        var run := e.run.value;
        SpansOfMore(events, asks, spans, ask, run, s);
        spans := spans[run := (if run in spans then spans[run] else []) + [s]];
      }
      asks := asks + {ask};
    }
    forall ask | First(events, ask, true).Some? ensures ask in asks {
      assert ask in openings;
    }
  }

  function InOrder(events: seq<Event>): seq<Event> {
    Sort(Earlier, events)
  }

  /** Run `run` is held at instant `t` by some ask. */
  ghost predicate HeldAt(events: seq<Event>, run: string, t: int) {
    exists ask, s :: Holds(InOrder(events), ask, run, s) && Covers(s, t)
  }

  /** `ask_spans`: for each run, spans apart from one another that cover exactly the
      instants at which some ask holds it. */
  method AskSpans(events: seq<Event>) returns (union: map<string, seq<Span>>)
    ensures forall run :: run in union ==> Apart(union[run])
    ensures forall run, t :: HeldAt(events, run, t) <==> run in union && Covered(union[run], t)
  {
    var sorted := InOrder(events);
    var spans, asks := CollectSpans(sorted);
    union := map[];
    var rest := spans.Keys;
    while rest != {}
      invariant rest <= spans.Keys && union.Keys == spans.Keys - rest
      invariant forall run :: run in union ==> Apart(union[run])
      invariant forall run, t :: run in union ==> (Covered(union[run], t) <==> Covered(spans[run], t))
      decreases rest
    {
      var run := Pick(rest);
      var merged := Union(spans[run]);
      union := union[run := merged];
      rest := rest - {run};
    }
    forall run, t ensures HeldAt(events, run, t) <==> run in union && Covered(union[run], t) {
      HeldIsCovered(events, asks, spans, run, t);
    }
  }

  lemma HeldIsCovered(events: seq<Event>, asks: set<int>, spans: map<string, seq<Span>>, run: string, t: int)
    requires SpansOf(InOrder(events), asks, spans)
    requires forall ask :: First(InOrder(events), ask, true).Some? ==> ask in asks
    ensures HeldAt(events, run, t) <==> run in spans && Covered(spans[run], t)
  {
    if HeldAt(events, run, t) {
      var ask, s :| Holds(InOrder(events), ask, run, s) && Covers(s, t);
      assert ask in asks && s in spans[run];
    }
    if run in spans && Covered(spans[run], t) {
      var s :| s in spans[run] && Covers(s, t);
      var ask :| ask in asks && Holds(InOrder(events), ask, run, s);
    }
  }

  // ----- the same, on the events as they are given

  /** The event opens the ask, or answers or closes it. */
  predicate Marks(e: Event, ask: int, opening: bool) {
    e.ask == Some(ask) && if opening then e.kind == AskOpened else e.kind == AskAnswered || e.kind == AskClosed
  }

  /** The first is at a place with none before it, and there is none when no event is one. */
  lemma {:induction false} FirstExact(events: seq<Event>, ask: int, opening: bool)
    ensures var first := First(events, ask, opening);
      && (first.None? ==> forall i :: 0 <= i < |events| ==> !Marks(events[i], ask, opening))
      && (first.Some? ==> exists i :: 0 <= i < |events| && events[i] == first.value && Marks(events[i], ask, opening)
                                      && forall j :: 0 <= j < i ==> !Marks(events[j], ask, opening))
  {
    if events != [] {
      var n := |events| - 1;
      var before := First(events[..n], ask, opening);
      FirstExact(events[..n], ask, opening);
      assert forall i :: 0 <= i < n ==> events[..n][i] == events[i];
      if before.Some? {
        var i :| 0 <= i < n && events[i] == before.value && Marks(events[i], ask, opening)
                 && forall j :: 0 <= j < i ==> !Marks(events[j], ask, opening);
      }
    }
  }

  /** No event that opens (or ends) the ask is of an earlier time, or of the same time
      and a smaller id. */
  ghost predicate Earliest(events: seq<Event>, ask: int, opening: bool, e: Event) {
    && e in events && Marks(e, ask, opening)
    && forall x :: x in events && Marks(x, ask, opening) ==> e.at < x.at || (e.at == x.at && e.id <= x.id)
  }

  lemma EarlierIsOrder()
    ensures TotalOrder(Earlier)
  {
  }

  /** Of sorted events the first that opens (or ends) the ask is the earliest. */
  lemma FirstOfSorted(sorted: seq<Event>, ask: int, opening: bool)
    requires SortedBy(Earlier, sorted)
    ensures var first := First(sorted, ask, opening);
            if first.Some? then Earliest(sorted, ask, opening, first.value)
            else forall e :: e in sorted ==> !Marks(e, ask, opening)
  {
    FirstExact(sorted, ask, opening);
    hide First, Marks;
    var first := First(sorted, ask, opening);
    if first.Some? {
      var i :| 0 <= i < |sorted| && sorted[i] == first.value && Marks(sorted[i], ask, opening)
               && forall j :: 0 <= j < i ==> !Marks(sorted[j], ask, opening);
      forall x | x in sorted && Marks(x, ask, opening) ensures Earlier(sorted[i], x) {
        var j :| 0 <= j < |sorted| && sorted[j] == x;
        assert j >= i;
      }
    }
  }

  lemma FirstIsEarliest(events: seq<Event>, ask: int, opening: bool)
    ensures var first := First(InOrder(events), ask, opening);
            if first.Some? then Earliest(events, ask, opening, first.value)
            else forall e :: e in events ==> !Marks(e, ask, opening)
  {
    EarlierIsOrder();
    SortSorts(Earlier, events);
    SortKeeps(Earlier, events);
    FirstOfSorted(InOrder(events), ask, opening);
    hide First, Sort, TotalOrder, Marks, SortedBy;
  }

  /** No two events share their time and id. */
  ghost predicate IdsDiffer(events: seq<Event>) {
    forall a, b :: a in events && b in events && a.at == b.at && a.id == b.id ==> a == b
  }

  /** The ask was opened for the run, to hold it, by `t`, and neither ended by then nor
      ended by the runtime. */
  ghost predicate HeldBy(events: seq<Event>, ask: int, run: string, t: int) {
    && (exists open :: Earliest(events, ask, true, open) && open.run == Some(run) && open.holds && open.at <= t)
    && (forall end :: Earliest(events, ask, false, end) ==> !end.runtimeClosed && t < end.at)
  }

  lemma OneEarliest(events: seq<Event>, ask: int, opening: bool)
    requires IdsDiffer(events)
    ensures forall a, b :: Earliest(events, ask, opening, a) && Earliest(events, ask, opening, b) ==> a == b
  {
    hide Marks;
  }

  lemma HoldsExact(events: seq<Event>, ask: int, run: string, t: int)
    requires IdsDiffer(events)
    ensures (exists s :: Holds(InOrder(events), ask, run, s) && Covers(s, t)) <==> HeldBy(events, ask, run, t)
  {
    FirstIsEarliest(events, ask, true);
    FirstIsEarliest(events, ask, false);
    OneEarliest(events, ask, true);
    OneEarliest(events, ask, false);
    var open, end := First(InOrder(events), ask, true), First(InOrder(events), ask, false);
    assert end.None? ==> forall e :: !Earliest(events, ask, false, e);
    assert open.None? ==> forall e :: !Earliest(events, ask, true, e);
    hide First, InOrder, Earliest, IdsDiffer;
    if HeldBy(events, ask, run, t) {
      var s := Span(open.value.at, if end.Some? then Some(end.value.at) else None);
      assert Holds(InOrder(events), ask, run, s) && Covers(s, t);
    }
  }

  /** A run is held at an instant exactly when the first opening of some ask was for it
      and by then, and the first answer or close of that ask, if any, is not yet. */
  lemma HeldExactly(events: seq<Event>, run: string, t: int)
    requires IdsDiffer(events)
    ensures HeldAt(events, run, t) <==> exists ask :: HeldBy(events, ask, run, t)
  {
    hide Holds, HeldBy, InOrder, Covers;
    if HeldAt(events, run, t) {
      var ask, s :| Holds(InOrder(events), ask, run, s) && Covers(s, t);
      HoldsExact(events, ask, run, t);
    }
    if ask :| HeldBy(events, ask, run, t) {
      HoldsExact(events, ask, run, t);
    }
  }

  // ----- the waits without asks

  /** A wait for a run's next review. */
  datatype Wait = Wait(run: string, start: int, end: int)

  function HeldSpans(held: map<string, seq<Span>>, run: string): seq<Span> {
    if run in held then held[run] else []
  }

  ghost function LeftOf(held: map<string, seq<Span>>, w: Wait): int {
    if w.run in held then w.end - w.start - |CoveredIn(held[w.run], w.start, w.end)| else w.end - w.start
  }

  function Sum(values: seq<int>): int {
    if values == [] then 0 else Sum(values[..|values| - 1]) + values[|values| - 1]
  }

  function Whole(items: seq<Wait>): int {
    if items == [] then 0
    else Whole(items[..|items| - 1]) + items[|items| - 1].end - items[|items| - 1].start
  }

  method WaitWithoutAsks(held: map<string, seq<Span>>, w: Wait) returns (left: int, secs: int)
    requires forall run :: run in held ==> Apart(held[run])
    ensures left == LeftOf(held, w) && left + secs == w.end - w.start
    ensures left >= 0 <==> w.start <= w.end
  {
    var spans := HeldSpans(held, w.run);
    secs := Overlap(spans, w.start, w.end);
    OverlapWithin(spans, w.start, w.end);
    assert CoveredIn([], w.start, w.end) == {};
    left := w.end - w.start - secs;
  }

  lemma SumMore(values: seq<int>, v: int)
    ensures Sum(values + [v]) == Sum(values) + v
  {
    assert (values + [v])[..|values|] == values;
  }

  /** What is left of each wait without the asks, and what they took of all of them:
      no wait that does not end before it starts is left negative, and left and taken
      are the whole waits. */
  method WaitsWithoutAsks(held: map<string, seq<Span>>, items: seq<Wait>) returns (left: seq<int>, taken: int)
    requires forall run :: run in held ==> Apart(held[run])
    ensures |left| == |items|
    ensures forall i :: 0 <= i < |items| ==> left[i] == LeftOf(held, items[i])
    ensures forall i :: 0 <= i < |items| ==> (left[i] >= 0 <==> items[i].start <= items[i].end)
    ensures Sum(left) + taken == Whole(items)
  {
    hide LeftOf;
    left, taken := [], 0;
    for i := 0 to |items|
      invariant |left| == i
      invariant forall j :: 0 <= j < i ==> left[j] == LeftOf(held, items[j])
      invariant forall j :: 0 <= j < i ==> (left[j] >= 0 <==> items[j].start <= items[j].end)
      invariant Sum(left) + taken == Whole(items[..i])
    {
      var one, secs := WaitWithoutAsks(held, items[i]);
      assert items[..i + 1][..i] == items[..i];
      SumMore(left, one);
      left, taken := left + [one], taken + secs;
    }
    assert items[..|items|] == items;
  }

  /** A worker's time, taken from elsewhere when within a second of its span: less
      the asks, it is never more than a second below zero. */
  lemma WorkLeft(spans: seq<Span>, start: int, end: int, work: int)
    requires -1000 <= end - start - work <= 1000
    ensures start <= end ==> work - |CoveredIn(spans, start, end)| >= -1000
    ensures start > end ==> work - |CoveredIn(spans, start, end)| == work
  {
    OverlapWithin(spans, start, end);
  }

  /** Whatever holds the run, its work is left no less than nothing. */
  ghost predicate NeverNegative(start: int, end: int, work: int) {
    forall spans :: Apart(spans) ==> work - |CoveredIn(spans, start, end)| >= 0
  }

  /** That is so exactly when the work is at least as long as the span it is of. */
  lemma WorkLeftExact(start: int, end: int, work: int)
    ensures NeverNegative(start, end, work) <==> work >= Length(start, end)
  {
    var all := [Span(start, None)];
    forall t ensures start <= t ==> Covered(all, t) {
      assert all[0] in all;
    }
    assert CoveredIn(all, start, end) == Window(start, end);
    if NeverNegative(start, end, work) {
      assert Apart(all);
    }
    forall spans ensures |CoveredIn(spans, start, end)| <= Length(start, end) {
      OverlapWithin(spans, start, end);
    }
  }

  /** And it can be: a run held by an ask all along, its work taken as a second less. */
  lemma WorkLeftCanBeNegative()
    ensures 1000 - |CoveredIn([Span(0, None)], 0, 2000)| == -1000
  {
    var spans := [Span(0, None)];
    forall t | 0 <= t < 2000 ensures Covered(spans, t) {
      assert spans[0] in spans && Covers(spans[0], t);
    }
    assert CoveredIn(spans, 0, 2000) == Window(0, 2000);
  }
}
