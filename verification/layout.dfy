/**
 Layout of one wave: its events are sorted by date, cut into groups of
 temporally close events, each group is given a vertical position that is
 proportional to time but pushed down far enough not to overlap the previous
 group's estimated band, and the cards of a group are staggered by offsets
 symmetric about the group's position.
 */
module Layout {
  import opened Types
  import opened Seqs

  /** Neighbouring events at most this far apart (90 days, in ms) share a group. */
  const ThreeMonthsMs: int := 3 * 30 * 24 * 60 * 60 * 1000
  /** Pixel height of the timeline axis. */
  const TimelineHeight: real := 1600.0
  /** The time span (7.8 years of 365.25 days, in ms) mapped onto the axis. */
  const TimelineSpanMs: real := 7.8 * 365.25 * 24.0 * 60.0 * 60.0 * 1000.0
  /** Minimum vertical gap between the bands of consecutive groups. */
  const GroupSpacing: real := 20.0
  /** Vertical distance between consecutive cards of one group. */
  const StaggerGap: int := 80
  /** Height of one event card: the card style's `height`, which the band
      estimate also assumes. The card's padding and border are not added. */
  const CardHeight: int := 60

  // ---------------------------------------------------------------- sorting

  /** Non-decreasing dates: each event is no earlier than its predecessor. */
  predicate SortedByTime(s: seq<Event>)
  {
    forall i :: 0 < i < |s| ==> s[i - 1].time <= s[i].time
  }

  /** Inserts `x` before the first element that is not earlier than it. */
  function Insert(x: Event, s: seq<Event>): (r: seq<Event>)
    ensures multiset(r) == multiset(s) + multiset{x}
    ensures |r| == |s| + 1 && (r[0] == x || (|s| > 0 && r[0] == s[0]))
    ensures SortedByTime(s) ==> SortedByTime(r)
  {
    if |s| == 0 then [x]
    else if x.time <= s[0].time then [x] + s
    else
      var rest := Insert(x, s[1..]);
      assert s == [s[0]] + s[1..];
      assert SortedByTime(s) ==> SortedByTime(s[1..]);
      [s[0]] + rest
  }

  /** The stable ascending sort by date that `Array.prototype.sort` performs
      with the comparator `new Date(a.date) - new Date(b.date)`. */
  function SortByTime(s: seq<Event>): (r: seq<Event>)
    ensures multiset(r) == multiset(s)
    ensures SortedByTime(r)
  {
    if |s| == 0 then []
    else
      assert s == [s[0]] + s[1..];
      Insert(s[0], SortByTime(s[1..]))
  }

  /** The events of `s` dated `t`, in their order in `s`. */
  function AtTime(s: seq<Event>, t: int): seq<Event>
  {
    if |s| == 0 then [] else (if s[0].time == t then [s[0]] else []) + AtTime(s[1..], t)
  }

  lemma {:induction false} InsertAtTime(x: Event, s: seq<Event>, t: int)
    ensures AtTime(Insert(x, s), t) == (if x.time == t then [x] else []) + AtTime(s, t)
    decreases |s|
  {
    if |s| == 0 {
      assert Insert(x, s) == [x] + [];
      AtTimeCons(x, [], t);
    } else if x.time <= s[0].time {
      AtTimeCons(x, s, t);
    } else {
      InsertAtTime(x, s[1..], t);
      InsertAfterHead(x, s, t);
    }
  }

  lemma InsertStep(x: Event, s: seq<Event>)
    requires |s| > 0 && x.time > s[0].time
    ensures Insert(x, s) == [s[0]] + Insert(x, s[1..])
  {
  }

  lemma AtTimeCons(e: Event, rest: seq<Event>, t: int)
    ensures AtTime([e] + rest, t) == (if e.time == t then [e] else []) + AtTime(rest, t)
  {
    assert ([e] + rest)[1..] == rest;
  }

  lemma InsertAfterHead(x: Event, s: seq<Event>, t: int)
    requires |s| > 0 && x.time > s[0].time
    requires AtTime(Insert(x, s[1..]), t) == (if x.time == t then [x] else []) + AtTime(s[1..], t)
    ensures AtTime(Insert(x, s), t) == (if x.time == t then [x] else []) + AtTime(s, t)
  {
    var mid: seq<Event> := if x.time == t then [x] else [];
    assert AtTime(Insert(x, s), t) == mid + AtTime([s[0]] + s[1..], t) by {
      InsertStep(x, s);
      AtTimeEarlierHead(s[0], x, Insert(x, s[1..]), s[1..], t);
    }
    assert [s[0]] + s[1..] == s;
  }

  /** Putting an event earlier than `x` in front of both sides keeps `x`'s
      contribution in front. */
  lemma AtTimeEarlierHead(e: Event, x: Event, rest: seq<Event>, tail: seq<Event>, t: int)
    requires e.time < x.time
    requires AtTime(rest, t) == (if x.time == t then [x] else []) + AtTime(tail, t)
    ensures AtTime([e] + rest, t) == (if x.time == t then [x] else []) + AtTime([e] + tail, t)
  {
    var head: seq<Event> := if e.time == t then [e] else [];
    var mid: seq<Event> := if x.time == t then [x] else [];
    AtTimeCons(e, rest, t);
    AtTimeCons(e, tail, t);
    SwapEmpty(head, mid, AtTime(tail, t));
  }

  /** When one of two prefixes is empty they commute in front of a third. */
  lemma SwapEmpty<T>(a: seq<T>, b: seq<T>, c: seq<T>)
    requires a == [] || b == []
    ensures a + (b + c) == b + (a + c)
  {
    if a == [] {
      assert a + (b + c) == b + c;
    } else {
      assert b + (a + c) == a + c;
    }
  }

  /** Equal dates keep their input order: for every date, the events carrying
      it appear in the sorted list exactly as they did in the input. */
  lemma {:induction false} SortIsStable(s: seq<Event>, t: int)
    ensures AtTime(SortByTime(s), t) == AtTime(s, t)
    decreases |s|
  {
    if |s| > 0 {
      SortIsStable(s[1..], t);
      InsertAtTime(s[0], SortByTime(s[1..]), t);
      AtTimeCons(s[0], s[1..], t);
      assert [s[0]] + s[1..] == s;
    }
  }

  /** Sorting an already sorted list changes nothing: the re-sort each group
      performs before staggering its cards keeps the group's order. */
  lemma {:induction false} SortKeepsSorted(s: seq<Event>)
    requires SortedByTime(s)
    ensures SortByTime(s) == s
    decreases |s|
  {
    if |s| > 0 {
      SortedTail(s);
      SortKeepsSorted(s[1..]);
      InsertFirst(s[0], s[1..]);
      assert [s[0]] + s[1..] == s;
    }
  }

  /** The tail of a date-ordered list is date-ordered. */
  lemma SortedTail(s: seq<Event>)
    requires |s| > 0 && SortedByTime(s)
    ensures SortedByTime(s[1..])
  {
    forall i | 0 < i < |s[1..]|
      ensures s[1..][i - 1].time <= s[1..][i].time
    {
      assert s[1..][i - 1] == s[i] && s[1..][i] == s[i + 1];
    }
  }

  /** An event no later than the head of a list is inserted in front. */
  lemma InsertFirst(x: Event, s: seq<Event>)
    requires |s| == 0 || x.time <= s[0].time
    ensures Insert(x, s) == [x] + s
  {
  }

  // --------------------------------------------------------------- grouping

  /** The groups laid end to end. */
  function Flatten(gs: seq<seq<Event>>): seq<Event>
  {
    if |gs| == 0 then [] else Flatten(gs[..|gs| - 1]) + Last(gs)
  }

  predicate NonEmptyGroups(gs: seq<seq<Event>>)
  {
    forall k :: 0 <= k < |gs| ==> |gs[k]| > 0
  }

  /** Neighbours inside a group are at most three months apart. */
  predicate Cohesive(g: seq<Event>)
  {
    forall j :: 0 < j < |g| ==> g[j].time - g[j - 1].time <= ThreeMonthsMs
  }

  /** The last event of each group and the first of the next are more than
      three months apart. */
  predicate Separated(gs: seq<seq<Event>>)
    requires NonEmptyGroups(gs)
  {
    forall k :: 0 < k < |gs| ==> gs[k][0].time - Last(gs[k - 1]).time > ThreeMonthsMs
  }

  lemma FlattenLast(gs: seq<seq<Event>>)
    requires |gs| > 0 && |Last(gs)| > 0
    ensures |Flatten(gs)| > 0 && Last(Flatten(gs)) == Last(Last(gs))
  {
  }

  /** `gs` cuts `s` into non-empty groups, in order, each cohesive and each
      separated from the next by more than three months. */
  predicate IsGrouping(gs: seq<seq<Event>>, s: seq<Event>)
  {
    && NonEmptyGroups(gs)
    && (forall k :: 0 <= k < |gs| ==> Cohesive(gs[k]))
    && Separated(gs)
    && Flatten(gs) == s
  }

  /** The single greedy pass over the sorted events: each event joins the
      current group when it is at most three months after its predecessor,
      and otherwise closes that group and opens a new one. The recursion
      peels off the last event, so `GroupEvents(s[..i+1])` is the state of
      the pass after visiting index `i`. */
  function GroupEvents(s: seq<Event>): (gs: seq<seq<Event>>)
  {
    if |s| <= 1 then (if |s| == 0 then [] else [[s[0]]])
    else
      var prev := GroupEvents(s[..|s| - 1]);
      if Last(s).time - s[|s| - 2].time <= ThreeMonthsMs then
        // `prev` is never empty here: a non-empty prefix always has a group
        if |prev| == 0 then [] else prev[..|prev| - 1] + [Last(prev) + [Last(s)]]
      else prev + [[Last(s)]]
  }

  /** The pass cuts the events into non-empty groups that give back the input
      when laid end to end; neighbours within a group are at most three months
      apart and the boundary between groups is more than three months; no
      events give no groups. */
  lemma {:induction false} GroupEventsIsGrouping(s: seq<Event>)
    ensures |GroupEvents(s)| == 0 <==> |s| == 0
    ensures IsGrouping(GroupEvents(s), s)
    decreases |s|
  {
    if |s| == 1 {
      assert Flatten([[s[0]]]) == Flatten([]) + [s[0]];
    } else if |s| > 1 {
      GroupEventsIsGrouping(s[..|s| - 1]);
      var prev := GroupEvents(s[..|s| - 1]);
      if Last(s).time - s[|s| - 2].time <= ThreeMonthsMs {
        JoinLastGroup(prev, s);
      } else {
        OpenNewGroup(prev, s);
      }
    }
  }

  lemma JoinLastGroup(prev: seq<seq<Event>>, s: seq<Event>)
    requires |s| > 1 && |prev| > 0 && IsGrouping(prev, s[..|s| - 1])
    requires Last(s).time - s[|s| - 2].time <= ThreeMonthsMs
    ensures IsGrouping(prev[..|prev| - 1] + [Last(prev) + [Last(s)]], s)
  {
    var gs := prev[..|prev| - 1] + [Last(prev) + [Last(s)]];
    FlattenLast(prev);
    assert Last(Last(prev)) == s[|s| - 2];
    assert gs[..|gs| - 1] == prev[..|prev| - 1];
    assert s[..|s| - 1] + [Last(s)] == s;
    assert forall k :: 0 <= k < |prev| - 1 ==> gs[k] == prev[k];
    assert Cohesive(Last(gs));
  }

  lemma OpenNewGroup(prev: seq<seq<Event>>, s: seq<Event>)
    requires |s| > 1 && |prev| > 0 && IsGrouping(prev, s[..|s| - 1])
    requires Last(s).time - s[|s| - 2].time > ThreeMonthsMs
    ensures IsGrouping(prev + [[Last(s)]], s)
  {
    var gs := prev + [[Last(s)]];
    FlattenLast(prev);
    assert Last(Last(prev)) == s[|s| - 2];
    assert gs[..|gs| - 1] == prev;
    assert s[..|s| - 1] + [Last(s)] == s;
  }

  // ---------------------------------------------------------------- offsets

  /** The stagger offsets of `count` cards spaced `gap` apart (`getOffsets`):
      position `i` gets `(i - count / 2) * gap`, and an even count is then
      shifted by half a gap. */
  function Offsets(count: nat, gap: int): (r: seq<real>)
    ensures |r| == count
  {
    seq(count, i requires 0 <= i < count => OffsetAt(count, gap, i))
  }

  function OffsetAt(count: nat, gap: int, i: int): real
  {
    ((i - count / 2) * gap) as real + (if count % 2 == 0 then gap as real / 2.0 else 0.0)
  }

  lemma MulSum(a: int, b: int, g: int)
    ensures a * g + b * g == (a + b) * g
  {
  }

  /** Consecutive offsets differ by exactly `gap`, so card `i` sits `i` gaps
      below card 0. */
  lemma OffsetsEvenlySpaced(count: nat, gap: int)
    ensures forall i :: 0 <= i < count - 1 ==> Offsets(count, gap)[i + 1] - Offsets(count, gap)[i] == gap as real
    ensures forall i :: 0 <= i < count ==> Offsets(count, gap)[i] == Offsets(count, gap)[0] + (i * gap) as real
  {
    var r := Offsets(count, gap);
    forall i | 0 <= i < count - 1
      ensures r[i + 1] - r[i] == gap as real
    {
      MulSum(i - count / 2, 1, gap);
    }
    forall i | 0 <= i < count
      ensures r[i] == r[0] + (i * gap) as real
    {
      MulSum(-(count / 2), i, gap);
    }
  }

  /** The offsets are symmetric about 0: the `i`-th from the top and the
      `i`-th from the bottom cancel out. */
  lemma OffsetsSymmetric(count: nat, gap: int)
    ensures forall i :: 0 <= i < count ==> Offsets(count, gap)[i] + Offsets(count, gap)[count - 1 - i] == 0.0
  {
    var r := Offsets(count, gap);
    var half := count / 2;
    forall i | 0 <= i < count
      ensures r[i] + r[count - 1 - i] == 0.0
    {
      MulSum(i - half, count - 1 - i - half, gap);
      assert (i - half) + (count - 1 - i - half) == count - 1 - 2 * half;
      if count % 2 == 1 {
        assert count - 1 - 2 * half == 0;
      } else {
        assert count - 1 - 2 * half == -1;
      }
    }
  }

  /** An odd count puts its middle card on 0; an even count with a non-zero
      gap puts no card on 0. */
  lemma OffsetsCentre(count: nat, gap: int)
    ensures count % 2 == 1 ==> Offsets(count, gap)[count / 2] == 0.0
    ensures count % 2 == 0 && gap != 0 ==> forall i :: 0 <= i < count ==> Offsets(count, gap)[i] != 0.0
  {
    var r := Offsets(count, gap);
    var half := count / 2;
    if count % 2 == 0 && gap != 0 {
      forall i | 0 <= i < count
        ensures r[i] != 0.0
      {
        MulSum(2 * (i - half), 1, gap);
        assert (2 * (i - half) + 1) * gap != 0;
        assert 2.0 * r[i] == ((2 * (i - half) + 1) * gap) as real;
      }
    }
  }

  // -------------------------------------------------------------- placement

  /** `estimateGroupHeight`: the band a group of `n` cards is assumed to occupy. */
  function GroupHeight(n: nat): int
  {
    80 * (n - 1) + 60
  }

  /** The time-proportional position of a date on the axis. */
  function NaivePos(t: int, timelineStart: int): real
  {
    ((t - timelineStart) as real / TimelineSpanMs) * TimelineHeight
  }

  function Max(a: real, b: real): real
  {
    if a >= b then a else b
  }

  /** The positions of consecutive groups, given the bottom `lastUsed` of the
      band already taken: each group goes to its time-proportional position
      unless that is less than `GroupSpacing` below the previous band. */
  function PlaceGroups(gs: seq<seq<Event>>, timelineStart: int, lastUsed: real): (pos: seq<real>)
    requires NonEmptyGroups(gs)
    ensures |pos| == |gs|
    ensures forall k :: 0 <= k < |gs| ==> pos[k] >= NaivePos(gs[k][0].time, timelineStart)
    ensures |gs| > 0 ==> pos[0] >= lastUsed + GroupSpacing
    ensures forall k :: 0 <= k < |gs| - 1 ==> pos[k + 1] >= pos[k] + GroupHeight(|gs[k]|) as real + GroupSpacing
    ensures |gs| > 0 ==> pos[0] == NaivePos(gs[0][0].time, timelineStart) || pos[0] == lastUsed + GroupSpacing
    ensures forall k :: 0 < k < |gs| ==>
              pos[k] == NaivePos(gs[k][0].time, timelineStart) || pos[k] == pos[k - 1] + GroupHeight(|gs[k - 1]|) as real + GroupSpacing
  {
    if |gs| == 0 then []
    else
      var p := Max(NaivePos(gs[0][0].time, timelineStart), lastUsed + GroupSpacing);
      var rest := PlaceGroups(gs[1..], timelineStart, p + GroupHeight(|gs[0]|) as real);
      assert forall k :: 0 < k < |gs| ==> gs[1..][k - 1] == gs[k];
      [p] + rest
  }

  /** The layout of one wave: its groups and the vertical position of each. */
  datatype WaveLayout = WaveLayout(groups: seq<seq<Event>>, tops: seq<real>)

  /** `Timeline`'s groups for one wave: its events sorted by date and cut
      wherever neighbours are more than three months apart. */
  function WaveGroups(events: seq<Event>): (gs: seq<seq<Event>>)
    ensures NonEmptyGroups(gs) && Separated(gs)
    ensures forall k :: 0 <= k < |gs| ==> Cohesive(gs[k])
    ensures SortedByTime(Flatten(gs)) && multiset(Flatten(gs)) == multiset(events)
    ensures Flatten(gs) == SortByTime(events)
    ensures |gs| == 0 <==> |events| == 0
  {
    GroupEventsIsGrouping(SortByTime(events));
    GroupEvents(SortByTime(events))
  }

  /** `Timeline`'s computation for one wave as written, with the axis origin
      given: each group is kept clear of the band estimated for the previous
      one. */
  function LayoutWaveAsWritten(events: seq<Event>, timelineStart: int): (l: WaveLayout)
    ensures l.groups == WaveGroups(events) && |l.tops| == |l.groups|
    ensures |l.groups| > 0 ==> l.tops[0] >= GroupSpacing
    ensures forall k :: 0 <= k < |l.groups| ==> l.tops[k] >= NaivePos(l.groups[k][0].time, timelineStart)
    ensures forall k :: 0 <= k < |l.groups| - 1 ==> l.tops[k + 1] >= l.tops[k] + GroupHeight(|l.groups[k]|) as real + GroupSpacing
  {
    var gs := WaveGroups(events);
    WaveLayout(gs, PlaceGroups(gs, timelineStart, 0.0))
  }

  /** The layout of one wave with the corrected placement: the cards of each
      group start at least `GroupSpacing` below where the previous group's
      cards end, and below the top of the axis. */
  function LayoutWaveSeparated(events: seq<Event>, timelineStart: int): (l: WaveLayout)
    ensures l.groups == WaveGroups(events) && |l.tops| == |l.groups|
    ensures |l.groups| > 0 ==> CardsTop(l.tops[0], |l.groups[0]|) >= GroupSpacing
    ensures forall k :: 0 <= k < |l.groups| ==> l.tops[k] >= NaivePos(l.groups[k][0].time, timelineStart)
    ensures forall k :: 0 <= k < |l.groups| - 1 ==>
              CardsTop(l.tops[k + 1], |l.groups[k + 1]|) >= CardsBottom(l.tops[k], |l.groups[k]|) + GroupSpacing
  {
    var gs := WaveGroups(events);
    WaveLayout(gs, PlaceGroupsSeparated(gs, timelineStart, 0.0))
  }

  // ----------------------------------------------------------- card extents

  /** Where the highest card of a group of `n` cards at position `top` begins.
      The stagger is centred on the group's position, so for more than one
      card this is above `top`. */
  function CardsTop(top: real, n: nat): real
    requires n > 0
  {
    top + Offsets(n, StaggerGap)[0]
  }

  /** Where the lowest card of a group of `n` cards at position `top` ends. */
  function CardsBottom(top: real, n: nat): real
    requires n > 0
  {
    top + Offsets(n, StaggerGap)[n - 1] + CardHeight as real
  }

  /** The estimated height is exactly the extent of the staggered cards, and
      every card lies within that extent. */
  lemma GroupHeightIsCardExtent(top: real, n: nat)
    requires n > 0
    ensures CardsBottom(top, n) - CardsTop(top, n) == GroupHeight(n) as real
    ensures forall i :: 0 <= i < n ==>
              CardsTop(top, n) <= top + Offsets(n, StaggerGap)[i] &&
              top + Offsets(n, StaggerGap)[i] + CardHeight as real <= CardsBottom(top, n)
  {
    OffsetsEvenlySpaced(n, StaggerGap);
    var r := Offsets(n, StaggerGap);
    forall i | 0 <= i < n
      ensures r[0] <= r[i] <= r[n - 1]
    {
      assert r[i] == r[0] + (i * 80) as real;
      assert r[n - 1] == r[0] + ((n - 1) * 80) as real;
    }
  }

  /** As written, the band a group reserves starts at its position, but its
      cards are centred on that position: a single event followed 91 days later
      by three events a day apart is laid out with groups at 20 and 100, and
      the first card of the second group lands exactly on the card of the
      first. */
  lemma EstimatedBandsLetCardsOverlap(a: Event, b: Event, c: Event, d: Event)
    requires a.time == 0 && b.time == 91 * 24 * 60 * 60 * 1000
    requires c.time == b.time + 24 * 60 * 60 * 1000 && d.time == c.time + 24 * 60 * 60 * 1000
    ensures LayoutWaveAsWritten([a, b, c, d], 0).groups == [[a], [b, c, d]]
    ensures LayoutWaveAsWritten([a, b, c, d], 0).tops == [20.0, 100.0]
    ensures CardsTop(100.0, 3) == 20.0 && 20.0 < CardsBottom(20.0, 1)
    ensures 100.0 + Offsets(3, StaggerGap)[0] == 20.0 + Offsets(1, StaggerGap)[0]
  {
    OverlapScenarioLayout(a, b, c, d);
    OverlapScenarioOffsets();
  }

  lemma OverlapScenarioOffsets()
    ensures Offsets(3, StaggerGap)[0] == -80.0 && Offsets(3, StaggerGap)[2] == 80.0
    ensures Offsets(1, StaggerGap)[0] == 0.0
  {
    assert Offsets(3, StaggerGap)[0] == OffsetAt(3, 80, 0);
    assert Offsets(3, StaggerGap)[2] == OffsetAt(3, 80, 2);
    assert Offsets(1, StaggerGap)[0] == OffsetAt(1, 80, 0);
  }

  lemma OverlapScenarioLayout(a: Event, b: Event, c: Event, d: Event)
    requires a.time == 0 && b.time == 91 * 24 * 60 * 60 * 1000
    requires c.time == b.time + 24 * 60 * 60 * 1000 && d.time == c.time + 24 * 60 * 60 * 1000
    ensures LayoutWaveAsWritten([a, b, c, d], 0) == WaveLayout([[a], [b, c, d]], [20.0, 100.0])
  {
    var s := [a, b, c, d];
    SortKeepsSorted(s);
    OverlapScenarioGroups(a, b, c, d);
    assert WaveGroups(s) == [[a], [b, c, d]];
    OverlapScenarioPlacement(a, b, c, d);
  }

  lemma OverlapScenarioPlacement(a: Event, b: Event, c: Event, d: Event)
    requires a.time == 0 && b.time == 91 * 24 * 60 * 60 * 1000
    ensures PlaceGroups([[a], [b, c, d]], 0, 0.0) == [20.0, 100.0]
  {
    var gs := [[a], [b, c, d]];
    assert gs[1..] == [[b, c, d]] && gs[1..][1..] == [];
    assert NaivePos(a.time, 0) == 0.0;
    assert NaivePos(b.time, 0) < 100.0;
    assert PlaceGroups(gs[1..][1..], 0, 180.0) == [];
    assert PlaceGroups(gs[1..], 0, 80.0) == [100.0];
  }

  lemma OverlapScenarioGroups(a: Event, b: Event, c: Event, d: Event)
    requires b.time - a.time > ThreeMonthsMs
    requires c.time - b.time <= ThreeMonthsMs && d.time - c.time <= ThreeMonthsMs
    ensures GroupEvents([a, b, c, d]) == [[a], [b, c, d]]
  {
    var s := [a, b, c, d];
    assert s[..3] == [a, b, c] && [a, b, c][..2] == [a, b] && [a, b][..1] == [a];
    assert GroupEvents([a]) == [[a]];
    assert GroupEvents([a, b]) == [[a], [b]];
    assert [[a], [b]][..1] == [[a]] && [b] + [c] == [b, c];
    assert GroupEvents([a, b, c]) == [[a], [b, c]];
    assert [[a], [b, c]][..1] == [[a]] && [b, c] + [d] == [b, c, d];
  }

  /** The corrected placement: each group is pushed down until its highest
      card, not its position, is `GroupSpacing` below the lowest card of the
      previous group. `lastBottom` is where the cards placed so far end. */
  function PlaceGroupsSeparated(gs: seq<seq<Event>>, timelineStart: int, lastBottom: real): (pos: seq<real>)
    requires NonEmptyGroups(gs)
    ensures |pos| == |gs|
    ensures forall k :: 0 <= k < |gs| ==> pos[k] >= NaivePos(gs[k][0].time, timelineStart)
    ensures |gs| > 0 ==> CardsTop(pos[0], |gs[0]|) >= lastBottom + GroupSpacing
    ensures forall k :: 0 <= k < |gs| - 1 ==>
              CardsTop(pos[k + 1], |gs[k + 1]|) >= CardsBottom(pos[k], |gs[k]|) + GroupSpacing
  {
    if |gs| == 0 then []
    else
      var n := |gs[0]|;
      var p := Max(NaivePos(gs[0][0].time, timelineStart), lastBottom + GroupSpacing - Offsets(n, StaggerGap)[0]);
      var rest := PlaceGroupsSeparated(gs[1..], timelineStart, CardsBottom(p, n));
      assert forall k :: 0 < k < |gs| ==> gs[1..][k - 1] == gs[k];
      [p] + rest
  }

  /** With the corrected placement no two cards of different groups overlap:
      every card of a later group starts at least `GroupSpacing` below where
      every card of an earlier group ends. */
  lemma SeparatedCardsNeverOverlap(gs: seq<seq<Event>>, timelineStart: int, k: nat, k': nat, i: nat, j: nat)
    requires NonEmptyGroups(gs) && k < k' < |gs| && i < |gs[k]| && j < |gs[k']|
    ensures var pos := PlaceGroupsSeparated(gs, timelineStart, 0.0);
            pos[k'] + Offsets(|gs[k']|, StaggerGap)[j] >= pos[k] + Offsets(|gs[k]|, StaggerGap)[i] + CardHeight as real + GroupSpacing
  {
    var pos := PlaceGroupsSeparated(gs, timelineStart, 0.0);
    SeparatedBands(gs, timelineStart, k, k');
    GroupHeightIsCardExtent(pos[k], |gs[k]|);
    GroupHeightIsCardExtent(pos[k'], |gs[k']|);
  }

  /** Under the corrected placement the cards of any later group, not only
      the next one, start `GroupSpacing` below the cards of an earlier group. */
  lemma SeparatedBands(gs: seq<seq<Event>>, timelineStart: int, k: nat, k': nat)
    requires NonEmptyGroups(gs) && k < k' < |gs|
    ensures var pos := PlaceGroupsSeparated(gs, timelineStart, 0.0);
            CardsTop(pos[k'], |gs[k']|) >= CardsBottom(pos[k], |gs[k]|) + GroupSpacing
  {
    var pos := PlaceGroupsSeparated(gs, timelineStart, 0.0);
    var tops := seq(|gs|, m requires 0 <= m < |gs| => CardsTop(pos[m], |gs[m]|));
    var bottoms := seq(|gs|, m requires 0 <= m < |gs| => CardsBottom(pos[m], |gs[m]|));
    forall m | 0 <= m < |gs|
      ensures bottoms[m] >= tops[m]
    {
      CardsBottomBelowTop(pos[m], |gs[m]|);
    }
    BandsChain(tops, bottoms, k, k');
  }

  /** Bands that each end below where they start, each starting `GroupSpacing`
      below the end of the one before, are `GroupSpacing` apart pairwise. */
  lemma {:induction false} BandsChain(tops: seq<real>, bottoms: seq<real>, k: nat, k': nat)
    requires |tops| == |bottoms| && k < k' < |tops|
    requires forall m :: 0 <= m < |tops| ==> bottoms[m] >= tops[m]
    requires forall m :: 0 <= m < |tops| - 1 ==> tops[m + 1] >= bottoms[m] + GroupSpacing
    ensures tops[k'] >= bottoms[k] + GroupSpacing
    decreases k' - k
  {
    if k' > k + 1 {
      BandsChain(tops, bottoms, k + 1, k');
    }
  }

  /** A group's cards end below where they start. */
  lemma CardsBottomBelowTop(top: real, n: nat)
    requires n > 0
    ensures CardsBottom(top, n) >= CardsTop(top, n)
  {
    GroupHeightIsCardExtent(top, n);
  }

  /** The scenario of three events dated 2020-01-01, 2020-02-01 and
      2021-06-01 (UTC midnight), loaded out of order: the first two share a
      group, the third stands alone, and the two cards of the first group are
      staggered to -40 and +40 about the group's position. */
  lemma ScenarioTwoGroups(a: Event, b: Event, c: Event)
    requires a.time == 1577836800000 && b.time == 1580515200000 && c.time == 1622505600000
    ensures WaveGroups([c, a, b]) == [[a, b], [c]]
    ensures Offsets(2, StaggerGap) == [-40.0, 40.0]
  {
    ScenarioSort(a, b, c);
    ScenarioGroups(a, b, c);
    var r := Offsets(2, StaggerGap);
    assert r[0] == OffsetAt(2, 80, 0) == -40.0;
    assert r[1] == OffsetAt(2, 80, 1) == 40.0;
  }

  lemma ScenarioSort(a: Event, b: Event, c: Event)
    requires a.time < b.time < c.time
    ensures SortByTime([c, a, b]) == [a, b, c]
  {
    assert [c, a, b][1..] == [a, b];
    assert SortByTime([a, b]) == [a, b] by {
      SortKeepsSorted([a, b]);
    }
    assert Insert(c, [a, b]) == [a, b, c] by {
      InsertStep(c, [a, b]);
      assert [a, b][1..] == [b];
      InsertStep(c, [b]);
      assert [b][1..] == [];
    }
  }

  lemma ScenarioGroups(a: Event, b: Event, c: Event)
    requires b.time - a.time <= ThreeMonthsMs && c.time - b.time > ThreeMonthsMs
    ensures GroupEvents([a, b, c]) == [[a, b], [c]]
  {
    ScenarioFirstPair(a, b);
    var s := [a, b, c];
    assert s[..2] == [a, b];
    assert Last(s) == c && s[1] == b;
  }

  lemma ScenarioFirstPair(a: Event, b: Event)
    requires b.time - a.time <= ThreeMonthsMs
    ensures GroupEvents([a, b]) == [[a, b]]
  {
    var s := [a, b];
    assert s[..1] == [a];
    assert GroupEvents([a]) == [[a]];
    assert [[a]][..0] == [] && [a] + [b] == [a, b];
  }
}
