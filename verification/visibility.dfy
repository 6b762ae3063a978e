/**
 What the page shows: the selected waves, their events with predicted
 (future) events optionally hidden, the ids of the events left, the
 connections between two shown events, and which of those connections and
 which in-progress line can actually be drawn from the measured card centres.
 */
module Visibility {
  import opened Types
  import opened Seqs

  // ------------------------------------------------------------- selection

  function IsSelected(selected: seq<int>): nat -> bool
  {
    (i: nat) => i in selected
  }

  /** `displayedWaves`: the waves whose index is selected, in wave order. */
  function DisplayedWaves(waves: seq<Wave>, selected: seq<int>): (r: seq<Wave>)
    ensures |r| <= |waves|
  {
    Select(waves, IsSelected(selected))
  }

  /** The displayed waves keep the waves' order, contain every selected wave,
      and contain only selected waves. */
  lemma DisplayedWavesAreSelected(waves: seq<Wave>, selected: seq<int>)
    ensures IsSubsequence(DisplayedWaves(waves, selected), waves)
    ensures forall i :: 0 <= i < |waves| && i in selected ==> waves[i] in DisplayedWaves(waves, selected)
    ensures forall j :: 0 <= j < |DisplayedWaves(waves, selected)| ==>
              exists i :: 0 <= i < |waves| && i in selected && waves[i] == DisplayedWaves(waves, selected)[j]
  {
    SelectIsSubsequence(waves, IsSelected(selected));
    SelectMembers(waves, IsSelected(selected));
  }

  /** The displayed waves are fixed by position: no waves display nothing,
      and a wave appended at index `|waves|` is displayed, after the waves
      displayed before, exactly when that index is selected. */
  lemma DisplayedWavesByIndex(waves: seq<Wave>, x: Wave, selected: seq<int>)
    ensures DisplayedWaves([], selected) == []
    ensures DisplayedWaves(waves + [x], selected) ==
            DisplayedWaves(waves, selected) + (if |waves| in selected then [x] else [])
  {
    SelectSnoc(waves, x, IsSelected(selected));
  }

  /** Every wave index, in order: the selection the page makes by default. */
  function AllIndices(n: nat): (r: seq<int>)
    ensures |r| == n
  {
    seq(n, i requires 0 <= i < n => i)
  }

  /** Selecting every index, as the page does whenever `waves` is replaced by
      a non-empty array, shows every wave. */
  lemma SelectingAllShowsEveryWave(waves: seq<Wave>)
    ensures DisplayedWaves(waves, AllIndices(|waves|)) == waves
  {
    var sel := AllIndices(|waves|);
    forall i | 0 <= i < |waves|
      ensures IsSelected(sel)(i)
    {
      assert sel[i] == i;
    }
    SelectKeepsEverything(waves, IsSelected(sel));
  }

  /** The effect keyed on `waves`: it runs whenever `waves` is replaced by a
      new array (on load, and after every event delete or add, since those
      handlers always build a new array), and with at least one wave it
      selects every wave again, so any wave the user had hidden reappears.
      With no waves the selection is left as it was. */
  function SelectAllOnChange(waves: seq<Wave>, selected: seq<int>): (r: seq<int>)
    ensures |waves| > 0 ==> DisplayedWaves(waves, r) == waves
    ensures |waves| > 0 ==> forall i :: 0 <= i < |waves| <==> i in r
    ensures |waves| == 0 ==> r == selected
  {
    if |waves| > 0 then
      SelectingAllShowsEveryWave(waves);
      var all := AllIndices(|waves|);
      forall i | i in all
        ensures 0 <= i < |waves|
      {
        var j :| 0 <= j < |all| && all[j] == i;
      }
      forall i | 0 <= i < |waves|
        ensures i in all
      {
        assert all[i] == i;
      }
      AllIndices(|waves|)
    else selected
  }

  /** `toggleWave`: removes `idx` from the selection if present, appends it
      otherwise. */
  function ToggleWave(selected: seq<int>, idx: int): (r: seq<int>)
    ensures idx in r <==> idx !in selected
    ensures forall j :: j != idx ==> (j in r <==> j in selected)
  {
    if idx in selected then
      FilterMembers(selected, Other(idx));
      Filter(selected, Other(idx))
    else selected + [idx]
  }

  function Other(idx: int): int -> bool
  {
    (i: int) => i != idx
  }

  /** Toggling the same wave twice gives back the selection's membership, and
      so exactly the waves displayed before, though the index may have moved
      to the end of the list. */
  lemma ToggleWaveTwice(waves: seq<Wave>, selected: seq<int>, idx: int)
    ensures forall j :: j in ToggleWave(ToggleWave(selected, idx), idx) <==> j in selected
    ensures DisplayedWaves(waves, ToggleWave(ToggleWave(selected, idx), idx)) == DisplayedWaves(waves, selected)
  {
    var twice := ToggleWave(ToggleWave(selected, idx), idx);
    SelectSameKeep(waves, IsSelected(twice), IsSelected(selected));
  }

  // ------------------------------------------------------- predicted events

  /** `isFutureEvent`: the event is dated strictly after `now`. */
  function IsFutureEvent(ev: Event, now: int): bool
  {
    ev.time > now
  }

  function IsShown(showPredicted: bool, now: int): Event -> bool
  {
    (e: Event) => showPredicted || e.time <= now
  }

  /** One wave of `filteredWaves`: its events dated after `now` removed
      unless predicted events are shown. */
  function FilterWave(w: Wave, showPredicted: bool, now: int): (r: Wave)
    ensures r == w.(events := r.events)
    ensures forall e :: e in r.events <==> e in w.events && (showPredicted || !IsFutureEvent(e, now))
    ensures IsSubsequence(r.events, w.events)
    ensures forall e :: multiset(r.events)[e] ==
              if showPredicted || !IsFutureEvent(e, now) then multiset(w.events)[e] else 0
    ensures showPredicted ==> r == w
  {
    var kept := Filter(w.events, IsShown(showPredicted, now));
    FilterCounts(w.events, IsShown(showPredicted, now));
    FilterIsSubsequence(w.events, IsShown(showPredicted, now));
    FilterMembers(w.events, IsShown(showPredicted, now));
    assert forall e :: e in w.events && IsShown(showPredicted, now)(e) ==> e in kept by {
      forall e | e in w.events && IsShown(showPredicted, now)(e)
        ensures e in kept
      {
        var i :| 0 <= i < |w.events| && w.events[i] == e;
      }
    }
    if showPredicted then
      FilterKeepsEverything(w.events, IsShown(showPredicted, now));
      w
    else w.(events := kept)
  }

  /** `filteredWaves`: every displayed wave, filtered. */
  function FilteredWaves(ws: seq<Wave>, showPredicted: bool, now: int): (r: seq<Wave>)
    ensures |r| == |ws|
    ensures forall k :: 0 <= k < |ws| ==> r[k] == ws[k].(events := r[k].events)
    ensures forall k, e :: 0 <= k < |ws| ==>
              (e in r[k].events <==> e in ws[k].events && (showPredicted || !IsFutureEvent(e, now)))
    ensures forall k :: 0 <= k < |ws| ==> IsSubsequence(r[k].events, ws[k].events)
    ensures forall k, e :: 0 <= k < |ws| ==>
              multiset(r[k].events)[e] == if showPredicted || !IsFutureEvent(e, now) then multiset(ws[k].events)[e] else 0
    ensures showPredicted ==> r == ws
  {
    seq(|ws|, k requires 0 <= k < |ws| => FilterWave(ws[k], showPredicted, now))
  }

  // ------------------------------------------------------------ connections

  function BothEndpointsIn(ids: set<EventId>): Connection -> bool
  {
    (c: Connection) => c.from in ids && c.to in ids
  }

  /** `displayedConnections`: the connections whose two endpoints are both
      among `ids`, in their original order. */
  function DisplayedConnections(conns: seq<Connection>, ids: set<EventId>): (r: seq<Connection>)
    ensures IsSubsequence(r, conns)
    ensures forall c :: c in r <==> c in conns && c.from in ids && c.to in ids
    ensures forall c :: multiset(r)[c] == if c.from in ids && c.to in ids then multiset(conns)[c] else 0
  {
    FilterCounts(conns, BothEndpointsIn(ids));
    FilterIsSubsequence(conns, BothEndpointsIn(ids));
    FilterMembers(conns, BothEndpointsIn(ids));
    Filter(conns, BothEndpointsIn(ids))
  }

  /** The id belongs to an event of a selected wave that passes the
      predicted-events toggle. */
  ghost predicate IdVisible(waves: seq<Wave>, selected: seq<int>, showPredicted: bool, now: int, id: EventId)
  {
    exists i, e :: 0 <= i < |waves| && i in selected && e in waves[i].events && e.id == id &&
                   (showPredicted || !IsFutureEvent(e, now))
  }

  /** The set of displayed event ids holds exactly the ids of events of
      selected waves that pass the predicted-events toggle. */
  lemma DisplayedIdsAreVisibleIds(waves: seq<Wave>, selected: seq<int>, showPredicted: bool, now: int, id: EventId)
    ensures id in EventIds(FilteredWaves(DisplayedWaves(waves, selected), showPredicted, now))
            <==> IdVisible(waves, selected, showPredicted, now, id)
  {
    if id in EventIds(FilteredWaves(DisplayedWaves(waves, selected), showPredicted, now)) {
      DisplayedIdIsVisible(waves, selected, showPredicted, now, id);
    }
    if IdVisible(waves, selected, showPredicted, now, id) {
      VisibleIdIsDisplayed(waves, selected, showPredicted, now, id);
    }
  }

  lemma DisplayedIdIsVisible(waves: seq<Wave>, selected: seq<int>, showPredicted: bool, now: int, id: EventId)
    requires id in EventIds(FilteredWaves(DisplayedWaves(waves, selected), showPredicted, now))
    ensures IdVisible(waves, selected, showPredicted, now, id)
  {
    var dw := DisplayedWaves(waves, selected);
    var fw := FilteredWaves(dw, showPredicted, now);
    DisplayedWavesAreSelected(waves, selected);
    var k, e :| 0 <= k < |fw| && e in fw[k].events && e.id == id;
    assert e in dw[k].events && (showPredicted || !IsFutureEvent(e, now));
    var i :| 0 <= i < |waves| && i in selected && waves[i] == dw[k];
    assert e in waves[i].events;
  }

  lemma VisibleIdIsDisplayed(waves: seq<Wave>, selected: seq<int>, showPredicted: bool, now: int, id: EventId)
    requires IdVisible(waves, selected, showPredicted, now, id)
    ensures id in EventIds(FilteredWaves(DisplayedWaves(waves, selected), showPredicted, now))
  {
    var dw := DisplayedWaves(waves, selected);
    var fw := FilteredWaves(dw, showPredicted, now);
    DisplayedWavesAreSelected(waves, selected);
    var i, e :| 0 <= i < |waves| && i in selected && e in waves[i].events && e.id == id &&
                (showPredicted || !IsFutureEvent(e, now));
    assert waves[i] in dw;
    var k :| 0 <= k < |dw| && dw[k] == waves[i];
    assert e in fw[k].events;
  }

  /** A connection is displayed exactly when it is one of the connections and
      both its endpoints are visible events. */
  lemma ConnectionShownIffEndpointsVisible(waves: seq<Wave>, selected: seq<int>, showPredicted: bool, now: int,
                                           conns: seq<Connection>, c: Connection)
    ensures c in DisplayedConnections(conns, EventIds(FilteredWaves(DisplayedWaves(waves, selected), showPredicted, now)))
            <==> c in conns && IdVisible(waves, selected, showPredicted, now, c.from)
                 && IdVisible(waves, selected, showPredicted, now, c.to)
  {
    DisplayedIdsAreVisibleIds(waves, selected, showPredicted, now, c.from);
    DisplayedIdsAreVisibleIds(waves, selected, showPredicted, now, c.to);
  }

  /** With predicted events hidden, an event dated after `now` (the only event
      carrying its id) takes every connection touching it off the page,
      whatever waves are selected. */
  lemma FutureEventHidesItsConnections(waves: seq<Wave>, selected: seq<int>, now: int,
                                        conns: seq<Connection>, ev: Event, c: Connection)
    requires IsFutureEvent(ev, now)
    requires forall i, e :: 0 <= i < |waves| && e in waves[i].events && e.id == ev.id ==> e == ev
    requires c.from == ev.id || c.to == ev.id
    ensures c !in DisplayedConnections(conns, EventIds(FilteredWaves(DisplayedWaves(waves, selected), false, now)))
  {
    ConnectionShownIffEndpointsVisible(waves, selected, false, now, conns, c);
  }

  // ---------------------------------------------------------------- drawing

  /** Each element paired with its index, as `map((conn, index) => ...)` sees it. */
  function Enumerate<T>(s: seq<T>): (r: seq<(nat, T)>)
    ensures |r| == |s|
    ensures forall i :: 0 <= i < |s| ==> r[i] == (i, s[i])
  {
    seq(|s|, i requires 0 <= i < |s| => (i, s[i]))
  }

  function HasAnchors(positions: map<EventId, Point>): ((nat, Connection)) -> bool
  {
    (d: (nat, Connection)) => d.1.from in positions && d.1.to in positions
  }

  /** `ConnectionsLayer`: the connections actually drawn, each with its index
      in the list it was given; a connection is skipped when either endpoint
      has no measured position. */
  function DrawnConnections(conns: seq<Connection>, positions: map<EventId, Point>): (r: seq<(nat, Connection)>)
    ensures forall d :: d in r ==> d.0 < |conns| && conns[d.0] == d.1 && d.1.from in positions && d.1.to in positions
    ensures forall i :: 0 <= i < |conns| && conns[i].from in positions && conns[i].to in positions ==> (i, conns[i]) in r
  {
    var en := Enumerate(conns);
    assert forall i :: 0 <= i < |conns| ==> (i, conns[i]) == en[i];
    FilterMembers(en, HasAnchors(positions));
    Filter(en, HasAnchors(positions))
  }

  /** The in-progress line, from the start card's centre to the cursor: drawn
      only while a draft exists, its end point is set, and its start event has
      a measured position. */
  function LiveLine(pending: Option<EventId>, end: Option<Point>, positions: map<EventId, Point>): (r: Option<(Point, Point)>)
    ensures r.Some? <==> pending.Some? && end.Some? && pending.value in positions
    ensures r.Some? ==> r.value.0 == positions[pending.value] && r.value.1 == end.value
  {
    if pending.Some? && end.Some? && pending.value in positions then Some((positions[pending.value], end.value)) else None
  }

  /** A connection is drawn exactly when it is displayed (both endpoints are
      visible events) and both endpoints have a measured position. */
  lemma ConnectionDrawnIff(waves: seq<Wave>, selected: seq<int>, showPredicted: bool, now: int,
                           conns: seq<Connection>, positions: map<EventId, Point>, c: Connection)
    ensures (exists i :: (i, c) in DrawnConnections(DisplayedConnections(conns, EventIds(FilteredWaves(DisplayedWaves(waves, selected), showPredicted, now))), positions))
            <==> c in conns && IdVisible(waves, selected, showPredicted, now, c.from) && IdVisible(waves, selected, showPredicted, now, c.to)
                 && c.from in positions && c.to in positions
  {
    var shown := DisplayedConnections(conns, EventIds(FilteredWaves(DisplayedWaves(waves, selected), showPredicted, now)));
    ConnectionShownIffEndpointsVisible(waves, selected, showPredicted, now, conns, c);
    DrawnIffAnchored(shown, positions, c);
  }

  /** A connection of the given list is drawn, under some index, exactly when
      both its endpoints have a measured position. */
  lemma DrawnIffAnchored(shown: seq<Connection>, positions: map<EventId, Point>, c: Connection)
    ensures (exists i :: (i, c) in DrawnConnections(shown, positions))
            <==> c in shown && c.from in positions && c.to in positions
  {
    if c in shown && c.from in positions && c.to in positions {
      var i :| 0 <= i < |shown| && shown[i] == c;
      assert (i, c) in DrawnConnections(shown, positions);
    }
  }
}
