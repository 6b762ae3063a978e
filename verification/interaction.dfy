/**
 The page's editing state and the handlers that change it: the
 double-click protocol that drafts a connection, the cursor tracking of the
 in-progress line, the reason dialog's submit and close, and the edits to the
 data (delete an event, delete a connection, add an event).
 */
module Interaction {
  import opened Types
  import opened Seqs
  import opened Visibility

  /** `pending` is the draft's start event (`pendingConnection`), `pendingEnd`
      the live line's end point (`pendingConnectionEnd`), `pendingTo` the
      chosen target, `showReasonModal` whether the reason dialog is open, and
      `selected` the selected wave indices (`selectedWaveIndices`). */
  datatype State = State(
    waves: seq<Wave>,
    connections: seq<Connection>,
    pending: Option<EventId>,
    pendingEnd: Option<Point>,
    pendingTo: Option<EventId>,
    showReasonModal: bool,
    selected: seq<int>)

  /** The reason used when the dialog is submitted empty. */
  const DefaultReason: string := "Manual connection"

  /** `reason || 'Manual connection'`: an empty reason falls back to the
      default, any other is kept as typed. */
  function EffectiveReason(input: string): (r: string)
    ensures |r| > 0
    ensures |input| > 0 ==> r == input
    ensures input == "" ==> r == DefaultReason
  {
    if input == "" then DefaultReason else input
  }

  // ------------------------------------------------------ draft protocol

  /** `handleEventDoubleClick`: with no draft, start one at `id` (and start
      the live line at the cursor when the container is mounted, given as
      `cursor`); on the draft's own start event, drop the draft; on any other
      event, take it as the target and open the reason dialog. */
  function DoubleClick(st: State, id: EventId, cursor: Option<Point>): (r: State)
    ensures r.waves == st.waves && r.connections == st.connections && r.selected == st.selected
    ensures st.pending.None? ==>
              && r.pending == Some(id)
              && r.pendingEnd == (if cursor.Some? then cursor else st.pendingEnd)
              && r.pendingTo == st.pendingTo && r.showReasonModal == st.showReasonModal
    ensures st.pending == Some(id) ==>
              r.pending.None? && r.pendingEnd.None? && r.pendingTo == st.pendingTo && r.showReasonModal == st.showReasonModal
    ensures st.pending.Some? && st.pending != Some(id) ==>
              r.pending == st.pending && r.pendingTo == Some(id) && r.showReasonModal && r.pendingEnd.None?
  {
    if st.pending.None? then
      st.(pending := Some(id), pendingEnd := if cursor.Some? then cursor else st.pendingEnd)
    else if st.pending.value == id then
      st.(pending := None, pendingEnd := None)
    else
      st.(pendingTo := Some(id), showReasonModal := true, pendingEnd := None)
  }

  /** `handleMouseMove`: the live line follows the cursor while a draft exists
      and its end point is set; nothing else ever changes. */
  function MouseMove(st: State, cursor: Point): (r: State)
    ensures r.(pendingEnd := st.pendingEnd) == st
    ensures st.pending.Some? && st.pendingEnd.Some? ==> r.pendingEnd == Some(cursor)
    ensures !(st.pending.Some? && st.pendingEnd.Some?) ==> r == st
  {
    if st.pending.Some? && st.pendingEnd.Some? then st.(pendingEnd := Some(cursor)) else st
  }

  /** A run of cursor moves, in order. */
  function MouseMoves(st: State, cursors: seq<Point>): State
    decreases |cursors|
  {
    if |cursors| == 0 then st else MouseMoves(MouseMove(st, cursors[0]), cursors[1..])
  }

  /** Once a target is chosen the end point is cleared, so no run of cursor
      moves brings the live line back. */
  lemma {:induction false} LiveLineStaysSuspended(st: State, cursors: seq<Point>, positions: map<EventId, Point>)
    requires st.pendingEnd.None?
    ensures MouseMoves(st, cursors) == st
    ensures LiveLine(MouseMoves(st, cursors).pending, MouseMoves(st, cursors).pendingEnd, positions).None?
    decreases |cursors|
  {
    if |cursors| > 0 {
      LiveLineStaysSuspended(MouseMove(st, cursors[0]), cursors[1..], positions);
    }
  }

  /** `handleSubmitConnection`: append the drafted connection and clear the draft. */
  function SubmitConnection(st: State, reason: string): (r: State)
    requires st.pending.Some? && st.pendingTo.Some?
    ensures r.connections == st.connections + [Connection(st.pending.value, st.pendingTo.value, reason)]
    ensures r.pending.None? && r.pendingEnd.None? && r.pendingTo.None?
    ensures r.waves == st.waves && r.showReasonModal == st.showReasonModal && r.selected == st.selected
  {
    st.(connections := st.connections + [Connection(st.pending.value, st.pendingTo.value, reason)],
        pending := None, pendingEnd := None, pendingTo := None)
  }

  /** The reason dialog's `onClose` (its Cancel button, and the second half of
      a submit): close the dialog and drop the draft's start and end point.
      The chosen target `pendingTo` is left as it was. */
  function CloseReasonModal(st: State): (r: State)
    ensures !r.showReasonModal && r.pending.None? && r.pendingEnd.None?
    ensures r.waves == st.waves && r.connections == st.connections && r.pendingTo == st.pendingTo
    ensures r.selected == st.selected
  {
    st.(showReasonModal := false, pending := None, pendingEnd := None)
  }

  /** The reason dialog's submit: `onSubmit(reason || 'Manual connection')`
      then `onClose()`. The form only exists while the dialog is open, and the
      dialog only opens with a target. The start is required too: a
      double-click on the start event while the dialog is open clears the
      start and leaves the dialog open, and a submit in that state makes
      `handleSubmitConnection` read the start of a missing draft, which
      throws. */
  function SubmitReason(st: State, input: string): (r: State)
    requires st.showReasonModal && st.pending.Some? && st.pendingTo.Some?
    ensures |r.connections| == |st.connections| + 1
    ensures r.connections[..|st.connections|] == st.connections
    ensures Last(r.connections) == Connection(st.pending.value, st.pendingTo.value, EffectiveReason(input))
    ensures |Last(r.connections).reason| > 0
    ensures r.waves == st.waves && r.selected == st.selected
    ensures r.pending.None? && r.pendingEnd.None? && r.pendingTo.None? && !r.showReasonModal
  {
    CloseReasonModal(SubmitConnection(st, EffectiveReason(input)))
  }

  /** The protocol's phases: no draft, a draft waiting for its target, and a
      draft waiting for its reason. */
  datatype Phase = Idle | PendingStart | AwaitingReason

  function PhaseOf(st: State): Phase
  {
    if st.pending.None? then Idle else if st.showReasonModal then AwaitingReason else PendingStart
  }

  /** Double-clicking one event twice drops the draft and creates nothing;
      double-clicking one event then another, and submitting `X`, appends
      exactly the connection from the first to the second with reason `X` and
      returns to no draft. */
  lemma DraftScenarios(st: State, a: EventId, b: EventId, c1: Option<Point>, c2: Option<Point>)
    requires PhaseOf(st) == Idle && !st.showReasonModal && a != b
    ensures PhaseOf(DoubleClick(st, a, c1)) == PendingStart
    ensures var st2 := DoubleClick(DoubleClick(st, a, c1), a, c2);
            PhaseOf(st2) == Idle && st2.connections == st.connections
    ensures var st2 := DoubleClick(DoubleClick(st, a, c1), b, c2);
            && PhaseOf(st2) == AwaitingReason
            && SubmitReason(st2, "X").connections == st.connections + [Connection(a, b, "X")]
            && PhaseOf(SubmitReason(st2, "X")) == Idle
            && Last(SubmitReason(st2, "").connections) == Connection(a, b, "Manual connection")
  {
    var st2 := DoubleClick(DoubleClick(st, a, c1), b, c2);
    var st3 := SubmitReason(st2, "X");
    assert st3.connections == st3.connections[..|st.connections|] + [Last(st3.connections)];
  }

  // ------------------------------------------------------------ data edits

  function NotId(id: EventId): Event -> bool
  {
    (e: Event) => e.id != id
  }

  function NotTouching(id: EventId): Connection -> bool
  {
    (c: Connection) => c.from != id && c.to != id
  }

  /** One wave of `handleDeleteEvent`: the wave keeps its other fields and
      loses exactly the events carrying `id`, all their copies, in order. */
  function DeleteFromWave(w: Wave, id: EventId): (r: Wave)
    ensures r == w.(events := r.events)
    ensures IsSubsequence(r.events, w.events)
    ensures forall e :: e in r.events <==> e in w.events && e.id != id
    ensures forall e :: multiset(r.events)[e] == if e.id != id then multiset(w.events)[e] else 0
  {
    FilterIsSubsequence(w.events, NotId(id));
    FilterMembers(w.events, NotId(id));
    FilterCounts(w.events, NotId(id));
    w.(events := Filter(w.events, NotId(id)))
  }

  /** The waves of `handleDeleteEvent`, each with the event removed. */
  function DeleteFromWaves(waves: seq<Wave>, id: EventId): (r: seq<Wave>)
    ensures |r| == |waves|
    ensures forall k :: 0 <= k < |waves| ==>
              && r[k] == waves[k].(events := r[k].events)
              && IsSubsequence(r[k].events, waves[k].events)
    ensures forall k, e :: 0 <= k < |waves| ==> (e in r[k].events <==> e in waves[k].events && e.id != id)
    ensures forall k, e :: 0 <= k < |waves| ==>
              multiset(r[k].events)[e] == if e.id != id then multiset(waves[k].events)[e] else 0
  {
    seq(|waves|, k requires 0 <= k < |waves| => DeleteFromWave(waves[k], id))
  }

  /** `handleDeleteEvent`: remove the event from every wave and every
      connection touching it, all copies and nothing else, in order. The
      draft is left alone. The new `waves` array sets off the effect that
      selects every wave again. */
  function DeleteEvent(st: State, id: EventId): (r: State)
    ensures r.waves == DeleteFromWaves(st.waves, id)
    ensures IsSubsequence(r.connections, st.connections)
    ensures forall c :: c in r.connections <==> c in st.connections && c.from != id && c.to != id
    ensures forall c :: multiset(r.connections)[c] == if c.from != id && c.to != id then multiset(st.connections)[c] else 0
    ensures r.pending == st.pending && r.pendingEnd == st.pendingEnd
    ensures r.pendingTo == st.pendingTo && r.showReasonModal == st.showReasonModal
    ensures r.selected == SelectAllOnChange(r.waves, st.selected)
  {
    FilterIsSubsequence(st.connections, NotTouching(id));
    FilterMembers(st.connections, NotTouching(id));
    FilterCounts(st.connections, NotTouching(id));
    var waves := DeleteFromWaves(st.waves, id);
    st.(waves := waves, connections := Filter(st.connections, NotTouching(id)),
        selected := SelectAllOnChange(waves, st.selected))
  }

  /** After deleting an event, the ids left are exactly the ids before
      without the deleted one. */
  lemma DeleteEventIds(st: State, id: EventId)
    ensures EventIds(DeleteEvent(st, id).waves) == EventIds(st.waves) - {id}
  {
    var r := DeleteEvent(st, id);
    forall x | x in EventIds(st.waves) - {id}
      ensures x in EventIds(r.waves)
    {
      var k, e :| 0 <= k < |st.waves| && e in st.waves[k].events && e.id == x;
      assert e in r.waves[k].events;
    }
  }

  function AllBut(i: int): nat -> bool
  {
    (j: nat) => j != i
  }

  /** `handleDeleteConnection`: drop the connection at index `i` of the full
      list; an index outside the list drops nothing. */
  function DeleteConnection(st: State, i: int): (r: State)
    ensures r == st.(connections := r.connections)
    ensures 0 <= i < |st.connections| ==>
              |r.connections| == |st.connections| - 1 &&
              r.connections[..i] == st.connections[..i] && r.connections[i..] == st.connections[i + 1..]
    ensures !(0 <= i < |st.connections|) ==> r == st
  {
    SelectAllButOne(st.connections, AllBut(i), i);
    st.(connections := Select(st.connections, AllBut(i)))
  }

  /** `handleSubmitNewEvent`: append a new event, with a fresh id supplied by
      the caller, to the wave at `timelineIndex` if there is one; otherwise
      the waves stay as they were. Either way the handler returns a new
      `waves` array, which selects every wave again. */
  function AddEvent(st: State, timelineIndex: int, newId: EventId, time: int, title: string, detail: Option<string>): (r: State)
    ensures |r.waves| == |st.waves|
    ensures r == st.(waves := r.waves, selected := r.selected)
    ensures r.selected == SelectAllOnChange(r.waves, st.selected)
    ensures 0 <= timelineIndex < |st.waves| ==>
              && r.waves[timelineIndex] == st.waves[timelineIndex].(events := r.waves[timelineIndex].events)
              && r.waves[timelineIndex].events == st.waves[timelineIndex].events + [Event(newId, time, title, detail, false)]
              && forall k :: 0 <= k < |st.waves| && k != timelineIndex ==> r.waves[k] == st.waves[k]
    ensures !(0 <= timelineIndex < |st.waves|) ==> r.waves == st.waves
  {
    var waves := if 0 <= timelineIndex < |st.waves| then
                   var w := st.waves[timelineIndex];
                   st.waves[timelineIndex := w.(events := w.events + [Event(newId, time, title, detail, false)])]
                 else st.waves;
    st.(waves := waves, selected := SelectAllOnChange(waves, st.selected))
  }

  /** After any event delete or add, every wave is displayed again, whatever
      the user had hidden; with no waves the selection stays as it was. */
  lemma EditsReselectEveryWave(st: State, id: EventId, k: int, newId: EventId, time: int, title: string, detail: Option<string>)
    ensures |st.waves| > 0 ==> DisplayedWaves(DeleteEvent(st, id).waves, DeleteEvent(st, id).selected) == DeleteEvent(st, id).waves
    ensures |st.waves| > 0 ==>
              var r := AddEvent(st, k, newId, time, title, detail);
              DisplayedWaves(r.waves, r.selected) == r.waves
    ensures |st.waves| == 0 ==> DeleteEvent(st, id).selected == st.selected
    ensures |st.waves| == 0 ==> AddEvent(st, k, newId, time, title, detail).selected == st.selected
  {
  }

  /** A wave the user hid comes back when an event of any wave is deleted. */
  lemma DeleteEventShowsHiddenWave(st: State, id: EventId, k: int)
    requires 0 <= k < |st.waves| && k !in st.selected
    ensures DeleteEvent(st, id).waves[k] in DisplayedWaves(DeleteEvent(st, id).waves, DeleteEvent(st, id).selected)
  {
    var r := DeleteEvent(st, id);
    DisplayedWavesAreSelected(r.waves, r.selected);
  }

  // ------------------------------------------- deleting a shown connection

  function Hidden(ids: set<EventId>): Connection -> bool
  {
    (c: Connection) => !(c.from in ids && c.to in ids)
  }

  /** As written, the delete button of a drawn connection passes its index in
      the displayed list, and the handler removes that index from the full
      list. With a hidden connection ahead of a shown one, deleting the only
      shown connection removes the hidden one instead and leaves the clicked
      one in place. */
  lemma DisplayedIndexDeletesWrongConnection(st: State, positions: map<EventId, Point>)
    requires st.connections == [Connection("x", "b", "hidden"), Connection("a", "b", "shown")]
    requires "a" in positions && "b" in positions
    ensures DisplayedConnections(st.connections, {"a", "b"}) == [Connection("a", "b", "shown")]
    ensures (0, Connection("a", "b", "shown")) in DrawnConnections(DisplayedConnections(st.connections, {"a", "b"}), positions)
    ensures DeleteConnection(st, 0).connections == [Connection("a", "b", "shown")]
  {
    var ids: set<EventId> := {"a", "b"};
    var hidden := Connection("x", "b", "hidden");
    var shown := Connection("a", "b", "shown");
    assert "x" !in ids;
    assert st.connections[1..] == [shown] && [shown][1..] == [];
    assert DisplayedConnections(st.connections, ids) == [shown];
  }

  /** The corrected delete: index `i` counts only the connections shown
      (both endpoints in `ids`), so exactly the `i`-th shown connection goes
      and every hidden connection stays where it was. */
  function DeleteShownConnection(st: State, ids: set<EventId>, i: int): (r: State)
    ensures r == st.(connections := r.connections)
    ensures IsSubsequence(r.connections, st.connections)
    ensures DisplayedConnections(r.connections, ids) == RemoveAt(DisplayedConnections(st.connections, ids), i)
    ensures Filter(r.connections, Hidden(ids)) == Filter(st.connections, Hidden(ids))
    ensures var j := NthWhere(st.connections, BothEndpointsIn(ids), i);
            && r.connections == RemoveAt(st.connections, j)
            && (j < |st.connections| ==>
                  && st.connections[j].from in ids && st.connections[j].to in ids
                  && |DisplayedConnections(st.connections[..j], ids)| == i)
            && (j == |st.connections| <==> !(0 <= i < |DisplayedConnections(st.connections, ids)|))
  {
    var conns := RemoveNthWhere(st.connections, BothEndpointsIn(ids), i);
    RemoveNthWhereAt(st.connections, BothEndpointsIn(ids), i);
    NthWhereFinds(st.connections, BothEndpointsIn(ids), i);
    RemoveNthWhereMatching(st.connections, BothEndpointsIn(ids), i);
    RemoveNthWhereOthers(st.connections, BothEndpointsIn(ids), Hidden(ids), i);
    RemoveNthWhereIsSubsequence(st.connections, BothEndpointsIn(ids), i);
    st.(connections := conns)
  }

  // ------------------------------------------------- dangling references

  /** Every connection and every live part of the draft names an existing event. */
  predicate ReferencesResolve(st: State)
  {
    && (forall c :: c in st.connections ==> c.from in EventIds(st.waves) && c.to in EventIds(st.waves))
    && (st.pending.Some? ==> st.pending.value in EventIds(st.waves))
    && (st.showReasonModal && st.pendingTo.Some? ==> st.pendingTo.value in EventIds(st.waves))
  }

  /** As written, deleting the start event of a draft keeps the draft, so a
      double-click on another event and a submit commit a connection from an
      event that no longer exists. */
  lemma DeleteEventLeavesDraftDangling(a: Event, b: Event, w: Wave)
    requires a.id != b.id && w.events == [a, b]
    ensures var st0 := State([w], [], Some(a.id), None, None, false, [0]);
            var st1 := DeleteEvent(st0, a.id);
            var st2 := DoubleClick(st1, b.id, None);
            && ReferencesResolve(st0)
            && st2.showReasonModal && st2.pending == Some(a.id) && st2.pendingTo == Some(b.id)
            && SubmitReason(st2, "X").connections == [Connection(a.id, b.id, "X")]
            && a.id !in EventIds(SubmitReason(st2, "X").waves)
            && !ReferencesResolve(SubmitReason(st2, "X"))
  {
    var st0 := State([w], [], Some(a.id), None, None, false, [0]);
    assert a.id in EventIds(st0.waves) by {
      assert a in st0.waves[0].events;
    }
    var st1 := DeleteEvent(st0, a.id);
    DeleteEventIds(st0, a.id);
    assert b.id in EventIds(st1.waves) by {
      assert b in st1.waves[0].events;
    }
    var st3 := SubmitReason(DoubleClick(st1, b.id, None), "X");
    assert st3.connections == st3.connections[..0] + [Last(st3.connections)];
    assert Connection(a.id, b.id, "X") in st3.connections;
  }

  /** The corrected delete: as `handleDeleteEvent`, and a draft whose start
      event, or whose target while the reason dialog is open, is the deleted
      event is cancelled as the dialog's close would, target included. */
  function DeleteEventAndDraft(st: State, id: EventId): (r: State)
    ensures r.waves == DeleteEvent(st, id).waves && r.connections == DeleteEvent(st, id).connections
    ensures r.selected == DeleteEvent(st, id).selected
    ensures r.pending != Some(id) && (r.showReasonModal ==> r.pendingTo != Some(id))
    ensures st.pending == Some(id) || (st.showReasonModal && st.pendingTo == Some(id)) ==>
              r.pending.None? && r.pendingEnd.None? && r.pendingTo.None? && !r.showReasonModal
    ensures st.pending != Some(id) && !(st.showReasonModal && st.pendingTo == Some(id)) ==> r == DeleteEvent(st, id)
  {
    var d := DeleteEvent(st, id);
    if st.pending == Some(id) || (st.showReasonModal && st.pendingTo == Some(id)) then
      CloseReasonModal(d).(pendingTo := None)
    else d
  }

  /** The user actions, with the corrected event delete and the corrected
      delete of a shown connection. */
  datatype Action =
    | DoubleClickOn(id: EventId, cursor: Option<Point>)
    | MoveTo(to: Point)
    | SubmitDialog(reason: string)
    | CloseDialog
    | DeleteEventAction(id: EventId)
    | DeleteShownConnectionAt(ids: set<EventId>, index: int)
    | AddEventAction(timelineIndex: int, newId: EventId, time: int, title: string, detail: Option<string>)
    | ToggleWaveAt(wave: int)

  /** What can happen in a state: double-clicks land on rendered cards, which
      belong to existing events, and the dialog is submitted only while open
      and with a complete draft. */
  predicate Enabled(st: State, a: Action)
  {
    match a
    case DoubleClickOn(id, _) => id in EventIds(st.waves)
    case SubmitDialog(_) => st.showReasonModal && st.pending.Some? && st.pendingTo.Some?
    case _ => true
  }

  function Step(st: State, a: Action): State
    requires Enabled(st, a)
  {
    match a
    case DoubleClickOn(id, cursor) => DoubleClick(st, id, cursor)
    case MoveTo(to) => MouseMove(st, to)
    case SubmitDialog(reason) => SubmitReason(st, reason)
    case CloseDialog => CloseReasonModal(st)
    case DeleteEventAction(id) => DeleteEventAndDraft(st, id)
    case DeleteShownConnectionAt(ids, index) => DeleteShownConnection(st, ids, index)
    case AddEventAction(k, newId, time, title, detail) => AddEvent(st, k, newId, time, title, detail)
    case ToggleWaveAt(wave) => st.(selected := ToggleWave(st.selected, wave))
  }

  lemma AddEventKeepsIds(st: State, k: int, newId: EventId, time: int, title: string, detail: Option<string>)
    ensures EventIds(st.waves) <= EventIds(AddEvent(st, k, newId, time, title, detail).waves)
  {
    var r := AddEvent(st, k, newId, time, title, detail);
    forall x | x in EventIds(st.waves)
      ensures x in EventIds(r.waves)
    {
      var j, e :| 0 <= j < |st.waves| && e in st.waves[j].events && e.id == x;
      assert e in r.waves[j].events;
    }
  }

  lemma DeleteEventAndDraftResolves(st: State, id: EventId)
    requires ReferencesResolve(st)
    ensures ReferencesResolve(DeleteEventAndDraft(st, id))
  {
    DeleteEventIds(st, id);
  }

  lemma DeleteShownConnectionResolves(st: State, ids: set<EventId>, i: int)
    requires ReferencesResolve(st)
    ensures ReferencesResolve(DeleteShownConnection(st, ids, i))
  {
    var r := DeleteShownConnection(st, ids, i);
    RemoveAtMembers(st.connections, NthWhere(st.connections, BothEndpointsIn(ids), i));
  }

  /** With the corrected deletes, every action keeps all references
      resolvable: no connection, and no live part of a draft, ever names an
      event that does not exist. */
  lemma StepKeepsReferencesResolved(st: State, a: Action)
    requires ReferencesResolve(st) && Enabled(st, a)
    ensures ReferencesResolve(Step(st, a))
  {
    match a
    case DoubleClickOn(id, cursor) =>
    case MoveTo(to) =>
    case SubmitDialog(reason) =>
    case CloseDialog =>
    case DeleteEventAction(id) => DeleteEventAndDraftResolves(st, id);
    case DeleteShownConnectionAt(ids, index) => DeleteShownConnectionResolves(st, ids, index);
    case AddEventAction(k, newId, time, title, detail) => AddEventKeepsIds(st, k, newId, time, title, detail);
    case ToggleWaveAt(wave) =>
  }
}
