/**
 The registry of measured card centres (`eventPositions`) and the
 layout-effect pass that merges each render's measurements into it. The pass
 reports whether anything changed, and the page only re-renders when it did.
 */
module Positions {
  import opened Types

  /** The measurements of one pass: each mounted card's id with its rounded
      centre, in the order the cards' refs were registered. */
  type Measurements = seq<(EventId, Point)>

  function MeasuredIds(m: Measurements): set<EventId>
  {
    set k | 0 <= k < |m| :: m[k].0
  }

  /** Ref keys are object keys, so no id is measured twice in one pass. */
  predicate DistinctIds(m: Measurements)
  {
    forall i, j :: 0 <= i < j < |m| ==> m[i].0 != m[j].0
  }

  /** The layout-effect pass over `eventPositions`: every measured id is set
      to its measured centre, setting the `changed` flag when the id was
      missing or its centre moved. The recursion peels off the last
      measurement, so `MergeMeasured(p, m[..i])` is the state of the pass
      before visiting entry `i`. */
  function MergeMeasured(positions: map<EventId, Point>, measured: Measurements): (r: (map<EventId, Point>, bool))
    requires DistinctIds(measured)
    ensures MergeResult(positions, measured, r)
  {
    if |measured| == 0 then (positions, false)
    else
      var prev := MergeMeasured(positions, measured[..|measured| - 1]);
      var r := MergeEntry(prev, measured[|measured| - 1]);
      MergeEntryResult(positions, measured, prev);
      r
  }

  /** One visit of the pass: record `entry`'s centre if it is new or moved. */
  function MergeEntry(state: (map<EventId, Point>, bool), entry: (EventId, Point)): (map<EventId, Point>, bool)
  {
    var (acc, changed) := state;
    var (id, centre) := entry;
    if id !in acc || acc[id] != centre then (acc[id := centre], true) else (acc, changed)
  }

  /** What the pass promises: the registry gains exactly the measured ids,
      holds each measured centre, keeps every unmeasured entry, and the flag is
      set exactly when the registry differs from the one it started from. */
  predicate MergeResult(positions: map<EventId, Point>, measured: Measurements, r: (map<EventId, Point>, bool))
  {
    && r.0.Keys == positions.Keys + MeasuredIds(measured)
    && (forall k :: 0 <= k < |measured| ==> r.0[measured[k].0] == measured[k].1)
    && (forall id :: id in positions && id !in MeasuredIds(measured) ==> r.0[id] == positions[id])
    && (r.1 <==> r.0 != positions)
  }

  lemma MergeEntryResult(positions: map<EventId, Point>, measured: Measurements, prev: (map<EventId, Point>, bool))
    requires |measured| > 0 && DistinctIds(measured)
    requires MergeResult(positions, measured[..|measured| - 1], prev)
    ensures MergeResult(positions, measured, MergeEntry(prev, measured[|measured| - 1]))
  {
    var init := measured[..|measured| - 1];
    var (id, centre) := measured[|measured| - 1];
    var r := MergeEntry(prev, measured[|measured| - 1]);
    MeasuredIdsSnoc(measured);
    assert id !in MeasuredIds(init);
    assert forall k :: 0 <= k < |measured| ==> r.0[measured[k].0] == measured[k].1 by {
      forall k | 0 <= k < |measured|
        ensures r.0[measured[k].0] == measured[k].1
      {
        if k < |measured| - 1 {
          assert init[k] == measured[k];
        }
      }
    }
    MergeEntryFlag(positions, init, prev, id, centre);
  }

  /** Adding a measurement at the end adds its id to the measured ids. */
  lemma MeasuredIdsSnoc(m: Measurements)
    requires |m| > 0
    ensures MeasuredIds(m) == MeasuredIds(m[..|m| - 1]) + {m[|m| - 1].0}
  {
    var init := m[..|m| - 1];
    forall x | x in MeasuredIds(m)
      ensures x in MeasuredIds(init) + {m[|m| - 1].0}
    {
      var k :| 0 <= k < |m| && m[k].0 == x;
      if k < |m| - 1 {
        assert init[k] == m[k];
      }
    }
    forall x | x in MeasuredIds(init)
      ensures x in MeasuredIds(m)
    {
      var k :| 0 <= k < |init| && init[k].0 == x;
      assert m[k] == init[k];
    }
  }

  /** Visiting a measurement of an id not measured before keeps the flag
      equal to "the registry differs from the one the pass started from". */
  lemma MergeEntryFlag(positions: map<EventId, Point>, init: Measurements, prev: (map<EventId, Point>, bool),
                       id: EventId, centre: Point)
    requires id !in MeasuredIds(init)
    requires prev.0.Keys == positions.Keys + MeasuredIds(init)
    requires forall x :: x in positions && x !in MeasuredIds(init) ==> prev.0[x] == positions[x]
    requires prev.1 <==> prev.0 != positions
    ensures MergeEntry(prev, (id, centre)).1 <==> MergeEntry(prev, (id, centre)).0 != positions
  {
    var r := MergeEntry(prev, (id, centre));
    if id in positions && prev.0[id] != centre {
      assert r.0[id] != positions[id];
    }
  }

  /** The pass never drops an entry: a centre recorded for an event that is no
      longer rendered stays in the registry. */
  lemma MergeNeverRemoves(positions: map<EventId, Point>, measured: Measurements, id: EventId)
    requires DistinctIds(measured) && id in positions
    ensures id in MergeMeasured(positions, measured).0
    ensures id !in MeasuredIds(measured) ==> MergeMeasured(positions, measured).0[id] == positions[id]
  {
  }

  /** A second pass over the same measurements finds nothing to change, so
      the change flag stops the re-render loop after one round. */
  lemma MergeReachesFixedPoint(positions: map<EventId, Point>, measured: Measurements)
    requires DistinctIds(measured)
    ensures var next := MergeMeasured(positions, measured).0;
            MergeMeasured(next, measured) == (next, false)
  {
    var next := MergeMeasured(positions, measured).0;
    var again := MergeMeasured(next, measured).0;
    forall id | id in next
      ensures again[id] == next[id]
    {
      if id in MeasuredIds(measured) {
        var k :| 0 <= k < |measured| && measured[k].0 == id;
      }
    }
    assert again == next;
  }
}
