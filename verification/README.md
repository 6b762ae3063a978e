# Analogical Timeline — a Dafny model of the page's core

The Analogical Timeline page shows several "waves" (hype-cycle timelines) side
by side. Each wave is a list of dated events. The page:

- lays each wave out vertically: events sorted by date, cut into groups in
  which each event is at most three months after its predecessor, each group
  placed proportionally to its date but pushed down to clear the previous
  group's estimated band, and the cards inside a group staggered about the
  group's position;
- filters what is shown: the selected waves, with predicted (future) events
  optionally hidden, and only the connections whose two endpoints are shown;
- keeps a registry of measured card centres and draws each connection and
  the in-progress line only when the centres it needs are known;
- lets the user draft a connection by double-clicking two events and typing a
  reason, delete events and connections, and add events.

This project models that logic as pure functions over immutable data and
proves the properties the code relies on. Dates are millisecond timestamps
(`int`). The axis origin `timelineStart` and the clock `now` are parameters.
Measured card centres and cursor positions are given integer points.

Files, one module each:

- `types.dfy` (`Types`): events, waves, connections, points, and the ids of a
  list of waves.
- `seqs.dfy` (`Seqs`): sequence filters and their lemmas. This includes the
  index-based filter `Select` that `Array.prototype.filter((_, i) => …)`
  performs, and the subsequence relation.
- `layout.dfy` (`Layout`): `Timeline`, `EventGroup` and `getOffsets` in
  `src/components/ShowcaseComponents.jsx`.
- `visibility.dfy` (`Visibility`): the derivations `displayedWaves`,
  `filteredWaves`, `displayedEventIds` and `displayedConnections`,
  `toggleWave`, `isFutureEvent`, and the drawing guards of
  `ConnectionsLayer`.
- `positions.dfy` (`Positions`): the `useLayoutEffect` merge of measured
  centres into `eventPositions`.
- `interaction.dfy` (`Interaction`): the connection draft protocol, the
  reason dialog, the data edits and the wave selection they reset, in
  `src/components/Showcase.jsx`.

Some behaviour of the code that a reader might not expect, and which the
model follows:

- The stagger offsets are vertical: `EventGroup` uses them as each card's CSS
  `top` (ShowcaseComponents.jsx:280-299), centred on the group's position.
  This is why the band estimate can let cards overlap (see Findings).
- The layout effect never removes an entry from `eventPositions`
  (`Positions.MergeNeverRemoves`).
- The reason dialog's `onClose` leaves `pendingTo` as it was
  (`Interaction.CloseReasonModal`).
- `handleDeleteEvent` does not cancel a draft that uses the deleted event
  (Findings, row 3).
- The effect that selects every wave runs whenever `waves` is replaced by a
  new array. Deleting or adding an event always builds a new array, so every
  edit brings back any wave the user had hidden
  (`Interaction.EditsReselectEveryWave`).

## Model

| member | source | states |
|---|---|---|
| Layout.SortByTime | src/components/ShowcaseComponents.jsx:383-385 | The sorted events are a permutation of the wave's events and are in non-decreasing date order. |
| Layout.SortIsStable | src/components/ShowcaseComponents.jsx:383-385 | For every date, the events with that date appear in the sorted list in the same order as in the input, so the sort is stable. |
| Layout.SortKeepsSorted | src/components/ShowcaseComponents.jsx:383-385 | Events already in date order are left exactly as they are. |
| Layout.GroupEventsIsGrouping | src/components/ShowcaseComponents.jsx:387-408 | Greedy grouping of a sorted list gives non-empty groups. Neighbours in a group are at most three months (90 days) apart. The last event of a group and the first of the next are more than three months apart. The groups concatenate back to the list. There are zero groups exactly when the list is empty. |
| Layout.WaveGroups | src/components/ShowcaseComponents.jsx:382-408 | A wave's groups are non-empty, cohesive and separated by more than three months. Concatenated, they are a date-ordered permutation of the wave's events, in the stable sorted order. An empty wave has no groups. |
| Layout.Offsets | src/components/ShowcaseComponents.jsx:181-193 | `getOffsets(count, gap)` returns exactly `count` offsets. |
| Layout.OffsetsEvenlySpaced | src/components/ShowcaseComponents.jsx:181-191 | Consecutive offsets differ by exactly `gap`, so offset `i` is the first plus `i * gap`. |
| Layout.OffsetsSymmetric | src/components/ShowcaseComponents.jsx:183-191 | The offsets are symmetric about 0: `offsets[i] + offsets[count-1-i] == 0`. |
| Layout.OffsetsCentre | src/components/ShowcaseComponents.jsx:183-191 | For odd `count` the middle offset is 0. For even `count` and a non-zero gap, no offset is 0. |
| Layout.PlaceGroups | src/components/ShowcaseComponents.jsx:410-426 | Each group's position is at least its time-proportional position. The first is at least `groupSpacing` (20) below the starting bound. Each next one is at least the previous group's estimated height `80*(n-1)+60` plus 20 below it. Each position is exactly one of those two bounds. |
| Layout.LayoutWaveAsWritten | src/components/ShowcaseComponents.jsx:382-426 | The wave's layout as written: the wave's groups, each at least at its time-proportional position. The first is at least 20. Each group clears the previous group's estimated band by 20. |
| Layout.GroupHeightIsCardExtent | src/components/ShowcaseComponents.jsx:413-416 | For cards of the estimated 60px height, the estimated height `80*(n-1)+60` is exactly the distance from the top of a group's highest staggered card to the bottom of its lowest, and every card lies inside that extent. |
| Layout.EstimatedBandsLetCardsOverlap | src/components/ShowcaseComponents.jsx:417-426 | Counterexample: events at day 0 and days 91, 92 and 93 give groups `[[a],[b,c,d]]` at 20 and 100. The second group's highest card starts at 20, exactly where the first group's card is. |
| Layout.PlaceGroupsSeparated | src/components/ShowcaseComponents.jsx:417-426 | Corrected placement. Positions stay at or below the time-proportional ones. Each group's highest card starts at least 20 below where the previous group's lowest card ends. |
| Layout.LayoutWaveSeparated | src/components/ShowcaseComponents.jsx:382-426 | The layout the model uses: the wave's groups, placed so that every group's cards start at least 20 below the previous group's cards end, and the first group's cards start at least 20 below the top of the axis. |
| Layout.SeparatedCardsNeverOverlap | src/components/ShowcaseComponents.jsx:410-426 | With the corrected placement and cards of the estimated 60px height, any card of a later group starts at least 20 below where any card of an earlier group ends. |
| Layout.ScenarioTwoGroups | src/components/ShowcaseComponents.jsx:383-408 | Events dated 2020-01-01, 2020-02-01 and 2021-06-01, given out of order, group as `[[A,B],[C]]`. A two-card group is staggered to -40 and +40. |
| Visibility.DisplayedWavesAreSelected | src/components/Showcase.jsx:175-177 | The displayed waves keep the waves' order, include every selected wave, and include only selected waves. |
| Visibility.DisplayedWavesByIndex | src/components/Showcase.jsx:175-177 | The filter is by position, not by value: no waves display nothing, and the wave at index `n` of a list of `n+1` is displayed, after the earlier displayed waves, exactly when `n` is selected. This fixes the result even when two waves are equal. |
| Visibility.SelectingAllShowsEveryWave | src/components/Showcase.jsx:82-86 | Selecting every index, as the page does whenever `waves` is replaced by a non-empty array, displays every wave, in order. |
| Visibility.SelectAllOnChange | src/components/Showcase.jsx:81-86 | With at least one wave, the new selection holds exactly the valid wave indices and displays every wave. With no waves, the selection is left as it was. |
| Visibility.ToggleWave | src/components/Showcase.jsx:210-218 | Toggling flips whether `idx` is selected and leaves every other index's membership unchanged. |
| Visibility.ToggleWaveTwice | src/components/Showcase.jsx:210-218 | Toggling the same index twice restores which indices are selected, so exactly the same waves are displayed, in the same order. |
| Visibility.FilterWave | src/components/Showcase.jsx:182-187 | A wave keeps its title and other fields. Its events are an order-preserving subsequence holding exactly the events that are shown, each as often as before: all of them when predicted events are shown, otherwise those not dated after `now`. |
| Visibility.FilteredWaves | src/components/Showcase.jsx:179-188 | Every wave is kept with only its events filtered, order preserved and each kept event as often as before. An event stays exactly when predicted events are shown or it is not dated after `now`, the complement of `isFutureEvent`. With predicted events shown, the waves are unchanged. |
| Visibility.DisplayedIdsAreVisibleIds | src/components/Showcase.jsx:190-199 | An id is in `displayedEventIds` exactly when some event of a selected wave carries it and passes the predicted-events filter. |
| Visibility.DisplayedConnections | src/components/Showcase.jsx:201-207 | The displayed connections are an order-preserving subsequence of the connections. They are exactly those with both endpoints among the given ids, and each such connection appears as many times as in the input. |
| Visibility.ConnectionShownIffEndpointsVisible | src/components/Showcase.jsx:174-207 | A connection is displayed exactly when it is a connection and both endpoints are visible events. |
| Visibility.FutureEventHidesItsConnections | src/components/Showcase.jsx:184-186 | With predicted events hidden, a future event takes every connection touching it off the page, whatever the selection. |
| Visibility.DrawnConnections | src/components/ShowcaseComponents.jsx:518-539 | A connection is drawn, with its index in the given list, exactly when both endpoints have a measured position. |
| Visibility.LiveLine | src/components/ShowcaseComponents.jsx:541-563 | The in-progress line is drawn exactly when a draft exists, its end point is set and its start event has a position. It runs from that position to the end point. |
| Visibility.ConnectionDrawnIff | src/components/ShowcaseComponents.jsx:518-521 | A connection is on screen exactly when it is a connection, both endpoints are visible events, and both have measured positions. |
| Positions.MergeMeasured | src/components/Showcase.jsx:37-59 | After the merge the keys are the old keys plus the measured ids. Each measured id maps to its measured centre. Unmeasured entries are kept. `changed` is true exactly when the map differs from the old one. |
| Positions.MergeNeverRemoves | src/components/Showcase.jsx:39-54 | No entry is ever removed. An entry that was not measured keeps its old centre. |
| Positions.MergeReachesFixedPoint | src/components/Showcase.jsx:56-58 | A second pass over the same measurements changes nothing and reports no change, so the re-render stops after one round. |
| Interaction.EffectiveReason | src/components/ShowcaseComponents.jsx:570-576 | The submitted reason is never empty. An empty input becomes the default "Manual connection". A non-empty typed reason is kept as typed. |
| Interaction.DoubleClick | src/components/Showcase.jsx:88-109 | With no draft, the clicked event becomes the start, and the end point is set when the container gives a cursor. On the start event itself, start and end are cleared. On another event, it becomes the target, the dialog opens and the end point is cleared, with the start unchanged. Data and the wave selection are never touched. |
| Interaction.MouseMove | src/components/Showcase.jsx:159-168 | Only the end point can change. It follows the cursor exactly when a draft exists and the end point is set. Otherwise the state is unchanged. |
| Interaction.LiveLineStaysSuspended | src/components/Showcase.jsx:160-167 | Once the end point is cleared, no sequence of cursor moves changes the state, so the live line stays undrawn. |
| Interaction.SubmitConnection | src/components/Showcase.jsx:133-141 | The draft's connection is appended after the existing connections, and start, end and target are cleared. |
| Interaction.CloseReasonModal | src/components/Showcase.jsx:237-241 | The dialog closes and start and end are cleared. No connection is created, and the target is left as it was. |
| Interaction.SubmitReason | src/components/ShowcaseComponents.jsx:574-578 | Submitting the dialog appends exactly one connection from start to target with the effective reason. Earlier connections are unchanged and every draft field is cleared. |
| Interaction.DraftScenarios | src/components/Showcase.jsx:88-141 | Double-clicking A then A leaves no draft and no new connection. Double-clicking A then B and submitting "X" appends exactly `{A, B, "X"}` and returns to no draft. Submitting an empty reason instead appends `{A, B, "Manual connection"}`. |
| Interaction.DeleteEvent | src/components/Showcase.jsx:143-153 | Every wave keeps its other fields and loses every copy of the event and nothing else, with order preserved. Exactly the connections not touching the event remain, each as often as before, in order. The draft is not touched. The selection is reset to every wave when there is one. |
| Interaction.DeleteEventIds | src/components/Showcase.jsx:143-149 | After the delete, the event ids are the old ones minus the deleted id. |
| Interaction.DeleteConnection | src/components/Showcase.jsx:155-157 | Exactly the element at index `i` is removed, with the rest in order. An out-of-range index changes nothing. |
| Interaction.AddEvent | src/components/Showcase.jsx:111-131 | When the wave at the index exists, exactly one new non-failure event is appended to it and no other wave changes. Otherwise the waves are unchanged. Either way, connections and draft are untouched and the selection is reset to every wave when there is one. |
| Interaction.EditsReselectEveryWave | src/components/Showcase.jsx:81-153 | After any event delete or add on a non-empty list of waves, every wave is displayed. With no waves, the selection is unchanged. |
| Interaction.DeleteEventShowsHiddenWave | src/components/Showcase.jsx:81-149 | A wave whose index was not selected is displayed after deleting any event. |
| Interaction.AddEventKeepsIds | src/components/Showcase.jsx:111-131 | Adding an event keeps every existing event id. |
| Interaction.DisplayedIndexDeletesWrongConnection | src/components/Showcase.jsx:155-157 | Counterexample: with connections `[hidden, shown]`, the drawn connection has displayed index 0. Deleting index 0 removes the hidden one and keeps the clicked one. |
| Interaction.DeleteShownConnection | src/components/ShowcaseComponents.jsx:518-536 | Corrected delete by displayed index: the result is the connections without one position. That position holds a shown connection with exactly `i` shown connections before it, and there is no such position only when `i` is outside the displayed list, in which case nothing is removed. So the displayed list loses exactly its `i`-th element and the hidden connections are unchanged. |
| Interaction.DeleteEventLeavesDraftDangling | src/components/Showcase.jsx:143-153 | Counterexample: start a draft at A, delete A, double-click B and submit. The commit is a connection from A, which no longer exists. |
| Interaction.DeleteEventAndDraft | src/components/Showcase.jsx:143-153 | Corrected delete: same data edits as `handleDeleteEvent`. A draft whose start, or whose target while the dialog is open, is the deleted event is cancelled: start, end and target are cleared and the dialog is closed. Otherwise the result is exactly `handleDeleteEvent`'s. No live draft part refers to the deleted event afterwards. |
| Interaction.StepKeepsReferencesResolved | src/components/Showcase.jsx:88-157 | With the corrected deletes, every user action, toggling a wave included, keeps every connection's endpoints, and every live part of the draft, pointing at existing events. |

## Left out

- Loading `data.json` with `fetch` and its error path (Showcase.jsx:71-79). This is network I/O; the model starts from given waves and connections.
- Random ids for new events (Showcase.jsx:112). The new id is a parameter of `Interaction.AddEvent`, and freshness is the caller's obligation.
- Date parsing and the calendar-year origin of the axis (ShowcaseComponents.jsx:374-377). Dates are integer timestamps and `timelineStart` is a parameter.
- Layout.NaivePos: uses exact real arithmetic for `ratio * 1600` with the span `7.8 * 365.25` days, not IEEE doubles. No property depends on the rounding.
- DOM measurement (`getBoundingClientRect`, `Math.round`, container offsets). Measured centres and cursor positions are given integer points. Whether the container is mounted is the `cursor` option of `Interaction.DoubleClick`.
- JSX rendering, styling, colours, the hover tooltip, `getWaveIcon` and the curve-path string of `ConnectionLine`: presentation only.
- React hook scheduling (`useMemo`, the `useLayoutEffect` re-render loop). Each handler and derivation is a pure function of the state; `Positions.MergeReachesFixedPoint` covers the loop's termination.
- Form state inside `AddEventModal` and `ConnectionReasonModal`. Only the records they emit are modelled; the reason dialog's input is the `input` string.
- The "Show Predicted Events" switch (Showcase.jsx:368-371). It only negates a boolean, which `Visibility.FilteredWaves` takes as a parameter.
- Layout.CardHeight: a card is taken to be 60px tall, the `height` of the card style (ShowcaseComponents.jsx:300-303). The style also sets 10px padding and a 2px border; with the CSS default `content-box` sizing the card would be 84px, and then cards of one group (stagger 80) would overlap by 4px and the corrected spacing would leave a 4px overlap. The page's stylesheet is not part of this model, so its box sizing is unknown. The as-written counterexample does not depend on the card height.
- Interaction.SubmitReason: requires an open dialog with a start and a target. The form only exists while the dialog is open, and the dialog only opens with a target. The requires excludes one reachable state: double-clicking the start event while the dialog is open clears the start and leaves the dialog open, and submitting then throws when `handleSubmitConnection` reads the missing draft's start (Showcase.jsx:136). The model does not describe that crash.

## Findings

| source | as written | input that shows it | evidently intended | confidence | as-written member | corrected member |
|---|---|---|---|---|---|---|
| src/components/ShowcaseComponents.jsx:417-426 | The next group is kept `groupSpacing` below `finalPos + estimateGroupHeight(group)`, as if a group's cards began at its position. `EventGroup` centres the staggered cards on that position, so a group's highest card is `gap*floor(n/2)` (less half a gap when `n` is even) above it. | One event at day 0, then three events on days 91, 92 and 93 (`timelineStart` 0): groups at 20 and 100, and the second group's first card is at 100 - 80 = 20, on top of the first group's card. | No two groups ever overlap: each group's cards start below the previous group's cards. | not executed | Layout.EstimatedBandsLetCardsOverlap | Layout.PlaceGroupsSeparated |
| src/components/Showcase.jsx:155-157 | `ConnectionsLayer` passes each drawn connection's index in `displayedConnections` (ShowcaseComponents.jsx:518,536). `handleDeleteConnection` removes that index from the full `connections` list. | Connections `[x→b, a→b]` with only `a` and `b` shown: clicking delete on `a→b` (displayed index 0) removes `x→b` and keeps `a→b`. | Delete exactly the connection that was clicked. | not executed | Interaction.DisplayedIndexDeletesWrongConnection | Interaction.DeleteShownConnection |
| src/components/Showcase.jsx:143-153 | `handleDeleteEvent` removes the event and its connections but leaves `pendingConnection` and `pendingTo` as they were. | Double-click A, delete A, double-click B, submit "X": the connection `A→B` is committed though A no longer exists. | A deleted event cancels any draft that starts or ends at it, so every connection names existing events. | not executed | Interaction.DeleteEventLeavesDraftDangling | Interaction.DeleteEventAndDraft |
