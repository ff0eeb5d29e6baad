# Lecture hall people counter — a Dafny model of the counting core

The system watches each doorway of a lecture hall with a camera, detects one
person's head per frame, and counts an **entry** when a tracked person moves
from the top side of a horizontal counting line to the bottom side and an
**exit** for the opposite move. The hall's occupancy is all entries minus all
exits over the doors.

This project models the counting core in `app.py`:

- `MediaPipePeopleCounter` becomes the class `PeopleCounting.PeopleCounter`.
  Its track table (`tracked_people`, a dict keyed by id) becomes a field
  `tracks: seq<Track>` kept in insertion order. Ids are handed out by an
  ever-growing `next_id`, and deleting keeps the order. So insertion order is
  increasing id order, and the invariant `ValidState` says exactly that.
- Each method of the class is proved to compute a pure function of
  `TrackSpec`:
  - `AgeAll`: the +1 ageing of every track;
  - `Nearest`: the closest-track search;
  - `Observe`: one detection, which updates a matched track or opens a new one;
  - `Prune`: the removal of stale tracks;
  - `Update`: one whole `update_tracking` call;
  - `Frame`: the gating done by `process_frame`.
- The properties of those functions are proved in `TrackProps`.
- `LectureHallMonitor`'s sums become the functions and lemmas of module
  `Occupancy`, and its reset key becomes `LectureHallMonitor.ResetAll`.
  The monitor is built from counters that are already connected; the camera
  connection done by `initialize` is left out.

Files: `track_spec.dfy` (data model and specification functions),
`track_props.dfy` (lemmas), `people_counter.dfy` (the door counter class),
`occupancy.dfy` (aggregation over doors).

Modelling choices:

- Positions are integer pixels. The floating-point test
  `sqrt(dx²+dy²) < min_dist` becomes a comparison of squared integers. It
  starts at `d² < 80·80` and then requires `d²` strictly below the best
  squared distance so far. Ties therefore keep the earliest (lowest-id) track.
- The pose detector is a parameter: each frame carries at most one detected
  position (`Option<Pos>`).
- `update_tracking` writes `person_dict['id']` and `person_dict['crossing']`
  into its input. Here these become the returned `ids` and `crossings`
  sequences, with one element per detection (`NoCrossing` where the source
  sets no key).

Behaviour of `app.py` that the model reproduces:

- Empty or skipped frames do not age tracks (app.py:208-226). `update_tracking`
  runs only on processed frames that have a detection, so a track is never
  pruned while no one is detected (`TrackProps.IdleFramesKeepTable`).
- A side change blocked by the debounce still overwrites the stored side
  (app.py:136-143).
- A new track takes its side at once and gets a debounce value of 999
  (app.py:148-153). There is no "unknown" side.
- Matching is per detection, in order (app.py:95-106). The chosen track stays
  available, so two detections of one call can match the same track.
- A track is dropped when it was not seen in the call and
  `frames_not_seen >= 150` (app.py:159).

## Model

| member | source | states |
|---|---|---|
| `TrackSpec.GetSide` | app.py:71-73 | a point is on the bottom side exactly when its y is greater than the line; a point on the line is top |
| `TrackSpec.AgeAll` | app.py:91-93 | every track, in order, has both frame counters one higher and id, position and side unchanged |
| `TrackSpec.Observe` | app.py:95-155 | one detection keeps the table invariant (ids strictly increasing and all below the next id) and raises the next id by at most one |
| `TrackSpec.ObserveAll` | app.py:95-155 | a batch of detections keeps the table invariant and yields exactly one id and one crossing per detection |
| `TrackSpec.Frames` | app.py:168 | the frame counter rises by exactly one per frame, whether or not the frame is processed |
| `TrackSpec.NearestFrom` | app.py:101-106 | the scan's result is an index of the table; a result other than the starting best is at or after the start and strictly closer than the starting best distance |
| `TrackSpec.Nearest` | app.py:97-106 | the matched index is in the table and strictly within 80 of the detection |
| `TrackSpec.CrossingOf` | app.py:122-135 | an entry exactly for top to bottom with debounce at least 15, an exit exactly for bottom to top with debounce at least 15 |
| `TrackSpec.NewTrack` | app.py:148-153 | a new track has the given id and position, is marked seen, is on the bottom side exactly when below the line, and its first side change counts |
| `TrackSpec.Keep` | app.py:159-164 | a track is deleted exactly when its id was not seen in this call and it has missed at least 150 frames |
| `TrackSpec.Prune` | app.py:157-164 | pruning never makes the table longer, and every surviving track satisfies the keep condition |
| `TrackSpec.Update` | app.py:86-164 | a tracker call gives one id and one crossing per detection, and every track left afterwards was seen in the call or has missed fewer than 150 frames |
| `TrackSpec.ShouldProcess` | app.py:175 | of two consecutive frame counts exactly one is processed |
| `TrackSpec.Frame` | app.py:166-226 | the frame counter rises by one; a skipped frame changes neither the table nor the detection flag; on a processed frame the flag says whether there was a detection; a frame with no detection leaves the table unchanged |
| `TrackProps.NearestMatches` | app.py:97-106 | for a given index k, the search returns k if and only if k is the nearest in-gate track with earliest-index ties |
| `TrackProps.NearestFromCorrect` | app.py:98-106 | the scan, started from any consistent partial state, ends at the nearest in-gate track with earliest-index tie-break, or finds nothing only when no track is within the gate |
| `TrackProps.NearestCorrect` | app.py:97-106 | a detection matches track k if and only if k is strictly within 80 of it, no track is closer and every earlier track is strictly farther; it matches none exactly when no track is strictly within 80 |
| `TrackProps.NearestUnique` | app.py:101-106 | at most one track satisfies the nearest-match condition |
| `TrackProps.ObserveNewTrack` | app.py:145-155 | an unmatched detection appends a track with the old next id, its own side, debounce 999 and no missed frames; next id grows by one; no counter and no crossing change |
| `TrackProps.NewIdFresh` | app.py:146-155 | in a valid table, the id given to a new track differs from every id still in the table |
| `TrackProps.ObserveIdBelow` | app.py:109-155 | in a valid table, the id a detection is given is below the next id afterwards |
| `TrackProps.ObserveAllIdsBelow` | app.py:95-155 | every id handed out by a batch of detections is below the next id after the batch |
| `TrackProps.ObserveAllOpenedAbove` | app.py:144-155 | a detection that opens a track gets an id larger than every id given earlier in the batch |
| `TrackProps.UpdateFreshIds` | app.py:86-164 | within one tracker call every id handed out is below the new next id, and an opened track's id is larger than every id given before it in the call |
| `TrackProps.NextCallFreshIds` | app.py:146-155 | a track opened in the following call gets an id larger than every id handed out in this call and every id in the table before it, so ids are not reused before a reset |
| `TrackProps.ObserveMatched` | app.py:109-143 | for a matched track: entries rise by one iff it goes top to bottom with debounce at least 15, exits rise by one iff bottom to top with debounce at least 15, at most one counter moves; the track is marked seen and gets the new position and side, and its debounce becomes 0 exactly on a counted crossing; all other tracks are unchanged |
| `TrackProps.ObserveDebouncedFlip` | app.py:136-143 | a side change with the debounce not yet elapsed counts nothing and keeps the debounce, but side and position are still overwritten |
| `TrackProps.ObserveCounts` | app.py:124-135 | each counter rises by one exactly when the detection reports a crossing of its kind |
| `TrackProps.ObserveKeepsOthers` | app.py:109-155 | a track other than the one the detection was given is carried over unchanged |
| `TrackProps.ObserveTarget` | app.py:114-153 | after a detection some track has the detection's id, the detected position and zero missed frames |
| `TrackProps.ObserveAllCounts` | app.py:95-155 | over a batch, entries and exits grow by exactly the number of reported entries and exits |
| `TrackProps.ObserveAllKeepsUnmatched` | app.py:95-155 | a track that no detection of the batch was given survives the batch unchanged |
| `TrackProps.ObserveAllLastMatch` | app.py:109-143 | the last detection given an id leaves a track with that id at the detected position with zero missed frames |
| `TrackProps.PruneMembers` | app.py:157-164 | a track survives pruning exactly when it was seen in this call or has fewer than 150 missed frames; no other track is removed |
| `TrackProps.PruneValid` | app.py:157-164 | pruning keeps ids strictly increasing and below the next id |
| `TrackProps.PruneStep` | app.py:158-164 | visiting one more key of the snapshot adds that track to the kept prefix exactly when it is kept |
| `TrackProps.UpdateValid` | app.py:86-164 | a whole tracker call keeps ids unique, in insertion order and below the next id |
| `TrackProps.UpdateCounts` | app.py:86-164 | a tracker call raises each counter by exactly the crossings it reports, so counters never decrease |
| `TrackProps.UpdateUnmatched` | app.py:157-164 | a pre-existing track no detection matched has both counters one higher, and it stays exactly when its missed-frame count is now below 150 |
| `TrackProps.UpdateMatched` | app.py:109-164 | after a tracker call the table is valid (so each id names one track), every matched track is present, is at the last position matched to it and has zero missed frames |
| `TrackProps.UpdatePrunesExactly` | app.py:157-164 | the tracks after a call are exactly the post-detection tracks that were seen in this call or have fewer than 150 missed frames |
| `TrackProps.SameIdSameTrack` | app.py:47 | in a valid table an id identifies one track |
| `TrackProps.UpdateSingleCrossing` | app.py:91-135 | for the single detection of a processed frame, an entry (exit) is counted iff the matched track was on top (bottom), the detection is on the other side, and its debounce after the +1 ageing is at least 15 |
| `TrackProps.UpdateSingleNew` | app.py:145-155 | a lone detection far from every track opens a track with the old next id, side of the detection, debounce 999, and counts nothing |
| `TrackProps.ObserveAllOne` | app.py:95 | a batch of one detection is that detection |
| `TrackProps.IdleFramesKeepTable` | app.py:175-214 | a run of frames each of which is skipped by the every-second-frame gate (whatever it detected) or carries no detection leaves tracks, ages, next id and counters exactly as they were |
| `TrackProps.FramesMonotone` | app.py:166-214 | over any sequence of frames the table stays valid and entries, exits and next id never decrease |
| `TrackProps.ObserveAllNextId` | app.py:155 | processing detections never lowers the next id |
| `TrackProps.UpdateNextId` | app.py:155 | a tracker call never lowers the next id |
| `PeopleCounting.PeopleCounter.constructor` | app.py:23-58 | a new counter has zero counters, an empty table, next id 0, frame count 0 and no person detected |
| `PeopleCounting.PeopleCounter.AgeTracks` | app.py:91-93 | the table becomes exactly `AgeAll` of the old table |
| `PeopleCounting.PeopleCounter.FindClosest` | app.py:97-106 | the loop returns the nearest track within 80 with earliest-wins ties, or none exactly when no track is within 80 |
| `PeopleCounting.PeopleCounter.Observe` | app.py:109-155 | the new counters, table, next id, returned id and crossing are exactly `Observe` of the old state |
| `PeopleCounting.PeopleCounter.ObserveEach` | app.py:95-155 | the detection loop leaves exactly `ObserveAll` of the old state and collects the set of ids seen |
| `PeopleCounting.PeopleCounter.PruneStale` | app.py:157-164 | deleting stale keys over a snapshot of the keys leaves exactly `Prune` of the old table |
| `PeopleCounting.PeopleCounter.UpdateTracking` | app.py:86-164 | the method keeps the table invariant and its new state, ids and crossings are exactly `Update` of the old state |
| `PeopleCounting.PeopleCounter.Reset` | app.py:292-297 | entries and exits are 0, the table is empty and the next id is 0 |
| `PeopleCounting.PeopleCounter.ProcessFrame` | app.py:166-256 | the frame counter rises by one; tracking runs only on even frame counts that have a detection; the detection flag is updated only on processed frames; returns entries minus exits |
| `Occupancy.TotalIn` | app.py:356 | total entries over the doors; no door's entries exceed it |
| `Occupancy.TotalOut` | app.py:357 | total exits over the doors; no door's exits exceed it |
| `Occupancy.NetOccupancy` | app.py:358 | occupancy is at most the total entries and at least minus the total exits; with no exits it is the total entries |
| `Occupancy.NetSum` | app.py:396 | the per-door net sum is at most the total entries and at least minus the total exits |
| `Occupancy.OccupancyIsNetSum` | app.py:356-358 | total entries minus total exits equals the sum of per-door entries minus exits (the figure printed at app.py:396 and 418) |
| `Occupancy.ThreeDoors` | app.py:356-358 | with three doors the occupancy is (e1+e2+e3) - (x1+x2+x3), negative values included |
| `Occupancy.WorkedExample` | app.py:356-358 | 3 entries at one door, 2 at another and 1 exit at a third give 5 entries, 1 exit, occupancy 4 |
| `Occupancy.NegativeOccupancy` | app.py:358 | occupancy is not clamped: more exits than entries give a negative figure |
| `Occupancy.TotalsMonotone` | app.py:356-357 | if no door's counters went down, neither total went down |
| `Occupancy.ZeroTotals` | app.py:356-358 | doors whose counters are all zero give zero totals and zero occupancy |
| `Occupancy.TotalsOf` | app.py:356-357 | reads each door's entries and exits, one element per counter, in order |
| `Occupancy.LectureHallMonitor.constructor` | app.py:309-331 | the monitor holds exactly the given counters, in order: the counters of the doors whose camera connected |
| `Occupancy.LectureHallMonitor.Dashboard` | app.py:356-358 | the dashboard shows the total entries and total exits over all doors, and an occupancy equal to their difference and to the per-door net sum |
| `Occupancy.LectureHallMonitor.ResetAll` | app.py:403-405 | every counter's counting state is empty afterwards, its frame counter and flag are untouched, and the dashboard reads 0, 0, 0 |

## Left out

- Pose detection with MediaPipe and `get_person_center` (app.py:75-84, 180-183) are not modelled. The detector is a parameter giving at most one integer position per frame.
- Floating-point `np.sqrt` distances are replaced by exact squared-integer comparisons. With doubles, two different squared distances above 2^52 could round to the same root; pixel coordinates never get near that.
- The OpenCV drawing in `process_frame` and `create_dashboard`, and the frame resize, are not modelled. `PeopleCounting.PeopleCounter.ProcessFrame` returns only the net count that the stats panel shows.
- Camera I/O is not modelled: `connect`, `cleanup`, `LectureHallMonitor.initialize`, and the `run` loop's frame reads, key handling and window calls. Only the reset key's effect (`ResetAll`) and the occupancy sums are modelled.
- `print` logging is not modelled, including the `frame_count % 30` status lines and the blocked-crossing log.
- `MIN_DISTANCE_FROM_LINE` is never read by the code. The `direction` parameter is stored but never used. Only a horizontal line is modelled.
- `test_streams.py` is not part of this model. It only grabs and displays camera frames.
- Concurrency is not modelled; the source processes the doors one after another in a single loop.
