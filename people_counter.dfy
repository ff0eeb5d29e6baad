/** One door's people counter: the track table and counters, updated in
    place.  Every method is proved to compute the corresponding TrackSpec
    function, whose properties are in TrackProps. */
module PeopleCounting {
  import opened TrackSpec
  import TrackProps

  class PeopleCounter {
    const doorName: string
    /** y coordinate of the horizontal counting line. */
    const entryLine: int

    var entries: nat
    var exits: nat
    /** The track table, in insertion order (which is increasing id order). */
    var tracks: seq<Track>
    var nextId: nat
    var frameCount: nat
    /** Whether the last processed frame had a person in it. */
    var personDetected: bool

    ghost predicate Valid()
      reads this
    {
      ValidState(Table())
    }

    /** The counting state as a value. */
    function Table(): CounterState
      reads this
    {
      CounterState(tracks, nextId, entries, exits)
    }

    function Snapshot(): Door
      reads this
    {
      Door(Table(), frameCount, personDetected)
    }

    constructor (doorName: string, entryLine: int)
      ensures Valid()
      ensures this.doorName == doorName && this.entryLine == entryLine
      ensures Snapshot() == Door(EmptyTable, 0, false)
    {
      this.doorName := doorName;
      this.entryLine := entryLine;
      entries := 0;
      exits := 0;
      tracks := [];
      nextId := 0;
      frameCount := 0;
      personDetected := false;
    }

    /** Adds one frame to both counters of every track. */
    method AgeTracks()
      modifies this`tracks
      ensures tracks == AgeAll(old(tracks))
    {
      var i := 0;
      while i < |tracks|
        invariant i <= |tracks| == |old(tracks)|
        invariant forall j :: 0 <= j < i ==> tracks[j] == Aged(old(tracks)[j])
        invariant forall j :: i <= j < |tracks| ==> tracks[j] == old(tracks)[j]
      {
        var t := tracks[i];
        tracks := tracks[i := t.(framesSinceCrossing := t.framesSinceCrossing + 1,
                                 framesNotSeen := t.framesNotSeen + 1)];
        i := i + 1;
      }
    }

    /** Index of the closest track strictly within MATCH_DISTANCE of p; on a
        tie the earlier track is kept. */
    method FindClosest(p: Pos) returns (matched: Option<nat>)
      ensures matched == Nearest(tracks, p)
      ensures matched.Some? ==> TrackProps.IsNearest(tracks, p, matched.value)
      ensures matched.None? <==> TrackProps.NoneInRange(tracks, p)
    {
      matched := None;
      var minDist := MATCH_DISTANCE * MATCH_DISTANCE;
      var i := 0;
      while i < |tracks|
        invariant i <= |tracks|
        invariant matched.Some? ==> matched.value < i
        invariant NearestFrom(tracks, p, i, matched, minDist) == Nearest(tracks, p)
      {
        var old_pos := tracks[i].position;
        var dist := (p.x - old_pos.x) * (p.x - old_pos.x) + (p.y - old_pos.y) * (p.y - old_pos.y);
        if dist < minDist {
          minDist := dist;
          matched := Some(i);
        }
        i := i + 1;
      }
      TrackProps.NearestCorrect(tracks, p);
    }

    /** Handles one detection: updates the matched track (counting a
        crossing if the side flipped and the debounce has elapsed) or opens
        a new track.  Returns the id the detection was given and the
        crossing it caused. */
    method Observe(p: Pos) returns (id: nat, crossing: Crossing)
      modifies this`tracks, this`nextId, this`entries, this`exits
      ensures TrackSpec.Observe(old(Table()), entryLine, p) == Step(Table(), id, crossing)
    {
      var matched := FindClosest(p);
      if matched.Some? {
        var k := matched.value;
        id := tracks[k].id;
        var t := tracks[k].(framesNotSeen := 0);
        var oldSide := t.lastSide;
        var newSide := GetSide(entryLine, p.y);
        var since := t.framesSinceCrossing;
        var canCross := since >= DEBOUNCE_FRAMES;
        crossing := NoCrossing;
        if oldSide != newSide && canCross {
          if oldSide == Top && newSide == Bottom {
            entries := entries + 1;
            crossing := Entry;
            t := t.(framesSinceCrossing := 0);
          } else if oldSide == Bottom && newSide == Top {
            exits := exits + 1;
            crossing := Exit;
            t := t.(framesSinceCrossing := 0);
          }
        }
        t := t.(position := p, lastSide := newSide);
        tracks := tracks[k := t];
      } else {
        id := nextId;
        crossing := NoCrossing;
        tracks := tracks + [Track(nextId, p, GetSide(entryLine, p.y), FRESH_SINCE_CROSSING, 0)];
        nextId := nextId + 1;
      }
    }

    /** Removes every track that was not seen in this call and has been
        missing for MAX_FRAMES_NOT_SEEN frames or more, visiting the ids of
        the table as it was before the loop. */
    method PruneStale(current: set<nat>)
      modifies this`tracks
      ensures tracks == Prune(old(tracks), current)
    {
      var snapshot := tracks;
      var i, j := 0, 0;
      ghost var done: seq<Track> := [];
      while i < |snapshot|
        invariant i <= |snapshot|
        invariant done == Prune(snapshot[..i], current)
        invariant tracks == done + snapshot[i..]
        invariant j == |done|
      {
        TrackProps.PruneStep(snapshot, i, current);
        var t := tracks[j];
        assert snapshot[i..] == [t] + snapshot[i + 1..];
        TrackProps.SplitAt(done, t, snapshot[i + 1..]);
        if t.id in current || t.framesNotSeen < MAX_FRAMES_NOT_SEEN {
          done := done + [t];
          j := j + 1;
        } else {
          tracks := tracks[..j] + tracks[j + 1..];
        }
        i := i + 1;
      }
      assert snapshot[..i] == snapshot;
    }

    /** The detections of one call, in order; also collects the set of ids
        seen in this call. */
    method ObserveEach(detected: seq<Pos>) returns (ids: seq<nat>, crossings: seq<Crossing>, currentIds: set<nat>)
      modifies this`tracks, this`nextId, this`entries, this`exits
      ensures ObserveAll(old(Table()), entryLine, detected) == Run(Table(), ids, crossings)
      ensures currentIds == Elems(ids)
    {
      currentIds := {};
      ids := [];
      crossings := [];
      var d := 0;
      while d < |detected|
        invariant d <= |detected|
        invariant ObserveAll(old(Table()), entryLine, detected[..d]) == Run(Table(), ids, crossings)
        invariant currentIds == Elems(ids)
      {
        assert detected[..d + 1][..d] == detected[..d];
        var id, crossing := Observe(detected[d]);
        ids := ids + [id];
        crossings := crossings + [crossing];
        currentIds := currentIds + {id};
        d := d + 1;
      }
      assert detected[..d] == detected;
    }

    /** One tracker call over the detections of a frame: age every track,
        match or open a track per detection in order, then prune.  Returns
        the id given to each detection and the crossing each one caused. */
    method UpdateTracking(detected: seq<Pos>) returns (ids: seq<nat>, crossings: seq<Crossing>)
      requires Valid()
      modifies this`tracks, this`nextId, this`entries, this`exits
      ensures Valid()
      ensures Update(old(Table()), entryLine, detected) == Run(Table(), ids, crossings)
    {
      AgeTracks();
      var currentIds;
      ids, crossings, currentIds := ObserveEach(detected);
      PruneStale(currentIds);
      TrackProps.UpdateValid(old(Table()), entryLine, detected);
    }

    /** Puts the counter back to its initial counting state; the frame
        counter and the detection flag are left alone. */
    method Reset()
      modifies this`entries, this`exits, this`tracks, this`nextId
      ensures Valid()
      ensures Table() == EmptyTable
    {
      entries := 0;
      exits := 0;
      tracks := [];
      nextId := 0;
    }

    /** One camera frame, with the detector's output abstracted to at most
        one position.  Only every PROCESS_EVERY_N_FRAMES-th frame with a
        detection reaches the tracker.  Returns the door's net count. */
    method ProcessFrame(detection: Option<Pos>) returns (totalPeople: int)
      requires Valid()
      modifies this`tracks, this`nextId, this`entries, this`exits, this`frameCount, this`personDetected
      ensures Valid()
      ensures Snapshot() == Frame(old(Snapshot()), entryLine, detection)
      ensures totalPeople == entries - exits
    {
      frameCount := frameCount + 1;
      var shouldProcess := frameCount % PROCESS_EVERY_N_FRAMES == 0;
      if shouldProcess && detection.Some? {
        var _, _ := UpdateTracking([detection.value]);
        personDetected := true;
      } else if shouldProcess {
        personDetected := false;
      }
      totalPeople := entries - exits;
    }
  }
}
