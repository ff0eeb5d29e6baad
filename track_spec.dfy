/** The per-door tracking state machine of the people counter, as pure
    functions over values.  The class in people_counter.dfy is proved to
    compute exactly these functions; the lemmas in track_props.dfy state what
    they guarantee. */
module TrackSpec {

  /** Tuning constants of one door counter. */
  const MATCH_DISTANCE: int := 80
  const DEBOUNCE_FRAMES: int := 15
  const MAX_FRAMES_NOT_SEEN: int := 150
  const PROCESS_EVERY_N_FRAMES: int := 2
  /** Debounce value given to a fresh track, so that its first flip may count. */
  const FRESH_SINCE_CROSSING: nat := 999
  /** The matching gate on squared distances: dist < 80 iff dx*dx + dy*dy < 80*80. */
  const GATE: int := MATCH_DISTANCE * MATCH_DISTANCE

  datatype Option<T> = None | Some(value: T)

  /** Side of the horizontal counting line. */
  datatype Side = Top | Bottom

  /** A pixel position reported by the detector. */
  datatype Pos = Pos(x: int, y: int)

  /** One entry of the track table. */
  datatype Track = Track(
    id: nat,
    position: Pos,
    lastSide: Side,
    framesSinceCrossing: nat,
    framesNotSeen: nat)

  /** What a matched detection did to the counters. */
  datatype Crossing = NoCrossing | Entry | Exit

  /** The counting state of one door: the track table in insertion (= id)
      order, the next id to hand out and the two counters. */
  datatype CounterState = CounterState(tracks: seq<Track>, nextId: nat, entries: nat, exits: nat)

  /** Result of one detection: new state, id the detection was given, crossing. */
  datatype Step = Step(state: CounterState, id: nat, crossing: Crossing)

  /** Result of a batch of detections: new state, one id and one crossing per detection. */
  datatype Run = Run(state: CounterState, ids: seq<nat>, crossings: seq<Crossing>)

  /** A door counter together with its frame counter and detection flag. */
  datatype Door = Door(table: CounterState, frameCount: nat, personDetected: bool)

  const EmptyTable: CounterState := CounterState([], 0, 0, 0)

  // ---------------------------------------------------------------------
  // Invariant of the track table

  /** Ids appear in strictly increasing order (so each id at most once). */
  ghost predicate IdsIncreasing(ts: seq<Track>) {
    forall i, j :: 0 <= i < j < |ts| ==> ts[i].id < ts[j].id
  }

  /** Every live id was handed out before, i.e. is below the next id. */
  ghost predicate IdsBelow(ts: seq<Track>, n: nat) {
    forall t :: t in ts ==> t.id < n
  }

  ghost predicate ValidState(s: CounterState) {
    IdsIncreasing(s.tracks) && IdsBelow(s.tracks, s.nextId)
  }

  // ---------------------------------------------------------------------
  // Side classification

  /** A point strictly below the line (larger y) is on the bottom side; a
      point on the line counts as top. */
  function GetSide(entryLine: int, y: int): (s: Side)
    ensures s == Bottom <==> y > entryLine
    ensures s == Top <==> y <= entryLine
  {
    if y > entryLine then Bottom else Top
  }

  // ---------------------------------------------------------------------
  // Ageing

  function Aged(t: Track): Track {
    t.(framesSinceCrossing := t.framesSinceCrossing + 1, framesNotSeen := t.framesNotSeen + 1)
  }

  /** Every track, in the same order, with both frame counters one higher
      and nothing else changed. */
  function AgeAll(ts: seq<Track>): (r: seq<Track>)
    ensures |r| == |ts|
    ensures forall i :: 0 <= i < |ts| ==>
      r[i].id == ts[i].id && r[i].position == ts[i].position && r[i].lastSide == ts[i].lastSide &&
      r[i].framesSinceCrossing == ts[i].framesSinceCrossing + 1 &&
      r[i].framesNotSeen == ts[i].framesNotSeen + 1
  {
    seq(|ts|, i requires 0 <= i < |ts| => Aged(ts[i]))
  }

  // ---------------------------------------------------------------------
  // Nearest-track search

  function SqDist(p: Pos, q: Pos): int {
    (p.x - q.x) * (p.x - q.x) + (p.y - q.y) * (p.y - q.y)
  }

  /** The scan over the table from index i on, with the best index and
      squared distance found so far; a track replaces the best only when it
      is strictly closer. */
  function NearestFrom(ts: seq<Track>, p: Pos, i: nat, best: Option<nat>, bestD: int): (r: Option<nat>)
    requires i <= |ts|
    requires best.Some? ==> best.value < i
    ensures r.Some? ==> r.value < |ts|
    ensures r.Some? && r != best ==> i <= r.value
    ensures r.Some? && r != best ==> SqDist(p, ts[r.value].position) < bestD
    decreases |ts| - i
  {
    if i == |ts| then best
    else
      var d := SqDist(p, ts[i].position);
      if d < bestD then NearestFrom(ts, p, i + 1, Some(i), d)
      else NearestFrom(ts, p, i + 1, best, bestD)
  }

  /** Index of the track a detection at p is matched to, if any. */
  function Nearest(ts: seq<Track>, p: Pos): (r: Option<nat>)
    ensures r.Some? ==> r.value < |ts|
    ensures r.Some? ==> SqDist(p, ts[r.value].position) < GATE
  {
    NearestFrom(ts, p, 0, None, GATE)
  }

  // ---------------------------------------------------------------------
  // One detection

  /** A counted crossing needs a side change and an elapsed debounce; top to
      bottom is an entry, bottom to top an exit. */
  function CrossingOf(oldSide: Side, newSide: Side, since: nat): (c: Crossing)
    ensures c == Entry <==> oldSide == Top && newSide == Bottom && since >= DEBOUNCE_FRAMES
    ensures c == Exit <==> oldSide == Bottom && newSide == Top && since >= DEBOUNCE_FRAMES
  {
    if oldSide != newSide && since >= DEBOUNCE_FRAMES then
      if oldSide == Top && newSide == Bottom then Entry
      else if oldSide == Bottom && newSide == Top then Exit
      else NoCrossing
    else NoCrossing
  }

  /** A fresh track: seen now, on the detection's side, and with a debounce
      value that lets its first side change count. */
  function NewTrack(id: nat, p: Pos, entryLine: int): (t: Track)
    ensures t.id == id && t.position == p && t.framesNotSeen == 0
    ensures t.lastSide == Bottom <==> p.y > entryLine
    ensures forall side :: side != t.lastSide ==> CrossingOf(t.lastSide, side, t.framesSinceCrossing) != NoCrossing
  {
    Track(id, p, GetSide(entryLine, p.y), FRESH_SINCE_CROSSING, 0)
  }

  /** One detection: update the nearest track within the gate, counting a
      crossing if there is one, or else open a new track with the next id. */
  function Observe(s: CounterState, entryLine: int, p: Pos): (r: Step)
    ensures ValidState(s) ==> ValidState(r.state)
    ensures r.state.nextId == s.nextId || r.state.nextId == s.nextId + 1
  {
    match Nearest(s.tracks, p)
    case None =>
      Step(s.(tracks := s.tracks + [NewTrack(s.nextId, p, entryLine)], nextId := s.nextId + 1),
           s.nextId, NoCrossing)
    case Some(k) =>
      var t := s.tracks[k];
      var newSide := GetSide(entryLine, p.y);
      var c := CrossingOf(t.lastSide, newSide, t.framesSinceCrossing);
      var t' := t.(position := p, lastSide := newSide, framesNotSeen := 0,
                   framesSinceCrossing := if c == NoCrossing then t.framesSinceCrossing else 0);
      Step(s.(tracks := s.tracks[k := t'],
              entries := s.entries + (if c == Entry then 1 else 0),
              exits := s.exits + (if c == Exit then 1 else 0)),
           t.id, c)
  }

  /** The detections of one call, in order; each one sees the table as the
      previous ones left it. */
  function ObserveAll(s: CounterState, entryLine: int, ps: seq<Pos>): (r: Run)
    ensures ValidState(s) ==> ValidState(r.state)
    ensures |r.ids| == |ps| && |r.crossings| == |ps|
    decreases |ps|
  {
    if ps == [] then Run(s, [], [])
    else
      var prev := ObserveAll(s, entryLine, ps[..|ps| - 1]);
      var st := Observe(prev.state, entryLine, ps[|ps| - 1]);
      Run(st.state, prev.ids + [st.id], prev.crossings + [st.crossing])
  }

  // ---------------------------------------------------------------------
  // Pruning

  function Elems(ids: seq<nat>): set<nat> {
    set id | id in ids
  }

  /** A track is kept if it was seen in this call or has not been missing for
      MAX_FRAMES_NOT_SEEN frames. */
  predicate Keep(t: Track, current: set<nat>)
    ensures !Keep(t, current) <==> t.id !in current && t.framesNotSeen >= MAX_FRAMES_NOT_SEEN
  {
    t.id in current || t.framesNotSeen < MAX_FRAMES_NOT_SEEN
  }

  /** The table with stale tracks removed, order preserved. */
  function Prune(ts: seq<Track>, current: set<nat>): (r: seq<Track>)
    ensures |r| <= |ts|
    ensures forall i :: 0 <= i < |r| ==> Keep(r[i], current)
    decreases |ts|
  {
    if ts == [] then []
    else
      var last := ts[|ts| - 1];
      var rest := Prune(ts[..|ts| - 1], current);
      if Keep(last, current) then rest + [last] else rest
  }

  // ---------------------------------------------------------------------
  // One call of the tracker and one frame

  /** One tracker call: age every track, process the detections, prune. */
  function Update(s: CounterState, entryLine: int, ps: seq<Pos>): (r: Run)
    ensures |r.ids| == |ps| && |r.crossings| == |ps|
    ensures forall i :: 0 <= i < |r.state.tracks| ==> Keep(r.state.tracks[i], Elems(r.ids))
  {
    var o := ObserveAll(s.(tracks := AgeAll(s.tracks)), entryLine, ps);
    o.(state := o.state.(tracks := Prune(o.state.tracks, Elems(o.ids))))
  }

  /** Frames are processed only when the incremented frame counter is a
      multiple of PROCESS_EVERY_N_FRAMES. */
  predicate ShouldProcess(frameCount: nat)
    ensures ShouldProcess(frameCount) != ((frameCount + 1) % PROCESS_EVERY_N_FRAMES == 0)
  {
    frameCount % PROCESS_EVERY_N_FRAMES == 0
  }

  /** One frame; the detector is abstracted to at most one position. */
  function Frame(d: Door, entryLine: int, detection: Option<Pos>): (r: Door)
    ensures r.frameCount == d.frameCount + 1
    ensures !ShouldProcess(r.frameCount) ==> r.table == d.table && r.personDetected == d.personDetected
    ensures ShouldProcess(r.frameCount) ==> r.personDetected == detection.Some?
    ensures detection.None? ==> r.table == d.table
  {
    var fc := d.frameCount + 1;
    if ShouldProcess(fc) && detection.Some? then
      Door(Update(d.table, entryLine, [detection.value]).state, fc, true)
    else if ShouldProcess(fc) then
      Door(d.table, fc, false)
    else
      d.(frameCount := fc)
  }

  /** A sequence of frames, one optional detection each. */
  function Frames(d: Door, entryLine: int, detections: seq<Option<Pos>>): (r: Door)
    ensures r.frameCount == d.frameCount + |detections|
    decreases |detections|
  {
    if detections == [] then d
    else Frame(Frames(d, entryLine, detections[..|detections| - 1]), entryLine,
               detections[|detections| - 1])
  }

  /** Number of occurrences of c in cs. */
  function Count(cs: seq<Crossing>, c: Crossing): nat
    decreases |cs|
  {
    if cs == [] then 0
    else Count(cs[..|cs| - 1], c) + (if cs[|cs| - 1] == c then 1 else 0)
  }
}
