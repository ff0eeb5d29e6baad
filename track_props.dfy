/** What the tracking state machine of TrackSpec guarantees. */
module TrackProps {
  import opened TrackSpec

  // ---------------------------------------------------------------------
  // Matching

  /** k is the track a detection at p should match: within the gate, no
      track closer, and every earlier track strictly farther (ties go to the
      earliest-inserted, i.e. lowest-id, track). */
  ghost predicate IsNearest(ts: seq<Track>, p: Pos, k: nat) {
    k < |ts| && SqDist(p, ts[k].position) < GATE &&
    (forall j :: 0 <= j < |ts| ==> SqDist(p, ts[k].position) <= SqDist(p, ts[j].position)) &&
    (forall j :: 0 <= j < k ==> SqDist(p, ts[k].position) < SqDist(p, ts[j].position))
  }

  /** No track lies strictly within the matching gate. */
  ghost predicate NoneInRange(ts: seq<Track>, p: Pos) {
    forall j :: 0 <= j < |ts| ==> SqDist(p, ts[j].position) >= GATE
  }

  /** What the scan has established after looking at ts[..i]. */
  ghost predicate ScanSoFar(ts: seq<Track>, p: Pos, i: nat, best: Option<nat>, bestD: int) {
    i <= |ts| &&
    match best
    case None => bestD == GATE && forall j :: 0 <= j < i ==> SqDist(p, ts[j].position) >= GATE
    case Some(b) =>
      b < i && bestD == SqDist(p, ts[b].position) && bestD < GATE &&
      (forall j :: 0 <= j < i ==> bestD <= SqDist(p, ts[j].position)) &&
      (forall j :: 0 <= j < b ==> bestD < SqDist(p, ts[j].position))
  }

  lemma {:induction false} NearestFromCorrect(ts: seq<Track>, p: Pos, i: nat, best: Option<nat>, bestD: int)
    requires ScanSoFar(ts, p, i, best, bestD)
    ensures NearestFrom(ts, p, i, best, bestD).None? ==> NoneInRange(ts, p)
    ensures NearestFrom(ts, p, i, best, bestD).Some? ==>
      IsNearest(ts, p, NearestFrom(ts, p, i, best, bestD).value)
    decreases |ts| - i
  {
    if i < |ts| {
      var d := SqDist(p, ts[i].position);
      if d < bestD {
        NearestFromCorrect(ts, p, i + 1, Some(i), d);
      } else {
        NearestFromCorrect(ts, p, i + 1, best, bestD);
      }
    }
  }

  /** Two candidates satisfying IsNearest are the same track. */
  lemma NearestUnique(ts: seq<Track>, p: Pos, k1: nat, k2: nat)
    requires IsNearest(ts, p, k1) && IsNearest(ts, p, k2)
    ensures k1 == k2
  {
  }

  /** The matching search returns k exactly when k is the nearest track
      within the gate (lowest index on ties). */
  lemma NearestMatches(ts: seq<Track>, p: Pos, k: nat)
    ensures Nearest(ts, p) == Some(k) <==> IsNearest(ts, p, k)
  {
    var r := Nearest(ts, p);
    NearestFromCorrect(ts, p, 0, None, GATE);
    if IsNearest(ts, p, k) {
      if r.Some? {
        NearestUnique(ts, p, r.value, k);
      }
    }
  }

  /** The matching search finds exactly the nearest track within the gate,
      and finds nothing exactly when no track is strictly within the gate. */
  lemma NearestCorrect(ts: seq<Track>, p: Pos)
    ensures Nearest(ts, p).None? <==> NoneInRange(ts, p)
    ensures forall k: nat :: Nearest(ts, p) == Some(k) <==> IsNearest(ts, p, k)
  {
    NearestFromCorrect(ts, p, 0, None, GATE);
    forall k: nat ensures Nearest(ts, p) == Some(k) <==> IsNearest(ts, p, k) {
      NearestMatches(ts, p, k);
    }
  }

  // ---------------------------------------------------------------------
  // One detection

  /** An unmatched detection opens a track with the old next id, its own
      side, a debounce of 999 and no missed frames; the next id grows by one
      and neither counter changes. */
  lemma ObserveNewTrack(s: CounterState, entryLine: int, p: Pos)
    requires NoneInRange(s.tracks, p)
    ensures var r := Observe(s, entryLine, p);
      && r.id == s.nextId
      && r.state.tracks == s.tracks + [Track(s.nextId, p, GetSide(entryLine, p.y), 999, 0)]
      && r.state.nextId == s.nextId + 1
      && r.crossing == NoCrossing
      && r.state.entries == s.entries && r.state.exits == s.exits
  {
    NearestCorrect(s.tracks, p);
  }

  /** With a valid table, an opened track's id differs from every id still
      in the table. */
  lemma NewIdFresh(s: CounterState, entryLine: int, p: Pos)
    requires ValidState(s)
    requires Nearest(s.tracks, p).None?
    ensures forall t :: t in s.tracks ==> t.id != Observe(s, entryLine, p).id
  {
  }

  /** The crossing rule for a matched detection: an entry is counted exactly
      when the track goes top to bottom with the debounce elapsed, an exit
      exactly when it goes bottom to top with the debounce elapsed; at most
      one counter rises, by one, and a counted crossing resets the track's
      debounce. Position and side are overwritten in every case and the
      track is marked seen. */
  lemma ObserveMatched(s: CounterState, entryLine: int, p: Pos, k: nat)
    requires IsNearest(s.tracks, p, k)
    ensures var r := Observe(s, entryLine, p);
      var t := s.tracks[k];
      var side := GetSide(entryLine, p.y);
      var counted := t.lastSide != side && t.framesSinceCrossing >= DEBOUNCE_FRAMES;
      && r.id == t.id
      && r.state.nextId == s.nextId
      && (r.state.entries == s.entries + 1 <==> counted && t.lastSide == Top && side == Bottom)
      && (r.state.exits == s.exits + 1 <==> counted && t.lastSide == Bottom && side == Top)
      && (r.state.entries == s.entries || r.state.exits == s.exits)
      && s.entries <= r.state.entries <= s.entries + 1
      && s.exits <= r.state.exits <= s.exits + 1
      && |r.state.tracks| == |s.tracks|
      && r.state.tracks[k] == t.(position := p, lastSide := side, framesNotSeen := 0,
                                 framesSinceCrossing := if counted then 0 else t.framesSinceCrossing)
      && (forall j :: 0 <= j < |s.tracks| && j != k ==> r.state.tracks[j] == s.tracks[j])
  {
    NearestCorrect(s.tracks, p);
  }

  /** A side change within the debounce window is dropped: no counter
      changes and the debounce is not reset, but side and position are still
      overwritten. */
  lemma ObserveDebouncedFlip(s: CounterState, entryLine: int, p: Pos, k: nat)
    requires IsNearest(s.tracks, p, k)
    requires s.tracks[k].lastSide != GetSide(entryLine, p.y)
    requires s.tracks[k].framesSinceCrossing < DEBOUNCE_FRAMES
    ensures var r := Observe(s, entryLine, p);
      && r.crossing == NoCrossing
      && r.state.entries == s.entries && r.state.exits == s.exits
      && r.state.tracks[k].framesSinceCrossing == s.tracks[k].framesSinceCrossing
      && r.state.tracks[k].lastSide == GetSide(entryLine, p.y)
      && r.state.tracks[k].position == p
  {
    NearestCorrect(s.tracks, p);
  }

  /** The counters move exactly with the reported crossing. */
  lemma ObserveCounts(s: CounterState, entryLine: int, p: Pos)
    ensures var r := Observe(s, entryLine, p);
      && r.state.entries == s.entries + (if r.crossing == Entry then 1 else 0)
      && r.state.exits == s.exits + (if r.crossing == Exit then 1 else 0)
  {
  }

  /** A track whose id is not the detection's is carried over unchanged. */
  lemma ObserveKeepsOthers(s: CounterState, entryLine: int, p: Pos, u: Track)
    requires u in s.tracks
    requires u.id != Observe(s, entryLine, p).id
    ensures u in Observe(s, entryLine, p).state.tracks
  {
    var r := Observe(s, entryLine, p);
    var j :| 0 <= j < |s.tracks| && s.tracks[j] == u;
    match Nearest(s.tracks, p)
    case None =>
      assert r.state.tracks[j] == u;
    case Some(k) =>
      assert j != k;
      assert r.state.tracks[j] == u;
  }

  /** After a detection the table holds a track with the detection's id,
      at the detected position, marked seen in this frame. */
  lemma ObserveTarget(s: CounterState, entryLine: int, p: Pos)
    ensures var r := Observe(s, entryLine, p);
      exists t :: t in r.state.tracks && t.id == r.id && t.position == p && t.framesNotSeen == 0
  {
    var r := Observe(s, entryLine, p);
    match Nearest(s.tracks, p)
    case None =>
      assert r.state.tracks[|s.tracks|] in r.state.tracks;
    case Some(k) =>
      assert r.state.tracks[k] in r.state.tracks;
  }

  // ---------------------------------------------------------------------
  // A batch of detections

  /** Each counter grows by exactly the number of crossings of its kind. */
  lemma {:induction false} ObserveAllCounts(s: CounterState, entryLine: int, ps: seq<Pos>)
    ensures var r := ObserveAll(s, entryLine, ps);
      && r.state.entries == s.entries + Count(r.crossings, Entry)
      && r.state.exits == s.exits + Count(r.crossings, Exit)
    decreases |ps|
  {
    if ps != [] {
      var r := ObserveAll(s, entryLine, ps);
      var prev := ObserveAll(s, entryLine, ps[..|ps| - 1]);
      ObserveAllCounts(s, entryLine, ps[..|ps| - 1]);
      ObserveCounts(prev.state, entryLine, ps[|ps| - 1]);
      assert r.crossings[..|r.crossings| - 1] == prev.crossings;
    }
  }

  /** A track none of the detections was given to survives the batch unchanged. */
  lemma {:induction false} ObserveAllKeepsUnmatched(s: CounterState, entryLine: int, ps: seq<Pos>, u: Track)
    requires u in s.tracks
    requires u.id !in ObserveAll(s, entryLine, ps).ids
    ensures u in ObserveAll(s, entryLine, ps).state.tracks
    decreases |ps|
  {
    if ps != [] {
      var prev := ObserveAll(s, entryLine, ps[..|ps| - 1]);
      var r := ObserveAll(s, entryLine, ps);
      assert r.ids == prev.ids + [Observe(prev.state, entryLine, ps[|ps| - 1]).id];
      ObserveAllKeepsUnmatched(s, entryLine, ps[..|ps| - 1], u);
      ObserveKeepsOthers(prev.state, entryLine, ps[|ps| - 1], u);
    }
  }

  /** The last detection given a certain id leaves that track at its
      position, marked seen. */
  lemma {:induction false} ObserveAllLastMatch(s: CounterState, entryLine: int, ps: seq<Pos>, i: nat)
    requires i < |ps|
    requires forall j :: i < j < |ps| ==> ObserveAll(s, entryLine, ps).ids[j] != ObserveAll(s, entryLine, ps).ids[i]
    ensures var r := ObserveAll(s, entryLine, ps);
      exists t :: t in r.state.tracks && t.id == r.ids[i] && t.position == ps[i] && t.framesNotSeen == 0
    decreases |ps|
  {
    var n := |ps| - 1;
    var prev := ObserveAll(s, entryLine, ps[..n]);
    var st := Observe(prev.state, entryLine, ps[n]);
    var r := ObserveAll(s, entryLine, ps);
    assert r.state == st.state;
    assert r.ids == prev.ids + [st.id];
    if i == n {
      ObserveTarget(prev.state, entryLine, ps[n]);
    } else {
      assert r.ids[i] == prev.ids[i];
      forall j | i < j < n ensures prev.ids[j] != prev.ids[i] {
        assert r.ids[j] == prev.ids[j];
      }
      ObserveAllLastMatch(s, entryLine, ps[..n], i);
      var t :| t in prev.state.tracks && t.id == prev.ids[i] && t.position == ps[..n][i] && t.framesNotSeen == 0;
      assert r.ids[n] == st.id;
      ObserveKeepsOthers(prev.state, entryLine, ps[n], t);
      assert t in r.state.tracks && t.id == r.ids[i] && t.position == ps[i];
    }
  }

  // ---------------------------------------------------------------------
  // Pruning

  /** Pruning keeps exactly the tracks that were seen in this call or have
      been missing for fewer than MAX_FRAMES_NOT_SEEN frames, and removes
      no other track. */
  lemma {:induction false} PruneMembers(ts: seq<Track>, current: set<nat>)
    ensures forall t :: t in Prune(ts, current) <==> t in ts && Keep(t, current)
    decreases |ts|
  {
    if ts != [] {
      var m := |ts| - 1;
      PruneMembers(ts[..m], current);
      assert ts == ts[..m] + [ts[m]];
    }
  }

  /** Pruning keeps ids increasing and below the next id. */
  lemma {:induction false} PruneValid(ts: seq<Track>, current: set<nat>, n: nat)
    requires IdsIncreasing(ts) && IdsBelow(ts, n)
    ensures IdsIncreasing(Prune(ts, current)) && IdsBelow(Prune(ts, current), n)
    decreases |ts|
  {
    if ts != [] {
      var m := |ts| - 1;
      var rest := Prune(ts[..m], current);
      PruneValid(ts[..m], current, n);
      PruneMembers(ts[..m], current);
      if Keep(ts[m], current) {
        forall i | 0 <= i < |rest| ensures rest[i].id < ts[m].id {
          assert rest[i] in ts[..m];
          var q :| 0 <= q < m && ts[..m][q] == rest[i];
        }
      }
    }
  }

  /** Pruning a longer prefix adds at most the next track. */
  lemma PruneStep(ts: seq<Track>, i: nat, current: set<nat>)
    requires i < |ts|
    ensures Prune(ts[..i + 1], current) ==
      Prune(ts[..i], current) + (if Keep(ts[i], current) then [ts[i]] else [])
  {
    assert ts[..i + 1][..i] == ts[..i];
  }

  /** Cutting a table around one element. */
  lemma SplitAt(a: seq<Track>, x: Track, b: seq<Track>)
    ensures var s := a + ([x] + b);
      && s[|a|] == x && s[..|a|] == a && s[|a| + 1..] == b
      && s == (a + [x]) + b
  {
  }

  // ---------------------------------------------------------------------
  // One tracker call

  lemma UpdateValid(s: CounterState, entryLine: int, ps: seq<Pos>)
    requires ValidState(s)
    ensures ValidState(Update(s, entryLine, ps).state)
  {
    var aged := s.(tracks := AgeAll(s.tracks));
    assert ValidState(aged);
    var o := ObserveAll(aged, entryLine, ps);
    PruneValid(o.state.tracks, Elems(o.ids), o.state.nextId);
  }

  /** Counters grow by exactly the crossings reported, hence never decrease;
      each detection reports at most one crossing. */
  lemma UpdateCounts(s: CounterState, entryLine: int, ps: seq<Pos>)
    ensures var r := Update(s, entryLine, ps);
      && r.state.entries == s.entries + Count(r.crossings, Entry)
      && r.state.exits == s.exits + Count(r.crossings, Exit)
      && r.state.entries >= s.entries && r.state.exits >= s.exits
  {
    ObserveAllCounts(s.(tracks := AgeAll(s.tracks)), entryLine, ps);
  }

  /** A track that no detection matched is aged by one frame on both
      counters, and it is kept exactly when its missed-frame count stays
      below MAX_FRAMES_NOT_SEEN. */
  lemma UpdateUnmatched(s: CounterState, entryLine: int, ps: seq<Pos>, t: Track)
    requires t in s.tracks
    requires t.id !in Update(s, entryLine, ps).ids
    ensures Aged(t) in Update(s, entryLine, ps).state.tracks <==> t.framesNotSeen + 1 < MAX_FRAMES_NOT_SEEN
  {
    var aged := s.(tracks := AgeAll(s.tracks));
    var j :| 0 <= j < |s.tracks| && s.tracks[j] == t;
    assert aged.tracks[j] == Aged(t);
    ObserveAllKeepsUnmatched(aged, entryLine, ps, Aged(t));
    var o := ObserveAll(aged, entryLine, ps);
    PruneMembers(o.state.tracks, Elems(o.ids));
  }

  /** Every matched track is kept, marked seen, at the position of the last
      detection matched to it, and it is the only track with that id. */
  lemma UpdateMatched(s: CounterState, entryLine: int, ps: seq<Pos>, i: nat)
    requires ValidState(s)
    requires i < |ps|
    requires forall j :: i < j < |ps| ==> Update(s, entryLine, ps).ids[j] != Update(s, entryLine, ps).ids[i]
    ensures var r := Update(s, entryLine, ps);
      && ValidState(r.state)
      && (exists t :: t in r.state.tracks && t.id == r.ids[i])
      && (forall t :: t in r.state.tracks && t.id == r.ids[i] ==> t.position == ps[i] && t.framesNotSeen == 0)
  {
    var aged := s.(tracks := AgeAll(s.tracks));
    var o := ObserveAll(aged, entryLine, ps);
    var r := Update(s, entryLine, ps);
    assert r.ids == o.ids;
    assert r.state.tracks == Prune(o.state.tracks, Elems(o.ids));
    PruneMembers(o.state.tracks, Elems(o.ids));
    ObserveAllLastMatch(aged, entryLine, ps, i);
    var t :| t in o.state.tracks && t.id == o.ids[i] && t.position == ps[i] && t.framesNotSeen == 0;
    assert Keep(t, Elems(o.ids));
    assert t in r.state.tracks;
    UpdateValid(s, entryLine, ps);
    forall u | u in r.state.tracks && u.id == r.ids[i] ensures u.position == ps[i] && u.framesNotSeen == 0 {
      SameIdSameTrack(r.state.tracks, t, u);
    }
  }

  /** A pre-prune track is removed only if it was not seen in this call and
      has been missing for at least MAX_FRAMES_NOT_SEEN frames. */
  lemma UpdatePrunesExactly(s: CounterState, entryLine: int, ps: seq<Pos>, t: Track)
    ensures var o := ObserveAll(s.(tracks := AgeAll(s.tracks)), entryLine, ps);
      t in Update(s, entryLine, ps).state.tracks <==>
        t in o.state.tracks && (t.id in o.ids || t.framesNotSeen < MAX_FRAMES_NOT_SEEN)
  {
    var o := ObserveAll(s.(tracks := AgeAll(s.tracks)), entryLine, ps);
    assert Update(s, entryLine, ps).state.tracks == Prune(o.state.tracks, Elems(o.ids));
    assert t.id in Elems(o.ids) <==> t.id in o.ids;
    PruneMembers(o.state.tracks, Elems(o.ids));
  }

  lemma SameIdSameTrack(ts: seq<Track>, t: Track, u: Track)
    requires IdsIncreasing(ts)
    requires t in ts && u in ts && t.id == u.id
    ensures t == u
  {
    var a :| 0 <= a < |ts| && ts[a] == t;
    var b :| 0 <= b < |ts| && ts[b] == u;
  }

  /** The single-detection call that a processed frame makes, with the
      crossing rule measured on the aged debounce counter: an entry is
      counted iff the matched track was on top, the detection is below the
      line and at least DEBOUNCE_FRAMES - 1 calls had passed since its last
      counted crossing before this call aged it. */
  lemma UpdateSingleCrossing(s: CounterState, entryLine: int, p: Pos, k: nat)
    requires IsNearest(AgeAll(s.tracks), p, k)
    ensures var r := Update(s, entryLine, [p]);
      var t := s.tracks[k];
      var side := GetSide(entryLine, p.y);
      && (r.state.entries == s.entries + 1 <==>
            t.lastSide == Top && side == Bottom && t.framesSinceCrossing + 1 >= DEBOUNCE_FRAMES)
      && (r.state.exits == s.exits + 1 <==>
            t.lastSide == Bottom && side == Top && t.framesSinceCrossing + 1 >= DEBOUNCE_FRAMES)
      && r.state.nextId == s.nextId
  {
    var aged := s.(tracks := AgeAll(s.tracks));
    var st := Observe(aged, entryLine, p);
    ObserveAllOne(aged, entryLine, p);
    ObserveMatched(aged, entryLine, p, k);
    var r := Update(s, entryLine, [p]);
    assert r.state.entries == st.state.entries && r.state.exits == st.state.exits;
    assert aged.tracks[k].lastSide == s.tracks[k].lastSide;
    assert aged.tracks[k].framesSinceCrossing == s.tracks[k].framesSinceCrossing + 1;
  }

  /** A lone detection far from every track opens a track and counts nothing. */
  lemma UpdateSingleNew(s: CounterState, entryLine: int, p: Pos)
    requires NoneInRange(s.tracks, p)
    ensures var r := Update(s, entryLine, [p]);
      && r.ids == [s.nextId]
      && r.state.nextId == s.nextId + 1
      && r.state.entries == s.entries && r.state.exits == s.exits
      && Track(s.nextId, p, GetSide(entryLine, p.y), 999, 0) in r.state.tracks
  {
    var aged := s.(tracks := AgeAll(s.tracks));
    assert NoneInRange(aged.tracks, p);
    ObserveAllOne(aged, entryLine, p);
    ObserveNewTrack(aged, entryLine, p);
    var o := ObserveAll(aged, entryLine, [p]);
    var created := Track(s.nextId, p, GetSide(entryLine, p.y), 999, 0);
    assert o.state.tracks[|aged.tracks|] == created;
    assert Keep(created, Elems(o.ids));
  }

  /** A batch of one detection is that detection. */
  lemma ObserveAllOne(s: CounterState, entryLine: int, p: Pos)
    ensures var st := Observe(s, entryLine, p);
      ObserveAll(s, entryLine, [p]) == Run(st.state, [st.id], [st.crossing])
  {
    assert [p][..0] == [];
  }

  // ---------------------------------------------------------------------
  // Frames

  /** Frames that are skipped by the gate (whatever they detected) or carry
      no detection leave the table, ages included, exactly as it was. */
  lemma {:induction false} IdleFramesKeepTable(d: Door, entryLine: int, detections: seq<Option<Pos>>)
    requires forall i :: 0 <= i < |detections| ==>
      detections[i].None? || !ShouldProcess(d.frameCount + i + 1)
    ensures Frames(d, entryLine, detections).table == d.table
    decreases |detections|
  {
    if detections != [] {
      IdleFramesKeepTable(d, entryLine, detections[..|detections| - 1]);
    }
  }

  /** Over any sequence of frames both counters are non-decreasing and the
      table stays valid. */
  lemma {:induction false} FramesMonotone(d: Door, entryLine: int, detections: seq<Option<Pos>>)
    requires ValidState(d.table)
    ensures var e := Frames(d, entryLine, detections);
      && ValidState(e.table)
      && e.table.entries >= d.table.entries && e.table.exits >= d.table.exits
      && e.table.nextId >= d.table.nextId
    decreases |detections|
  {
    if detections != [] {
      var prev := Frames(d, entryLine, detections[..|detections| - 1]);
      FramesMonotone(d, entryLine, detections[..|detections| - 1]);
      var det := detections[|detections| - 1];
      if det.Some? {
        UpdateCounts(prev.table, entryLine, [det.value]);
        UpdateValid(prev.table, entryLine, [det.value]);
        UpdateNextId(prev.table, entryLine, [det.value]);
      }
    }
  }

  // ---------------------------------------------------------------------
  // Fresh ids

  /** The id a detection is given is below the next id afterwards. */
  lemma ObserveIdBelow(s: CounterState, entryLine: int, p: Pos)
    requires ValidState(s)
    ensures Observe(s, entryLine, p).id < Observe(s, entryLine, p).state.nextId
  {
    match Nearest(s.tracks, p)
    case None =>
    case Some(k) =>
      assert s.tracks[k] in s.tracks;
  }

  /** Every id in ids is below n. */
  ghost predicate AllBelow(ids: seq<nat>, n: nat) {
    forall i :: 0 <= i < |ids| ==> ids[i] < n
  }

  lemma AllBelowAppend(ids: seq<nat>, id: nat, n: nat, m: nat)
    requires AllBelow(ids, n) && n <= m && id < m
    ensures AllBelow(ids + [id], m)
  {
  }

  /** Every id a batch hands out is below the new next id. */
  lemma {:induction false} ObserveAllIdsBelow(s: CounterState, entryLine: int, ps: seq<Pos>)
    requires ValidState(s)
    ensures AllBelow(ObserveAll(s, entryLine, ps).ids, ObserveAll(s, entryLine, ps).state.nextId)
    decreases |ps|
  {
    if ps != [] {
      var n := |ps| - 1;
      var prev := ObserveAll(s, entryLine, ps[..n]);
      var st := Observe(prev.state, entryLine, ps[n]);
      ObserveAllIdsBelow(s, entryLine, ps[..n]);
      ObserveIdBelow(prev.state, entryLine, ps[n]);
      AllBelowAppend(prev.ids, st.id, prev.state.nextId, st.state.nextId);
    }
  }

  /** Each detection of the batch that is given the next id of the table it
      sees (that is, one that opens a track) gets an id larger than every id
      given earlier in the batch. */
  ghost predicate OpenedAbove(s: CounterState, entryLine: int, ps: seq<Pos>) {
    var r := ObserveAll(s, entryLine, ps);
    forall i, j :: 0 <= j < i < |ps| && r.ids[i] == ObserveAll(s, entryLine, ps[..i]).state.nextId ==>
      r.ids[j] < r.ids[i]
  }

  lemma OpenedAboveStep(s: CounterState, entryLine: int, ps: seq<Pos>)
    requires ps != []
    requires OpenedAbove(s, entryLine, ps[..|ps| - 1])
    requires AllBelow(ObserveAll(s, entryLine, ps[..|ps| - 1]).ids, ObserveAll(s, entryLine, ps[..|ps| - 1]).state.nextId)
    ensures OpenedAbove(s, entryLine, ps)
  {
    var n := |ps| - 1;
    var prev := ObserveAll(s, entryLine, ps[..n]);
    var st := Observe(prev.state, entryLine, ps[n]);
    var r := ObserveAll(s, entryLine, ps);
    assert r.ids == prev.ids + [st.id];
    forall i, j | 0 <= j < i < |ps| && r.ids[i] == ObserveAll(s, entryLine, ps[..i]).state.nextId
      ensures r.ids[j] < r.ids[i]
    {
      assert r.ids[j] == prev.ids[j];
      if i < n {
        assert ps[..n][..i] == ps[..i];
        assert r.ids[i] == prev.ids[i];
      }
    }
  }

  lemma {:induction false} ObserveAllOpenedAbove(s: CounterState, entryLine: int, ps: seq<Pos>)
    requires ValidState(s)
    ensures OpenedAbove(s, entryLine, ps)
    decreases |ps|
  {
    if ps != [] {
      ObserveAllOpenedAbove(s, entryLine, ps[..|ps| - 1]);
      ObserveAllIdsBelow(s, entryLine, ps[..|ps| - 1]);
      OpenedAboveStep(s, entryLine, ps);
    }
  }

  /** Detection j of a tracker call opens a track: it is given the next id
      of the table it sees. */
  ghost predicate OpensTrack(s: CounterState, entryLine: int, ps: seq<Pos>, j: nat)
    requires j < |ps|
  {
    Update(s, entryLine, ps).ids[j] == ObserveAll(s.(tracks := AgeAll(s.tracks)), entryLine, ps[..j]).state.nextId
  }

  /** Within one tracker call every id handed out is below the new next id,
      and an opened track's id is larger than every id given before it. */
  lemma UpdateFreshIds(s: CounterState, entryLine: int, ps: seq<Pos>)
    requires ValidState(s)
    ensures var r := Update(s, entryLine, ps);
      && AllBelow(r.ids, r.state.nextId)
      && (forall i, j :: 0 <= j < i < |ps| && OpensTrack(s, entryLine, ps, i) ==> r.ids[j] < r.ids[i])
  {
    var aged := s.(tracks := AgeAll(s.tracks));
    assert ValidState(aged);
    var o := ObserveAll(aged, entryLine, ps);
    var r := Update(s, entryLine, ps);
    assert r.ids == o.ids && r.state.nextId == o.state.nextId;
    ObserveAllIdsBelow(aged, entryLine, ps);
    ObserveAllOpenedAbove(aged, entryLine, ps);
  }

  /** Ids are not reused across calls either: a track opened in the next
      call gets an id larger than every id handed out in this call and than
      every id in the table before it. */
  lemma NextCallFreshIds(s: CounterState, entryLine: int, ps: seq<Pos>, qs: seq<Pos>)
    requires ValidState(s)
    ensures var r1 := Update(s, entryLine, ps);
      var r2 := Update(r1.state, entryLine, qs);
      && (forall i, j :: 0 <= i < |ps| && 0 <= j < |qs| && OpensTrack(r1.state, entryLine, qs, j) ==>
            r1.ids[i] < r2.ids[j])
      && (forall t, j :: t in s.tracks && 0 <= j < |qs| && OpensTrack(r1.state, entryLine, qs, j) ==>
            t.id < r2.ids[j])
  {
    var r1 := Update(s, entryLine, ps);
    var r2 := Update(r1.state, entryLine, qs);
    UpdateFreshIds(s, entryLine, ps);
    UpdateNextId(s, entryLine, ps);
    var aged := r1.state.(tracks := AgeAll(r1.state.tracks));
    forall j | 0 <= j < |qs| && OpensTrack(r1.state, entryLine, qs, j)
      ensures r1.state.nextId <= r2.ids[j]
    {
      ObserveAllNextId(aged, entryLine, qs[..j]);
    }
  }

  lemma {:induction false} ObserveAllNextId(s: CounterState, entryLine: int, ps: seq<Pos>)
    ensures ObserveAll(s, entryLine, ps).state.nextId >= s.nextId
    decreases |ps|
  {
    if ps != [] {
      ObserveAllNextId(s, entryLine, ps[..|ps| - 1]);
    }
  }

  /** Ids are handed out in increasing order: the next id never goes down. */
  lemma UpdateNextId(s: CounterState, entryLine: int, ps: seq<Pos>)
    ensures Update(s, entryLine, ps).state.nextId >= s.nextId
  {
    ObserveAllNextId(s.(tracks := AgeAll(s.tracks)), entryLine, ps);
  }
}
