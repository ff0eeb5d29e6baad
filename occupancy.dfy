/** The lecture hall monitor: occupancy over all doors, each door counted by
    its own PeopleCounter. */
module Occupancy {
  import opened TrackSpec
  import opened PeopleCounting

  /** The two counters of one door, as read by the monitor. */
  datatype DoorTotals = DoorTotals(entries: nat, exits: nat)

  /** All entries over the doors; no door's entries exceed it. */
  function TotalIn(ds: seq<DoorTotals>): (n: nat)
    ensures forall i :: 0 <= i < |ds| ==> ds[i].entries <= n
    decreases |ds|
  {
    if ds == [] then 0
    else
      assert forall i :: 1 <= i < |ds| ==> ds[i] == ds[1..][i - 1];
      ds[0].entries + TotalIn(ds[1..])
  }

  /** All exits over the doors; no door's exits exceed it. */
  function TotalOut(ds: seq<DoorTotals>): (n: nat)
    ensures forall i :: 0 <= i < |ds| ==> ds[i].exits <= n
    decreases |ds|
  {
    if ds == [] then 0
    else
      assert forall i :: 1 <= i < |ds| ==> ds[i] == ds[1..][i - 1];
      ds[0].exits + TotalOut(ds[1..])
  }

  /** Occupancy as the dashboard computes it: all entries minus all exits,
      with no floor at zero. */
  function NetOccupancy(ds: seq<DoorTotals>): (o: int)
    ensures o <= TotalIn(ds) && -o <= TotalOut(ds)
    ensures TotalOut(ds) == 0 ==> o == TotalIn(ds)
  {
    TotalIn(ds) - TotalOut(ds)
  }

  /** Occupancy as the status line computes it: the sum of each door's
      entries minus exits. */
  function NetSum(ds: seq<DoorTotals>): (o: int)
    ensures o <= TotalIn(ds) && -o <= TotalOut(ds)
    decreases |ds|
  {
    if ds == [] then 0 else (ds[0].entries - ds[0].exits) + NetSum(ds[1..])
  }

  /** Both ways of computing occupancy agree for every set of doors. */
  lemma {:induction false} OccupancyIsNetSum(ds: seq<DoorTotals>)
    ensures NetOccupancy(ds) == NetSum(ds)
    decreases |ds|
  {
    if ds != [] {
      OccupancyIsNetSum(ds[1..]);
    }
  }

  /** Three doors: occupancy is the entry sum minus the exit sum, negative
      values included. */
  lemma ThreeDoors(e1: nat, x1: nat, e2: nat, x2: nat, e3: nat, x3: nat)
    ensures var ds := [DoorTotals(e1, x1), DoorTotals(e2, x2), DoorTotals(e3, x3)];
      && TotalIn(ds) == e1 + e2 + e3
      && TotalOut(ds) == x1 + x2 + x3
      && NetOccupancy(ds) == (e1 + e2 + e3) - (x1 + x2 + x3)
      && NetSum(ds) == NetOccupancy(ds)
  {
    var ds := [DoorTotals(e1, x1), DoorTotals(e2, x2), DoorTotals(e3, x3)];
    assert ds[1..] == [DoorTotals(e2, x2), DoorTotals(e3, x3)];
    assert ds[1..][1..] == [DoorTotals(e3, x3)];
    assert ds[1..][1..][1..] == [];
    assert TotalIn(ds[1..][1..]) == e3 && TotalOut(ds[1..][1..]) == x3;
    assert TotalIn(ds[1..]) == e2 + e3 && TotalOut(ds[1..]) == x2 + x3;
    OccupancyIsNetSum(ds);
  }

  /** Three entries at one door, two at a second and one exit at a third. */
  lemma WorkedExample()
    ensures TotalIn([DoorTotals(3, 0), DoorTotals(2, 0), DoorTotals(0, 1)]) == 5
    ensures TotalOut([DoorTotals(3, 0), DoorTotals(2, 0), DoorTotals(0, 1)]) == 1
    ensures NetOccupancy([DoorTotals(3, 0), DoorTotals(2, 0), DoorTotals(0, 1)]) == 4
  {
    ThreeDoors(3, 0, 2, 0, 0, 1);
  }

  /** Occupancy is not clamped: more exits than entries give a negative figure. */
  lemma NegativeOccupancy(ds: seq<DoorTotals>)
    requires TotalOut(ds) > TotalIn(ds)
    ensures NetOccupancy(ds) < 0
  {
  }

  /** If no door's counters went down, neither total went down. */
  lemma {:induction false} TotalsMonotone(before: seq<DoorTotals>, after: seq<DoorTotals>)
    requires |before| == |after|
    requires forall i :: 0 <= i < |before| ==>
      before[i].entries <= after[i].entries && before[i].exits <= after[i].exits
    ensures TotalIn(before) <= TotalIn(after) && TotalOut(before) <= TotalOut(after)
    decreases |before|
  {
    if before != [] {
      TotalsMonotone(before[1..], after[1..]);
    }
  }

  /** Doors whose counters are all zero give zero totals. */
  lemma {:induction false} ZeroTotals(ds: seq<DoorTotals>)
    requires forall i :: 0 <= i < |ds| ==> ds[i] == DoorTotals(0, 0)
    ensures TotalIn(ds) == 0 && TotalOut(ds) == 0 && NetOccupancy(ds) == 0
    decreases |ds|
  {
    if ds != [] {
      ZeroTotals(ds[1..]);
    }
  }

  /** The counters of each door, in order. */
  function TotalsOf(cs: seq<PeopleCounter>): (ds: seq<DoorTotals>)
    reads cs
    ensures |ds| == |cs|
    ensures forall i :: 0 <= i < |cs| ==> ds[i] == DoorTotals(cs[i].entries, cs[i].exits)
    decreases |cs|
  {
    if cs == [] then [] else [DoorTotals(cs[0].entries, cs[0].exits)] + TotalsOf(cs[1..])
  }

  class LectureHallMonitor {
    /** The counters of the doors whose camera connected. */
    var counters: seq<PeopleCounter>

    constructor (counters: seq<PeopleCounter>)
      ensures this.counters == counters
    {
      this.counters := counters;
    }

    /** Total entries, total exits and occupancy over all doors. */
    function Dashboard(): (r: (nat, nat, int))
      reads this, counters
      ensures r.0 == TotalIn(TotalsOf(counters)) && r.1 == TotalOut(TotalsOf(counters))
      ensures r.2 == r.0 - r.1
      ensures r.2 == NetSum(TotalsOf(counters))
    {
      var ds := TotalsOf(counters);
      OccupancyIsNetSum(ds);
      (TotalIn(ds), TotalOut(ds), NetOccupancy(ds))
    }

    /** The reset key: every door's counting state goes back to empty. */
    method ResetAll()
      modifies counters
      ensures forall c :: c in counters ==> c.Table() == EmptyTable && c.Valid()
      ensures forall c :: c in counters ==>
        c.frameCount == old(c.frameCount) && c.personDetected == old(c.personDetected)
      ensures Dashboard() == (0, 0, 0)
    {
      var i := 0;
      while i < |counters|
        invariant i <= |counters|
        invariant forall j :: 0 <= j < i ==> counters[j].Table() == EmptyTable
        invariant forall c :: c in counters ==>
          c.frameCount == old(c.frameCount) && c.personDetected == old(c.personDetected)
      {
        counters[i].Reset();
        i := i + 1;
      }
      ZeroTotals(TotalsOf(counters));
    }
  }
}
