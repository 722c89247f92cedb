/**
 The frame plan of a range export: from a start frame, an end frame and an interval, the
 export visits `(end - start) // interval + 1` frames labelled `start + i * interval`.
 The dialog's spin boxes keep start and end among the video's frames and the interval in
 1..1000, but nothing keeps start at or below end; an inverted range gives a count of zero
 or less and visits nothing.
 */
module RangePlan {
  import opened Arith

  datatype ExportRequest = ExportRequest(start: nat, end: nat, interval: nat)

  /** The interval spin box never goes below one. */
  predicate Valid(req: ExportRequest)
  {
    req.interval >= 1
  }

  /**
   `(end - start) // interval + 1`. Python's `//` floors; for a positive divisor that is
   exactly Dafny's `/`, also for the negative difference of an inverted range.
   */
  function FrameCount(req: ExportRequest): (n: int)
    requires Valid(req)
    ensures req.start <= req.end ==>
              n >= 1 && (n - 1) * req.interval <= req.end - req.start < n * req.interval
    ensures req.start > req.end ==> n <= 0
  {
    var diff := req.end - req.start;
    FloorBracket(diff, req.interval);
    NegativeFloor(diff, req.interval);
    diff / req.interval + 1
  }

  lemma {:induction false} NegativeFloor(diff: int, m: int)
    requires m > 0
    ensures diff < 0 ==> diff / m < 0
  {
    if diff < 0 {
      FloorBracket(diff, m);
      MulCancelLt(diff / m, 0, m);
    }
  }

  /** The label of the i-th visited frame. */
  function PlannedIndex(req: ExportRequest, i: nat): nat
  {
    req.start + i * req.interval
  }

  /** The frames the export visits, in visiting order (`range(total_frames)` of the source). */
  function Planned(req: ExportRequest): (r: seq<nat>)
    requires Valid(req)
    ensures |r| == if FrameCount(req) > 0 then FrameCount(req) else 0
    ensures forall i :: 0 <= i < |r| ==> r[i] == PlannedIndex(req, i)
  {
    var n := if FrameCount(req) > 0 then FrameCount(req) else 0;
    seq(n, i requires 0 <= i < n => PlannedIndex(req, i))
  }

  /** Visited frames lie within `[start, end]`, and the frame after the last one lies past end. */
  lemma {:induction false} PlannedWithinRange(req: ExportRequest)
    requires Valid(req)
    ensures forall k :: k in Planned(req) ==> req.start <= k <= req.end
    ensures req.start <= req.end ==> |Planned(req)| >= 1 && PlannedIndex(req, |Planned(req)|) > req.end
    ensures req.start > req.end ==> Planned(req) == []
  {
    var r := Planned(req);
    forall k | k in r
      ensures req.start <= k <= req.end
    {
      var i :| 0 <= i < |r| && r[i] == k;
      assert i * req.interval <= (|r| - 1) * req.interval by {
        MulMonotonic(i, |r| - 1, req.interval);
      }
    }
  }

  /** Visited frames are strictly increasing, so no frame is visited twice. */
  lemma {:induction false} PlannedStrictlyIncreasing(req: ExportRequest)
    requires Valid(req)
    ensures forall i, j :: 0 <= i < j < |Planned(req)| ==> Planned(req)[i] < Planned(req)[j]
  {
    forall i, j | 0 <= i < j < |Planned(req)|
      ensures Planned(req)[i] < Planned(req)[j]
    {
      MulMonotonic(i + 1, j, req.interval);
    }
  }

  /** A frame is visited exactly when it lies in `[start, end]` a whole number of intervals after start. */
  lemma {:induction false} PlannedMembership(req: ExportRequest, k: nat)
    requires Valid(req)
    ensures k in Planned(req) <==>
              req.start <= k <= req.end && (k - req.start) % req.interval == 0
  {
    if k in Planned(req) {
      PlannedMemberOnGrid(req, k);
    }
    if req.start <= k <= req.end && (k - req.start) % req.interval == 0 {
      GridMemberPlanned(req, k);
    }
  }

  lemma {:induction false} PlannedMemberOnGrid(req: ExportRequest, k: nat)
    requires Valid(req) && k in Planned(req)
    ensures req.start <= k <= req.end && (k - req.start) % req.interval == 0
  {
    var r := Planned(req);
    var i :| 0 <= i < |r| && r[i] == k;
    assert req.start <= k <= req.end by {
      PlannedWithinRange(req);
      assert k in r;
    }
    ModOfMultiple(i, req.interval);
  }

  lemma {:induction false} ModOfMultiple(i: nat, m: int)
    requires m > 0
    ensures (i * m) % m == 0
  {
    FloorExact(i, m);
    assert i * m == (i * m / m) * m + (i * m) % m;
  }

  lemma {:induction false} GridMemberPlanned(req: ExportRequest, k: nat)
    requires Valid(req)
    requires req.start <= k <= req.end && (k - req.start) % req.interval == 0
    ensures k in Planned(req)
  {
    var diff := k - req.start;
    var i := diff / req.interval;
    assert diff == i * req.interval + diff % req.interval;
    FloorMonotonic(diff, req.end - req.start, req.interval);
    var r := Planned(req);
    assert i < |r|;
    assert r[i] == PlannedIndex(req, i) == k;
  }

  /** Start 10, end 19, interval 3 visits frames 10, 13, 16 and 19. */
  lemma {:induction false} PlannedExample()
    ensures Planned(ExportRequest(10, 19, 3)) == [10, 13, 16, 19]
  {
    var req := ExportRequest(10, 19, 3);
    assert FrameCount(req) == 4;
  }
}
