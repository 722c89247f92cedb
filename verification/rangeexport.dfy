/**
 The range export (`do_extract`): after a directory is chosen, the progress bar is set to
 `0..total`, the shared decoder is moved once to the start frame, and each of the `total`
 iterations reads one frame, writes it (as decoded, without resampling) to
 `frame_{index:06d}.tiff` and advances the bar to `i + 1`, then reads and drops
 `interval - 1` frames. A read that fails writes nothing and leaves the bar alone, but the
 frames after it are still dropped, so the labels stay aligned with the stream.
 */
module RangeExport {
  import opened Wrappers
  import opened Media
  import opened FileNames
  import opened RangePlan

  /** What iteration i of the loop adds to the effect log, judged by random access to the stream. */
  function IterationEffects(stream: seq<Option<Frame>>, dir: string, req: ExportRequest, i: nat): seq<Effect>
  {
    var k := PlannedIndex(req, i);
    match FrameAt(stream, k)
    case Some(f) => [WriteTiff(JoinPath(dir, FrameFileName(k)), Raw(f), PrintTiff), SetProgress(i + 1)]
    case None => []
  }

  /** The effects of the first n iterations. */
  function LoopEffects(stream: seq<Option<Frame>>, dir: string, req: ExportRequest, n: nat): seq<Effect>
  {
    if n == 0 then [] else LoopEffects(stream, dir, req, n - 1) + IterationEffects(stream, dir, req, n - 1)
  }

  /** The whole export: nothing if the directory dialog was cancelled. */
  function ExportEffects(stream: seq<Option<Frame>>, dir: string, req: ExportRequest): seq<Effect>
    requires Valid(req)
  {
    if dir == "" then []
    else [SetRange(0, FrameCount(req)), SetProgress(0)]
         + LoopEffects(stream, dir, req, |Planned(req)|) + [CloseDialog]
  }

  /**
   The decode-and-discard loop itself, on the sequential decoder. Its log equals the one
   obtained by random access to each planned frame: at the top of iteration i the cursor
   stands exactly on frame `start + i * interval`, the frame the file is named after.
   */
  method Extract(cap: Decoder, dir: string, req: ExportRequest) returns (effects: seq<Effect>, d: Decoder)
    requires Valid(req)
    ensures effects == ExportEffects(cap.stream, dir, req)
    ensures d.stream == cap.stream
    ensures dir == "" ==> d == cap
    ensures dir != "" ==> d.pos == PlannedIndex(req, |Planned(req)|)
  {
    d := cap;
    if dir == "" {
      effects := [];
      return;
    }
    var total := FrameCount(req);
    effects := [SetRange(0, total), SetProgress(0)];
    d := Seek(d, req.start);
    var i := 0;
    while i < total
      invariant 0 <= i && (total > 0 ==> i <= total) && (total <= 0 ==> i == 0)
      invariant d.stream == cap.stream
      invariant d.pos == PlannedIndex(req, i)
      invariant effects == [SetRange(0, total), SetProgress(0)] + LoopEffects(cap.stream, dir, req, i)
    {
      var r := Read(d);
      var got := r.0;
      d := r.1;
      if got.Some? {
        var k := PlannedIndex(req, i);
        effects := effects + [WriteTiff(JoinPath(dir, FrameFileName(k)), Raw(got.value), PrintTiff), SetProgress(i + 1)];
      }
      var skipped := 0;
      while skipped < req.interval - 1
        invariant 0 <= skipped <= req.interval - 1
        invariant d.stream == cap.stream
        invariant d.pos == PlannedIndex(req, i) + 1 + skipped
      {
        d := Read(d).1;
        skipped := skipped + 1;
      }
      assert PlannedIndex(req, i + 1) == PlannedIndex(req, i) + req.interval;
      i := i + 1;
    }
    effects := effects + [CloseDialog];
  }

  /** The naming the range export uses: frame k goes to `{dir}/frame_{k:06d}.tiff`. */
  function FrameNaming(dir: string): nat -> string
  {
    (k: nat) => JoinPath(dir, FrameFileName(k))
  }

  /**
   The first n iterations write the paths of the frames among the first n of `plan` that
   decode; `plan` is any list agreeing with the planned labels that far.
   */
  lemma {:induction false} LoopPaths(stream: seq<Option<Frame>>, dir: string, req: ExportRequest,
                                     plan: seq<nat>, n: nat)
    requires n <= |plan| && forall i :: 0 <= i < n ==> plan[i] == PlannedIndex(req, i)
    ensures Paths(LoopEffects(stream, dir, req, n)) == PathsFor(FrameNaming(dir), Decodable(stream, plan[..n]))
  {
    if n > 0 {
      var prev := LoopEffects(stream, dir, req, n - 1);
      var it := IterationEffects(stream, dir, req, n - 1);
      var k := PlannedIndex(req, n - 1);
      var before := Decodable(stream, plan[..n - 1]);
      assert Paths(prev) == PathsFor(FrameNaming(dir), before) by {
        LoopPaths(stream, dir, req, plan, n - 1);
      }
      assert Paths(LoopEffects(stream, dir, req, n)) == Paths(prev) + Paths(it) by {
        PathsAppend(prev, it);
      }
      DecodableSnoc(stream, plan, n);
      IterationPaths(stream, dir, req, n - 1);
      PathsStep(FrameNaming(dir), before, k, FrameAt(stream, k).Some?, prev, it, LoopEffects(stream, dir, req, n));
    }
  }

  lemma {:induction false} IterationPaths(stream: seq<Option<Frame>>, dir: string, req: ExportRequest, i: nat)
    ensures var k := PlannedIndex(req, i);
            Paths(IterationEffects(stream, dir, req, i))
            == if FrameAt(stream, k).Some? then [FrameNaming(dir)(k)] else []
  {
    var k := PlannedIndex(req, i);
    assert FrameNaming(dir)(k) == JoinPath(dir, FrameFileName(k));
    var it := IterationEffects(stream, dir, req, i);
    if FrameAt(stream, k).Some? {
      assert it[1..] == [SetProgress(i + 1)];
      assert Paths(it[1..]) == [];
    }
  }

  /** The files written are named after the planned frames that decode, one each, in visiting order. */
  lemma {:induction false} ExportPaths(stream: seq<Option<Frame>>, dir: string, req: ExportRequest)
    requires Valid(req) && dir != ""
    ensures Paths(ExportEffects(stream, dir, req)) == PathsFor(FrameNaming(dir), Decodable(stream, Planned(req)))
  {
    var n := |Planned(req)|;
    var loop := LoopEffects(stream, dir, req, n);
    LoopPaths(stream, dir, req, Planned(req), n);
    assert Planned(req)[..n] == Planned(req);
    var head: seq<Effect> := [SetRange(0, FrameCount(req)), SetProgress(0)];
    assert Paths(head) == [];
    assert Paths([CloseDialog]) == [];
    PathsAppend(head, loop);
    PathsAppend(head + loop, [CloseDialog]);
    assert ExportEffects(stream, dir, req) == head + loop + [CloseDialog];
  }

  /**
   When every planned frame decodes, the export writes exactly `FrameCount` files, named after
   `start, start + interval, ...` in that order.
   */
  lemma {:induction false} ExportPathsAllDecodable(stream: seq<Option<Frame>>, dir: string, req: ExportRequest)
    requires Valid(req) && dir != ""
    requires forall k :: k in Planned(req) ==> FrameAt(stream, k).Some?
    ensures Paths(ExportEffects(stream, dir, req)) == PathsFor(FrameNaming(dir), Planned(req))
  {
    ExportPaths(stream, dir, req);
    DecodableAll(stream, Planned(req));
  }

  /** A planned frame that fails to decode has no file: no other frame's file bears its name. */
  lemma {:induction false} FailedFrameHasNoFile(stream: seq<Option<Frame>>, dir: string, req: ExportRequest, k: nat)
    requires Valid(req) && dir != ""
    requires FrameAt(stream, k).None?
    ensures JoinPath(dir, FrameFileName(k)) !in Paths(ExportEffects(stream, dir, req))
  {
    ExportPaths(stream, dir, req);
    var ks := Decodable(stream, Planned(req));
    forall j | 0 <= j < |ks|
      ensures JoinPath(dir, FrameFileName(ks[j])) != JoinPath(dir, FrameFileName(k))
    {
      assert ks[j] in ks;
      FramePathInjective(dir, ks[j], k);
    }
  }

  lemma {:induction false} FramePathInjective(dir: string, a: nat, b: nat)
    ensures JoinPath(dir, FrameFileName(a)) == JoinPath(dir, FrameFileName(b)) ==> a == b
  {
    if JoinPath(dir, FrameFileName(a)) == JoinPath(dir, FrameFileName(b)) {
      JoinPathInjective(dir, FrameFileName(a), FrameFileName(b));
      FrameFileNameInjective(a, b);
    }
  }

  /**
   Every file written holds the raw decoded frame whose index its name carries (no resampling,
   fixed TIFF options), and every progress value is the count of an iteration, so it never
   passes the bar's maximum of `FrameCount`.
   */
  lemma {:induction false} LoopEffectsSound(stream: seq<Option<Frame>>, dir: string, req: ExportRequest, n: nat)
    ensures forall e :: e in LoopEffects(stream, dir, req, n) && e.SetProgress? ==> 1 <= e.value <= n
    ensures forall e :: e in LoopEffects(stream, dir, req, n) ==> e.SetProgress? || e.WriteTiff?
    ensures forall e :: e in LoopEffects(stream, dir, req, n) && e.WriteTiff? ==>
              && e.picture.Raw? && e.options == PrintTiff
              && exists i :: 0 <= i < n && FrameAt(stream, PlannedIndex(req, i)) == Some(e.picture.frame)
                              && e.path == JoinPath(dir, FrameFileName(PlannedIndex(req, i)))
  {
    if n > 0 {
      LoopEffectsSound(stream, dir, req, n - 1);
      var it := IterationEffects(stream, dir, req, n - 1);
      forall e | e in it && e.WriteTiff?
        ensures exists i :: 0 <= i < n && FrameAt(stream, PlannedIndex(req, i)) == Some(e.picture.frame)
                              && e.path == JoinPath(dir, FrameFileName(PlannedIndex(req, i)))
      {
        assert FrameAt(stream, PlannedIndex(req, n - 1)) == Some(e.picture.frame);
      }
    }
  }

  /**
   The progress bar reaches i + 1 exactly when planned frame i decodes: a frame that fails
   leaves no progress value behind.
   */
  lemma {:induction false} ProgressIffDecodes(stream: seq<Option<Frame>>, dir: string, req: ExportRequest,
                                              n: nat, i: nat)
    requires i < n
    ensures SetProgress(i + 1) in LoopEffects(stream, dir, req, n)
            <==> FrameAt(stream, PlannedIndex(req, i)).Some?
  {
    var prev := LoopEffects(stream, dir, req, n - 1);
    var it := IterationEffects(stream, dir, req, n - 1);
    assert LoopEffects(stream, dir, req, n) == prev + it;
    if i == n - 1 {
      LoopEffectsSound(stream, dir, req, n - 1);
      assert SetProgress(i + 1) !in prev;
    } else {
      ProgressIffDecodes(stream, dir, req, n - 1, i);
      assert SetProgress(i + 1) !in it;
    }
  }

  /**
   Apart from the initial zero, every progress value of an export lies in `1..FrameCount`, the
   range the bar was given.
   */
  lemma {:induction false} ExportProgressBounded(stream: seq<Option<Frame>>, dir: string, req: ExportRequest)
    requires Valid(req)
    ensures forall e :: e in ExportEffects(stream, dir, req) && e.SetProgress? ==>
              e.value == 0 || 1 <= e.value <= FrameCount(req)
  {
    LoopEffectsSound(stream, dir, req, |Planned(req)|);
  }
}
