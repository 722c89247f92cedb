/**
 The bookmark export (`export_bookmarks`). With no video or no bookmarks it only shows a
 message. Otherwise, after a directory is chosen, a progress dialog with range
 `0..len(bookmarks)` is shown and the bookmarks are visited in list order: before each one
 the dialog is polled and the loop stops at the first cancel seen; the decoder seeks to the
 bookmark and reads one frame; a frame that decodes is resampled to print size and written
 to `bookmark_frame_{index:06d}_{HH-MM-SS}.tiff`; the dialog then advances to `i + 1`
 whether or not a file was written. Finally the dialog closes and a completion message is
 shown, also after a cancel.
 */
module BookmarkExport {
  import opened Wrappers
  import opened Media
  import opened Timecode
  import opened FileNames
  import opened Scaling
  import opened Bookmarks

  /** Whether the poll before iteration i finds the dialog cancelled. */
  predicate Cancelled(polls: seq<bool>, i: nat)
  {
    i < |polls| && polls[i]
  }

  /** How many of n bookmarks are visited when the loop breaks at the first cancel seen. */
  function Visited(polls: seq<bool>, n: nat): (k: nat)
    ensures k <= n
    ensures forall i :: 0 <= i < k ==> !Cancelled(polls, i)
    ensures k < n ==> Cancelled(polls, k)
  {
    FirstCancel(polls, 0, n)
  }

  function FirstCancel(polls: seq<bool>, from: nat, n: nat): (k: nat)
    requires from <= n
    ensures from <= k <= n
    ensures forall i :: from <= i < k ==> !Cancelled(polls, i)
    ensures k < n ==> Cancelled(polls, k)
    decreases n - from
  {
    if from == n || Cancelled(polls, from) then from else FirstCancel(polls, from + 1, n)
  }

  function BookmarkPath(dir: string, b: nat, fps: FrameRate): string
  {
    JoinPath(dir, BookmarkFileName(b, fps))
  }

  /** The naming the export uses: bookmark b goes to `{dir}/bookmark_frame_..._{time}.tiff`. */
  function NamingIn(dir: string, fps: FrameRate): nat -> string
  {
    (b: nat) => BookmarkPath(dir, b, fps)
  }

  /** Seek to bookmark b, read one frame, and write it under `path(b)` if the read succeeded. */
  function Written(cap: Decoder, path: nat -> string, b: nat): seq<Effect>
  {
    match Read(Seek(cap, b)).0
    case Some(f) => [WriteTiff(path(b), Resampled(f), PrintTiff)]
    case None => []
  }

  /** Iteration i: the write for bookmark i, then the dialog advances to i + 1. */
  function IterationEffects(cap: Decoder, path: nat -> string, bookmarks: seq<nat>, i: nat): seq<Effect>
    requires i < |bookmarks|
  {
    Written(cap, path, bookmarks[i]) + [SetProgress(i + 1)]
  }

  lemma {:induction false} IterationPaths(cap: Decoder, path: nat -> string, bookmarks: seq<nat>, i: nat)
    requires i < |bookmarks|
    ensures Paths(IterationEffects(cap, path, bookmarks, i))
            == if FrameAt(cap.stream, bookmarks[i]).Some? then [path(bookmarks[i])] else []
  {
    var w := Written(cap, path, bookmarks[i]);
    PathsAppend(w, [SetProgress(i + 1)]);
    assert Paths([SetProgress(i + 1)]) == [];
  }

  /** The effects of the first n iterations. */
  function LoopEffects(cap: Decoder, path: nat -> string, bookmarks: seq<nat>, n: nat): seq<Effect>
    requires n <= |bookmarks|
  {
    if n == 0 then []
    else LoopEffects(cap, path, bookmarks, n - 1) + IterationEffects(cap, path, bookmarks, n - 1)
  }

  /** The whole export, given whether a video is open, the chosen directory and the cancel polls. */
  function ExportEffects(loaded: bool, cap: Decoder, fps: FrameRate, bookmarks: seq<nat>,
                         dir: string, polls: seq<bool>): seq<Effect>
  {
    if bookmarks == [] || !loaded then [Notice(NothingToExport)]
    else if dir == "" then []
    else [SetRange(0, |bookmarks|)]
         + LoopEffects(cap, NamingIn(dir, fps), bookmarks, Visited(polls, |bookmarks|))
         + [CloseDialog, Notice(ExportFinished)]
  }

  lemma {:induction false} LoopPaths(cap: Decoder, path: nat -> string, bookmarks: seq<nat>, n: nat)
    requires n <= |bookmarks|
    ensures Paths(LoopEffects(cap, path, bookmarks, n)) == PathsFor(path, Decodable(cap.stream, bookmarks[..n]))
  {
    if n > 0 {
      LoopPaths(cap, path, bookmarks, n - 1);
      var it := IterationEffects(cap, path, bookmarks, n - 1);
      PathsAppend(LoopEffects(cap, path, bookmarks, n - 1), it);
      IterationPaths(cap, path, bookmarks, n - 1);
      var before := Decodable(cap.stream, bookmarks[..n - 1]);
      DecodableSnoc(cap.stream, bookmarks, n);
      PathsForSnoc(path, before, bookmarks[n - 1]);
    }
  }

  /**
   The files written are those of the bookmarks visited before the first cancel whose frames
   decode, one each, in list order, each named after its bookmark.
   */
  lemma {:induction false} ExportPaths(cap: Decoder, fps: FrameRate, bookmarks: seq<nat>, dir: string, polls: seq<bool>)
    requires bookmarks != [] && dir != ""
    ensures var k := Visited(polls, |bookmarks|);
            var written := Decodable(cap.stream, bookmarks[..k]);
            var paths := Paths(ExportEffects(true, cap, fps, bookmarks, dir, polls));
            && |paths| == |written|
            && forall j :: 0 <= j < |written| ==> paths[j] == BookmarkPath(dir, written[j], fps)
  {
    var k := Visited(polls, |bookmarks|);
    var path := NamingIn(dir, fps);
    var loop := LoopEffects(cap, path, bookmarks, k);
    var head: seq<Effect> := [SetRange(0, |bookmarks|)];
    var tail: seq<Effect> := [CloseDialog, Notice(ExportFinished)];
    assert Paths(ExportEffects(true, cap, fps, bookmarks, dir, polls))
        == PathsFor(path, Decodable(cap.stream, bookmarks[..k])) by {
      LoopPaths(cap, path, bookmarks, k);
      assert Paths(head) == [];
      assert Paths(tail) == [];
      PathsAppend(head, loop);
      PathsAppend(head + loop, tail);
      assert ExportEffects(true, cap, fps, bookmarks, dir, polls) == head + loop + tail;
    }
  }

  /** Keeping only some elements of a strictly ascending list leaves it strictly ascending. */
  lemma {:induction false} DecodableKeepsOrder(stream: seq<Option<Frame>>, ks: seq<nat>)
    requires StrictlyAscending(ks)
    ensures StrictlyAscending(Decodable(stream, ks))
  {
    if ks != [] {
      var init := ks[..|ks| - 1];
      DecodableKeepsOrder(stream, init);
      var rest := Decodable(stream, init);
      forall j | 0 <= j < |rest|
        ensures rest[j] < ks[|ks| - 1]
      {
        assert rest[j] in init;
      }
    }
  }

  /**
   For a bookmark list kept as the player keeps it (strictly ascending), the files are written
   in ascending frame order and no frame is written twice.
   */
  lemma {:induction false} ExportInAscendingOrder(cap: Decoder, fps: FrameRate, bookmarks: seq<nat>, dir: string, polls: seq<bool>)
    requires bookmarks != [] && dir != ""
    requires StrictlyAscending(bookmarks)
    ensures var k := Visited(polls, |bookmarks|);
            var written := Decodable(cap.stream, bookmarks[..k]);
            var paths := Paths(ExportEffects(true, cap, fps, bookmarks, dir, polls));
            && StrictlyAscending(written)
            && |paths| == |written|
            && forall j :: 0 <= j < |written| ==> paths[j] == BookmarkPath(dir, written[j], fps)
  {
    var k := Visited(polls, |bookmarks|);
    assert StrictlyAscending(bookmarks[..k]);
    DecodableKeepsOrder(cap.stream, bookmarks[..k]);
    ExportPaths(cap, fps, bookmarks, dir, polls);
  }

  /** The effects of one read: nothing, or one print-size write of the decoded frame to the bookmark's file. */
  lemma {:induction false} WrittenShape(cap: Decoder, path: nat -> string, b: nat)
    ensures |Written(cap, path, b)| <= 1
    ensures forall e :: e in Written(cap, path, b) ==>
              && e.WriteTiff? && e.options == PrintTiff
              && FrameAt(cap.stream, b) == Some(e.picture.frame)
              && e.picture == Resampled(e.picture.frame)
              && e.path == path(b)
  {
  }

  lemma {:induction false} IterationUnfold(cap: Decoder, path: nat -> string, bookmarks: seq<nat>, n: nat)
    requires 0 < n <= |bookmarks|
    ensures LoopEffects(cap, path, bookmarks, n)
            == LoopEffects(cap, path, bookmarks, n - 1) + (Written(cap, path, bookmarks[n - 1]) + [SetProgress(n)])
  {
  }

  /**
   The dialog values set among the effects are exactly 1..n: each of them is set, and no other
   value is.
   */
  predicate ProgressThrough(effects: seq<Effect>, n: nat)
  {
    && (forall v :: 1 <= v <= n ==> SetProgress(v) in effects)
    && (forall e :: e in effects && e.SetProgress? ==> 1 <= e.value <= n)
  }

  /** Appending a write-only block and then `SetProgress(n)` extends the progress values 1..n-1 to 1..n. */
  lemma {:induction false} ProgressSnoc(prev: seq<Effect>, w: seq<Effect>, all: seq<Effect>, n: nat)
    requires n >= 1
    requires all == prev + (w + [SetProgress(n)])
    requires forall e :: e in w ==> e.WriteTiff?
    requires ProgressThrough(prev, n - 1)
    ensures ProgressThrough(all, n)
  {
    forall v | 1 <= v <= n
      ensures SetProgress(v) in all
    {
      if v < n {
        assert SetProgress(v) in prev;
      } else {
        assert all[|all| - 1] == SetProgress(v);
      }
    }
    forall e | e in all && e.SetProgress?
      ensures 1 <= e.value <= n
    {
      if e !in prev {
        assert e in w + [SetProgress(n)];
      }
    }
  }

  /**
   Every iteration visited advances the dialog to its own count, also when its read failed,
   and the dialog never passes its maximum of `len(bookmarks)`.
   */
  lemma {:induction false} LoopProgress(cap: Decoder, path: nat -> string, bookmarks: seq<nat>, n: nat)
    requires n <= |bookmarks|
    ensures ProgressThrough(LoopEffects(cap, path, bookmarks, n), n)
  {
    if n > 0 {
      var prev := LoopEffects(cap, path, bookmarks, n - 1);
      var w := Written(cap, path, bookmarks[n - 1]);
      var all := LoopEffects(cap, path, bookmarks, n);
      assert ProgressThrough(prev, n - 1) by {
        LoopProgress(cap, path, bookmarks, n - 1);
      }
      assert all == prev + (w + [SetProgress(n)]) by {
        IterationUnfold(cap, path, bookmarks, n);
      }
      assert forall e :: e in w ==> e.WriteTiff? by {
        WrittenShape(cap, path, bookmarks[n - 1]);
      }
      ProgressSnoc(prev, w, all, n);
    }
  }

  /** The write effect e stores the print-size resample of bookmark i's frame under bookmark i's name. */
  predicate WritesBookmark(e: Effect, cap: Decoder, path: nat -> string, bookmarks: seq<nat>, i: nat)
    requires e.WriteTiff? && i < |bookmarks|
  {
    && FrameAt(cap.stream, bookmarks[i]) == Some(e.picture.frame)
    && e.picture == Resampled(e.picture.frame)
    && e.path == path(bookmarks[i])
  }

  /** Every write among the effects is a print-size TIFF of one of the first n bookmarks. */
  predicate WritesFromFirst(effects: seq<Effect>, cap: Decoder, path: nat -> string, bookmarks: seq<nat>, n: nat)
    requires n <= |bookmarks|
  {
    forall e :: e in effects && e.WriteTiff? ==>
      && e.options == PrintTiff
      && exists i :: 0 <= i < n && WritesBookmark(e, cap, path, bookmarks, i)
  }

  lemma {:induction false} WritesSnoc(prev: seq<Effect>, all: seq<Effect>, cap: Decoder, path: nat -> string, bookmarks: seq<nat>, n: nat)
    requires 0 < n <= |bookmarks|
    requires WritesFromFirst(prev, cap, path, bookmarks, n - 1)
    requires all == prev + (Written(cap, path, bookmarks[n - 1]) + [SetProgress(n)])
    ensures WritesFromFirst(all, cap, path, bookmarks, n)
  {
    var w := Written(cap, path, bookmarks[n - 1]);
    WrittenShape(cap, path, bookmarks[n - 1]);
    forall e | e in prev + (w + [SetProgress(n)]) && e.WriteTiff?
      ensures && e.options == PrintTiff
              && exists i :: 0 <= i < n && WritesBookmark(e, cap, path, bookmarks, i)
    {
      if e in prev {
        var i :| 0 <= i < n - 1 && WritesBookmark(e, cap, path, bookmarks, i);
        assert 0 <= i < n;
      } else {
        assert e in w;
        assert WritesBookmark(e, cap, path, bookmarks, n - 1);
      }
    }
  }

  /** Every file holds the print-size resample of the frame its name carries. */
  lemma {:induction false} LoopWrites(cap: Decoder, path: nat -> string, bookmarks: seq<nat>, n: nat)
    requires n <= |bookmarks|
    ensures WritesFromFirst(LoopEffects(cap, path, bookmarks, n), cap, path, bookmarks, n)
  {
    if n > 0 {
      var prev := LoopEffects(cap, path, bookmarks, n - 1);
      var all := LoopEffects(cap, path, bookmarks, n);
      assert WritesFromFirst(prev, cap, path, bookmarks, n - 1) by {
        LoopWrites(cap, path, bookmarks, n - 1);
      }
      assert all == prev + (Written(cap, path, bookmarks[n - 1]) + [SetProgress(n)]) by {
        IterationUnfold(cap, path, bookmarks, n);
      }
      WritesSnoc(prev, all, cap, path, bookmarks, n);
    }
  }

  /** Without a video or without bookmarks only the message is shown; a cancelled directory dialog does nothing. */
  lemma {:induction false} ExportGuards(loaded: bool, cap: Decoder, fps: FrameRate, bookmarks: seq<nat>, dir: string, polls: seq<bool>)
    ensures bookmarks == [] || !loaded ==>
              ExportEffects(loaded, cap, fps, bookmarks, dir, polls) == [Notice(NothingToExport)]
    ensures bookmarks != [] && loaded && dir == "" ==>
              ExportEffects(loaded, cap, fps, bookmarks, dir, polls) == []
    ensures bookmarks != [] && loaded && dir != "" ==>
              Notice(ExportFinished) in ExportEffects(loaded, cap, fps, bookmarks, dir, polls)
  {
  }
}
