/**
 This module holds the opaque media values the application moves around: decoded frames,
 the pictures handed to the TIFF writer, the sequential decoder cursor, and the log of
 observable effects (progress bar updates, files written, dialogs closed, message boxes).
 Pixel content is never inspected by the application's own logic, so it is a token here.
 */
module Media {
  import opened Wrappers

  /** A pixel dimension of a decoded frame: always at least one. */
  type Extent = x: int | 1 <= x witness 1

  /** A decoded raster: its size and an opaque stand-in for its pixels. */
  datatype Frame = Frame(width: Extent, height: Extent, pixels: int)

  /** What is handed to the TIFF writer: the raw frame, or its Lanczos resample to a given size. */
  datatype Picture =
    | Raw(frame: Frame)
    | Lanczos(frame: Frame, width: Extent, height: Extent)

  /** The writer options every save path passes: no compression, inches, 300 DPI both ways. */
  datatype TiffOptions = TiffOptions(compression: int, resolutionUnit: int, xDpi: int, yDpi: int)

  const PrintTiff: TiffOptions := TiffOptions(1, 2, 300, 300)

  /** The two message boxes the bookmark export can show. */
  datatype NoticeKind = NothingToExport | ExportFinished

  /** One observable effect of an export, in the order the application produces them. */
  datatype Effect =
    | SetRange(low: int, high: int)
    | SetProgress(value: int)
    | WriteTiff(path: string, picture: Picture, options: TiffOptions)
    | CloseDialog
    | Notice(kind: NoticeKind)

  /**
   A decoder bound to one file. `stream[k]` is what decoding frame k yields (None when that
   frame cannot be decoded); every index at or beyond `|stream|` is past the end. `pos` is the
   index the next sequential read decodes.
   */
  datatype Decoder = Decoder(stream: seq<Option<Frame>>, pos: nat)

  /** What random access to frame k yields. */
  function FrameAt(stream: seq<Option<Frame>>, k: nat): Option<Frame>
  {
    if k < |stream| then stream[k] else None
  }

  /** Moving the cursor to a frame index (a `CAP_PROP_POS_FRAMES` set). */
  function Seek(d: Decoder, k: nat): (r: Decoder)
    ensures r.stream == d.stream && r.pos == k
  {
    d.(pos := k)
  }

  /**
   One sequential read: it yields the frame under the cursor (or a failure) and moves the
   cursor one frame on. Past the end the cursor keeps counting read attempts; every such read
   fails, so nothing observable depends on where exactly an exhausted decoder stops.
   */
  function Read(d: Decoder): (r: (Option<Frame>, Decoder))
    ensures r.0 == FrameAt(d.stream, d.pos)
    ensures r.1.stream == d.stream && r.1.pos == d.pos + 1
  {
    (FrameAt(d.stream, d.pos), d.(pos := d.pos + 1))
  }

  /** The paths of the files an effect log writes, in order. */
  function Paths(effects: seq<Effect>): (r: seq<string>)
    ensures |r| <= |effects|
  {
    if effects == [] then []
    else
      var rest := Paths(effects[1..]);
      if effects[0].WriteTiff? then [effects[0].path] + rest else rest
  }

  lemma {:induction false} PathsAppend(a: seq<Effect>, b: seq<Effect>)
    ensures Paths(a + b) == Paths(a) + Paths(b)
  {
    if a == [] {
      assert a + b == b;
    } else {
      assert (a + b)[1..] == a[1..] + b;
      PathsAppend(a[1..], b);
    }
  }

  /** The frame indices of `ks` whose frames decode, in their order in `ks`. */
  function Decodable(stream: seq<Option<Frame>>, ks: seq<nat>): (r: seq<nat>)
    ensures forall k :: k in r <==> k in ks && FrameAt(stream, k).Some?
    ensures |r| <= |ks|
  {
    if ks == [] then []
    else
      var rest := Decodable(stream, ks[..|ks| - 1]);
      assert ks == ks[..|ks| - 1] + [ks[|ks| - 1]];
      if FrameAt(stream, ks[|ks| - 1]).Some? then rest + [ks[|ks| - 1]] else rest
  }

  /** When every frame decodes, nothing is dropped. */
  lemma {:induction false} DecodableAll(stream: seq<Option<Frame>>, ks: seq<nat>)
    requires forall k :: k in ks ==> FrameAt(stream, k).Some?
    ensures Decodable(stream, ks) == ks
  {
    if ks != [] {
      DecodableAll(stream, ks[..|ks| - 1]);
      assert ks == ks[..|ks| - 1] + [ks[|ks| - 1]];
    }
  }

  /** The paths of the files written for a list of frame indices, each named by `path`. */
  function PathsFor(path: nat -> string, ks: seq<nat>): (r: seq<string>)
    ensures |r| == |ks| && forall j :: 0 <= j < |ks| ==> r[j] == path(ks[j])
  {
    seq(|ks|, j requires 0 <= j < |ks| => path(ks[j]))
  }

  lemma {:induction false} PathsForSnoc(path: nat -> string, ks: seq<nat>, k: nat)
    ensures PathsFor(path, ks + [k]) == PathsFor(path, ks) + [path(k)]
  {
  }

  /** Extending a prefix by one index adds it to the decodable ones exactly when it decodes. */
  lemma {:induction false} DecodableSnoc(stream: seq<Option<Frame>>, ks: seq<nat>, n: nat)
    requires 0 < n <= |ks|
    ensures Decodable(stream, ks[..n])
            == Decodable(stream, ks[..n - 1]) + if FrameAt(stream, ks[n - 1]).Some? then [ks[n - 1]] else []
  {
    var p := ks[..n];
    assert p[..n - 1] == ks[..n - 1];
  }

  /**
   One loop step on the written paths: if the earlier effects wrote the paths of `before` and
   the step writes the path of k exactly when k decodes, together they write those of
   `before` extended by k when it decodes.
   */
  lemma {:induction false} PathsStep(path: nat -> string, before: seq<nat>, k: nat, decodes: bool,
                                     prev: seq<Effect>, step: seq<Effect>, all: seq<Effect>)
    requires Paths(all) == Paths(prev) + Paths(step)
    requires Paths(prev) == PathsFor(path, before)
    requires Paths(step) == if decodes then [path(k)] else []
    ensures Paths(all) == PathsFor(path, before + if decodes then [k] else [])
  {
    if decodes {
      PathsForSnoc(path, before, k);
    } else {
      assert before + [] == before;
    }
  }
}
