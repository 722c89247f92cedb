/**
 "Save Frame" (`save_frame`): when a frame is shown and a file name was chosen, the current
 frame is resampled to print size and written there with the fixed TIFF options.
 */
module SaveFrame {
  import opened Wrappers
  import opened Media
  import opened Scaling

  function Save(current: Option<Frame>, path: string): (r: seq<Effect>)
    ensures |r| <= 1
    ensures |r| == 1 <==> current.Some? && path != ""
    ensures |r| == 1 ==> r[0] == WriteTiff(path, Resampled(current.value), PrintTiff)
    ensures |r| == 1 ==>
              && r[0].picture.Lanczos? && r[0].picture.frame == current.value
              && r[0].picture.width >= current.value.width
              && r[0].picture.height >= current.value.height
              && LongEdge(r[0].picture.width, r[0].picture.height) >= PrintLongEdge
  {
    match current
    case Some(f) => if path != "" then [WriteTiff(path, Resampled(f), PrintTiff)] else []
    case None => []
  }

  /**
   The saved file has the size the print scaling gives: a frame whose long edge m is at least
   3000 keeps its size; a smaller one gets each edge `int(edge * 3000 / m)`, the truncated
   proportional value.
   */
  lemma {:induction false} SaveWritesPrintSize(f: Frame, path: string)
    requires path != ""
    ensures var r := Save(Some(f), path);
            var p := r[0].picture;
            var m := LongEdge(f.width, f.height);
            && |r| == 1
            && (m >= PrintLongEdge ==> p.width == f.width && p.height == f.height)
            && (m < PrintLongEdge ==>
                  && p.width * m <= f.width * PrintLongEdge < (p.width + 1) * m
                  && p.height * m <= f.height * PrintLongEdge < (p.height + 1) * m)
  {
    var p := Resampled(f);
    if LongEdge(f.width, f.height) < PrintLongEdge {
      PrintSizeTruncates(f.width, f.height);
    }
  }
}
