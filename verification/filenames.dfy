/**
 Names of the files the exports write: `frame_{n:06d}.tiff` for a range export and
 `bookmark_frame_{n:06d}_{HH-MM-SS}.tiff` for a bookmark export, where the time part is
 the `frame_to_time` text with every ':' replaced by '-'. Files go into the chosen
 directory as `{dir}/{name}`.
 */
module FileNames {
  import opened Wrappers
  import opened Decimal
  import opened Timecode
  import opened TimeText

  const FramePrefix: string := "frame_"
  const BookmarkPrefix: string := "bookmark_frame_"
  const TiffSuffix: string := ".tiff"

  function JoinPath(dir: string, name: string): string
  {
    dir + "/" + name
  }

  /** Within one directory, different names give different paths. */
  lemma {:induction false} JoinPathInjective(dir: string, a: string, b: string)
    requires JoinPath(dir, a) == JoinPath(dir, b)
    ensures a == b
  {
    assert JoinPath(dir, a)[|dir| + 1..] == a;
    assert JoinPath(dir, b)[|dir| + 1..] == b;
  }

  /** `f"frame_{n:06d}.tiff"` */
  function FrameFileName(n: nat): string
  {
    FramePrefix + Pad(n, 6) + TiffSuffix
  }

  /** `s.replace(':', '-')` */
  function Dashed(s: string): (r: string)
    ensures |r| == |s|
    ensures forall i :: 0 <= i < |s| ==> r[i] == (if s[i] == ':' then '-' else s[i])
  {
    seq(|s|, i requires 0 <= i < |s| => if s[i] == ':' then '-' else s[i])
  }

  /** `f"bookmark_frame_{n:06d}_{time.replace(':', '-')}.tiff"` */
  function BookmarkFileName(n: nat, fps: FrameRate): string
  {
    BookmarkPrefix + Pad(n, 6) + "_" + Dashed(FrameToTime(n, fps)) + TiffSuffix
  }

  /** Recovers the frame index from a range-export file name. */
  function ParseFrameFileName(name: string): Option<nat>
  {
    var p := |FramePrefix|;
    var q := |TiffSuffix|;
    if |name| > p + q && name[..p] == FramePrefix && name[|name| - q..] == TiffSuffix
       && AllDigits(name[p..|name| - q])
    then Some(Parse(name[p..|name| - q]))
    else None
  }

  /** The longest run of digits at the start of a string. */
  function LeadingDigits(s: string): (r: string)
    ensures AllDigits(r) && |r| <= |s| && r == s[..|r|]
  {
    if s == [] || !IsDigit(s[0]) then []
    else [s[0]] + LeadingDigits(s[1..])
  }

  /** Recovers the frame index from a bookmark-export file name. */
  function ParseBookmarkFileName(name: string): Option<nat>
  {
    var p := |BookmarkPrefix|;
    if |name| > p && name[..p] == BookmarkPrefix && LeadingDigits(name[p..]) != []
    then Some(Parse(LeadingDigits(name[p..])))
    else None
  }

  /** The range-export name is at least 17 characters and its index reads back exactly. */
  lemma {:induction false} FrameFileNameRoundTrip(n: nat)
    ensures |FrameFileName(n)| >= |FramePrefix| + 6 + |TiffSuffix|
    ensures ParseFrameFileName(FrameFileName(n)) == Some(n)
  {
    var d := Pad(n, 6);
    var name := FrameFileName(n);
    PadLength(n, 6);
    assert name[..|FramePrefix|] == FramePrefix;
    assert name[|name| - |TiffSuffix|..] == TiffSuffix;
    assert name[|FramePrefix|..|name| - |TiffSuffix|] == d;
    PadRoundTrip(n, 6);
  }

  /** Distinct frames never share a range-export file name: no export overwrites its own output. */
  lemma {:induction false} FrameFileNameInjective(a: nat, b: nat)
    requires FrameFileName(a) == FrameFileName(b)
    ensures a == b
  {
    FrameFileNameRoundTrip(a);
    FrameFileNameRoundTrip(b);
  }

  lemma {:induction false} LeadingDigitsOf(d: string, t: string)
    requires AllDigits(d)
    requires t == [] || !IsDigit(t[0])
    ensures LeadingDigits(d + t) == d
    decreases |d|
  {
    if d == [] {
      assert d + t == t;
    } else {
      assert (d + t)[1..] == d[1..] + t;
      LeadingDigitsOf(d[1..], t);
    }
  }

  /** The bookmark name's index reads back exactly. */
  lemma {:induction false} BookmarkFileNameRoundTrip(n: nat, fps: FrameRate)
    ensures ParseBookmarkFileName(BookmarkFileName(n, fps)) == Some(n)
  {
    ParseBookmarkNameOf(n, Dashed(FrameToTime(n, fps)));
  }

  lemma {:induction false} ParseBookmarkNameOf(n: nat, time: string)
    ensures ParseBookmarkFileName(BookmarkPrefix + Pad(n, 6) + "_" + time + TiffSuffix) == Some(n)
  {
    var d := Pad(n, 6);
    var t := "_" + time + TiffSuffix;
    var name := BookmarkPrefix + d + "_" + time + TiffSuffix;
    assert name == BookmarkPrefix + (d + t);
    assert name[..|BookmarkPrefix|] == BookmarkPrefix;
    assert name[|BookmarkPrefix|..] == d + t;
    PadLength(n, 6);
    LeadingDigitsOf(d, t);
    PadRoundTrip(n, 6);
  }

  /** Distinct bookmarks never share a file name. */
  lemma {:induction false} BookmarkFileNameInjective(a: nat, b: nat, fps: FrameRate)
    requires BookmarkFileName(a, fps) == BookmarkFileName(b, fps)
    ensures a == b
  {
    BookmarkFileNameRoundTrip(a, fps);
    BookmarkFileNameRoundTrip(b, fps);
  }

  /**
   No bookmark file name contains ':', and its time part, with '-' turned back into ':',
   is the `frame_to_time` text of the bookmark.
   */
  lemma {:induction false} BookmarkFileNameHasNoColon(n: nat, fps: FrameRate)
    ensures ':' !in BookmarkFileName(n, fps)
    ensures var time := FrameToTime(n, fps);
            var name := BookmarkFileName(n, fps);
            var start := |BookmarkPrefix| + |Pad(n, 6)| + 1;
            && start + |time| + |TiffSuffix| == |name|
            && forall i :: 0 <= i < |time| ==>
                 (name[start + i] == '-' <==> time[i] == ':')
                 && (time[i] != ':' ==> name[start + i] == time[i])
  {
    TimeHasNoDash(n, fps);
    NameOfHasNoColon(Pad(n, 6), FrameToTime(n, fps));
  }

  /** The same, for any digit run and any time text free of '-'. */
  lemma {:induction false} NameOfHasNoColon(d: string, time: string)
    requires AllDigits(d)
    requires forall i :: 0 <= i < |time| ==> time[i] != '-'
    ensures var name := BookmarkPrefix + d + "_" + Dashed(time) + TiffSuffix;
            var start := |BookmarkPrefix| + |d| + 1;
            && ':' !in name
            && start + |time| + |TiffSuffix| == |name|
            && forall i :: 0 <= i < |time| ==>
                 (name[start + i] == '-' <==> time[i] == ':')
                 && (time[i] != ':' ==> name[start + i] == time[i])
  {
    var name := BookmarkPrefix + d + "_" + Dashed(time) + TiffSuffix;
    var dt := Dashed(time);
    forall i | 0 <= i < |name|
      ensures name[i] != ':'
    {
      if i < |BookmarkPrefix| {
        assert name[i] == BookmarkPrefix[i];
      } else if i < |BookmarkPrefix| + |d| {
        assert name[i] == d[i - |BookmarkPrefix|];
      } else if i == |BookmarkPrefix| + |d| {
        assert name[i] == '_';
      } else if i < |BookmarkPrefix| + |d| + 1 + |dt| {
        assert name[i] == dt[i - |BookmarkPrefix| - |d| - 1];
      } else {
        assert name[i] == TiffSuffix[i - |BookmarkPrefix| - |d| - 1 - |dt|];
      }
    }
  }

  /** The `frame_to_time` text is made of digits and ':' only. */
  lemma {:induction false} TimeHasNoDash(n: nat, fps: FrameRate)
    ensures forall i :: 0 <= i < |FrameToTime(n, fps)| ==>
              IsDigit(FrameToTime(n, fps)[i]) || FrameToTime(n, fps)[i] == ':'
  {
    if Known(fps) {
      var c := ClockAt(n, fps);
      var h := Pad(c.hours, 2);
      var m := Pad(c.minutes, 2);
      var s := Pad(c.seconds, 2);
      assert FrameToTime(n, fps) == h + ":" + m + ":" + s;
    }
  }
}
