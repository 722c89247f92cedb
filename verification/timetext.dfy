/**
 The two textual renderings of a frame's time: `frame_to_time` ("HH:MM:SS", used in the
 bookmark list and bookmark file names) and the time label with its spin boxes
 (`Time: HH:MM:SS.mmm`). Both fall back to a fixed zero text when the rate is unknown.
 */
module TimeText {
  import opened Wrappers
  import opened Decimal
  import opened Timecode

  /** `{h:02d}:{m:02d}:{s:02d}`; hours past 99 simply take more digits. */
  function Hms(c: Clock): string
  {
    Pad(c.hours, 2) + ":" + Pad(c.minutes, 2) + ":" + Pad(c.seconds, 2)
  }

  const ZeroHms: string := "00:00:00"
  const ZeroLabel: string := "Time: 00:00:00.000"
  const LabelPrefix: string := "Time: "

  /** `frame_to_time`: the position of a frame as hours, minutes and seconds. */
  function FrameToTime(frame: nat, fps: FrameRate): (r: string)
    ensures !Known(fps) ==> r == ZeroHms
  {
    if Known(fps) then Hms(ClockAt(frame, fps)) else ZeroHms
  }

  /** Reads "H..H:MM:SS" back into hours, minutes and seconds. */
  function ParseHms(s: string): Option<(nat, nat, nat)>
  {
    var n := |s|;
    if n >= 7 && s[n - 3] == ':' && s[n - 6] == ':'
       && AllDigits(s[..n - 6]) && AllDigits(s[n - 5..n - 3]) && AllDigits(s[n - 2..])
    then Some((Parse(s[..n - 6]), Parse(s[n - 5..n - 3]), Parse(s[n - 2..])))
    else None
  }

  lemma {:induction false} PadTwo(n: nat)
    requires n < 100
    ensures |Pad(n, 2)| == 2
  {
    assert Pow10(2) == 100;
    PadExactWidth(n, 2);
  }

  lemma {:induction false} ParseHmsOf(c: Clock)
    requires c.minutes < 60 && c.seconds < 60
    ensures ParseHms(Hms(c)) == Some((c.hours, c.minutes, c.seconds))
  {
    var h := Pad(c.hours, 2);
    var m := Pad(c.minutes, 2);
    var sec := Pad(c.seconds, 2);
    PadTwo(c.minutes);
    PadTwo(c.seconds);
    assert |h| >= 2 by { PadLength(c.hours, 2); }
    assert Hms(c) == h + ":" + m + ":" + sec;
    ParseFields(h, m, sec);
    PadRoundTrip(c.hours, 2);
    PadRoundTrip(c.minutes, 2);
    PadRoundTrip(c.seconds, 2);
  }

  /** "H..H:MM:SS" with digit fields and two-character minutes and seconds reads back field by field. */
  lemma {:induction false} ParseFields(h: string, m: string, sec: string)
    requires |h| >= 1 && |m| == 2 && |sec| == 2
    requires AllDigits(h) && AllDigits(m) && AllDigits(sec)
    ensures ParseHms(h + ":" + m + ":" + sec) == Some((Parse(h), Parse(m), Parse(sec)))
  {
    var s := h + ":" + m + ":" + sec;
    var n := |s|;
    assert s[n - 3] == ':' && s[n - 6] == ':';
    assert s[..n - 6] == h;
    assert s[n - 5..n - 3] == m;
    assert s[n - 2..] == sec;
  }

  /**
   The text of `frame_to_time` reads back as the whole seconds of `frame / fps` split into
   hours, minutes below 60 and seconds below 60; with an unknown rate it reads as zero.
   */
  lemma {:induction false} FrameToTimeReadsBack(frame: nat, fps: FrameRate)
    ensures ParseHms(FrameToTime(frame, fps)).Some?
    ensures var p := ParseHms(FrameToTime(frame, fps)).value;
            && p.1 < 60 && p.2 < 60
            && (Known(fps) ==> p.0 * 3600 + p.1 * 60 + p.2 == WholeSeconds(frame, fps))
            && (!Known(fps) ==> p == (0, 0, 0))
  {
    if Known(fps) {
      var c := ClockAt(frame, fps);
      assert FrameToTime(frame, fps) == Hms(c);
      ParseHmsOf(c);
      ClockAtSplits(frame, fps);
    } else {
      ParseHmsOf(Clock(0, 0, 0, 0));
      assert Hms(Clock(0, 0, 0, 0)) == ZeroHms;
    }
  }

  /** The unknown-rate text is exactly what frame zero shows at any known rate. */
  lemma {:induction false} ZeroHmsIsFrameZero(fps: FrameRate)
    requires Known(fps)
    ensures FrameToTime(0, fps) == ZeroHms
  {
    assert ClockAt(0, fps) == Clock(0, 0, 0, 0);
  }

  /** The values pushed into the hour, minute, second and millisecond spin boxes. */
  datatype Spins = Spins(hours: int, minutes: int, seconds: int, millis: int)

  /** A spin box clamps a value to its range (hours 0-23, minutes and seconds 0-59, 0-999). */
  function Clamp(v: int, low: int, high: int): (r: int)
    requires low <= high
    ensures low <= r <= high
    ensures low <= v <= high ==> r == v
  {
    if v < low then low else if v > high then high else v
  }

  /** `update_time_label`: the label text and, for a known rate, the spin box values set. */
  function TimeLabel(frame: nat, fps: FrameRate): (r: (string, Option<Spins>))
    ensures !Known(fps) ==> r == (ZeroLabel, None)
    ensures Known(fps) ==> r.1.Some?
  {
    if Known(fps) then
      var c := ClockAt(frame, fps);
      (LabelPrefix + Hms(c) + "." + Pad(c.millis, 3),
       Some(Spins(Clamp(c.hours, 0, 23), Clamp(c.minutes, 0, 59),
                  Clamp(c.seconds, 0, 59), Clamp(c.millis, 0, 999))))
    else (ZeroLabel, None)
  }

  /**
   The label is the `frame_to_time` text followed by exactly three millisecond digits that read
   back as the truncated milliseconds of `frame / fps` (zero for an unknown rate).
   */
  lemma {:induction false} TimeLabelExtendsFrameToTime(frame: nat, fps: FrameRate)
    ensures var text := TimeLabel(frame, fps).0;
            && |text| >= |LabelPrefix| + 12
            && text[..|text| - 4] == LabelPrefix + FrameToTime(frame, fps)
            && text[|text| - 4] == '.'
            && AllDigits(text[|text| - 3..])
            && Parse(text[|text| - 3..]) < 1000
            && (Known(fps) ==> Parse(text[|text| - 3..]) == ClockAt(frame, fps).millis)
            && (!Known(fps) ==> Parse(text[|text| - 3..]) == 0)
  {
    var text := TimeLabel(frame, fps).0;
    if Known(fps) {
      var c := ClockAt(frame, fps);
      var ms := Pad(c.millis, 3);
      assert Pow10(3) == 1000;
      PadExactWidth(c.millis, 3);
      PadRoundTrip(c.millis, 3);
      PadLength(c.hours, 2);
      PadTwo(c.minutes);
      PadTwo(c.seconds);
      assert text == (LabelPrefix + Hms(c)) + "." + ms;
      assert text[|text| - 3..] == ms;
    } else {
      assert text[|text| - 3..] == "000";
      ParseZeros(3, []);
      assert Zeros(3) + [] == "000";
    }
  }

  /**
   The spin boxes receive the clock fields; only an hour count past 23 is cut to 23 by the
   hour box's range.
   */
  lemma {:induction false} TimeLabelSpins(frame: nat, fps: FrameRate)
    requires Known(fps)
    ensures var c := ClockAt(frame, fps);
            var sp := TimeLabel(frame, fps).1.value;
            && sp.minutes == c.minutes && sp.seconds == c.seconds && sp.millis == c.millis
            && sp.hours == (if c.hours <= 23 then c.hours else 23)
  {
  }
}
