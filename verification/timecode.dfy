/**
 Turning a frame index into the wall-clock position shown by the player. The frame rate is
 held as an exact fraction, so `frame / fps` is an exact rational and its decomposition into
 hours, minutes, seconds and milliseconds is exact integer arithmetic. A rate of zero or less
 is the "unknown rate" state, for which the display shows a fixed zero time instead.
 */
module Timecode {
  import opened Arith

  datatype Rate = Rate(num: int, den: int)

  /** A frame rate of num/den frames per second. */
  type FrameRate = r: Rate | r.den >= 1 witness Rate(0, 1)

  /** The rate is positive, the only case in which a time is computed. */
  predicate Known(fps: FrameRate)
  {
    fps.num > 0
  }

  /** A position on the clock: hours are unbounded, the other fields are within their unit. */
  datatype Clock = Clock(hours: nat, minutes: nat, seconds: nat, millis: nat)

  /** The position expressed in whole milliseconds. */
  function TotalMillis(c: Clock): nat
  {
    ((c.hours * 60 + c.minutes) * 60 + c.seconds) * 1000 + c.millis
  }

  /** The whole seconds elapsed when `frame` is shown: the floor of `frame / fps`. */
  function WholeSeconds(frame: nat, fps: FrameRate): nat
    requires Known(fps)
  {
    var t := frame * fps.den;
    FloorLower(t, fps.num, 0);
    t / fps.num
  }

  /** `WholeSeconds` brackets the exact time: `s <= frame / fps < s + 1`. */
  lemma {:induction false} WholeSecondsBracket(frame: nat, fps: FrameRate)
    requires Known(fps)
    ensures var s := WholeSeconds(frame, fps);
            s * fps.num <= frame * fps.den < (s + 1) * fps.num
  {
    FloorBracket(frame * fps.den, fps.num);
  }

  /**
   The clock position of `frame`: whole seconds split into hours, minutes and seconds, and
   the fractional second truncated to milliseconds.
   */
  function ClockAt(frame: nat, fps: FrameRate): (c: Clock)
    requires Known(fps)
    ensures c.minutes < 60 && c.seconds < 60 && c.millis < 1000
  {
    var t := frame * fps.den;
    var s := WholeSeconds(frame, fps);
    var r := t % fps.num;
    SplitSeconds(s);
    FloorBelow(r * 1000, fps.num, 1000);
    Clock(s / 3600, s % 3600 / 60, s % 60, r * 1000 / fps.num)
  }

  /**
   The hours, minutes and seconds of the clock add up to the whole seconds, and its position
   in milliseconds brackets `1000 * frame / fps`: nothing is lost but the sub-millisecond rest.
   */
  lemma {:induction false} ClockAtSplits(frame: nat, fps: FrameRate)
    requires Known(fps)
    ensures var c := ClockAt(frame, fps);
            && c.hours * 3600 + c.minutes * 60 + c.seconds == WholeSeconds(frame, fps)
            && TotalMillis(c) * fps.num <= frame * fps.den * 1000 < (TotalMillis(c) + 1) * fps.num
  {
    var t := frame * fps.den;
    var s := WholeSeconds(frame, fps);
    var c := ClockAt(frame, fps);
    SplitSeconds(s);
    MillisBracket(t, fps.num, c);
  }

  lemma {:induction false} SplitSeconds(s: nat)
    ensures s / 3600 * 3600 + s % 3600 / 60 * 60 + s % 60 == s
    ensures s % 3600 / 60 < 60
  {
    var r := s % 3600;
    assert s == s / 3600 * 3600 + r;
    assert r == r / 60 * 60 + r % 60;
    assert s % 60 == r % 60 by {
      assert s == (s / 3600 * 60 + r / 60) * 60 + r % 60;
      FloorUnique(s, 60, s / 3600 * 60 + r / 60);
    }
  }

  /** Truncating the fractional part to milliseconds gives the floor of the time in milliseconds. */
  lemma {:induction false} MillisBracket(t: nat, n: int, c: Clock)
    requires n > 0
    requires c.hours * 3600 + c.minutes * 60 + c.seconds == t / n
    requires c.millis == t % n * 1000 / n
    ensures TotalMillis(c) * n <= t * 1000 < (TotalMillis(c) + 1) * n
  {
    assert TotalMillis(c) == (t / n) * 1000 + c.millis;
    var q := t / n;
    var r := t % n;
    var f := r * 1000 / n;
    assert t == q * n + r;
    FloorBracket(r * 1000, n);
    assert (q * 1000 + f) * n == q * n * 1000 + f * n;
    assert (q * 1000 + f + 1) * n == q * n * 1000 + (f + 1) * n;
  }

  /** The position in milliseconds is `floor(1000 * frame / fps)`. */
  lemma {:induction false} TotalMillisIsFloor(frame: nat, fps: FrameRate)
    requires Known(fps)
    ensures TotalMillis(ClockAt(frame, fps)) == frame * fps.den * 1000 / fps.num
  {
    var c := ClockAt(frame, fps);
    ClockAtSplits(frame, fps);
    FloorUnique(frame * fps.den * 1000, fps.num, TotalMillis(c));
  }

  /** Later frames are never shown at an earlier time. */
  lemma {:induction false} ClockMonotonic(a: nat, b: nat, fps: FrameRate)
    requires Known(fps) && a <= b
    ensures TotalMillis(ClockAt(a, fps)) <= TotalMillis(ClockAt(b, fps))
  {
    TotalMillisIsFloor(a, fps);
    TotalMillisIsFloor(b, fps);
    MulMonotonic(a, b, fps.den);
    FloorMonotonic(a * fps.den * 1000, b * fps.den * 1000, fps.num);
  }

  /** The value of the rate as a real number of frames per second. */
  function RateValue(fps: FrameRate): real
  {
    (fps.num as real) / (fps.den as real)
  }

  /** Python's `x % y` on floats with a positive divisor: the result takes the divisor's sign. */
  function FloatMod(x: real, y: real): real
    requires y > 0.0
  {
    x - y * ((x / y).Floor as real)
  }

  /**
   The decomposition agrees with the formulas of the player evaluated on exact reals:
   with `t = frame / fps`, hours `t // 3600`, minutes `(t % 3600) // 60`, seconds `t % 60`,
   milliseconds `(t % 1) * 1000`, each truncated to an integer (floor, as `t` is not negative).
   */
  lemma {:induction false} ClockAtMatchesFloatFormulas(frame: nat, fps: FrameRate)
    requires Known(fps)
    ensures var t := (frame as real) / RateValue(fps);
            var c := ClockAt(frame, fps);
            && c.hours == (t / 3600.0).Floor
            && c.minutes == (FloatMod(t, 3600.0) / 60.0).Floor
            && c.seconds == FloatMod(t, 60.0).Floor
            && c.millis == (FloatMod(t, 1.0) * 1000.0).Floor
  {
    var t := (frame as real) / RateValue(fps);
    var s := WholeSeconds(frame, fps);
    TimeFloor(frame, fps);
    DivFloor(t, 3600);
    ModFloor(t, 3600);
    DivFloor(FloatMod(t, 3600.0), 60);
    ModFloor(t, 60);
    MillisMatch(frame, fps);
  }

  /** The floor of the exact time is the whole-seconds count. */
  lemma {:induction false} TimeFloor(frame: nat, fps: FrameRate)
    requires Known(fps)
    ensures ((frame as real) / RateValue(fps)).Floor == WholeSeconds(frame, fps)
  {
    RateDivision(frame, fps.num, fps.den);
    RatioFloor(frame * fps.den, fps.num);
  }

  lemma {:induction false} MillisMatch(frame: nat, fps: FrameRate)
    requires Known(fps)
    ensures var t := (frame as real) / RateValue(fps);
            ClockAt(frame, fps).millis == (FloatMod(t, 1.0) * 1000.0).Floor
  {
    var n := fps.num;
    var big := frame * fps.den;
    var t := (frame as real) / RateValue(fps);
    RateDivision(frame, fps.num, fps.den);
    var s := big / n;
    RatioFloor(big, n);
    assert FloatMod(t, 1.0) == t - (s as real);
    var r := big % n;
    assert big == s * n + r;
    FractionPart(big, n, s, r, t);
    RatioFloor(r * 1000, n);
  }

  lemma {:induction false} RateDivision(frame: nat, num: int, den: int)
    requires num > 0 && den >= 1
    ensures (frame as real) / ((num as real) / (den as real)) == ((frame * den) as real) / (num as real)
  {
  }

  lemma {:induction false} FractionPart(big: int, n: int, s: int, r: int, t: real)
    requires n > 0 && big == s * n + r && t == (big as real) / (n as real)
    ensures (t - (s as real)) * 1000.0 == ((r * 1000) as real) / (n as real)
  {
    assert (big as real) == (s as real) * (n as real) + (r as real);
  }

  /** The floor of an exact ratio is integer floor division. */
  lemma {:induction false} RatioFloor(a: int, b: int)
    requires b > 0
    ensures ((a as real) / (b as real)).Floor == a / b
  {
    var q := a / b;
    FloorBracket(a, b);
    var x := (a as real) / (b as real);
    assert x * (b as real) == a as real;
    assert (q as real) * (b as real) <= x * (b as real);
    assert x * (b as real) < ((q + 1) as real) * (b as real);
  }

  /** Dividing by a positive integer and flooring only needs the floor of the dividend. */
  lemma {:induction false} DivFloor(x: real, k: int)
    requires k > 0
    ensures (x / (k as real)).Floor == x.Floor / k
  {
    var s := x.Floor;
    var q := s / k;
    FloorBracket(s, k);
    var y := x / (k as real);
    assert y * (k as real) == x;
    assert (q as real) * (k as real) <= y * (k as real);
    assert y * (k as real) < ((q + 1) as real) * (k as real);
  }

  /** Taking `x % k` keeps the fraction and reduces the whole part modulo k. */
  lemma {:induction false} ModFloor(x: real, k: int)
    requires k > 0
    ensures FloatMod(x, k as real).Floor == x.Floor % k
  {
    DivFloor(x, k);
    var s := x.Floor;
    assert s == (s / k) * k + s % k;
    assert FloatMod(x, k as real) == x - ((s / k) * k) as real;
  }
}
