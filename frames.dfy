/**
 * The two coordinate systems of the dataset: seconds (annotations, sampled
 * intervals) and CQT frames (22050 Hz audio, hop length 512). Seconds become
 * frames through Python's `round`, frames become whole seconds through floor
 * division.
 */
module Frames {
  const SampleRate: int := 22050
  const HopLength: int := 512

  /** Default window of one training sample, in seconds and in frames. */
  const DefaultDurationSec: int := 15
  const DefaultDurationSamples: int := 646

  function Abs(x: real): real { if x < 0.0 then -x else x }

  /** Python's `round` on an exact real: the nearest integer, ties to the even one. */
  function RoundHalfEven(x: real): (r: int)
    ensures x - 0.5 <= r as real <= x + 0.5
  {
    var f := x.Floor;
    var frac := x - f as real;
    if frac < 0.5 then f
    else if frac > 0.5 then f + 1
    else if f % 2 == 0 then f
    else f + 1
  }

  /** `int(round(sec * 22050 / 512))`: the frame a time in seconds falls on. */
  function SecToFrame(sec: real): (f: int)
    ensures sec * 22050.0 / 512.0 - 0.5 <= f as real <= sec * 22050.0 / 512.0 + 0.5
  {
    RoundHalfEven(sec * (SampleRate as real) / (HopLength as real))
  }

  /** `frame * 512 // 22050`: the whole second a frame starts in (the floor of its start time). */
  function FrameToSec(frame: int): (s: int)
    ensures s * SampleRate <= frame * HopLength < (s + 1) * SampleRate
  {
    frame * HopLength / SampleRate
  }

  /** No integer is closer to a real than its rounding. */
  lemma RoundIsNearest(x: real, n: int)
    ensures Abs(x - RoundHalfEven(x) as real) <= Abs(x - n as real)
  {
    var f := x.Floor;
    assert f as real <= x < f as real + 1.0;
    if n < f {
      assert x - n as real >= x - f as real + 1.0;
    } else if n > f + 1 {
      assert n as real - x >= f as real + 2.0 - x;
    }
  }

  /** A tie between two integers goes to the even one. */
  lemma RoundTiesToEven(x: real)
    requires Abs(x - RoundHalfEven(x) as real) == 0.5
    ensures RoundHalfEven(x) % 2 == 0
  {
    var f := x.Floor;
    assert f as real <= x < f as real + 1.0;
  }

  /** Rounding never reverses the order of two times. */
  lemma RoundMonotone(x: real, y: real)
    requires x <= y
    ensures RoundHalfEven(x) <= RoundHalfEven(y)
  {
    var fx, fy := x.Floor, y.Floor;
    assert fx as real <= x < fx as real + 1.0;
    assert fy as real <= y < fy as real + 1.0;
    assert fx <= fy;
    if fx < fy {
      assert RoundHalfEven(x) <= fx + 1 <= fy <= RoundHalfEven(y);
    }
  }

  /** An integral real rounds to itself. */
  lemma RoundOfInteger(n: int)
    ensures RoundHalfEven(n as real) == n
  {
    assert (n as real).Floor == n;
  }

  /** Later times fall on the same or later frames. */
  lemma SecToFrameMonotone(a: real, b: real)
    requires a <= b
    ensures SecToFrame(a) <= SecToFrame(b)
  {
    RoundMonotone(a * (SampleRate as real) / (HopLength as real), b * (SampleRate as real) / (HopLength as real));
  }

  /** A time that is not negative never falls on a negative frame. */
  lemma SecToFrameNonNegative(sec: real)
    requires 0.0 <= sec
    ensures 0 <= SecToFrame(sec)
  {
    SecToFrameMonotone(0.0, sec);
    RoundOfInteger(0);
  }

  /**
   * Converting a time to a frame and back, as a sample record and then a motif
   * query do, yields a whole second between one second plus half a frame
   * earlier and half a frame later.
   */
  lemma SecondsRoundTrip(sec: real)
    ensures sec - 1.0 - 256.0 / 22050.0 < FrameToSec(SecToFrame(sec)) as real <= sec + 256.0 / 22050.0
  {
    var x := sec * 22050.0 / 512.0;
    var f := SecToFrame(sec);
    RoundIsNearest(x, f);
    assert x - 0.5 <= f as real <= x + 0.5;
    var q := FrameToSec(f);
    assert (q * 22050) as real <= (f * 512) as real < ((q + 1) * 22050) as real;
    assert q as real * 22050.0 <= f as real * 512.0;
    assert f as real * 512.0 < q as real * 22050.0 + 22050.0;
  }

  /**
   * A window of 646 frames that starts at the frame of `s` ends at most one
   * frame after the first labelled frame of an annotation starting at or after
   * `s + 15` seconds: sampled in seconds, a negative window can reach one frame
   * into the annotation that follows it, never more.
   */
  lemma WindowReachesAtMostOneFrame(s: real, a: real)
    requires s + DefaultDurationSec as real <= a
    ensures SecToFrame(s) + DefaultDurationSamples <= SecToFrame(a) + 1
  {
    var xs := s * 22050.0 / 512.0;
    var xa := a * 22050.0 / 512.0;
    RoundIsNearest(xs, SecToFrame(s));
    RoundIsNearest(xa, SecToFrame(a));
    assert xa >= xs + 15.0 * 22050.0 / 512.0;
    assert SecToFrame(s) as real <= xs + 0.5;
    assert SecToFrame(a) as real >= xa - 0.5;
  }

  /** The one-frame reach of the lemma above does occur. */
  lemma WindowCanReachOneFrame()
    ensures var s := 0.501 * 512.0 / 22050.0;
            SecToFrame(s) + DefaultDurationSamples == SecToFrame(s + DefaultDurationSec as real) + 1
  {
    var s := 0.501 * 512.0 / 22050.0;
    assert s * 22050.0 / 512.0 == 0.501;
    assert (s + 15.0) * 22050.0 / 512.0 == 646.49709375;
    assert (0.501).Floor == 0;
    assert (646.49709375).Floor == 646;
  }
}
