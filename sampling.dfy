/**
 * Per-recording sampling (dataset.py lines 45-69): one positive record per
 * interval the instance sampler returns, and negatives drawn greedily from the
 * free regions until the sampler reports depletion, then sorted by start.
 *
 * The helpers `motif2idx`, `sample_instance_intervals`,
 * `generate_non_overlapping_intervals` and `sample_non_overlapping_interval`
 * live in data_utils.py, which is not part of this model: they are the
 * function-valued fields of `Helpers`, and what the model needs of them is
 * stated as predicates over those fields.
 */
module Sampling {
  import opened Wrappers
  import opened Frames
  import opened Records
  import opened GroundTruthLabels

  /** Where a sampler call sits in the random stream: the n-th draw for one recording. */
  datatype Draw = Draw(key: RecordingKey, n: nat)

  datatype Helpers = Helpers(
    /** `motif2idx[motif]` */
    motifIndex: string -> int,
    /**
     * `sample_instance_intervals(instances, duration_sec, total_duration)`; its
     * first argument, the recording, stands for the point of the random stream
     * at which the call is made
     */
    sampleInstances: (RecordingKey, seq<Annotation>, int, int) -> seq<Annotation>,
    /** `generate_non_overlapping_intervals(occupied, total_duration)` */
    freeRegions: (seq<Occupied>, int) -> seq<Interval>,
    /** `sample_non_overlapping_interval(none_intervals, duration_sec)`, at a given draw */
    sampleFree: (Draw, seq<Interval>, int) -> Option<Interval>)

  /** `instances.copy()` as the initial occupied list. */
  function Seed(instances: seq<Annotation>): (occ: seq<Occupied>)
    ensures |occ| == |instances|
    ensures forall k :: 0 <= k < |occ| ==>
              occ[k] == Occupied(Some(instances[k].motif), instances[k].start, instances[k].end)
  {
    seq(|instances|, k requires 0 <= k < |instances| =>
      Occupied(Some(instances[k].motif), instances[k].start, instances[k].end))
  }

  /** `(None, samp[0], samp[1])`: a sampled negative entered in the occupied list. */
  function Claim(iv: Interval): Occupied
  {
    Occupied(None, iv.start, iv.end)
  }

  function Claims(ivs: seq<Interval>): (occ: seq<Occupied>)
    ensures |occ| == |ivs|
    ensures forall k :: 0 <= k < |ivs| ==> occ[k] == Claim(ivs[k])
  {
    seq(|ivs|, k requires 0 <= k < |ivs| => Claim(ivs[k]))
  }

  /** Total length in seconds of a list of free regions (an empty or reversed region counts 0). */
  function FreeLength(regions: seq<Interval>): (r: real)
    ensures r >= 0.0
  {
    if |regions| == 0 then 0.0
    else (if regions[0].start < regions[0].end then regions[0].end - regions[0].start else 0.0)
         + FreeLength(regions[1..])
  }

  /** The sampler's answer once `drawn` has been accepted after the annotations `seed`. */
  function NextDraw(h: Helpers, key: RecordingKey, seed: seq<Occupied>, total: int, dur: int,
                    drawn: seq<Interval>): Option<Interval>
  {
    h.sampleFree(Draw(key, |drawn|), h.freeRegions(seed + Claims(drawn), total), dur)
  }

  /**
   * Assumed of the helpers: an interval the sampler accepts at draw n lowers
   * the free length by at least the window duration once it is occupied.
   */
  ghost predicate Shrinks(h: Helpers, key: RecordingKey, total: int, dur: int, occ: seq<Occupied>, n: nat)
  {
    match h.sampleFree(Draw(key, n), h.freeRegions(occ, total), dur)
    case None => true
    case Some(iv) =>
      FreeLength(h.freeRegions(occ + [Claim(iv)], total)) <= FreeLength(h.freeRegions(occ, total)) - dur as real
  }

  ghost predicate ShrinksFreeSpace(h: Helpers, key: RecordingKey, total: int, dur: int)
  {
    forall occ: seq<Occupied>, n: nat :: Shrinks(h, key, total, dur, occ, n)
  }

  /** The intervals the greedy loop accepts after `drawn`, up to the sampler's first None. */
  ghost function Deplete(h: Helpers, key: RecordingKey, seed: seq<Occupied>, total: int, dur: int,
                         drawn: seq<Interval>): seq<Interval>
    requires dur >= 1 && ShrinksFreeSpace(h, key, total, dur)
    decreases FreeLength(h.freeRegions(seed + Claims(drawn), total)).Floor
  {
    match NextDraw(h, key, seed, total, dur, drawn)
    case None => drawn
    case Some(iv) =>
      assert Shrinks(h, key, total, dur, seed + Claims(drawn), |drawn|);
      assert seed + Claims(drawn + [iv]) == seed + Claims(drawn) + [Claim(iv)];
      Deplete(h, key, seed, total, dur, drawn + [iv])
  }

  /**
   * The loop keeps what it had, accepts exactly the sampler's non-None
   * answers, each one against the free regions left by the annotations and the
   * intervals before it, and stops at the first None.
   */
  lemma {:induction false} DepleteTrace(h: Helpers, key: RecordingKey, seed: seq<Occupied>, total: int, dur: int,
                                        drawn: seq<Interval>)
    requires dur >= 1 && ShrinksFreeSpace(h, key, total, dur)
    ensures var r := Deplete(h, key, seed, total, dur, drawn);
            && |drawn| <= |r| && r[..|drawn|] == drawn
            && (forall n :: |drawn| <= n < |r| ==> NextDraw(h, key, seed, total, dur, r[..n]) == Some(r[n]))
            && NextDraw(h, key, seed, total, dur, r).None?
    decreases FreeLength(h.freeRegions(seed + Claims(drawn), total)).Floor
  {
    match NextDraw(h, key, seed, total, dur, drawn)
    case None =>
    case Some(iv) =>
      assert Shrinks(h, key, total, dur, seed + Claims(drawn), |drawn|);
      assert seed + Claims(drawn + [iv]) == seed + Claims(drawn) + [Claim(iv)];
      DepleteTrace(h, key, seed, total, dur, drawn + [iv]);
      var r := Deplete(h, key, seed, total, dur, drawn);
      assert r == Deplete(h, key, seed, total, dur, drawn + [iv]);
      assert r[..|drawn| + 1] == drawn + [iv];
      assert r[..|drawn|] == (drawn + [iv])[..|drawn|] == drawn;
  }

  /**
   * Every accepted interval lowers the free length by the window duration, so
   * the loop accepts at most FreeLength / duration_sec intervals.
   */
  lemma {:induction false} DepleteBound(h: Helpers, key: RecordingKey, seed: seq<Occupied>, total: int, dur: int,
                                        drawn: seq<Interval>)
    requires dur >= 1 && ShrinksFreeSpace(h, key, total, dur)
    ensures (|Deplete(h, key, seed, total, dur, drawn)| - |drawn|) as real * dur as real
            <= FreeLength(h.freeRegions(seed + Claims(drawn), total))
    decreases FreeLength(h.freeRegions(seed + Claims(drawn), total)).Floor
  {
    match NextDraw(h, key, seed, total, dur, drawn)
    case None =>
    case Some(iv) =>
      assert Shrinks(h, key, total, dur, seed + Claims(drawn), |drawn|);
      assert seed + Claims(drawn + [iv]) == seed + Claims(drawn) + [Claim(iv)];
      DepleteBound(h, key, seed, total, dur, drawn + [iv]);
      var k := |Deplete(h, key, seed, total, dur, drawn)| - |drawn|;
      assert k as real * dur as real == (k - 1) as real * dur as real + dur as real;
  }

  /**
   * The negative-sampling loop of lines 54-65: starting from a copy of the
   * annotations, ask for one interval, and while one comes back append it to
   * both `occupied` and the negatives and recompute the free regions.
   */
  method SampleNegatives(h: Helpers, key: RecordingKey, instances: seq<Annotation>, totalDuration: int, durationSec: int)
    returns (occupied: seq<Occupied>, drawn: seq<Interval>)
    requires durationSec >= 1 && ShrinksFreeSpace(h, key, totalDuration, durationSec)
    ensures occupied == Seed(instances) + Claims(drawn)
    ensures drawn == Deplete(h, key, Seed(instances), totalDuration, durationSec, [])
  {
    var seed := Seed(instances);
    occupied := seed;
    var noneIntervals := h.freeRegions(seed, totalDuration);
    drawn := [];
    var depleted := false;
    while !depleted
      invariant occupied == seed + Claims(drawn)
      invariant noneIntervals == h.freeRegions(occupied, totalDuration)
      invariant Deplete(h, key, seed, totalDuration, durationSec, drawn) == Deplete(h, key, seed, totalDuration, durationSec, [])
      invariant depleted ==> NextDraw(h, key, seed, totalDuration, durationSec, drawn).None?
      decreases !depleted, FreeLength(noneIntervals).Floor
    {
      var samp := h.sampleFree(Draw(key, |drawn|), noneIntervals, durationSec);
      if samp.None? {
        depleted := true;
      } else {
        assert Shrinks(h, key, totalDuration, durationSec, occupied, |drawn|);
        assert seed + Claims(drawn + [samp.value]) == occupied + [Claim(samp.value)];
        occupied := occupied + [Claim(samp.value)];
        noneIntervals := h.freeRegions(occupied, totalDuration);
        drawn := drawn + [samp.value];
      }
    }
  }

  /** Two half-open spans in seconds that share no time. */
  predicate Apart(iv: Interval, o: Occupied)
  {
    iv.end <= o.start || o.end <= iv.start
  }

  predicate Inside(iv: Interval, region: Interval)
  {
    region.start <= iv.start && iv.end <= region.end
  }

  /** Assumed of `generate_non_overlapping_intervals`: no free region meets an occupied entry. */
  ghost predicate RegionsAvoidOccupied(h: Helpers, total: int)
  {
    forall occ: seq<Occupied>, i, j :: 0 <= i < |h.freeRegions(occ, total)| && 0 <= j < |occ| ==>
      Apart(h.freeRegions(occ, total)[i], occ[j])
  }

  /** Assumed of `sample_non_overlapping_interval`: an interval it returns lies inside one of the regions given. */
  ghost predicate DrawsInsideRegions(h: Helpers, key: RecordingKey, dur: int)
  {
    forall n: nat, regions: seq<Interval> :: h.sampleFree(Draw(key, n), regions, dur).Some? ==>
      exists i :: 0 <= i < |regions| && Inside(h.sampleFree(Draw(key, n), regions, dur).value, regions[i])
  }

  /** Assumed of `sample_non_overlapping_interval`: an interval it returns is `dur` seconds long. */
  ghost predicate DrawsLastDuration(h: Helpers, key: RecordingKey, dur: int)
  {
    forall n: nat, regions: seq<Interval> :: h.sampleFree(Draw(key, n), regions, dur).Some? ==>
      h.sampleFree(Draw(key, n), regions, dur).value.end - h.sampleFree(Draw(key, n), regions, dur).value.start == dur as real
  }

  /**
   * Given the helpers' properties, the m-th accepted interval is `dur` seconds
   * long and shares no time with anything occupied before it: the annotations
   * and the intervals accepted earlier.
   */
  lemma DrawnAvoidsOccupied(h: Helpers, key: RecordingKey, seed: seq<Occupied>, total: int, dur: int, m: nat)
    requires dur >= 1 && ShrinksFreeSpace(h, key, total, dur)
    requires RegionsAvoidOccupied(h, total) && DrawsInsideRegions(h, key, dur) && DrawsLastDuration(h, key, dur)
    requires m < |Deplete(h, key, seed, total, dur, [])|
    ensures var r := Deplete(h, key, seed, total, dur, []);
            && r[m].end - r[m].start == dur as real
            && (forall j :: 0 <= j < |seed| ==> Apart(r[m], seed[j]))
            && (forall j :: 0 <= j < m ==> Apart(r[m], Claim(r[j])))
  {
    var r := Deplete(h, key, seed, total, dur, []);
    DepleteTrace(h, key, seed, total, dur, []);
    var occ := seed + Claims(r[..m]);
    var regions := h.freeRegions(occ, total);
    assert h.sampleFree(Draw(key, m), regions, dur) == Some(r[m]);
    var i :| 0 <= i < |regions| && Inside(r[m], regions[i]);
    forall j | 0 <= j < |occ|
      ensures Apart(r[m], occ[j])
    {
      assert Apart(regions[i], occ[j]);
    }
    forall j | 0 <= j < m
      ensures Apart(r[m], Claim(r[j]))
    {
      assert occ[|seed| + j] == Claim(r[j]);
    }
    forall j | 0 <= j < |seed|
      ensures Apart(r[m], seed[j])
    {
      assert occ[j] == seed[j];
    }
  }

  predicate SortedByStart(s: seq<Interval>)
  {
    forall i, j :: 0 <= i < j < |s| ==> s[i].start <= s[j].start
  }

  /** Place `iv` before the first interval that does not start earlier, keeping the order of equal starts. */
  function InsertByStart(iv: Interval, s: seq<Interval>): (r: seq<Interval>)
    requires SortedByStart(s)
    ensures SortedByStart(r)
    ensures multiset(r) == multiset(s) + multiset{iv}
  {
    if |s| == 0 || iv.start <= s[0].start then [iv] + s
    else
      var rest := InsertByStart(iv, s[1..]);
      assert s == [s[0]] + s[1..];
      assert forall k :: 0 <= k < |rest| ==> s[0].start <= rest[k].start by {
        forall k | 0 <= k < |rest| ensures s[0].start <= rest[k].start {
          assert rest[k] in multiset(rest);
          assert rest[k] in multiset(s[1..]) || rest[k] == iv;
        }
      }
      [s[0]] + rest
  }

  /** `none_samples_act.sort(key=lambda x: x[0])`: ascending by start second, as a permutation. */
  function SortByStart(s: seq<Interval>): (r: seq<Interval>)
    ensures SortedByStart(r)
    ensures multiset(r) == multiset(s)
  {
    if |s| == 0 then []
    else
      assert s == [s[0]] + s[1..];
      InsertByStart(s[0], SortByStart(s[1..]))
  }

  /** Recording length in whole seconds: `frames * 512 // 22050` (line 28). */
  function TotalDuration(rec: Recording): (r: int)
    ensures 0 <= r
    ensures r * SampleRate <= |rec.cqt.rows| * HopLength < (r + 1) * SampleRate
  {
    FrameToSec(|rec.cqt.rows|)
  }

  /** A positive record (line 50): the window starts on the rounded start second and is `durationSamples` long. */
  function ToPositive(key: RecordingKey, x: Annotation, durationSamples: nat): (s: PositiveSample)
    ensures s.Key() == key && s.motif == x.motif
    ensures s.start == SecToFrame(x.start) && s.end - s.start == durationSamples
  {
    var f := SecToFrame(x.start);
    PositiveSample(key.version, key.act, x.motif, f, f + durationSamples)
  }

  /** A negative record (line 68), built from the interval's start alone. */
  function ToNegative(key: RecordingKey, iv: Interval, durationSamples: nat): (s: NegativeSample)
    ensures s.Key() == key
    ensures s.start == SecToFrame(iv.start) && s.end - s.start == durationSamples
  {
    var f := SecToFrame(iv.start);
    NegativeSample(key.version, key.act, f, f + durationSamples)
  }

  /**
   * What one recording must satisfy to be loaded: a rectangular CQT, every
   * motif mapped to a motif column, a window of at least one second, and a
   * sampler that uses up free space.
   */
  ghost predicate Admissible(h: Helpers, rec: Recording, durationSec: int)
  {
    && rec.cqt.Wf()
    && MotifsInRange(rec.instances, h.motifIndex)
    && durationSec >= 1
    && ShrinksFreeSpace(h, rec.key, TotalDuration(rec), durationSec)
  }

  /** The comprehension of line 50. */
  function PositiveRecords(key: RecordingKey, xs: seq<Annotation>, durationSamples: nat): (r: seq<PositiveSample>)
    ensures |r| == |xs| && forall i :: 0 <= i < |xs| ==> r[i] == ToPositive(key, xs[i], durationSamples)
  {
    seq(|xs|, i requires 0 <= i < |xs| => ToPositive(key, xs[i], durationSamples))
  }

  /** The comprehension of line 68. */
  function NegativeRecords(key: RecordingKey, ivs: seq<Interval>, durationSamples: nat): (r: seq<NegativeSample>)
    ensures |r| == |ivs| && forall i :: 0 <= i < |ivs| ==> r[i] == ToNegative(key, ivs[i], durationSamples)
  {
    seq(|ivs|, i requires 0 <= i < |ivs| => ToNegative(key, ivs[i], durationSamples))
  }

  /** The positive records of one recording, in the instance sampler's order. */
  function PositivesOf(h: Helpers, rec: Recording, durationSec: int, durationSamples: nat): seq<PositiveSample>
  {
    PositiveRecords(rec.key, h.sampleInstances(rec.key, rec.instances, durationSec, TotalDuration(rec)), durationSamples)
  }

  /** The negative intervals of one recording, sorted by start second. */
  ghost function NegativeIntervalsOf(h: Helpers, rec: Recording, durationSec: int): seq<Interval>
    requires Admissible(h, rec, durationSec)
  {
    SortByStart(Deplete(h, rec.key, Seed(rec.instances), TotalDuration(rec), durationSec, []))
  }

  /** The negative records of one recording. */
  ghost function NegativesOf(h: Helpers, rec: Recording, durationSec: int, durationSamples: nat): seq<NegativeSample>
    requires Admissible(h, rec, durationSec)
  {
    NegativeRecords(rec.key, NegativeIntervalsOf(h, rec, durationSec), durationSamples)
  }

  /** The negatives of a recording come in ascending start frame, because rounding keeps the order of the sorted seconds. */
  lemma NegativesSortedByFrame(h: Helpers, rec: Recording, durationSec: int, durationSamples: nat)
    requires Admissible(h, rec, durationSec)
    ensures var ns := NegativesOf(h, rec, durationSec, durationSamples);
            forall i, j :: 0 <= i < j < |ns| ==> ns[i].start <= ns[j].start
  {
    var ivs := NegativeIntervalsOf(h, rec, durationSec);
    forall i, j | 0 <= i < j < |ivs|
      ensures SecToFrame(ivs[i].start) <= SecToFrame(ivs[j].start)
    {
      SecToFrameMonotone(ivs[i].start, ivs[j].start);
    }
  }

  /** Each sorted negative interval of a recording is one the loop accepted, so it keeps the helpers' promises. */
  lemma NegativeIntervalFacts(h: Helpers, rec: Recording, durationSec: int, n: nat)
    requires Admissible(h, rec, durationSec)
    requires RegionsAvoidOccupied(h, TotalDuration(rec)) && DrawsInsideRegions(h, rec.key, durationSec)
    requires DrawsLastDuration(h, rec.key, durationSec)
    requires n < |NegativeIntervalsOf(h, rec, durationSec)|
    ensures var iv := NegativeIntervalsOf(h, rec, durationSec)[n];
            && iv.end - iv.start == durationSec as real
            && forall k :: 0 <= k < |rec.instances| ==> Apart(iv, Seed(rec.instances)[k])
  {
    var r := Deplete(h, rec.key, Seed(rec.instances), TotalDuration(rec), durationSec, []);
    var iv := NegativeIntervalsOf(h, rec, durationSec)[n];
    assert iv in multiset(r);
    var m :| 0 <= m < |r| && r[m] == iv;
    DrawnAvoidsOccupied(h, rec.key, Seed(rec.instances), TotalDuration(rec), durationSec, m);
  }

  /**
   * With the helper properties above and the default 15 s / 646-frame window,
   * a negative window never overlaps the frames labelled by an annotation that
   * ends before the negative interval starts, and reaches at most one frame
   * into those of an annotation that starts after it ends.
   */
  lemma NegativeFramesBesideAnnotations(h: Helpers, rec: Recording, n: nat, k: nat)
    requires Admissible(h, rec, DefaultDurationSec)
    requires RegionsAvoidOccupied(h, TotalDuration(rec)) && DrawsInsideRegions(h, rec.key, DefaultDurationSec)
    requires DrawsLastDuration(h, rec.key, DefaultDurationSec)
    requires n < |NegativesOf(h, rec, DefaultDurationSec, DefaultDurationSamples)| && k < |rec.instances|
    ensures var neg := NegativesOf(h, rec, DefaultDurationSec, DefaultDurationSamples)[n];
            var a := rec.instances[k];
            || SecToFrame(a.end) <= neg.start
            || neg.end <= SecToFrame(a.start) + 1
  {
    var iv := NegativeIntervalsOf(h, rec, DefaultDurationSec)[n];
    NegativeIntervalFacts(h, rec, DefaultDurationSec, n);
    var a := rec.instances[k];
    assert Apart(iv, Seed(rec.instances)[k]);
    if a.end <= iv.start {
      SecToFrameMonotone(a.end, iv.start);
    } else {
      WindowReachesAtMostOneFrame(iv.start, a.start);
    }
  }

  /**
   * With the default window and annotations at non-negative times, every frame
   * of a negative window but its last carries no motif label in the ground
   * truth, and its "none" cell is 1: the zero labels `__getitem__` returns for
   * a negative record agree with the ground truth there.
   */
  lemma NegativeWindowUnlabelled(h: Helpers, rec: Recording, n: nat, f: int)
    requires Admissible(h, rec, DefaultDurationSec)
    requires RegionsAvoidOccupied(h, TotalDuration(rec)) && DrawsInsideRegions(h, rec.key, DefaultDurationSec)
    requires DrawsLastDuration(h, rec.key, DefaultDurationSec)
    requires forall k :: 0 <= k < |rec.instances| ==> 0.0 <= rec.instances[k].start && 0.0 <= rec.instances[k].end
    requires n < |NegativesOf(h, rec, DefaultDurationSec, DefaultDurationSamples)|
    requires 0 <= f < |rec.cqt.rows|
    requires NegativesOf(h, rec, DefaultDurationSec, DefaultDurationSamples)[n].start <= f
             < NegativesOf(h, rec, DefaultDurationSec, DefaultDurationSamples)[n].end - 1
    ensures var row := GroundTruth(|rec.cqt.rows|, rec.instances, h.motifIndex).rows[f];
            && (forall m :: 0 <= m < NoneColumn ==> row[m] == 0)
            && row[NoneColumn] == 1
  {
    var frames := |rec.cqt.rows|;
    var gt := GroundTruth(frames, rec.instances, h.motifIndex);
    forall m | 0 <= m < NoneColumn ensures gt.rows[f][m] == 0 {
      MotifColumnIff(frames, rec.instances, h.motifIndex, f, m);
      forall k | 0 <= k < |rec.instances|
        ensures !(SecToFrame(rec.instances[k].start) <= f < SecToFrame(rec.instances[k].end))
      {
        NegativeFramesBesideAnnotations(h, rec, n, k);
      }
    }
    GroundTruthIsLabelMatrix(frames, rec.instances, h.motifIndex);
    assert IsLabelRow(gt.rows[f]);
  }
}
