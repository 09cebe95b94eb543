/**
 * `LeitmotifDataset`, `Subset` and `collate_fn` of dataset.py: the dataset
 * built from recordings already loaded in sorted key order, addressed by one
 * global index over the positive records followed by the negative ones.
 */
module Dataset {
  import opened Wrappers
  import opened Frames
  import opened Tensors
  import opened Records
  import opened GroundTruthLabels
  import opened Sampling

  /** Python's IndexError on a list read. */
  datatype IndexError = IndexError

  /** `zip(*[])` cannot be unpacked; `torch.stack` refuses tensors of different shapes. */
  datatype CollateError = EmptyBatch | ShapeMismatch

  /** One item: a CQT window and its label window. */
  type Item = (Matrix<real>, Matrix<int>)

  /** `self.cqt` after the recordings have been loaded in order (a later key overwrites an earlier one). */
  function CqtOf(recs: seq<Recording>): map<RecordingKey, Matrix<real>>
    decreases |recs|
  {
    if |recs| == 0 then map[]
    else CqtOf(recs[..|recs| - 1])[recs[|recs| - 1].key := recs[|recs| - 1].cqt]
  }

  /** `self.instances_gt` after the recordings have been loaded in order. */
  function LabelsOf(recs: seq<Recording>, motifIndex: string -> int): map<RecordingKey, Matrix<int>>
    decreases |recs|
  {
    if |recs| == 0 then map[]
    else
      var rec := recs[|recs| - 1];
      LabelsOf(recs[..|recs| - 1], motifIndex)[rec.key := GroundTruth(|rec.cqt.rows|, rec.instances, motifIndex)]
  }

  /** `self.samples`: each recording's positive records, recording after recording. */
  function AllPositives(h: Helpers, recs: seq<Recording>, durationSec: int, durationSamples: nat): seq<PositiveSample>
    decreases |recs|
  {
    if |recs| == 0 then []
    else AllPositives(h, recs[..|recs| - 1], durationSec, durationSamples)
         + PositivesOf(h, recs[|recs| - 1], durationSec, durationSamples)
  }

  /** `self.none_samples`: each recording's sorted negative records, recording after recording. */
  ghost function AllNegatives(h: Helpers, recs: seq<Recording>, durationSec: int, durationSamples: nat): seq<NegativeSample>
    requires forall i :: 0 <= i < |recs| ==> Admissible(h, recs[i], durationSec)
    decreases |recs|
  {
    if |recs| == 0 then []
    else AllNegatives(h, recs[..|recs| - 1], durationSec, durationSamples)
         + NegativesOf(h, recs[|recs| - 1], durationSec, durationSamples)
  }

  /** Loading one more recording extends each of the four collections by that recording's part. */
  lemma LoadStep(h: Helpers, recs: seq<Recording>, i: nat, durationSec: int, durationSamples: nat)
    requires i < |recs|
    requires forall j :: 0 <= j < |recs| ==> Admissible(h, recs[j], durationSec)
    ensures CqtOf(recs[..i + 1]) == CqtOf(recs[..i])[recs[i].key := recs[i].cqt]
    ensures LabelsOf(recs[..i + 1], h.motifIndex)
            == LabelsOf(recs[..i], h.motifIndex)[recs[i].key := GroundTruth(|recs[i].cqt.rows|, recs[i].instances, h.motifIndex)]
    ensures AllPositives(h, recs[..i + 1], durationSec, durationSamples)
            == AllPositives(h, recs[..i], durationSec, durationSamples) + PositivesOf(h, recs[i], durationSec, durationSamples)
    ensures AllNegatives(h, recs[..i + 1], durationSec, durationSamples)
            == AllNegatives(h, recs[..i], durationSec, durationSamples) + NegativesOf(h, recs[i], durationSec, durationSamples)
  {
    assert recs[..i + 1][..i] == recs[..i];
    assert recs[..i + 1][i] == recs[i];
  }

  /** The helpers behave as the negative sampling needs, for every recording, at the default window. */
  ghost predicate SamplersSound(h: Helpers, recs: seq<Recording>)
  {
    forall i :: 0 <= i < |recs| ==>
      && Admissible(h, recs[i], DefaultDurationSec)
      && RegionsAvoidOccupied(h, TotalDuration(recs[i]))
      && DrawsInsideRegions(h, recs[i].key, DefaultDurationSec)
      && DrawsLastDuration(h, recs[i].key, DefaultDurationSec)
  }

  /** A negative window lies beside every annotation of `rec`, reaching at most one frame into a later one. */
  predicate BesideAnnotations(neg: NegativeSample, rec: Recording)
  {
    forall k :: 0 <= k < |rec.instances| ==>
      SecToFrame(rec.instances[k].end) <= neg.start || neg.end <= SecToFrame(rec.instances[k].start) + 1
  }

  /**
   * Every negative record of the dataset, at the default window, comes from a
   * recording with its key and lies beside every annotation of that recording.
   */
  lemma {:induction false} NegativesBesideAnnotations(h: Helpers, recs: seq<Recording>, j: nat)
    requires SamplersSound(h, recs)
    requires j < |AllNegatives(h, recs, DefaultDurationSec, DefaultDurationSamples)|
    ensures exists i :: 0 <= i < |recs| && recs[i].key == AllNegatives(h, recs, DefaultDurationSec, DefaultDurationSamples)[j].Key()
                        && BesideAnnotations(AllNegatives(h, recs, DefaultDurationSec, DefaultDurationSamples)[j], recs[i])
    decreases |recs|
  {
    var last := |recs| - 1;
    var prefix := recs[..last];
    var earlier := AllNegatives(h, prefix, DefaultDurationSec, DefaultDurationSamples);
    var own := NegativesOf(h, recs[last], DefaultDurationSec, DefaultDurationSamples);
    assert AllNegatives(h, recs, DefaultDurationSec, DefaultDurationSamples) == earlier + own;
    if j < |earlier| {
      assert SamplersSound(h, prefix) by {
        forall i | 0 <= i < |prefix| ensures prefix[i] == recs[i] { }
      }
      NegativesBesideAnnotations(h, prefix, j);
      var i :| 0 <= i < |prefix| && prefix[i].key == earlier[j].Key() && BesideAnnotations(earlier[j], prefix[i]);
      assert prefix[i] == recs[i];
    } else {
      var n := j - |earlier|;
      forall k | 0 <= k < |recs[last].instances|
        ensures SecToFrame(recs[last].instances[k].end) <= own[n].start
                || own[n].end <= SecToFrame(recs[last].instances[k].start) + 1
      {
        NegativeFramesBesideAnnotations(h, recs[last], n, k);
      }
      assert own[n].Key() == recs[last].key;
    }
  }

  /**
   * The dataset's invariant on plain values: CQT and label matrices for the
   * same keys, with equal frame counts, label rows that are well-formed, and
   * every record pointing at a loaded recording with a window of length `w`.
   */
  ghost predicate Consistent(cqt: map<RecordingKey, Matrix<real>>, gt: map<RecordingKey, Matrix<int>>,
                             samples: seq<PositiveSample>, none: seq<NegativeSample>, w: nat)
  {
    && cqt.Keys == gt.Keys
    && (forall k :: k in cqt ==>
          cqt[k].Wf() && gt[k].Wf() && IsLabelMatrix(gt[k]) && |gt[k].rows| == |cqt[k].rows|)
    && (forall i :: 0 <= i < |samples| ==> samples[i].Key() in cqt && samples[i].end - samples[i].start == w)
    && (forall i :: 0 <= i < |none| ==> none[i].Key() in cqt && none[i].end - none[i].start == w)
  }

  /** Storing one recording and appending its records keeps the dataset consistent. */
  lemma LoadKeepsConsistent(cqt: map<RecordingKey, Matrix<real>>, gt: map<RecordingKey, Matrix<int>>,
                            samples: seq<PositiveSample>, none: seq<NegativeSample>, w: nat,
                            key: RecordingKey, m: Matrix<real>, labels: Matrix<int>,
                            pos: seq<PositiveSample>, neg: seq<NegativeSample>)
    requires Consistent(cqt, gt, samples, none, w)
    requires m.Wf() && labels.Wf() && IsLabelMatrix(labels) && |labels.rows| == |m.rows|
    requires forall i :: 0 <= i < |pos| ==> pos[i].Key() == key && pos[i].end - pos[i].start == w
    requires forall i :: 0 <= i < |neg| ==> neg[i].Key() == key && neg[i].end - neg[i].start == w
    ensures Consistent(cqt[key := m], gt[key := labels], samples + pos, none + neg, w)
  {
    var s, n := samples + pos, none + neg;
    forall i | 0 <= i < |s| ensures s[i].Key() in cqt[key := m] && s[i].end - s[i].start == w {
      if i >= |samples| { assert s[i] == pos[i - |samples|]; }
    }
    forall i | 0 <= i < |n| ensures n[i].Key() in cqt[key := m] && n[i].end - n[i].start == w {
      if i >= |none| { assert n[i] == neg[i - |none|]; }
    }
  }

  /** The version/act filter of `get_subset_idxs`; an absent filter accepts everything. */
  predicate Matches(versions: Option<set<string>>, acts: Option<set<string>>, version: string, act: string)
  {
    (versions.None? || version in versions.value) && (acts.None? || act in acts.value)
  }

  predicate StrictlyIncreasing(s: seq<int>)
  {
    forall i, j :: 0 <= i < j < |s| ==> s[i] < s[j]
  }

  /** `range(n)` holds exactly 0..n-1, in increasing order. */
  lemma RangeMembers(n: nat)
    ensures forall i :: i in Range(n) <==> 0 <= i < n
    ensures StrictlyIncreasing(Range(n))
  {
    var r := Range(n);
    forall i | 0 <= i < n ensures i in r {
      assert r[i] == i;
    }
  }

  /** Two strictly increasing sequences with the same elements are equal. */
  lemma {:induction false} SameIncreasingSequences(a: seq<int>, b: seq<int>)
    requires StrictlyIncreasing(a) && StrictlyIncreasing(b)
    requires forall x :: x in a <==> x in b
    ensures a == b
    decreases |a|
  {
    if |a| > 0 {
      assert a[0] in a;
      assert a[0] in b;
    }
    if |b| > 0 {
      assert b[0] in b;
      assert b[0] in a;
    }
    if |a| > 0 && |b| > 0 {
      assert a[0] == b[0] by {
        assert b[0] in a && a[0] in b;
      }
      forall x ensures x in a[1..] <==> x in b[1..] {
        if x in a[1..] {
          assert x in b && x > a[0];
        }
        if x in b[1..] {
          assert x in a && x > b[0];
        }
      }
      SameIncreasingSequences(a[1..], b[1..]);
      assert a == [a[0]] + a[1..] && b == [b[0]] + b[1..];
    }
  }

  /** `list(range(n))`. */
  function Range(n: nat): (r: seq<int>)
    ensures |r| == n && forall i :: 0 <= i < n ==> r[i] == i
  {
    seq(n, i => i)
  }

  /** `[idx + offset for (idx, x) in enumerate(s) if keep(x)]`. */
  function IndicesWhere<T>(s: seq<T>, keep: T -> bool, offset: int): seq<int>
    decreases |s|
  {
    if |s| == 0 then []
    else (if keep(s[0]) then [offset] else []) + IndicesWhere(s[1..], keep, offset + 1)
  }

  /** Every index the comprehension yields is the offset position of a kept element, in increasing order. */
  lemma {:induction false} IndicesWhereSound<T>(s: seq<T>, keep: T -> bool, offset: int)
    ensures var r := IndicesWhere(s, keep, offset);
            && (forall j :: 0 <= j < |r| ==> offset <= r[j] < offset + |s| && keep(s[r[j] - offset]))
            && StrictlyIncreasing(r)
    decreases |s|
  {
    if |s| > 0 {
      var rest := IndicesWhere(s[1..], keep, offset + 1);
      IndicesWhereSound(s[1..], keep, offset + 1);
      var head := if keep(s[0]) then [offset] else [];
      var r := head + rest;
      assert r == IndicesWhere(s, keep, offset);
      forall j | |head| <= j < |r|
        ensures offset < r[j] < offset + |s| && keep(s[r[j] - offset])
      {
        assert r[j] == rest[j - |head|];
        assert s[1..][r[j] - (offset + 1)] == s[r[j] - offset];
      }
    }
  }

  /** The offset position of every kept element is among the indices the comprehension yields. */
  lemma {:induction false} IndicesWhereComplete<T>(s: seq<T>, keep: T -> bool, offset: int)
    ensures forall x :: offset <= x < offset + |s| && keep(s[x - offset]) ==> x in IndicesWhere(s, keep, offset)
    decreases |s|
  {
    if |s| > 0 {
      var rest := IndicesWhere(s[1..], keep, offset + 1);
      IndicesWhereComplete(s[1..], keep, offset + 1);
      assert IndicesWhere(s, keep, offset) == (if keep(s[0]) then [offset] else []) + rest;
      forall x | offset + 1 <= x < offset + |s| && keep(s[x - offset])
        ensures x in rest
      {
        assert s[1..][x - (offset + 1)] == s[x - offset];
      }
    }
  }

  /**
   * The comprehension yields exactly the offset positions of the kept
   * elements, each once, in increasing order.
   */
  lemma IndicesWhereExact<T>(s: seq<T>, keep: T -> bool, offset: int)
    ensures var r := IndicesWhere(s, keep, offset);
            && (forall j :: 0 <= j < |r| ==> offset <= r[j] < offset + |s| && keep(s[r[j] - offset]))
            && (forall x :: x in r <==> offset <= x < offset + |s| && keep(s[x - offset]))
            && StrictlyIncreasing(r)
  {
    IndicesWhereSound(s, keep, offset);
    IndicesWhereComplete(s, keep, offset);
  }

  /** Joining two increasing lists, all of the first below all of the second, keeps the order strict. */
  lemma ConcatIncreasing(a: seq<int>, b: seq<int>, bound: int)
    requires StrictlyIncreasing(a) && StrictlyIncreasing(b)
    requires forall j :: 0 <= j < |a| ==> a[j] < bound
    requires forall k :: 0 <= k < |b| ==> bound <= b[k]
    ensures StrictlyIncreasing(a + b)
  {
    var c := a + b;
    forall i, j | 0 <= i < j < |c| ensures c[i] < c[j] {
      if j < |a| {
        assert c[i] == a[i] && c[j] == a[j];
      } else if i >= |a| {
        assert c[i] == b[i - |a|] && c[j] == b[j - |a|];
      } else {
        assert c[i] == a[i] && c[j] == b[j - |a|];
      }
    }
  }

  /** Global index `i` addresses a record, positive or negative, whose recording passes the filters. */
  predicate SelectedAt(samples: seq<PositiveSample>, none: seq<NegativeSample>, i: int,
                       versions: Option<set<string>>, acts: Option<set<string>>)
    requires 0 <= i < |samples| + |none|
  {
    if i < |samples| then Matches(versions, acts, samples[i].version, samples[i].act)
    else Matches(versions, acts, none[i - |samples|].version, none[i - |samples|].act)
  }

  /** `samples + none_samples` of one filtered branch of `get_subset_idxs`. */
  function Filtered(samples: seq<PositiveSample>, none: seq<NegativeSample>,
                    versions: Option<set<string>>, acts: Option<set<string>>): seq<int>
  {
    IndicesWhere(samples, (x: PositiveSample) => Matches(versions, acts, x.version, x.act), 0)
    + IndicesWhere(none, (x: NegativeSample) => Matches(versions, acts, x.version, x.act), |samples|)
  }

  /** The filtered list holds exactly the selected global indices, in increasing order. */
  lemma FilteredExact(samples: seq<PositiveSample>, none: seq<NegativeSample>,
                      versions: Option<set<string>>, acts: Option<set<string>>)
    ensures var r := Filtered(samples, none, versions, acts);
            && (forall i :: i in r <==> 0 <= i < |samples| + |none| && SelectedAt(samples, none, i, versions, acts))
            && StrictlyIncreasing(r)
  {
    var keepPos := (x: PositiveSample) => Matches(versions, acts, x.version, x.act);
    var keepNeg := (x: NegativeSample) => Matches(versions, acts, x.version, x.act);
    var pos := IndicesWhere(samples, keepPos, 0);
    var neg := IndicesWhere(none, keepNeg, |samples|);
    assert Filtered(samples, none, versions, acts) == pos + neg;
    IndicesWhereExact(samples, keepPos, 0);
    IndicesWhereExact(none, keepNeg, |samples|);
    ConcatIncreasing(pos, neg, |samples|);
    forall i
      ensures i in pos + neg <==> 0 <= i < |samples| + |none| && SelectedAt(samples, none, i, versions, acts)
    {
      if 0 <= i < |samples| {
        assert i in pos <==> keepPos(samples[i - 0]);
        assert i !in neg;
      } else if |samples| <= i < |samples| + |none| {
        assert i in neg <==> keepNeg(none[i - |samples|]);
        assert i !in pos;
      }
    }
  }

  /** The answer `query_motif` gives for record `s` at index `idx`. */
  function HitOf(s: PositiveSample, idx: int): MotifHit
  {
    MotifHit(idx, s.version, s.act, FrameToSec(s.start), FrameToSec(s.end))
  }

  /** Indices of the positive records of one motif. */
  function MotifIdxs(samples: seq<PositiveSample>, motif: string): seq<int>
  {
    IndicesWhere(samples, (x: PositiveSample) => x.motif == motif, 0)
  }

  /** One hit per positive record of `motif`, in index order. */
  function MotifHits(samples: seq<PositiveSample>, motif: string): seq<MotifHit>
  {
    var idxs := MotifIdxs(samples, motif);
    IndicesWhereExact(samples, (x: PositiveSample) => x.motif == motif, 0);
    seq(|idxs|, j requires 0 <= j < |idxs| => HitOf(samples[idxs[j]], idxs[j]))
  }

  /** The hits are exactly the positive records of `motif`, each once, in increasing index order. */
  lemma MotifHitsExact(samples: seq<PositiveSample>, motif: string)
    ensures var hits := MotifHits(samples, motif);
            && (|hits| == 0 <==> forall i :: 0 <= i < |samples| ==> samples[i].motif != motif)
            && (forall j :: 0 <= j < |hits| ==>
                  0 <= hits[j].idx < |samples| && samples[hits[j].idx].motif == motif
                  && hits[j] == HitOf(samples[hits[j].idx], hits[j].idx))
            && (forall i :: 0 <= i < |samples| && samples[i].motif == motif ==>
                  exists j :: 0 <= j < |hits| && hits[j].idx == i)
            && (forall j, k :: 0 <= j < k < |hits| ==> hits[j].idx < hits[k].idx)
  {
    var idxs := MotifIdxs(samples, motif);
    IndicesWhereExact(samples, (x: PositiveSample) => x.motif == motif, 0);
    var hits := MotifHits(samples, motif);
    assert forall j :: 0 <= j < |hits| ==> hits[j].idx == idxs[j];
    forall i | 0 <= i < |samples| && samples[i].motif == motif
      ensures exists j :: 0 <= j < |hits| && hits[j].idx == i
    {
      assert i in idxs;
      var j :| 0 <= j < |idxs| && idxs[j] == i;
      assert hits[j].idx == i;
    }
    if |hits| > 0 {
      assert samples[idxs[0]].motif == motif;
    }
  }

  class LeitmotifDataset {
    var cqt: map<RecordingKey, Matrix<real>>
    var instancesGt: map<RecordingKey, Matrix<int>>
    var samples: seq<PositiveSample>
    var noneSamples: seq<NegativeSample>
    var durationSec: int
    /** `duration_samples`, which the source does not keep: every record's window length. */
    ghost var windowLength: nat

    ghost predicate Valid()
      reads this
    {
      Consistent(cqt, instancesGt, samples, noneSamples, windowLength)
    }

    /**
     * `__init__` (lines 10-69) over recordings already loaded in sorted key
     * order: store the CQT, build the ground truth, then extend the positive
     * and the (sorted) negative records of each recording.
     */
    constructor (recordings: seq<Recording>, h: Helpers, durationSec: int, durationSamples: nat)
      requires forall i :: 0 <= i < |recordings| ==> Admissible(h, recordings[i], durationSec)
      ensures Valid()
      ensures this.durationSec == durationSec && windowLength == durationSamples
      ensures cqt == CqtOf(recordings)
      ensures instancesGt == LabelsOf(recordings, h.motifIndex)
      ensures samples == AllPositives(h, recordings, durationSec, durationSamples)
      ensures noneSamples == AllNegatives(h, recordings, durationSec, durationSamples)
    {
      cqt := map[];
      instancesGt := map[];
      samples := [];
      noneSamples := [];
      this.durationSec := durationSec;
      windowLength := durationSamples;
      new;
      for i := 0 to |recordings|
        invariant Valid()
        invariant this.durationSec == durationSec && windowLength == durationSamples
        invariant cqt == CqtOf(recordings[..i])
        invariant instancesGt == LabelsOf(recordings[..i], h.motifIndex)
        invariant samples == AllPositives(h, recordings[..i], durationSec, durationSamples)
        invariant noneSamples == AllNegatives(h, recordings[..i], durationSec, durationSamples)
      {
        LoadStep(h, recordings, i, durationSec, durationSamples);
        Load(recordings[i], h, durationSamples);
      }
      assert recordings[..|recordings|] == recordings;
    }

    /**
     * One iteration of the loading loop (lines 31-69): store the CQT, build
     * and store the ground truth, append the positive records and the sorted
     * negative records of `rec`.
     */
    method Load(rec: Recording, h: Helpers, durationSamples: nat)
      modifies this
      requires Valid() && windowLength == durationSamples
      requires Admissible(h, rec, durationSec)
      ensures Valid()
      ensures durationSec == old(durationSec) && windowLength == old(windowLength)
      ensures cqt == old(cqt)[rec.key := rec.cqt]
      ensures instancesGt == old(instancesGt)[rec.key := GroundTruth(|rec.cqt.rows|, rec.instances, h.motifIndex)]
      ensures samples == old(samples) + PositivesOf(h, rec, durationSec, durationSamples)
      ensures noneSamples == old(noneSamples) + NegativesOf(h, rec, durationSec, durationSamples)
    {
      ghost var cqt0, gt0, samples0, none0 := cqt, instancesGt, samples, noneSamples;

      var frames := |rec.cqt.rows|;
      cqt := cqt[rec.key := rec.cqt];
      var totalDuration := FrameToSec(frames);

      var gt := BuildGroundTruth(frames, rec.instances, h.motifIndex);
      instancesGt := instancesGt[rec.key := gt];

      var samplesAct := h.sampleInstances(rec.key, rec.instances, durationSec, totalDuration);
      var positives := PositiveRecords(rec.key, samplesAct, durationSamples);
      samples := samples + positives;

      var occupied, noneSamplesAct := SampleNegatives(h, rec.key, rec.instances, totalDuration, durationSec);
      noneSamplesAct := SortByStart(noneSamplesAct);
      var negatives := NegativeRecords(rec.key, noneSamplesAct, durationSamples);
      noneSamples := noneSamples + negatives;

      GroundTruthIsLabelMatrix(frames, rec.instances, h.motifIndex);
      LoadKeepsConsistent(cqt0, gt0, samples0, none0, durationSamples, rec.key, rec.cqt, gt, positives, negatives);
    }

    /** `__len__`. */
    function Len(): nat
      reads this
    {
      |samples| + |noneSamples|
    }

    /** Global index `i` (in range) addresses a record whose recording passes the filters. */
    predicate Selected(i: int, versions: Option<set<string>>, acts: Option<set<string>>)
      reads this
      requires 0 <= i < Len()
    {
      SelectedAt(samples, noneSamples, i, versions, acts)
    }

    /** The filtered comprehensions of `get_subset_idxs` (lines 74-85). */
    function FilteredIdxs(versions: Option<set<string>>, acts: Option<set<string>>): (r: seq<int>)
      reads this
      ensures forall i :: i in r <==> 0 <= i < Len() && Selected(i, versions, acts)
      ensures StrictlyIncreasing(r)
    {
      FilteredExact(samples, noneSamples, versions, acts);
      Filtered(samples, noneSamples, versions, acts)
    }

    /**
     * `get_subset_idxs` (lines 71-85): every global index whose record's
     * version and act pass the given filters, in increasing order, so the
     * positive indices come before the negative ones.
     */
    function GetSubsetIdxs(versions: Option<set<string>>, acts: Option<set<string>>): (r: seq<int>)
      reads this
      ensures forall i :: i in r <==> 0 <= i < Len() && Selected(i, versions, acts)
      ensures StrictlyIncreasing(r)
    {
      if versions.None? && acts.None? then
        RangeMembers(Len());
        Range(Len())
      else FilteredIdxs(versions, acts)
    }

    /**
     * `query_motif` (lines 87-96): None when no positive record has the motif;
     * otherwise one hit per matching positive record, in index order, with
     * frames turned into whole seconds.
     */
    function QueryMotif(motif: string): (r: Option<seq<MotifHit>>)
      reads this
      ensures r.None? <==> forall i :: 0 <= i < |samples| ==> samples[i].motif != motif
      ensures r.Some? ==>
                && (forall j :: 0 <= j < |r.value| ==>
                      0 <= r.value[j].idx < |samples| && samples[r.value[j].idx].motif == motif
                      && r.value[j] == HitOf(samples[r.value[j].idx], r.value[j].idx))
                && (forall i :: 0 <= i < |samples| && samples[i].motif == motif ==>
                      exists j :: 0 <= j < |r.value| && r.value[j].idx == i)
                && (forall j, k :: 0 <= j < k < |r.value| ==> r.value[j].idx < r.value[k].idx)
    {
      var hits := MotifHits(samples, motif);
      MotifHitsExact(samples, motif);
      if |hits| > 0 then Some(hits) else None
    }

    /**
     * `__getitem__` (lines 127-136): a positive index slices the CQT and the
     * ground truth on the record's frame range; a negative index slices the
     * CQT and pairs it with zero labels. Python's list indexing applies, so a
     * negative index reads the positive records from their end.
     */
    function GetItem(idx: int): (r: Result<Item, IndexError>)
      reads this
      requires Valid()
      ensures r.Success? <==> -|samples| <= idx < Len()
      ensures r.Success? && idx < |samples| ==>
                && |r.value.0.rows| == |r.value.1.rows|
                && r.value.1.Wf() && IsLabelMatrix(r.value.1)
      ensures r.Success? && 0 <= idx < |samples| ==>
                r.value == (SliceRows(cqt[samples[idx].Key()], samples[idx].start, samples[idx].end),
                            SliceRows(instancesGt[samples[idx].Key()], samples[idx].start, samples[idx].end))
      ensures r.Success? && idx >= |samples| ==>
                && r.value.1 == Zeros(windowLength, NumClasses)
                && r.value.0 == SliceRows(cqt[noneSamples[idx - |samples|].Key()],
                                          noneSamples[idx - |samples|].start, noneSamples[idx - |samples|].end)
    {
      if idx < |samples| then
        match PyIndex(|samples|, idx)
        case None => Failure(IndexError)
        case Some(i) =>
          var s := samples[i];
          var key := s.Key();
          SliceRowsSameLength(cqt[key], instancesGt[key], s.start, s.end);
          var gt := SliceRows(instancesGt[key], s.start, s.end);
          assert forall f :: 0 <= f < |gt.rows| ==> IsLabelRow(gt.rows[f]) by {
            forall f | 0 <= f < |gt.rows| ensures IsLabelRow(gt.rows[f]) {
              var g :| 0 <= g < |instancesGt[key].rows| && instancesGt[key].rows[g] == gt.rows[f];
            }
          }
          Success((SliceRows(cqt[key], s.start, s.end), gt))
      else
        var j := idx - |samples|;
        if j < |noneSamples| then
          var s := noneSamples[j];
          var key := s.Key();
          Success((SliceRows(cqt[key], s.start, s.end), Zeros(s.end - s.start, NumClasses)))
        else Failure(IndexError)
    }

    /** The record at in-range global index `idx` lies inside its recording's frames. */
    ghost predicate WindowInBounds(idx: int)
      reads this
      requires Valid()
      requires 0 <= idx < Len()
    {
      if idx < |samples| then
        0 <= samples[idx].start && samples[idx].end <= |cqt[samples[idx].Key()].rows|
      else
        var s := noneSamples[idx - |samples|];
        0 <= s.start && s.end <= |cqt[s.Key()].rows|
    }

    /** Every recording's CQT has `bins` columns. */
    ghost predicate UniformBins(bins: nat)
      reads this
    {
      forall k :: k in cqt ==> cqt[k].cols == bins
    }

    /** `__len__` counts exactly the indices 0..len-1 that `__getitem__` accepts. */
    lemma LenIsItemCount()
      requires Valid()
      ensures forall idx :: 0 <= idx < Len() ==> GetItem(idx).Success?
      ensures GetItem(Len()).Failure?
    {
    }

    /**
     * A positive record whose window runs past the end of its recording is
     * clamped by the slice: its CQT window is shorter than `duration_samples`.
     */
    lemma ItemPastEndIsShort(idx: int)
      requires Valid()
      requires 0 <= idx < |samples|
      requires 0 <= samples[idx].start <= |cqt[samples[idx].Key()].rows| < samples[idx].end
      ensures GetItem(idx).Success?
      ensures |GetItem(idx).value.0.rows| == |cqt[samples[idx].Key()].rows| - samples[idx].start < windowLength
    {
    }

    /** A negative index `idx` reads the same item as `idx + len(samples)`: the positives from their end. */
    lemma NegativeIndexReadsPositives(idx: int)
      requires Valid()
      requires -|samples| <= idx < 0
      ensures GetItem(idx).Success? && GetItem(idx) == GetItem(idx + |samples|)
    {
    }

    /**
     * An item whose window lies inside its recording has a CQT window of
     * `duration_samples` frames by `bins` bins and a label window of
     * `duration_samples` frames by 21 classes.
     */
    lemma ItemShape(idx: int, bins: nat)
      requires Valid() && UniformBins(bins)
      requires 0 <= idx < Len() && WindowInBounds(idx)
      ensures GetItem(idx).Success?
      ensures GetItem(idx).value.0.Shape() == (windowLength, bins)
      ensures GetItem(idx).value.1.Shape() == (windowLength, NumClasses)
    {
      if idx < |samples| {
        var s := samples[idx];
        assert instancesGt[s.Key()].cols == NumClasses by {
          var m := instancesGt[s.Key()];
          if |m.rows| > 0 {
            assert IsLabelRow(m.rows[0]);
          } else {
            assert s.end - s.start == windowLength;
          }
        }
      }
    }

    /** A non-empty batch of in-bounds items of a dataset with uniform bins always collates. */
    lemma CollateInBounds(idxs: seq<int>, batch: seq<Item>, bins: nat)
      requires Valid() && UniformBins(bins)
      requires |batch| == |idxs| > 0
      requires forall j :: 0 <= j < |idxs| ==> 0 <= idxs[j] < Len() && WindowInBounds(idxs[j])
      requires forall j :: 0 <= j < |idxs| ==> GetItem(idxs[j]) == Success(batch[j])
      ensures Collate(batch).Success?
    {
      forall j | 0 <= j < |batch|
        ensures batch[j].0.Shape() == (windowLength, bins) && batch[j].1.Shape() == (windowLength, NumClasses)
      {
        ItemShape(idxs[j], bins);
      }
    }

    /** With no filter, the filtered comprehension of `get_subset_idxs` is `range(len(self))`. */
    lemma UnfilteredIsWholeRange()
      ensures FilteredIdxs(None, None) == Range(Len())
    {
      var f := FilteredIdxs(None, None);
      var r := Range(Len());
      RangeMembers(Len());
      SameIncreasingSequences(f, r);
    }
  }

  /** `Subset`: a view of `dataset` through a list of global indices. */
  class Subset {
    const dataset: LeitmotifDataset
    const indices: seq<int>

    constructor (dataset: LeitmotifDataset, indices: seq<int>)
      ensures this.dataset == dataset && this.indices == indices
    {
      this.dataset := dataset;
      this.indices := indices;
    }

    /** `__len__`. */
    function Len(): nat
    {
      |indices|
    }

    /** `__len__` bounds the positions `__getitem__` accepts: one past either end fails. */
    lemma LenBoundsItems()
      requires dataset.Valid()
      ensures GetItem(Len()).Failure? && GetItem(-(Len() as int) - 1).Failure?
      ensures forall i :: -(Len() as int) <= i < Len() ==> GetItem(i) == dataset.GetItem(indices[if i < 0 then i + Len() else i])
    {
    }

    /** `__getitem__`: `dataset[indices[idx]]`, with Python's indexing on `indices`. */
    function GetItem(idx: int): (r: Result<Item, IndexError>)
      reads dataset
      requires dataset.Valid()
      ensures 0 <= idx < |indices| ==> r == dataset.GetItem(indices[idx])
      ensures -|indices| <= idx < 0 ==> r == dataset.GetItem(indices[idx + |indices|])
      ensures r.Success? ==> -|indices| <= idx < |indices|
    {
      match PyIndex(|indices|, idx)
      case None => Failure(IndexError)
      case Some(i) => dataset.GetItem(indices[i])
    }
  }

  /**
   * `collate_fn` (lines 149-153): unzip the batch and stack each half; it
   * succeeds exactly on a non-empty batch whose CQT windows share one shape and
   * whose label windows share one shape, and keeps the batch order.
   */
  function Collate(batch: seq<Item>): (r: Result<(seq<Matrix<real>>, seq<Matrix<int>>), CollateError>)
    ensures r.Success? <==>
              |batch| > 0 && forall i :: 0 <= i < |batch| ==>
                batch[i].0.Shape() == batch[0].0.Shape() && batch[i].1.Shape() == batch[0].1.Shape()
    ensures r.Success? ==>
              |r.value.0| == |batch| && |r.value.1| == |batch|
              && forall i :: 0 <= i < |batch| ==> r.value.0[i] == batch[i].0 && r.value.1[i] == batch[i].1
    ensures |batch| == 0 ==> r == Failure(EmptyBatch)
  {
    if |batch| == 0 then Failure(EmptyBatch)
    else
      var cqts := seq(|batch|, i requires 0 <= i < |batch| => batch[i].0);
      var gts := seq(|batch|, i requires 0 <= i < |batch| => batch[i].1);
      assert forall i :: 0 <= i < |batch| ==> cqts[i] == batch[i].0 && gts[i] == batch[i].1;
      if (forall i :: 0 <= i < |cqts| ==> cqts[i].Shape() == cqts[0].Shape())
         && (forall i :: 0 <= i < |gts| ==> gts[i].Shape() == gts[0].Shape())
      then Success((cqts, gts))
      else Failure(ShapeMismatch)
  }

  /**
   * A `Subset` over the indices `get_subset_idxs` returns yields, at every
   * position, the dataset item of a selected record.
   */
  lemma SubsetOfSelection(sub: Subset, versions: Option<set<string>>, acts: Option<set<string>>)
    requires sub.dataset.Valid()
    requires sub.indices == sub.dataset.GetSubsetIdxs(versions, acts)
    ensures forall i :: 0 <= i < sub.Len() ==>
              && 0 <= sub.indices[i] < sub.dataset.Len()
              && sub.dataset.Selected(sub.indices[i], versions, acts)
              && sub.GetItem(i).Success?
              && sub.GetItem(i) == sub.dataset.GetItem(sub.indices[i])
  {
    forall i | 0 <= i < sub.Len()
      ensures 0 <= sub.indices[i] < sub.dataset.Len() && sub.dataset.Selected(sub.indices[i], versions, acts)
    {
      assert sub.indices[i] in sub.indices;
    }
  }
}
