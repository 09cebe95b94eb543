/** The records the dataset is built from and hands out. */
module Records {
  import opened Wrappers
  import opened Tensors

  /** A recording, named `<version>_<act>` on disk. */
  datatype RecordingKey = RecordingKey(version: string, act: string)

  /** One annotated motif occurrence: a CSV row (motif, start second, end second). */
  datatype Annotation = Annotation(motif: string, start: real, end: real)

  /** An interval in seconds, as the sampling helpers return it. */
  datatype Interval = Interval(start: real, end: real)

  /** An entry of the occupied list: an annotation (with its motif) or a sampled negative (motif None). */
  datatype Occupied = Occupied(motif: Option<string>, start: real, end: real)

  /** `(version, act, motif, start_frame, end_frame)`. */
  datatype PositiveSample = PositiveSample(version: string, act: string, motif: string, start: int, end: int)
  {
    function Key(): RecordingKey { RecordingKey(version, act) }
  }

  /** `(version, act, start_frame, end_frame)`. */
  datatype NegativeSample = NegativeSample(version: string, act: string, start: int, end: int)
  {
    function Key(): RecordingKey { RecordingKey(version, act) }
  }

  /** A loaded recording: its CQT as a (frames, bins) matrix and its annotations. */
  datatype Recording = Recording(key: RecordingKey, cqt: Matrix<real>, instances: seq<Annotation>)

  /** One answer of a motif query: `(idx, version, act, start_sec, end_sec)`. */
  datatype MotifHit = MotifHit(idx: int, version: string, act: string, startSec: int, endSec: int)
}
