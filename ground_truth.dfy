/**
 * The per-recording ground-truth matrix: one row per CQT frame, one column per
 * motif (0..19) and a last "none" column (20). An annotation sets its motif's
 * column on its rounded frame range; the "none" column is then one minus the
 * row maximum of the motif columns.
 */
module GroundTruthLabels {
  import opened Frames
  import opened Tensors
  import opened Records

  const NumClasses: int := 21
  const NoneColumn: int := 20

  /** First frame annotation `a` labels in a matrix of `frames` rows (`start_idx`, slice-normalised). */
  function LabelFrom(a: Annotation, frames: nat): nat
  {
    SliceBound(SecToFrame(a.start), frames)
  }

  /** One past the last frame annotation `a` labels (`end_idx`, slice-normalised). */
  function LabelTo(a: Annotation, frames: nat): nat
  {
    SliceBound(SecToFrame(a.end), frames)
  }

  /** Annotation `a` sets cell (f, m). */
  predicate Labels(a: Annotation, motifIndex: string -> int, frames: nat, f: int, m: int)
  {
    motifIndex(a.motif) == m && LabelFrom(a, frames) <= f < LabelTo(a, frames)
  }

  /** Some annotation of `anns` sets cell (f, m). */
  predicate Covered(anns: seq<Annotation>, motifIndex: string -> int, frames: nat, f: int, m: int)
  {
    exists k :: 0 <= k < |anns| && Labels(anns[k], motifIndex, frames, f, m)
  }

  /** Every annotation's motif has a motif column: `motif2idx` maps into 0..19. */
  predicate MotifsInRange(anns: seq<Annotation>, motifIndex: string -> int)
  {
    forall k :: 0 <= k < |anns| ==> 0 <= motifIndex(anns[k].motif) < NoneColumn
  }

  /** The motif columns of row `f` after every annotation has been written. */
  function MotifCells(anns: seq<Annotation>, motifIndex: string -> int, frames: nat, f: int): seq<int>
  {
    seq(NoneColumn, m => if Covered(anns, motifIndex, frames, f, m) then 1 else 0)
  }

  /** Row `f` of the finished matrix: the motif cells, then `1 - max(motif cells)`. */
  function GroundTruthRow(anns: seq<Annotation>, motifIndex: string -> int, frames: nat, f: int): seq<int>
  {
    var cells := MotifCells(anns, motifIndex, frames, f);
    cells + [1 - SeqMax(cells)]
  }

  /** `instances_gt[key]` for a recording of `frames` frames annotated with `anns`. */
  function GroundTruth(frames: nat, anns: seq<Annotation>, motifIndex: string -> int): Matrix<int>
  {
    Matrix(NumClasses, seq(frames, f => GroundTruthRow(anns, motifIndex, frames, f)))
  }

  /** A label row: 21 cells of 0 or 1, the "none" cell being 1 exactly when no motif cell is. */
  ghost predicate IsLabelRow(row: seq<int>)
  {
    && |row| == NumClasses
    && (forall c :: 0 <= c < NumClasses ==> row[c] == 0 || row[c] == 1)
    && (row[NoneColumn] == 1 <==> forall c :: 0 <= c < NoneColumn ==> row[c] == 0)
  }

  ghost predicate IsLabelMatrix(m: Matrix<int>)
  {
    m.cols == NumClasses && forall f :: 0 <= f < |m.rows| ==> IsLabelRow(m.rows[f])
  }

  /** The ground truth has one label row per frame. */
  lemma GroundTruthIsLabelMatrix(frames: nat, anns: seq<Annotation>, motifIndex: string -> int)
    ensures |GroundTruth(frames, anns, motifIndex).rows| == frames
    ensures GroundTruth(frames, anns, motifIndex).Wf()
    ensures IsLabelMatrix(GroundTruth(frames, anns, motifIndex))
  {
    var gt := GroundTruth(frames, anns, motifIndex);
    forall f | 0 <= f < frames
      ensures IsLabelRow(gt.rows[f])
    {
      var cells := MotifCells(anns, motifIndex, frames, f);
      MaxOfBinary(cells);
      var row := gt.rows[f];
      assert row == cells + [1 - SeqMax(cells)];
      assert forall c :: 0 <= c < NoneColumn ==> row[c] == cells[c];
      assert row[NoneColumn] == 1 - SeqMax(cells);
      if forall c :: 0 <= c < NoneColumn ==> cells[c] == 0 {
        assert SeqMax(cells) == 0;
      } else {
        var c :| 0 <= c < NoneColumn && cells[c] != 0;
        assert cells[c] == 1;
      }
    }
  }

  /**
   * For annotations at non-negative times, motif column m of frame f is 1
   * exactly when an annotation of that motif has rounded start <= f < rounded
   * end, and 0 otherwise: the slice only clamps at the last frame.
   */
  lemma MotifColumnIff(frames: nat, anns: seq<Annotation>, motifIndex: string -> int, f: int, m: int)
    requires forall k :: 0 <= k < |anns| ==> 0.0 <= anns[k].start && 0.0 <= anns[k].end
    requires 0 <= f < frames && 0 <= m < NoneColumn
    ensures GroundTruth(frames, anns, motifIndex).rows[f][m] == 0 || GroundTruth(frames, anns, motifIndex).rows[f][m] == 1
    ensures GroundTruth(frames, anns, motifIndex).rows[f][m] == 1 <==>
              exists k :: 0 <= k < |anns| && motifIndex(anns[k].motif) == m
                                            && SecToFrame(anns[k].start) <= f < SecToFrame(anns[k].end)
  {
    forall k | 0 <= k < |anns|
      ensures Labels(anns[k], motifIndex, frames, f, m) <==>
                motifIndex(anns[k].motif) == m && SecToFrame(anns[k].start) <= f < SecToFrame(anns[k].end)
    {
      SecToFrameNonNegative(anns[k].start);
      SecToFrameNonNegative(anns[k].end);
    }
    assert GroundTruth(frames, anns, motifIndex).rows[f][m] == MotifCells(anns, motifIndex, frames, f)[m];
  }

  /** Covering by one more annotation: the cells it labels join the covered ones. */
  lemma CoveredExtend(anns: seq<Annotation>, k: nat, motifIndex: string -> int, frames: nat, f: int, m: int)
    requires k < |anns|
    ensures Covered(anns[..k + 1], motifIndex, frames, f, m) <==>
              Covered(anns[..k], motifIndex, frames, f, m) || Labels(anns[k], motifIndex, frames, f, m)
  {
    if Covered(anns[..k + 1], motifIndex, frames, f, m) {
      var j :| 0 <= j < k + 1 && Labels(anns[..k + 1][j], motifIndex, frames, f, m);
      if j < k {
        assert anns[..k][j] == anns[..k + 1][j];
      }
    }
    if Covered(anns[..k], motifIndex, frames, f, m) {
      var j :| 0 <= j < k && Labels(anns[..k][j], motifIndex, frames, f, m);
      assert anns[..k + 1][j] == anns[..k][j];
    }
    if Labels(anns[k], motifIndex, frames, f, m) {
      assert anns[..k + 1][k] == anns[k];
    }
  }

  /**
   * Lines 31-43: allocate a frames x 21 zero matrix, write 1 into each
   * annotation's motif column on its frame slice, then set the last column to
   * one minus the maximum of the others.
   */
  method BuildGroundTruth(frames: nat, anns: seq<Annotation>, motifIndex: string -> int) returns (gt: Matrix<int>)
    requires MotifsInRange(anns, motifIndex)
    ensures gt == GroundTruth(frames, anns, motifIndex)
  {
    var rows: seq<seq<int>> := seq(frames, _ => seq(NumClasses, _ => 0));
    for k := 0 to |anns|
      invariant |rows| == frames
      invariant forall g :: 0 <= g < frames ==> |rows[g]| == NumClasses
      invariant forall g, c :: 0 <= g < frames && 0 <= c < NumClasses ==>
                  rows[g][c] == if c < NoneColumn && Covered(anns[..k], motifIndex, frames, g, c) then 1 else 0
    {
      var a := anns[k];
      var m := motifIndex(a.motif);
      var lo := LabelFrom(a, frames);
      var hi := LabelTo(a, frames);
      var f := lo;
      while f < hi
        invariant lo <= f && (f == lo || f <= hi)
        invariant |rows| == frames
        invariant forall g :: 0 <= g < frames ==> |rows[g]| == NumClasses
        invariant forall g, c :: 0 <= g < frames && 0 <= c < NumClasses ==>
                    rows[g][c] == if c < NoneColumn && (Covered(anns[..k], motifIndex, frames, g, c) || (c == m && lo <= g < f)) then 1 else 0
      {
        rows := rows[f := rows[f][m := 1]];
        f := f + 1;
      }
      assert f == if lo < hi then hi else lo;
      forall g, c | 0 <= g < frames && 0 <= c < NumClasses
        ensures Covered(anns[..k + 1], motifIndex, frames, g, c) <==> Covered(anns[..k], motifIndex, frames, g, c) || (c == m && lo <= g < hi)
      {
        CoveredExtend(anns, k, motifIndex, frames, g, c);
      }
    }
    assert anns[..|anns|] == anns;
    for f := 0 to frames
      invariant |rows| == frames
      invariant forall g :: 0 <= g < frames ==> |rows[g]| == NumClasses
      invariant forall g :: f <= g < frames ==> rows[g][..NoneColumn] == MotifCells(anns, motifIndex, frames, g)
      invariant forall g :: 0 <= g < f ==> rows[g] == GroundTruthRow(anns, motifIndex, frames, g)
    {
      rows := rows[f := rows[f][NoneColumn := 1 - SeqMax(rows[f][..NoneColumn])]];
    }
    gt := Matrix(NumClasses, rows);
  }
}
