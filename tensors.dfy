/**
 * The slice of torch/Python semantics the dataset relies on: a two-dimensional
 * tensor as a value, row slicing `m[lo:hi, :]` with Python's bound
 * normalisation, `torch.zeros`, list indexing with negative indices, and the
 * row maximum used for the "none" column.
 */
module Tensors {
  import opened Wrappers

  /** A tensor of shape (|rows|, cols); the column count survives an empty row range. */
  datatype Matrix<T> = Matrix(cols: nat, rows: seq<seq<T>>)
  {
    ghost predicate Wf()
    {
      forall i :: 0 <= i < |rows| ==> |rows[i]| == cols
    }

    function Shape(): (nat, nat)
    {
      (|rows|, cols)
    }
  }

  /**
   * Python's normalisation of one slice bound against a length `n` (step 1):
   * a negative bound counts from the end, and the result is clamped to [0, n].
   */
  function SliceBound(i: int, n: nat): (r: nat)
    ensures r <= n
    ensures 0 <= i ==> r as int == if i <= n then i else n
    ensures -(n as int) <= i < 0 ==> r as int == i + n
    ensures i < -(n as int) ==> r == 0
  {
    if i < 0 then (if i + n < 0 then 0 else i + n)
    else if i > n then n
    else i
  }

  /** `m[lo:hi, :]`: the rows Python's slice selects, in order; empty when the bounds cross. */
  function SliceRows<T>(m: Matrix<T>, lo: int, hi: int): (r: Matrix<T>)
    ensures r.cols == m.cols
    ensures m.Wf() ==> r.Wf()
    ensures 0 <= lo <= hi <= |m.rows| ==> r.rows == m.rows[lo..hi]
    ensures 0 <= lo <= |m.rows| <= hi ==> r.rows == m.rows[lo..]
    ensures -|m.rows| <= lo < 0 && -|m.rows| <= hi < 0 ==>
              r.rows == if lo < hi then m.rows[lo + |m.rows|..hi + |m.rows|] else []
    ensures -|m.rows| <= lo < 0 && 0 <= hi <= |m.rows| ==>
              r.rows == if lo + |m.rows| < hi then m.rows[lo + |m.rows|..hi] else []
    ensures SliceBound(hi, |m.rows|) <= SliceBound(lo, |m.rows|) ==> r.rows == []
    ensures |r.rows| <= |m.rows|
    ensures forall i :: 0 <= i < |r.rows| ==> r.rows[i] in m.rows
    ensures 0 <= lo && 0 <= hi ==> |r.rows| <= if hi < lo then 0 else hi - lo
  {
    var a := SliceBound(lo, |m.rows|);
    var b := SliceBound(hi, |m.rows|);
    Matrix(m.cols, if a < b then m.rows[a..b] else [])
  }

  /** Slicing two matrices of equal row count with the same bounds gives equal row counts. */
  lemma SliceRowsSameLength<T, U>(m: Matrix<T>, p: Matrix<U>, lo: int, hi: int)
    requires |m.rows| == |p.rows|
    ensures |SliceRows(m, lo, hi).rows| == |SliceRows(p, lo, hi).rows|
  {
  }

  /** `torch.zeros((n, cols))`. */
  function Zeros(n: nat, cols: nat): (z: Matrix<int>)
    ensures z.Wf() && z.Shape() == (n, cols)
    ensures forall i, j :: 0 <= i < n && 0 <= j < cols ==> z.rows[i][j] == 0
  {
    Matrix(cols, seq(n, _ => seq(cols, _ => 0)))
  }

  /** `xs[i]` on a Python list of length `n`: the position read, or None for an IndexError. */
  function PyIndex(n: nat, i: int): (r: Option<nat>)
    ensures r.Some? <==> -(n as int) <= i < n
    ensures r.Some? ==> r.value < n && r.value as int == (if i < 0 then i + n else i)
  {
    if 0 <= i < n then Some(i)
    else if -(n as int) <= i < 0 then Some(i + n)
    else None
  }

  /** `max` over a non-empty row. */
  function SeqMax(s: seq<int>): int
    requires |s| > 0
  {
    if |s| == 1 then s[0]
    else var m := SeqMax(s[1..]); if s[0] >= m then s[0] else m
  }

  /** The maximum of a row of zeros and ones is 1 exactly when some entry is 1, and 0 otherwise. */
  lemma {:induction false} MaxOfBinary(s: seq<int>)
    requires |s| > 0
    requires forall i :: 0 <= i < |s| ==> s[i] == 0 || s[i] == 1
    ensures SeqMax(s) == 0 || SeqMax(s) == 1
    ensures SeqMax(s) == 1 <==> exists i :: 0 <= i < |s| && s[i] == 1
  {
    if |s| > 1 {
      MaxOfBinary(s[1..]);
      if SeqMax(s[1..]) == 1 {
        var i :| 0 <= i < |s[1..]| && s[1..][i] == 1;
        assert s[i + 1] == 1;
      } else {
        forall i | 1 <= i < |s| ensures s[i] == 0 {
          assert s[i] == s[1..][i - 1];
        }
      }
    }
  }
}
