/** Rectangular integer matrices with an explicit shape, and numpy's
    delete along one axis. */
module Matrices {

  /** A payoff matrix: `rows` lists of `cols` entries each. The shape is kept
      explicitly because shapes such as r x 0 and 0 x c arise during
      elimination. */
  datatype Matrix = Matrix(rows: nat, cols: nat, entries: seq<seq<int>>)
  {
    predicate Valid() {
      |entries| == rows && forall i :: 0 <= i < |entries| ==> |entries[i]| == cols
    }
  }

  /** Column `j` of `m`, top to bottom. */
  function Column(m: Matrix, j: nat): (c: seq<int>)
    requires m.Valid() && j < m.cols
    ensures |c| == m.rows
    ensures forall i :: 0 <= i < m.rows ==> c[i] == m.entries[i][j]
  {
    seq(m.rows, i requires 0 <= i < m.rows => m.entries[i][j])
  }

  /** The positions below `n` that are not in `drop`, in increasing order. */
  function KeptIndices(n: nat, drop: set<nat>): (kept: seq<nat>)
    ensures |kept| <= n
    ensures forall k :: 0 <= k < |kept| ==> kept[k] < n && kept[k] !in drop
    ensures forall i: nat :: i < n && i !in drop ==> i in kept
    ensures forall k, l :: 0 <= k < l < |kept| ==> kept[k] < kept[l]
  {
    if n == 0 then []
    else KeptIndices(n - 1, drop) + (if n - 1 in drop then [] else [n - 1])
  }

  /** numpy.delete along one axis: the elements of `s` whose positions are
      not in `drop`, one for each kept position. */
  function DeleteIndices<T>(s: seq<T>, drop: set<nat>): (r: seq<T>)
    ensures |r| == |KeptIndices(|s|, drop)|
  {
    if |s| == 0 then []
    else DeleteIndices(s[..|s| - 1], drop) + (if |s| - 1 in drop then [] else [s[|s| - 1]])
  }

  /** Deletion keeps the elements at the kept positions, in their original
      order: the k-th survivor is the element at the k-th kept position. */
  lemma {:induction false} DeleteKeepsOrder<T>(s: seq<T>, drop: set<nat>)
    ensures forall k :: 0 <= k < |DeleteIndices(s, drop)| ==>
      DeleteIndices(s, drop)[k] == s[KeptIndices(|s|, drop)[k]]
  {
    if |s| > 0 {
      var n := |s|;
      var p := s[..n - 1];
      DeleteKeepsOrder(p, drop);
      var r, rp := DeleteIndices(s, drop), DeleteIndices(p, drop);
      var kept, keptp := KeptIndices(n, drop), KeptIndices(n - 1, drop);
      assert kept == keptp + (if n - 1 in drop then [] else [n - 1]);
      assert r == rp + (if n - 1 in drop then [] else [s[n - 1]]);
      forall k | 0 <= k < |r|
        ensures r[k] == s[kept[k]]
      {
        if k < |rp| {
          assert r[k] == rp[k] == p[keptp[k]];
          assert kept[k] == keptp[k] < n - 1;
        } else {
          assert r[k] == s[n - 1] && kept[k] == n - 1;
        }
      }
    }
  }

  /** Deleting every position keeps no position. */
  lemma {:induction false} DeleteEverything(n: nat, drop: set<nat>)
    requires forall i: nat :: i < n ==> i in drop
    ensures KeptIndices(n, drop) == []
  {
    if n > 0 {
      DeleteEverything(n - 1, drop);
    }
  }

  /** `m` with the rows at the positions in `drop` removed (np.delete, axis 0). */
  function DeleteRows(m: Matrix, drop: set<nat>): (r: Matrix)
    requires m.Valid()
    ensures r.Valid() && r.cols == m.cols && r.rows <= m.rows
  {
    var kept := DeleteIndices(m.entries, drop);
    DeleteKeepsOrder(m.entries, drop);
    Matrix(|kept|, m.cols, kept)
  }

  /** `m` with the columns at the positions in `drop` removed (np.delete, axis 1). */
  function DeleteCols(m: Matrix, drop: set<nat>): (r: Matrix)
    requires m.Valid()
    ensures r.Valid() && r.rows == m.rows && r.cols <= m.cols
  {
    Matrix(m.rows, |KeptIndices(m.cols, drop)|,
           seq(m.rows, i requires 0 <= i < m.rows => DeleteIndices(m.entries[i], drop)))
  }
}
