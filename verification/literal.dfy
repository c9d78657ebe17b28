/** The `matrix!` literal of `src/lib.rs`, as a function of the row
    literals it is given. The expansion flattens all elements into one
    buffer, counts the row literals while checking each against the length
    of the first, and hands both to `from_vec`. */
module Literal {
  import opened Outcomes
  import opened Dense
  import Arith

  /** Every row literal is as long as the first one. */
  predicate Rectangular<T>(groups: seq<seq<T>>)
  {
    forall k :: 0 <= k < |groups| ==> |groups[k]| == |groups[0]|
  }

  /** The counting block of the expansion: one increment per row literal,
      the first length remembered, any later length that differs aborts. */
  method RowCount<T>(groups: seq<seq<T>>) returns (r: Result<nat, Abort>)
    ensures r.Success? <==> Rectangular(groups)
    ensures r.Success? ==> r.value == |groups|
    ensures r.Failure? ==> r.error == JaggedLiteral
  {
    var rows := 0;
    var rowLen: Option<nat> := None;
    while rows < |groups|
      invariant rows <= |groups|
      invariant rowLen.None? <==> rows == 0
      invariant rowLen.Some? ==> rowLen.value == |groups[0]|
      invariant Rectangular(groups[..rows])
    {
      var thisRowLen := |groups[rows]|;
      match rowLen {
        case Some(n) =>
          if thisRowLen != n {
            assert !Rectangular(groups);
            return Failure(JaggedLiteral);
          }
        case None =>
          rowLen := Some(thisRowLen);
      }
      assert groups[..rows + 1] == groups[..rows] + [groups[rows]];
      rows := rows + 1;
    }
    assert groups[..rows] == groups;
    return Success(rows);
  }

  /** Flattening `n` row literals of width `w` gives a buffer of `n * w`
      elements whose rows, read with width `w`, are the literals again. */
  lemma {:induction false} FlattenRectangular<T>(groups: seq<seq<T>>, w: nat)
    requires forall k :: 0 <= k < |groups| ==> |groups[k]| == w
    ensures |Flatten(groups)| == |groups| * w
    ensures Rows(Matrix(Flatten(groups), |groups|, w)) == groups
  {
    var n := |groups|;
    if n > 0 {
      var init := groups[..n - 1];
      FlattenRectangular(init, w);
      var m' := Matrix(Flatten(init), n - 1, w);
      var m := Matrix(Flatten(groups), n, w);
      assert |Flatten(groups)| == (n - 1) * w + w == n * w;
      forall k | 0 <= k < n
        ensures Row(m, k) == groups[k]
      {
        if k < n - 1 {
          RowOfPrefix(m', groups[n - 1], k);
          assert Rows(m')[k] == init[k];
        } else {
          assert m.v[(n - 1) * w ..] == groups[n - 1];
        }
      }
    }
  }

  /** Appending elements after a buffer leaves its existing rows alone. */
  lemma RowOfPrefix<T>(m: Matrix<T>, tail: seq<T>, k: nat)
    requires Valid(m) && k < m.rows && |tail| == m.cols
    ensures Valid(Matrix(m.v + tail, m.rows + 1, m.cols))
    ensures Row(Matrix(m.v + tail, m.rows + 1, m.cols), k) == Row(m, k)
  {
    Arith.RowFits(k, m.rows, m.cols);
  }

  /** `matrix![[..], ..]`. A jagged literal aborts before `from_vec` runs. A
      rectangular literal with at least one row gives the matrix whose rows
      are the literals, in order. With no row literals at all the expansion
      leaves the type of `row_len` undetermined and does not compile; the
      model gives it what the expansion's logic would reach, `from_vec`
      with zero rows, which aborts on the remainder by zero. */
  method MatrixLiteral<T>(groups: seq<seq<T>>) returns (r: Result<Matrix<T>, Abort>)
    ensures r.Success? <==> |groups| > 0 && Rectangular(groups)
    ensures !Rectangular(groups) ==> r == Failure(JaggedLiteral)
    ensures |groups| == 0 ==> r == Failure(RemainderByZero)
    ensures r.Success? ==> Valid(r.value) && r.value.rows == |groups| && r.value.cols == |groups[0]|
    ensures r.Success? ==> r.value.v == Flatten(groups) && Rows(r.value) == groups
  {
    var v := Flatten(groups);
    var count := RowCount(groups);
    if count.Failure? {
      return Failure(count.error);
    }
    if |groups| > 0 {
      FlattenRectangular(groups, |groups[0]|);
      Arith.DivExact(|v|, |groups|, |groups[0]|);
    }
    r := FromVec(v, count.value);
  }
}
