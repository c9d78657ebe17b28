/** Worked examples: the model's lemmas applied to a small matrix. */
module Scenarios {
  import opened Outcomes
  import opened Dense
  import opened RowIter

  /** A 3x2 matrix from `[1, 2, 3, 4, 5, 6]` iterates as `[1, 2]`, `[3, 4]`,
      `[5, 6]`, and then yields nothing on every further call. */
  lemma IterateThreeByTwo()
    ensures FromVec([1, 2, 3, 4, 5, 6], 3) == Success(Matrix([1, 2, 3, 4, 5, 6], 3, 2))
    ensures Pull(IntoIter(Matrix([1, 2, 3, 4, 5, 6], 3, 2)), 5).Success?
    ensures Pull(IntoIter(Matrix([1, 2, 3, 4, 5, 6], 3, 2)), 5).value.items
         == [Some([1, 2]), Some([3, 4]), Some([5, 6]), None, None]
  {
    var m := Matrix([1, 2, 3, 4, 5, 6], 3, 2);
    assert Row(m, 0) == [1, 2] && Row(m, 1) == [3, 4] && Row(m, 2) == [5, 6];
  }

  /** Seven elements do not split into two rows, and zero rows never work. */
  lemma FromVecRejects()
    ensures FromVec([1, 2, 3, 4, 5, 6, 7], 2) == Failure(UnevenRows)
    ensures FromVec([1, 2], 0) == Failure(RemainderByZero)
  {
  }

  /** Rewriting row 1 of the 3x2 matrix leaves rows 0 and 2 as they were. */
  lemma WriteMiddleRow()
    ensures SetRow(Matrix([1, 2, 3, 4, 5, 6], 3, 2), 1, [6, 8]) == Success(Matrix([1, 2, 6, 8, 5, 6], 3, 2))
  {
    var m := Matrix([1, 2, 3, 4, 5, 6], 3, 2);
    var r := SetRow(m, 1, [6, 8]).value;
    var expected := Matrix([1, 2, 6, 8, 5, 6], 3, 2);
    assert Row(m, 0) == [1, 2] == Row(expected, 0);
    assert Row(m, 2) == [5, 6] == Row(expected, 2);
    assert Row(r, 1) == [6, 8] == Row(expected, 1);
    RowsEqual(r, expected);
  }
}
