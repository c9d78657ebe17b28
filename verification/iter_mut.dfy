/** `IterMut` and `IntoIterator for &mut Matrix<T>` of `src/lib.rs`: a
    cursor over the rows that hands out writable views.

    As written, `src/lib.rs` does not type-check here: the field is declared
    `Cell<Matrix<T>>` while `into_iter` stores a `&mut Matrix<T>` in it, and
    `Cell` has no `borrow`/`borrow_mut` that returns the matrix. Modelled
    here is the evident intent: the cursor discipline of `Iter`, where each
    step increments the cursor and then yields the writable view of the row
    before it. The iterator keeps the matrix it borrows; a write through a
    view it handed out changes that matrix. */
module RowIterMut {
  import opened Outcomes
  import opened Dense

  datatype IterMut<T> = IterMut(m: Matrix<T>, i: nat)

  /** What one call of `next` gives back: a writable view and the cursor. */
  datatype MutStep<T> = MutStep(item: Option<Span>, rest: IterMut<T>)

  /** `into_iter` on `&mut Matrix`: the cursor starts at row 0 over the
      borrowed matrix. */
  function IntoIterMut<T>(m: Matrix<T>): (it: IterMut<T>)
    ensures it.m == m && it.i == 0
  {
    IterMut(m, 0)
  }

  /** `IterMut::next`. Past the last row it yields nothing and leaves the
      cursor alone; otherwise it advances the cursor and yields the view of
      the row it just passed, through `index_mut`. */
  function NextMut<T>(it: IterMut<T>): (r: Result<MutStep<T>, Abort>)
    requires Valid(it.m)
    ensures it.i >= it.m.rows ==> r == Success(MutStep(None, it))
    ensures it.i < it.m.rows ==> (r.Success? <==> it.m.cols > 0)
    ensures r.Failure? ==> r.error == RowOutOfBounds
    ensures it.i < it.m.rows && r.Success? ==>
      r.value.rest == IterMut(it.m, it.i + 1) && r.value.item == Some(IndexMut(it.m, it.i).value)
  {
    if it.i >= it.m.rows then
      Success(MutStep(None, it))
    else
      var next := IterMut(it.m, it.i + 1);
      match IndexMut(it.m, next.i - 1)
      case Failure(e) => Failure(e)
      case Success(s) => Success(MutStep(Some(s), next))
  }

  /** A write of `row` through the view `s` the iterator handed out. */
  function WriteThrough<T>(it: IterMut<T>, s: Span, row: seq<T>): IterMut<T>
    requires s.End() <= |it.m.v| && |row| == s.len
  {
    it.(m := Store(it.m, s, row))
  }

  /** Successive views do not alias: after writing through the view one step
      yields, the next step yields a view that starts after it, whose
      contents the write left alone, and the written row stays as written. */
  lemma SuccessiveViewsDisjoint<T>(it: IterMut<T>, row: seq<T>)
    requires Valid(it.m) && it.i < it.m.rows && it.m.cols > 0 && |row| == it.m.cols
    ensures NextMut(it).Success? && NextMut(it).value.item.Some?
    ensures
      var s1 := NextMut(it).value.item.value;
      var after := WriteThrough(NextMut(it).value.rest, s1, row);
      && Valid(after.m)
      && Row(after.m, it.i) == row
      && NextMut(after).Success?
      && (it.i + 1 < it.m.rows <==> NextMut(after).value.item.Some?)
      && (NextMut(after).value.item.Some? ==>
            var s2 := NextMut(after).value.item.value;
            && s1.End() <= s2.start
            && after.m.v[s2.start .. s2.End()] == it.m.v[s2.start .. s2.End()])
  {
    var s1 := NextMut(it).value.item.value;
    var after := WriteThrough(NextMut(it).value.rest, s1, row);
    assert after.m == SetRow(it.m, it.i, row).value;
    if it.i + 1 < it.m.rows {
      RowsDisjoint(it.m, it.i, it.i + 1);
    }
  }

  /** Element `j` of row `i` rewritten by `f`, for every `j`: the edit a loop
      body applies through a writable row view. */
  function Edit<T>(f: (nat, nat, T) -> T, i: nat, row: seq<T>): (r: seq<T>)
    ensures |r| == |row|
  {
    seq(|row|, j requires 0 <= j < |row| => f(i, j, row[j]))
  }

  /** `for row in &mut m { for j in 0..row.len() { row[j] = f(i, j, row[j]) } }`
      driven by `IterMut`: every row is rewritten through its own view and no
      write reaches another row. A zero-width matrix with rows aborts on the
      first step. */
  method ForEachRowMut<T>(m: Matrix<T>, f: (nat, nat, T) -> T) returns (r: Result<Matrix<T>, Abort>)
    requires Valid(m)
    ensures r.Success? <==> m.rows == 0 || m.cols > 0
    ensures r.Failure? ==> r.error == RowOutOfBounds
    ensures r.Success? ==> Valid(r.value) && r.value.rows == m.rows && r.value.cols == m.cols
    ensures r.Success? ==> forall i :: 0 <= i < m.rows ==> Row(r.value, i) == Edit(f, i, Row(m, i))
  {
    var it := IntoIterMut(m);
    while true
      invariant Valid(it.m) && it.m.rows == m.rows && it.m.cols == m.cols && it.i <= m.rows
      invariant it.i > 0 ==> m.cols > 0
      invariant forall k :: 0 <= k < it.i ==> Row(it.m, k) == Edit(f, k, Row(m, k))
      invariant forall k :: it.i <= k < m.rows ==> Row(it.m, k) == Row(m, k)
      decreases m.rows - it.i
    {
      var step := NextMut(it);
      match step {
        case Failure(e) =>
          return Failure(e);
        case Success(MutStep(None, _)) =>
          return Success(it.m);
        case Success(MutStep(Some(s), rest)) =>
          var i := rest.i - 1;
          var row := Edit(f, i, it.m.v[s.start .. s.End()]);
          assert Store(it.m, s, row) == SetRow(it.m, i, row).value;
          it := WriteThrough(rest, s, row);
      }
    }
  }
}
