/** `Iter` and `IntoIterator for &Matrix<T>` of `src/lib.rs`: a read-only
    cursor over the rows. The iterator keeps the matrix it borrows and the
    index of the next row; the borrow itself is not modelled. */
module RowIter {
  import opened Outcomes
  import opened Dense
  import Arith

  datatype Iter<T> = Iter(m: Matrix<T>, i: nat)

  /** What one call of `next` gives back: the item and the advanced cursor. */
  datatype Step<T> = Step(item: Option<seq<T>>, rest: Iter<T>)

  /** The items of `n` successive calls of `next`, and the cursor after them. */
  datatype Pulled<T> = Pulled(items: seq<Option<seq<T>>>, rest: Iter<T>)

  /** `into_iter` on `&Matrix`: the cursor starts at row 0 over the
      borrowed matrix, so every row is still to come. */
  function IntoIter<T>(m: Matrix<T>): (it: Iter<T>)
    ensures it.m == m && it.i == 0 && Remaining(it) == m.rows
  {
    Iter(m, 0)
  }

  /** How many rows a cursor has still to yield. */
  function Remaining<T>(it: Iter<T>): nat
  {
    if it.i <= it.m.rows then it.m.rows - it.i else 0
  }

  /** `Iter::next`. Past the last row it yields nothing and leaves the cursor
      alone; otherwise it yields row `i` through `Index` and advances by one.
      On a zero-width matrix the `Index` of an existing row aborts. */
  function Next<T>(it: Iter<T>): (r: Result<Step<T>, Abort>)
    requires Valid(it.m)
    ensures it.i >= it.m.rows ==> r == Success(Step(None, it))
    ensures it.i < it.m.rows ==> (r.Success? <==> it.m.cols > 0)
    ensures r.Failure? ==> r.error == RowOutOfBounds
    ensures it.i < it.m.rows && r.Success? ==>
      r.value == Step(Some(Row(it.m, it.i)), Iter(it.m, it.i + 1))
  {
    if it.i >= it.m.rows then
      Success(Step(None, it))
    else
      match Index(it.m, it.i)
      case Failure(e) => Failure(e)
      case Success(row) => Success(Step(Some(row), Iter(it.m, it.i + 1)))
  }

  /** Calling `next` `n` times: the rows from the cursor on, in order, and
      after the last row nothing, however often it is asked again. */
  function Pull<T>(it: Iter<T>, n: nat): (r: Result<Pulled<T>, Abort>)
    requires Valid(it.m)
    decreases n
    ensures r.Success? <==> n == 0 || it.i >= it.m.rows || it.m.cols > 0
    ensures r.Failure? ==> r.error == RowOutOfBounds
    ensures r.Success? ==> |r.value.items| == n && r.value.rest.m == it.m
    ensures r.Success? ==> forall k :: 0 <= k < n ==>
      r.value.items[k] == if it.i + k < it.m.rows then Some(Row(it.m, it.i + k)) else None
  {
    if n == 0 then
      Success(Pulled([], it))
    else
      match Next(it)
      case Failure(e) => Failure(e)
      case Success(Step(item, rest)) =>
        match Pull(rest, n - 1)
        case Failure(e) => Failure(e)
        case Success(Pulled(items, last)) => Success(Pulled([item] + items, last))
  }

  /** Calling `next` until it yields nothing, collecting the rows: what a
      `for row in &m` loop visits. */
  function Collect<T>(it: Iter<T>): (r: Result<seq<seq<T>>, Abort>)
    requires Valid(it.m)
    decreases Remaining(it)
    ensures r.Success? <==> it.i >= it.m.rows || it.m.cols > 0
    ensures r.Failure? ==> r.error == RowOutOfBounds
    ensures r.Success? ==> |r.value| == Remaining(it)
    ensures r.Success? ==> forall k :: 0 <= k < |r.value| ==> r.value[k] == Row(it.m, it.i + k)
  {
    match Next(it)
    case Failure(e) => Failure(e)
    case Success(Step(None, _)) => Success([])
    case Success(Step(Some(row), rest)) =>
      match Collect(rest)
      case Failure(e) => Failure(e)
      case Success(rows) => Success([row] + rows)
  }

  /** Iterating from `into_iter` yields every row exactly once, in order,
      unless the matrix has rows of width zero, where the first `next`
      aborts. */
  lemma CollectAll<T>(m: Matrix<T>)
    requires Valid(m)
    ensures Collect(IntoIter(m)).Success? <==> m.rows == 0 || m.cols > 0
    ensures Collect(IntoIter(m)).Success? ==> Collect(IntoIter(m)).value == Rows(m)
  {
    var r := Collect(IntoIter(m));
    if r.Success? {
      assert |r.value| == |Rows(m)|;
      assert forall k :: 0 <= k < |r.value| ==> r.value[k] == Rows(m)[k];
    }
  }

  /** The round trip: a matrix built by `from_vec` and iterated row by row
      gives back the original buffer when concatenated. Iteration aborts
      exactly when the buffer is empty but the row count is not zero. */
  lemma IterRoundTrip<T>(v: seq<T>, rows: nat)
    requires FromVec(v, rows).Success?
    ensures Collect(IntoIter(FromVec(v, rows).value)).Success? <==> |v| > 0
    ensures Collect(IntoIter(FromVec(v, rows).value)).Success? ==>
      Flatten(Collect(IntoIter(FromVec(v, rows).value)).value) == v
  {
    var m := FromVec(v, rows).value;
    CollectAll(m);
    if m.cols == 0 {
      assert |v| == rows * 0 == 0;
    } else {
      Arith.MulMonotone(1, rows, m.cols);
    }
    FlattenRows(m);
  }
}
