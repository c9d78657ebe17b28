/** The dense matrix of `src/lib.rs`: one flat buffer `v` read as `rows`
    rows of equal width `cols`, its constructors, and row indexing.

    Every abort of the source (a `panic!`, a remainder by zero, an
    out-of-bounds `Vec` index) is a `Failure` carrying the reason. Borrowed
    slices are modelled by what they denote: a read-only row is the
    sequence of its elements, a writable row is the `Span` of buffer
    positions it covers, and writing through it is `Store`. */
module Dense {
  import opened Outcomes
  import Arith

  /** Why an operation aborts. */
  datatype Abort =
    | RemainderByZero  // `from_vec` with zero rows: `len % rows` divides by zero
    | UnevenRows       // `from_vec`: the length is not a multiple of the row count
    | JaggedLiteral    // `matrix!`: a row literal differs in length from the first
    | RowOutOfBounds   // indexing: the row's first element is past the buffer

  /** The buffer and the shape it is read with. */
  datatype Matrix<T> = Matrix(v: seq<T>, rows: nat, cols: nat)

  /** The shape invariant: the buffer holds exactly `rows` rows of `cols`. */
  predicate Valid<T>(m: Matrix<T>)
  {
    |m.v| == m.rows * m.cols
  }

  /** A writable view: the buffer positions `start .. start + len`. */
  datatype Span = Span(start: nat, len: nat)
  {
    function End(): nat
    {
      start + len
    }

    predicate Contains(k: nat)
    {
      start <= k < start + len
    }
  }

  /** The positions of row `i` in a buffer of width `cols`. */
  function RowSpan(i: nat, cols: nat): Span
  {
    Span(i * cols, cols)
  }

  /** Row `i`, as the elements of its span. */
  function Row<T>(m: Matrix<T>, i: nat): (r: seq<T>)
    requires Valid(m) && i < m.rows
    ensures |r| == m.cols
  {
    Arith.RowFits(i, m.rows, m.cols);
    m.v[i * m.cols .. i * m.cols + m.cols]
  }

  /** All rows in order. */
  function Rows<T>(m: Matrix<T>): seq<seq<T>>
    requires Valid(m)
  {
    seq(m.rows, i requires 0 <= i < m.rows => Row(m, i))
  }

  /** Element `j` of row `i` is buffer element `i * cols + j`. */
  lemma RowElement<T>(m: Matrix<T>, i: nat, j: nat)
    requires Valid(m) && i < m.rows && j < m.cols
    ensures i * m.cols + j < |m.v|
    ensures Row(m, i)[j] == m.v[i * m.cols + j]
  {
    Arith.RowFits(i, m.rows, m.cols);
  }

  /** Matrices of one shape that agree on every position of row `j` have
      the same row `j`. */
  lemma RowFromPositions<T>(a: Matrix<T>, b: Matrix<T>, j: nat)
    requires Valid(a) && Valid(b) && a.rows == b.rows && a.cols == b.cols && j < a.rows
    requires forall k :: 0 <= k < |a.v| && RowSpan(j, a.cols).Contains(k) ==> a.v[k] == b.v[k]
    ensures Row(a, j) == Row(b, j)
  {
    forall x | 0 <= x < a.cols
      ensures Row(a, j)[x] == Row(b, j)[x]
    {
      RowElement(a, j, x);
      RowElement(b, j, x);
      assert RowSpan(j, a.cols).Contains(j * a.cols + x);
    }
  }

  /** `Matrix::new`: the empty 0x0 matrix; no row can be indexed. */
  function New<T>(): (m: Matrix<T>)
    ensures Valid(m) && m.rows == 0 && m.cols == 0 && |m.v| == 0
    ensures forall i: nat :: Index(m, i) == Failure(RowOutOfBounds)
  {
    Matrix([], 0, 0)
  }

  /** `Matrix::with_capacity`: the capacity is an allocation hint only, so
      whenever the allocation succeeds the result is the empty matrix,
      whatever shape is asked for. */
  function WithCapacity<T>(rows: nat, cols: nat): (m: Matrix<T>)
    ensures m == New()
    ensures Valid(m) && m.rows == 0 && m.cols == 0 && |m.v| == 0
  {
    Matrix([], 0, 0)
  }

  /** `Matrix::from_vec`: keeps the buffer, derives the width. Zero rows
      abort on the remainder by zero; a length that is not a multiple of
      `rows` aborts explicitly. */
  function FromVec<T>(v: seq<T>, rows: nat): (r: Result<Matrix<T>, Abort>)
    ensures rows == 0 ==> r == Failure(RemainderByZero)
    ensures rows > 0 && |v| % rows != 0 ==> r == Failure(UnevenRows)
    ensures r.Success? <==> rows > 0 && |v| % rows == 0
    ensures r.Success? ==> Valid(r.value) && r.value.v == v && r.value.rows == rows
  {
    if rows == 0 then Failure(RemainderByZero)
    else if |v| % rows != 0 then Failure(UnevenRows)
    else Success(Matrix(v, rows, |v| / rows))
  }

  /** Every matrix with at least one row is rebuilt by `from_vec` from its
      own buffer and row count: the derived width is the only one possible. */
  lemma FromVecInverse<T>(m: Matrix<T>)
    requires Valid(m) && m.rows > 0
    ensures FromVec(m.v, m.rows) == Success(m)
  {
    Arith.DivExact(|m.v|, m.rows, m.cols);
  }

  /** Row `i` can be indexed exactly when its first element exists. */
  predicate InBounds<T>(m: Matrix<T>, i: nat)
  {
    i * m.cols < |m.v|
  }

  /** Under the shape invariant the source's bounds condition means a real
      row of a matrix of non-zero width. */
  lemma InBoundsMeansRow<T>(m: Matrix<T>, i: nat)
    requires Valid(m)
    ensures InBounds(m, i) <==> i < m.rows && m.cols > 0
  {
    if i < m.rows {
      Arith.RowFits(i, m.rows, m.cols);
    } else {
      Arith.MulMonotone(m.rows, i, m.cols);
    }
  }

  /** `Index::index`: row `i` read-only, aborting unless `v[i * cols]` exists. */
  function Index<T>(m: Matrix<T>, i: nat): (r: Result<seq<T>, Abort>)
    requires Valid(m)
    ensures r.Success? <==> i < m.rows && m.cols > 0
    ensures r.Failure? ==> r.error == RowOutOfBounds
    ensures r.Success? ==> r.value == Row(m, i) && |r.value| == m.cols
  {
    InBoundsMeansRow(m, i);
    if InBounds(m, i) then Success(Row(m, i)) else Failure(RowOutOfBounds)
  }

  /** `IndexMut::index_mut`: the writable view of row `i`, with the same
      abort condition. The view covers exactly the positions whose row
      (offset divided by width) is `i`. */
  function IndexMut<T>(m: Matrix<T>, i: nat): (r: Result<Span, Abort>)
    requires Valid(m)
    ensures r.Success? <==> i < m.rows && m.cols > 0
    ensures r.Failure? ==> r.error == RowOutOfBounds
    ensures r.Success? ==> r.value.len == m.cols && r.value.End() <= |m.v|
    ensures r.Success? ==> forall k: nat :: k < |m.v| ==> (r.value.Contains(k) <==> k / m.cols == i)
    ensures r.Success? ==> m.v[r.value.start .. r.value.End()] == Row(m, i)
  {
    InBoundsMeansRow(m, i);
    if InBounds(m, i) then
      Arith.RowFits(i, m.rows, m.cols);
      assert forall k: nat :: k < |m.v| ==> (RowSpan(i, m.cols).Contains(k) <==> k / m.cols == i) by {
        forall k: nat | k < |m.v| {
          Arith.RowOfOffset(k, i, m.cols);
        }
      }
      Success(RowSpan(i, m.cols))
    else
      Failure(RowOutOfBounds)
  }

  /** Writing `row` through the view `s`: only the positions of `s` change. */
  function Store<T>(m: Matrix<T>, s: Span, row: seq<T>): (r: Matrix<T>)
    requires s.End() <= |m.v| && |row| == s.len
    ensures r.rows == m.rows && r.cols == m.cols && |r.v| == |m.v|
    ensures r.v[s.start .. s.End()] == row
    ensures forall k :: 0 <= k < |m.v| && !s.Contains(k) ==> r.v[k] == m.v[k]
  {
    m.(v := m.v[..s.start] + row + m.v[s.End()..])
  }

  /** `m[i]` as a place: replace row `i` through `index_mut`. The shape is
      kept, row `i` reads back as written, and every other row is as before. */
  function SetRow<T>(m: Matrix<T>, i: nat, row: seq<T>): (r: Result<Matrix<T>, Abort>)
    requires Valid(m) && |row| == m.cols
    ensures r.Success? <==> i < m.rows && m.cols > 0
    ensures r.Failure? ==> r.error == RowOutOfBounds
    ensures r.Success? ==> Valid(r.value) && r.value.rows == m.rows && r.value.cols == m.cols
    ensures r.Success? ==> Row(r.value, i) == row
    ensures r.Success? ==> forall j :: 0 <= j < m.rows && j != i ==> Row(r.value, j) == Row(m, j)
  {
    match IndexMut(m, i)
    case Failure(e) => Failure(e)
    case Success(s) =>
      var r := Store(m, s, row);
      assert Row(r, i) == row;
      assert forall j :: 0 <= j < m.rows && j != i ==> Row(r, j) == Row(m, j) by {
        forall j | 0 <= j < m.rows && j != i
          ensures Row(r, j) == Row(m, j)
        {
          RowsDisjoint(m, i, j);
          RowFromPositions(r, m, j);
        }
      }
      Success(r)
  }

  /** Distinct rows occupy disjoint buffer ranges, the earlier one first. */
  lemma RowsDisjoint<T>(m: Matrix<T>, i: nat, j: nat)
    requires Valid(m) && i < m.rows && j < m.rows && i != j
    ensures i < j ==> RowSpan(i, m.cols).End() <= RowSpan(j, m.cols).start
    ensures j < i ==> RowSpan(j, m.cols).End() <= RowSpan(i, m.cols).start
    ensures forall k: nat :: !(RowSpan(i, m.cols).Contains(k) && RowSpan(j, m.cols).Contains(k))
  {
    if i < j {
      Arith.MulMonotone(i + 1, j, m.cols);
    } else {
      Arith.MulMonotone(j + 1, i, m.cols);
    }
  }

  /** Writing back what was read changes nothing. */
  lemma SetRowSame<T>(m: Matrix<T>, i: nat)
    requires Valid(m) && i < m.rows && m.cols > 0
    ensures SetRow(m, i, Row(m, i)) == Success(m)
  {
    var r := SetRow(m, i, Row(m, i)).value;
    RowsEqual(r, m);
  }

  /** Writes to two different rows commute. */
  lemma SetRowCommutes<T>(m: Matrix<T>, i: nat, j: nat, a: seq<T>, b: seq<T>)
    requires Valid(m) && i < m.rows && j < m.rows && i != j && m.cols > 0
    requires |a| == m.cols && |b| == m.cols
    ensures SetRow(SetRow(m, i, a).value, j, b) == SetRow(SetRow(m, j, b).value, i, a)
  {
    var ab := SetRow(SetRow(m, i, a).value, j, b).value;
    var ba := SetRow(SetRow(m, j, b).value, i, a).value;
    assert forall k :: 0 <= k < m.rows ==> Row(ab, k) == Row(ba, k);
    RowsEqual(ab, ba);
  }

  /** Two matrices of the same shape with the same rows are equal. */
  lemma RowsEqual<T>(a: Matrix<T>, b: Matrix<T>)
    requires Valid(a) && Valid(b) && a.rows == b.rows && a.cols == b.cols
    requires forall i :: 0 <= i < a.rows ==> Row(a, i) == Row(b, i)
    ensures a == b
  {
    forall k | 0 <= k < |a.v|
      ensures a.v[k] == b.v[k]
    {
      SameElement(a, b, k);
    }
    assert a.v == b.v;
  }

  lemma SameElement<T>(a: Matrix<T>, b: Matrix<T>, k: nat)
    requires Valid(a) && Valid(b) && a.rows == b.rows && a.cols == b.cols
    requires forall i :: 0 <= i < a.rows ==> Row(a, i) == Row(b, i)
    requires k < |a.v|
    ensures a.v[k] == b.v[k]
  {
    var i, x := RowAndColumn(a, k);
    RowElement(a, i, x);
    RowElement(b, i, x);
    assert Row(a, i) == Row(b, i);
  }

  /** Buffer element `k` is element `k % cols` of row `k / cols`: the rows
      cover the whole buffer. */
  lemma ElementInRow<T>(m: Matrix<T>, k: nat)
    requires Valid(m) && k < |m.v|
    ensures m.cols > 0 && k / m.cols < m.rows
    ensures Row(m, k / m.cols)[k % m.cols] == m.v[k]
  {
    var i, x := k / m.cols, k % m.cols;
    Arith.RowOfOffset(k, i, m.cols);
    Arith.MulCancel(i, m.rows, m.cols);
    RowElement(m, i, x);
  }

  /** The row and column of buffer element `k`. */
  lemma RowAndColumn<T>(m: Matrix<T>, k: nat) returns (i: nat, x: nat)
    requires Valid(m) && k < |m.v|
    ensures i < m.rows && x < m.cols && k == i * m.cols + x
  {
    i, x := Arith.Decompose(k, m.rows, m.cols);
  }

  /** Concatenation of row literals (right-nested, last row last). */
  function Flatten<T>(groups: seq<seq<T>>): seq<T>
  {
    if |groups| == 0 then [] else Flatten(groups[..|groups| - 1]) + groups[|groups| - 1]
  }

  /** Concatenating the rows of a matrix gives back its buffer. */
  lemma {:induction false} FlattenRows<T>(m: Matrix<T>)
    requires Valid(m)
    ensures Flatten(Rows(m)) == m.v
  {
    FlattenRowPrefix(m, m.rows);
    assert Rows(m)[..m.rows] == Rows(m);
  }

  lemma RowExtendsPrefix<T>(m: Matrix<T>, n: nat)
    requires Valid(m) && n < m.rows
    ensures (n + 1) * m.cols <= |m.v|
    ensures m.v[..n * m.cols] + Row(m, n) == m.v[..(n + 1) * m.cols]
  {
    Arith.RowFits(n, m.rows, m.cols);
    assert (n + 1) * m.cols == n * m.cols + m.cols;
  }

  lemma {:induction false} FlattenRowPrefix<T>(m: Matrix<T>, n: nat)
    requires Valid(m) && n <= m.rows
    ensures n * m.cols <= |m.v|
    ensures Flatten(Rows(m)[..n]) == m.v[..n * m.cols]
  {
    if n == 0 {
      assert Rows(m)[..0] == [];
    } else {
      FlattenRowPrefix(m, n - 1);
      assert Rows(m)[..n][..n - 1] == Rows(m)[..n - 1];
      assert Rows(m)[..n][n - 1] == Row(m, n - 1);
      RowExtendsPrefix(m, n - 1);
    }
  }
}
