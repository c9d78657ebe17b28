# vec2d `Matrix<T>` in Dafny

A functional model of the `Matrix<T>` container of the `vec2d` crate.
The matrix is a flat buffer `v` read as `rows` rows of equal width `cols`.
The model covers:

- the constructors: `new`, `with_capacity`, `from_vec`, and the `matrix!` literal;
- row-major indexing: `Index` and `IndexMut`;
- the two row iterators: `Iter` and `IterMut`.

Layout:

- `outcomes.dfy`: the `Option` and `Result` wrappers.
- `arith.dfy`: non-linear index arithmetic. Facts such as "row `i` fits in the buffer" and "offset `k` belongs to row `k / cols`" live here.
- `dense.dfy` (module `Dense`): the `Matrix` datatype, the shape invariant `Valid` (`|v| == rows * cols`), the constructors, `Index`, `IndexMut`, and writes through a writable view.
- `iter.dfy` (module `RowIter`): the read-only cursor `Iter`.
- `iter_mut.dfy` (module `RowIterMut`): the writable cursor `IterMut`.
- `literal.dfy` (module `Literal`): the `matrix!` macro, as a function of its row literals.
- `scenarios.dfy` (module `Scenarios`): worked examples on a 3x2 matrix, stated and proved as lemmas.

Every abort in the crate is a `Failure` carrying an `Abort` reason:

- a `panic!`;
- the remainder by zero in `from_vec`;
- the bounds-checked `&v[i * cols]` in the two index operations.

The crate hands out borrowed slices. The model replaces each one by what it denotes:

- A read-only row is the sequence of its elements.
- A writable row is a `Span`, the buffer positions it covers.
- A write through a writable row is `Store`.

Aliasing safety is stated as disjointness of those spans.

Choices the model makes against the code:

- **Construction errors.** Each construction error aborts. The model keeps three reasons: zero rows (`RemainderByZero`), an uneven length (`UnevenRows`), and a jagged literal (`JaggedLiteral`).
- **Indexing.** An out-of-range row aborts at the bounds-checked `&v[i * cols]` (src/lib.rs:68, src/lib.rs:74). So indexing aborts exactly when `i * cols >= |v|`. Under the shape invariant that means `i >= rows` or `cols == 0` (`Dense.InBoundsMeansRow`). So every row of a zero-width matrix aborts. This includes the rows built by `from_vec(vec![], n)` or `matrix![[], []]`, and the first `next` of either iterator over such a matrix.
- **`IterMut`.** `src/lib.rs` does not type-check here. The field is declared as a `Cell<Matrix<T>>`, but `into_iter` stores a `&mut Matrix<T>` in it. `Cell` also has no `borrow`/`borrow_mut` that returns the matrix. The model gives `IterMut` its evident intent: the cursor of `Iter`, yielding writable rows.

## Model

| member | source | states |
|---|---|---|
| `Dense.New` | src/lib.rs:36-42 | `new` gives the 0x0 matrix with an empty buffer, which satisfies the shape invariant, and indexing any row of it aborts. |
| `Dense.WithCapacity` | src/lib.rs:44-50 | `with_capacity(r, c)` gives the same 0x0 matrix as `new` for every capacity that can be allocated. |
| `Dense.FromVec` | src/lib.rs:52-61 | `from_vec(v, rows)` aborts on the remainder by zero when `rows == 0`, and with the "Row doesn't work" panic when `rows` does not divide the length of `v`. It succeeds exactly otherwise. On success the buffer is `v` unchanged, the row count is `rows`, and the length of `v` is `rows * cols`. |
| `Dense.FromVecInverse` | src/lib.rs:52-61 | Every valid matrix with at least one row is rebuilt by `from_vec` from its own buffer and row count. The derived width is the only one possible. |
| `Dense.InBoundsMeansRow` | src/lib.rs:67-69 | Under the shape invariant, the bounds condition of `&v[i * cols]` holds exactly when `i < rows` and `cols > 0`. |
| `Dense.Index` | src/lib.rs:64-69 | `m[i]` succeeds exactly for an existing row of a matrix of non-zero width, and otherwise aborts out of bounds. On success it returns that row, of length `cols`. |
| `Dense.RowElement` | src/lib.rs:67-69 | Element `j` of row `i` is buffer element `i * cols + j`, and that position is inside the buffer. |
| `Dense.ElementInRow` | src/lib.rs:67-69 | The rows cover the buffer. Buffer element `k` is element `k % cols` of row `k / cols`, and that row exists. |
| `Dense.IndexMut` | src/lib.rs:72-76 | `index_mut(i)` aborts exactly when `index(i)` does, and otherwise returns a view of width `cols` inside the buffer that holds row `i` and covers exactly the positions `k` with `k / cols == i`. |
| `RowIter.IntoIter` | src/lib.rs:108-113 | `into_iter` on `&Matrix` starts the cursor at row 0 over the borrowed matrix, with every row still to come. |
| `Dense.Store` | src/lib.rs:73-75 | A write through a writable view keeps the shape, puts the written row at the view's positions, and leaves every other position unchanged. |
| `Dense.SetRow` | src/lib.rs:72-76 | Writing row `i` through `index_mut` has the same abort condition as `index_mut`. On success it keeps the shape and the invariant, row `i` reads back as written, and every other row is unchanged. |
| `Dense.RowsDisjoint` | src/lib.rs:73-74 | Distinct rows occupy disjoint buffer ranges, and the lower-numbered row comes first. |
| `Dense.SetRowSame` | src/lib.rs:73-74 | Writing back the row just read leaves the matrix unchanged. |
| `Dense.SetRowCommutes` | src/lib.rs:73-74 | Writes through views of two different rows commute. |
| `Dense.FlattenRows` | src/lib.rs:67-69 | Concatenating rows `0 .. rows-1` in order gives back the buffer. |
| `RowIter.Next` | src/lib.rs:92-101 | Past the last row, `next` yields nothing and leaves the cursor unchanged, so exhaustion is idempotent. Otherwise it yields row `i` and advances the cursor by exactly one, unless the width is zero, in which case the indexing aborts. |
| `RowIter.Pull` | src/lib.rs:89-113 | `n` successive calls of `next` yield row `i + k` at call `k` while that row exists, then nothing on every later call. They abort only if an existing row has width zero. |
| `RowIter.Collect` | src/lib.rs:92-101 | Calling `next` until it yields nothing gives the remaining rows, once each and in order. It aborts exactly when a row remains and the width is zero. |
| `RowIter.CollectAll` | src/lib.rs:104-113 | Iterating from `into_iter` yields every row of the matrix, in order. It aborts exactly when the matrix has rows of width zero. |
| `RowIter.IterRoundTrip` | src/lib.rs:92-113 | Building with `from_vec` and concatenating the rows that iteration yields reproduces the original buffer. Iteration aborts exactly when the buffer is empty. |
| `RowIterMut.IntoIterMut` | src/lib.rs:140-145 | `into_iter` on `&mut Matrix` starts the cursor at row 0 over the borrowed matrix. |
| `RowIterMut.NextMut` | src/lib.rs:125-133 | Past the last row, `next` yields nothing and leaves the cursor unchanged. Otherwise it advances the cursor by one and yields the writable view of the row just passed, with the abort condition of `index_mut`. |
| `RowIterMut.SuccessiveViewsDisjoint` | src/lib.rs:125-133 | After a write through the view one step yields: the written row reads back as written; the next step yields a view exactly when another row exists; that view starts after the first and holds contents the write did not change. |
| `RowIterMut.ForEachRowMut` | src/lib.rs:122-146 | Rewriting every row through the views `IterMut` yields changes each row exactly as its own edit says and keeps the shape. No edit reaches another row. A zero-width matrix with rows aborts. |
| `Literal.RowCount` | src/lib.rs:7-23 | The counting block of `matrix!` succeeds exactly when every row literal is as long as the first one. It then returns the number of row literals. Otherwise it aborts as jagged. |
| `Literal.FlattenRectangular` | src/lib.rs:6 | Flattening `n` row literals of width `w` gives a buffer of `n * w` elements. Read with width `w`, its rows are the literals again. |
| `Literal.MatrixLiteral` | src/lib.rs:4-26 | `matrix!` aborts as jagged on unequal row literals. With no rows it gives what the expansion's logic reaches, the remainder-by-zero abort of `from_vec`. Otherwise it gives the matrix whose buffer is the concatenation of the literals, with one row per literal, in order, and width equal to the first literal's length. |
| `Scenarios.IterateThreeByTwo` | src/lib.rs:92-101 | `from_vec([1, 2, 3, 4, 5, 6], 3)` has width 2. Five calls of `next` on it give `[1, 2]`, `[3, 4]`, `[5, 6]`, nothing, nothing. |
| `Scenarios.FromVecRejects` | src/lib.rs:52-55 | Seven elements in two rows abort as uneven, and zero rows abort on the remainder by zero. |
| `Scenarios.WriteMiddleRow` | src/lib.rs:73-74 | Writing `[6, 8]` into row 1 of that matrix changes positions 2 and 3 only. |

## Left out

- The `Debug` implementation (src/lib.rs:78-82) is `todo!()`, with no behaviour to model.
- The allocation capacity of `with_capacity` is not modelled. When the allocation succeeds it has no effect on the logical contents.
- Dense.WithCapacity: does not model the abort of `Vec::with_capacity(rows * cols)` (src/lib.rs:46), which panics with a capacity overflow when the requested size exceeds `isize::MAX` bytes and aborts when allocation fails. Memory limits are outside the model.
- Lifetimes and borrows are not modelled. Neither are the raw-pointer slice construction or the `Cell`/`PhantomData` fields of `IterMut`. Views are modelled as index ranges, and aliasing safety as the disjointness lemmas.
- The commented-out `JaggedMatrix` (src/lib.rs:148-166) is dead code.
- Macro-expansion mechanics are not modelled. These include the second evaluation of each element expression in the counting block (src/lib.rs:12). The macro is a function of its row literals, which are taken as already evaluated.
- `usize` overflow of `i * cols` and `rows * cols` is not modelled. All arithmetic is on unbounded naturals.
- Literal.MatrixLiteral: `matrix![]` with no row literals does not compile, because nothing fixes the type of `row_len` (src/lib.rs:8). The model gives it the `RemainderByZero` abort that the expansion's logic would reach in `from_vec`.
- Panic messages are not modelled. Only the reason for each abort is kept.
- Dense.Store: a caller's writes through a row slice are modelled as one replacement of the row by a sequence of the same length.
- RowIterMut.ForEachRowMut: the loop body's writes are an element-wise edit `f(row, column, old)`. Writes that depend on other elements of the row are covered by `Dense.Store` and `Dense.SetRow`, not by the loop.
