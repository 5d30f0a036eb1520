/** The numpy array operations the normalisation steps use: shape, squeeze,
    transpose (`.T`), `np.flipud`, `np.fliplr` and reversal of a coordinate
    vector (`np.flip`).

    An array read from a grid file has two axes that carry data and possibly
    extra axes of length 1 (a time axis, say) before or after them; `Raw`
    holds exactly that. `np.squeeze` removes every axis of length 1, so what
    it returns has rank 2, 1 or 0: `Squeezed`. */
module Arrays {

  /** A rank-2 array with `rows` x `cols` cells; `cells[i][j]` is row i,
      column j. The width is kept explicitly because an array with no rows
      still has one. */
  datatype Matrix<T> = Matrix(rows: nat, cols: nat, cells: seq<seq<T>>)

  predicate Rect<T>(m: Matrix<T>) {
    |m.cells| == m.rows && forall i :: 0 <= i < m.rows ==> |m.cells[i]| == m.cols
  }

  /** An array of shape `[1] * lead + [m.rows, m.cols] + [1] * trail`. */
  datatype Raw<T> = Raw(lead: nat, m: Matrix<T>, trail: nat)

  /** An array of rank at most 2. */
  datatype Squeezed<T> = Scalar(x: T) | Vector(v: seq<T>) | Grid(m: Matrix<T>)

  function Ones(n: nat): (s: seq<nat>)
    ensures |s| == n && forall i :: 0 <= i < n ==> s[i] == 1
  {
    seq(n, _ => 1)
  }

  /** `a.shape`. */
  function Shape<T>(a: Raw<T>): seq<nat> {
    Ones(a.lead) + [a.m.rows, a.m.cols] + Ones(a.trail)
  }

  /** `a.size`: the unit axes do not change the product. */
  function Size<T>(a: Raw<T>): nat {
    a.m.rows * a.m.cols
  }

  function ShapeOf<T>(s: Squeezed<T>): seq<nat> {
    match s
    case Scalar(_) => []
    case Vector(v) => [|v|]
    case Grid(m) => [m.rows, m.cols]
  }

  /** The shape with every axis of length 1 removed. */
  function NonUnit(shape: seq<nat>): (r: seq<nat>)
    ensures |r| <= |shape|
    ensures forall i :: 0 <= i < |r| ==> r[i] != 1
  {
    if shape == [] then []
    else if shape[0] == 1 then NonUnit(shape[1..])
    else [shape[0]] + NonUnit(shape[1..])
  }

  lemma {:induction false} NonUnitAppend(a: seq<nat>, b: seq<nat>)
    ensures NonUnit(a + b) == NonUnit(a) + NonUnit(b)
    decreases |a|
  {
    if a == [] {
      assert a + b == b;
    } else {
      assert (a + b)[1..] == a[1..] + b;
      NonUnitAppend(a[1..], b);
    }
  }

  lemma {:induction false} NonUnitOnes(n: nat)
    ensures NonUnit(Ones(n)) == []
  {
    if n > 0 {
      assert Ones(n)[1..] == Ones(n - 1);
      NonUnitOnes(n - 1);
    }
  }

  /** The unit axes around the data axes never survive a squeeze. */
  lemma NonUnitShape<T>(a: Raw<T>)
    ensures NonUnit(Shape(a)) == NonUnit([a.m.rows, a.m.cols])
  {
    NonUnitAppend(Ones(a.lead) + [a.m.rows, a.m.cols], Ones(a.trail));
    NonUnitAppend(Ones(a.lead), [a.m.rows, a.m.cols]);
    NonUnitOnes(a.lead);
    NonUnitOnes(a.trail);
  }

  /** The cells in row-major order, as `a.ravel()` lists them. */
  function Flat<T>(m: Matrix<T>): seq<T> {
    FlatRows(m.cells)
  }

  function FlatRows<T>(rows: seq<seq<T>>): seq<T> {
    if rows == [] then [] else rows[0] + FlatRows(rows[1..])
  }

  function FlatOf<T>(s: Squeezed<T>): seq<T> {
    match s
    case Scalar(x) => [x]
    case Vector(v) => v
    case Grid(m) => Flat(m)
  }

  lemma {:induction false} FlatColumn<T>(rows: seq<seq<T>>)
    requires forall i :: 0 <= i < |rows| ==> |rows[i]| == 1
    ensures FlatRows(rows) == seq(|rows|, i requires 0 <= i < |rows| => rows[i][0])
  {
    if rows != [] {
      FlatColumn(rows[1..]);
      assert rows[0] == [rows[0][0]];
    }
  }

  /** `np.squeeze(a)`: drops every axis of length 1 and keeps the cells in
      their order. */
  function Squeeze<T>(a: Raw<T>): (s: Squeezed<T>)
    requires Rect(a.m)
    ensures ShapeOf(s) == NonUnit(Shape(a))
    ensures FlatOf(s) == Flat(a.m)
    ensures s.Grid? ==> Rect(s.m) && s.m == a.m
  {
    NonUnitShape(a);
    var m := a.m;
    if m.rows == 1 && m.cols == 1 then
      assert m.cells[0] == [m.cells[0][0]];
      assert m.cells[1..] == [];
      assert FlatRows(m.cells) == m.cells[0] + FlatRows(m.cells[1..]);
      Scalar(m.cells[0][0])
    else if m.rows == 1 then
      assert m.cells[1..] == [];
      Vector(m.cells[0])
    else if m.cols == 1 then
      FlatColumn(m.cells);
      Vector(seq(m.rows, i requires 0 <= i < m.rows => m.cells[i][0]))
    else
      Grid(m)
  }

  /** `m.T` on a rank-2 array. */
  function Transpose<T>(m: Matrix<T>): (t: Matrix<T>)
    requires Rect(m)
    ensures Rect(t) && t.rows == m.cols && t.cols == m.rows
    ensures forall i, j :: 0 <= i < t.rows && 0 <= j < t.cols ==> t.cells[i][j] == m.cells[j][i]
  {
    Matrix(m.cols, m.rows,
      seq(m.cols, j requires 0 <= j < m.cols =>
        seq(m.rows, i requires 0 <= i < m.rows => m.cells[i][j])))
  }

  /** Transposing twice gives the array back. */
  lemma TransposeTwice<T>(m: Matrix<T>)
    requires Rect(m)
    ensures Transpose(Transpose(m)) == m
  {
    var t := Transpose(Transpose(m));
    assert |t.cells| == |m.cells|;
    forall i | 0 <= i < m.rows
      ensures t.cells[i] == m.cells[i]
    {
    }
  }

  /** `np.flip` on a 1-D array. */
  function Reverse<T>(s: seq<T>): (r: seq<T>)
    ensures |r| == |s|
    ensures forall i :: 0 <= i < |s| ==> r[i] == s[|s| - 1 - i]
  {
    seq(|s|, i requires 0 <= i < |s| => s[|s| - 1 - i])
  }

  lemma ReverseTwice<T>(s: seq<T>)
    ensures Reverse(Reverse(s)) == s
  {
  }

  /** `np.flipud` on a rank-2 array: the row order is reversed. */
  function FlipRows<T>(m: Matrix<T>): (f: Matrix<T>)
    requires Rect(m)
    ensures Rect(f) && f.rows == m.rows && f.cols == m.cols
    ensures forall i, j :: 0 <= i < m.rows && 0 <= j < m.cols ==> f.cells[i][j] == m.cells[m.rows - 1 - i][j]
  {
    Matrix(m.rows, m.cols, Reverse(m.cells))
  }

  lemma FlipRowsTwice<T>(m: Matrix<T>)
    requires Rect(m)
    ensures FlipRows(FlipRows(m)) == m
  {
    ReverseTwice(m.cells);
  }

  /** `np.fliplr` on a rank-2 array: the column order is reversed. */
  function FlipCols<T>(m: Matrix<T>): (f: Matrix<T>)
    requires Rect(m)
    ensures Rect(f) && f.rows == m.rows && f.cols == m.cols
    ensures forall i, j :: 0 <= i < m.rows && 0 <= j < m.cols ==> f.cells[i][j] == m.cells[i][m.cols - 1 - j]
  {
    Matrix(m.rows, m.cols, seq(m.rows, i requires 0 <= i < m.rows => Reverse(m.cells[i])))
  }

  /** Elementwise `f` over an array, as numpy ufuncs apply. */
  function MapMatrix<A, B>(m: Matrix<A>, f: A -> B): (r: Matrix<B>)
    requires Rect(m)
    ensures Rect(r) && r.rows == m.rows && r.cols == m.cols
    ensures forall i, j :: 0 <= i < m.rows && 0 <= j < m.cols ==> r.cells[i][j] == f(m.cells[i][j])
  {
    Matrix(m.rows, m.cols,
      seq(m.rows, i requires 0 <= i < m.rows =>
        seq(m.cols, j requires 0 <= j < m.cols => f(m.cells[i][j]))))
  }
}
