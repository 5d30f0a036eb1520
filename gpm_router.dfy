/** The GPM router: the normalisation of a selected precipitation grid
    (variable choice, bounding-box slice with its retry, `np.nan_to_num`,
    shape fixing, axis flips) and the vector mode that turns contour rings
    of the smoothed grid into one polygon feature per ring.

    The Gaussian smoothing and the contour extraction are library numerics:
    the smoothed grid's cells and the contour segments per level are inputs. */
module GpmRouter {
  import opened Wrappers
  import opened Arrays
  import opened Datasets

  /** Rain-intensity thresholds in mm/hr, visited in this order. */
  const Levels: seq<real> := [0.1, 0.5, 5.0, 10.0, 20.0]

  /** Why the router's processing fails. */
  datatype GpmError =
    | NoPrecipitationVariable  // ValueError("No precipitation variable found")
    | SelectionFailed          // the label selection raised
    | EmptyCoordinate          // `lats[0]` or `lons[0]` on an empty vector
    | RankTooSmall             // `np.flipud` of a 0-d or `np.fliplr` of a 1-d array
    | EmptyReduction           // `np.max` of an empty smoothed grid
    | ContourFailed            // the contour routine rejected the grid (TypeError)

  // ---------------------------------------------------------------------
  // B. Variable choice

  /** `'precipitation'` if the file has it, else `'precipitationCal'`. */
  function ChooseVariable(names: seq<string>): (r: Option<string>)
    ensures "precipitation" in names ==> r == Some("precipitation")
    ensures "precipitation" !in names && "precipitationCal" in names ==> r == Some("precipitationCal")
    ensures r.None? <==> "precipitation" !in names && "precipitationCal" !in names
  {
    FirstPresent(["precipitation", "precipitationCal"], names)
  }

  // ---------------------------------------------------------------------
  // C. Bounding-box slice with its retry

  /** The bounds a request asks for; `top >= bottom` is not assumed. */
  datatype Bounds = Bounds(top: real, bottom: real, left: real, right: real)

  /** The first selection: latitude `slice(bottom, top)`, longitude
      `slice(left, right)`. */
  function PrimaryRequest(variable: string, latName: string, lonName: string, b: Bounds): (q: ViewRequest)
    ensures q.variable == variable && q.latName == latName && q.lonName == lonName
    ensures q.window == Some(Window(Slice(b.bottom, b.top), Slice(b.left, b.right)))
  {
    ViewRequest(variable, latName, lonName, Some(Window(Slice(b.bottom, b.top), Slice(b.left, b.right))))
  }

  /** The retry: the same request with the latitude slice's ends swapped. */
  function RetryRequest(variable: string, latName: string, lonName: string, b: Bounds): (q: ViewRequest)
    ensures var p := PrimaryRequest(variable, latName, lonName, b);
            q.window.Some? && q == p.(window := Some(p.window.value.(lat := Slice(p.window.value.lat.stop, p.window.value.lat.start))))
  {
    ViewRequest(variable, latName, lonName, Some(Window(Slice(b.top, b.bottom), Slice(b.left, b.right))))
  }

  /** Steps C: select the bounds, and only when that selection is empty
      select again with top and bottom swapped. A selection that raises is
      not retried. */
  function SliceWithRetry(view: ViewRequest -> Selection, variable: string, latName: string, lonName: string, b: Bounds)
    : (r: Result<Selection, GpmError>)
    ensures var first := view(PrimaryRequest(variable, latName, lonName, b));
            var second := view(RetryRequest(variable, latName, lonName, b));
            && (first.SelectionError? ==> r == Failure(SelectionFailed))
            && (first.Selected? && Size(first.values) != 0 ==> r == Success(first))
            && (first.Selected? && Size(first.values) == 0 ==>
                  r == if second.Selected? then Success(second) else Failure(SelectionFailed))
    ensures r.Success? ==> r.value.Selected?
  {
    var first := view(PrimaryRequest(variable, latName, lonName, b));
    if first.SelectionError? then Failure(SelectionFailed)
    else if Size(first.values) != 0 then Success(first)
    else
      var second := view(RetryRequest(variable, latName, lonName, b));
      if second.SelectionError? then Failure(SelectionFailed) else Success(second)
  }

  // ---------------------------------------------------------------------
  // D. np.nan_to_num

  /** The element type of the stored array. */
  datatype FloatFormat = Float32 | Float64

  /** `np.finfo(dtype).max`: (2 - 2^-23) * 2^127 and (2 - 2^-52) * 2^1023. */
  function MaxFinite(f: FloatFormat): (m: real)
    ensures m > 0.0
  {
    match f
    case Float32 => 340282346638528859811704183484516925440.0
    case Float64 => 179769313486231570814527423731704356798070567525844996598917476803157260780028538760589558632766878171540458953514382464234321326889464182768467546703537516986049910576551282076245490090389328944075868508455133942304583236903222948165808559332123348274797826204144723168738177180919299881250404026184124858368.0
  }

  /** The sample is a value of the format: finite samples lie within its range. */
  predicate Representable(x: Sample, f: FloatFormat) {
    x.Finite? ==> -MaxFinite(f) <= x.r <= MaxFinite(f)
  }

  /** `np.nan_to_num` on one sample: NaN becomes 0, +inf the largest finite
      value, -inf the most negative one, and a finite sample stays as it is.
      Every result is a finite value of the format. */
  function NanToNum(x: Sample, f: FloatFormat): (r: real)
    requires Representable(x, f)
    ensures -MaxFinite(f) <= r <= MaxFinite(f)
    ensures x.Finite? ==> r == x.r
    ensures x.NaN? ==> r == 0.0
    ensures x.PosInf? ==> r == MaxFinite(f)
    ensures x.NegInf? ==> r == -MaxFinite(f)
  {
    match x
    case Finite(v) => v
    case NaN => 0.0
    case PosInf => MaxFinite(f)
    case NegInf => -MaxFinite(f)
  }

  predicate AllRepresentable(a: Raw<Sample>, f: FloatFormat)
    requires Rect(a.m)
  {
    forall i, j :: 0 <= i < a.m.rows && 0 <= j < a.m.cols ==> Representable(a.m.cells[i][j], f)
  }

  /** `np.nan_to_num(subset.values)`: the same shape, every cell converted. */
  function NanToNumArray(a: Raw<Sample>, f: FloatFormat): (r: Raw<real>)
    requires Rect(a.m) && AllRepresentable(a, f)
    ensures Rect(r.m) && r.m.rows == a.m.rows && r.m.cols == a.m.cols && Shape(r) == Shape(a)
    ensures forall i, j :: 0 <= i < a.m.rows && 0 <= j < a.m.cols ==>
              r.m.cells[i][j] == NanToNum(a.m.cells[i][j], f)
  {
    Raw(a.lead, MapMatrix(a.m, (x: Sample) => if Representable(x, f) then NanToNum(x, f) else 0.0), a.trail)
  }

  /** Finite samples the format can hold come out of the conversion as
      they went in. */
  lemma FiniteValuesKept(g: Matrix<real>, f: FloatFormat, lead: nat, trail: nat)
    requires Rect(g)
    requires forall i, j :: 0 <= i < g.rows && 0 <= j < g.cols ==> -MaxFinite(f) <= g.cells[i][j] <= MaxFinite(f)
    ensures var a := Raw(lead, MapMatrix(g, (x: real) => Finite(x)), trail);
            AllRepresentable(a, f) && NanToNumArray(a, f) == Raw(lead, g, trail)
  {
    var a := Raw(lead, MapMatrix(g, (x: real) => Finite(x)), trail);
    var r := NanToNumArray(a, f);
    forall i | 0 <= i < g.rows ensures r.m.cells[i] == g.cells[i] {
      assert forall j :: 0 <= j < g.cols ==> r.m.cells[i][j] == g.cells[i][j];
    }
    assert r.m.cells == g.cells;
  }

  // ---------------------------------------------------------------------
  // E. Shape fixing

  /** Step E: transpose a `(len(lons), len(lats))` array; keep a
      `(len(lats), len(lons))` one; otherwise squeeze the unit axes away and
      transpose only when the squeezed shape is `(len(lons), len(lats))`.
      The `(lon, lat)` test comes first, so a square grid is always
      transposed; an array matching neither order is kept squeezed and
      nothing is raised. */
  function FixShape<T>(a: Raw<T>, nLats: nat, nLons: nat): (r: Squeezed<T>)
    requires Rect(a.m)
    ensures r.Grid? ==> Rect(r.m)
    // the result is the array itself, its transpose or its squeezed form
    ensures r == Grid(a.m) || r == Grid(Transpose(a.m)) || r == Squeeze(a)
    // when the data axes match the coordinates in either order, rows become latitudes
    ensures Shape(a) == [nLons, nLats] || Shape(a) == [nLats, nLons]
            || NonUnit(Shape(a)) == [nLons, nLats] || NonUnit(Shape(a)) == [nLats, nLons]
            ==> ShapeOf(r) == [nLats, nLons]
    ensures Shape(a) == [nLons, nLats] ==> r == Grid(Transpose(a.m))
    ensures Shape(a) == [nLats, nLons] && nLats != nLons ==> r == Grid(a.m)
    // no shape mismatch is ever reported: such an array is only squeezed
    ensures (Shape(a) != [nLons, nLats] && Shape(a) != [nLats, nLons]
             && NonUnit(Shape(a)) != [nLons, nLats]) ==> r == Squeeze(a)
    // after the squeeze the `(lon, lat)` test again comes first, square grids included
    ensures (Shape(a) != [nLons, nLats] && Shape(a) != [nLats, nLons]
             && NonUnit(Shape(a)) == [nLons, nLats]) ==> r == Grid(Transpose(a.m))
  {
    if Shape(a) == [nLons, nLats] then
      assert a.lead == 0 && a.trail == 0 by {
        assert |Shape(a)| == a.lead + 2 + a.trail;
      }
      assert Shape(a) == [a.m.rows, a.m.cols];
      Grid(Transpose(a.m))
    else if Shape(a) != [nLats, nLons] then
      var s := Squeeze(a);
      if ShapeOf(s) == [nLons, nLats] then
        NonUnitShape(a);
        assert a.m.rows == nLons && a.m.cols == nLats by {
          assert NonUnit([a.m.rows, a.m.cols]) == [nLons, nLats];
          assert a.m.rows != 1 && a.m.cols != 1;
          assert [a.m.rows, a.m.cols][1..] == [a.m.cols];
        }
        Grid(Transpose(s.m))
      else
        NonUnitShape(a);
        assert NonUnit(Shape(a)) == [nLats, nLons] ==> ShapeOf(s) == [nLats, nLons];
        s
    else
      assert a.lead == 0 && a.trail == 0 by {
        assert |Shape(a)| == a.lead + 2 + a.trail;
      }
      assert Shape(a) == [a.m.rows, a.m.cols];
      Grid(a.m)
  }

  // ---------------------------------------------------------------------
  // F. Axis flips

  /** The canonical grid: coordinate vectors and the values whose rows
      follow `lats` and whose columns follow `lons`. */
  datatype Processed = Processed(lats: seq<real>, lons: seq<real>, values: Squeezed<real>)

  /** The coordinate is stored descending: `c[0] > c[-1]`. */
  predicate Descending(c: seq<real>)
    requires |c| > 0
  {
    c[0] > c[|c| - 1]
  }

  /** Both coordinates non-empty, each with its first value not above its
      last. */
  predicate Oriented(p: Processed) {
    && |p.lats| > 0 && |p.lons| > 0
    && p.lats[0] <= p.lats[|p.lats| - 1]
    && p.lons[0] <= p.lons[|p.lons| - 1]
  }

  /** The input position that output position `i` of a coordinate comes
      from: mirrored when the coordinate is descending. */
  function Source(c: seq<real>, i: int): (k: int)
    requires |c| > 0
    ensures 0 <= i < |c| ==> 0 <= k < |c|
  {
    if Descending(c) then |c| - 1 - i else i
  }

  /** `np.flipud`: needs at least one axis. */
  function FlipUp(v: Squeezed<real>): (r: Result<Squeezed<real>, GpmError>)
    requires v.Grid? ==> Rect(v.m)
    ensures r.Failure? <==> v.Scalar?
    ensures r.Failure? ==> r.error == RankTooSmall
    ensures v.Vector? ==> r == Success(Vector(Reverse(v.v)))
    ensures v.Grid? ==> r == Success(Grid(FlipRows(v.m)))
  {
    match v
    case Scalar(_) => Failure(RankTooSmall)
    case Vector(xs) => Success(Vector(Reverse(xs)))
    case Grid(m) => Success(Grid(FlipRows(m)))
  }

  /** `np.fliplr`: needs at least two axes. */
  function FlipLeft(v: Squeezed<real>): (r: Result<Squeezed<real>, GpmError>)
    requires v.Grid? ==> Rect(v.m)
    ensures r.Failure? <==> !v.Grid?
    ensures r.Failure? ==> r.error == RankTooSmall
    ensures v.Grid? ==> r == Success(Grid(FlipCols(v.m)))
  {
    match v
    case Grid(m) => Success(Grid(FlipCols(m)))
    case _ => Failure(RankTooSmall)
  }

  /** Step F: reverse a descending latitude vector together with the rows,
      then a descending longitude vector together with the columns. Every
      value stays paired with the same (latitude, longitude). */
  function FixOrientation(lats: seq<real>, lons: seq<real>, v: Squeezed<real>): (r: Result<Processed, GpmError>)
    requires v.Grid? ==> Rect(v.m)
    ensures r.Failure? <==>
              || |lats| == 0 || |lons| == 0
              || (Descending(lats) && v.Scalar?)
              || (Descending(lons) && !v.Grid?)
    ensures |lats| == 0 ==> r == Failure(EmptyCoordinate)
    ensures |lats| > 0 && Descending(lats) && v.Scalar? ==> r == Failure(RankTooSmall)
    ensures |lats| > 0 && !(Descending(lats) && v.Scalar?) && |lons| == 0 ==> r == Failure(EmptyCoordinate)
    ensures |lats| > 0 && |lons| > 0 && !(Descending(lats) && v.Scalar?) && Descending(lons) && !v.Grid? ==>
              r == Failure(RankTooSmall)
    ensures r.Failure? ==> r.error == EmptyCoordinate || r.error == RankTooSmall
    // the values follow their coordinates: a vector is reversed with the
    // latitudes, a grid's rows and columns with the latitudes and longitudes
    ensures r.Success? && v.Scalar? ==> r.value.values == v
    ensures r.Success? && v.Vector? ==> r.value.values == Vector(if Descending(lats) then Reverse(v.v) else v.v)
    ensures r.Success? && v.Grid? ==>
              && r.value.values.Grid? && Rect(r.value.values.m)
              && r.value.values.m.rows == v.m.rows && r.value.values.m.cols == v.m.cols
              && forall i, j :: 0 <= i < v.m.rows && 0 <= j < v.m.cols ==>
                   r.value.values.m.cells[i][j] ==
                   v.m.cells[if Descending(lats) then v.m.rows - 1 - i else i][if Descending(lons) then v.m.cols - 1 - j else j]
    ensures r.Success? ==>
              && Oriented(r.value)
              && |r.value.lats| == |lats| && |r.value.lons| == |lons|
              && (forall i :: 0 <= i < |lats| ==> r.value.lats[i] == lats[Source(lats, i)])
              && (forall j :: 0 <= j < |lons| ==> r.value.lons[j] == lons[Source(lons, j)])
    // coordinates already ascending: nothing changes
    ensures |lats| > 0 && |lons| > 0 && !Descending(lats) && !Descending(lons) ==>
              r == Success(Processed(lats, lons, v))
  {
    if |lats| == 0 then Failure(EmptyCoordinate)
    else
      var rows := if Descending(lats) then FlipUp(v) else Success(v);
      if rows.Failure? then rows.PropagateFailure()
      else
        var lats1 := if Descending(lats) then Reverse(lats) else lats;
        if |lons| == 0 then Failure(EmptyCoordinate)
        else
          var cols := if Descending(lons) then FlipLeft(rows.value) else Success(rows.value);
          if cols.Failure? then cols.PropagateFailure()
          else
            var lons1 := if Descending(lons) then Reverse(lons) else lons;
            Success(Processed(lats1, lons1, cols.value))
  }

  /** Steps D to F on a selection: convert the samples, fix the shape and
      the orientation. */
  function Normalize(sel: Selection, f: FloatFormat): (r: Result<Processed, GpmError>)
    requires sel.Selected? && Rect(sel.values.m) && AllRepresentable(sel.values, f)
    ensures r.Success? ==> Oriented(r.value)
    ensures |sel.lats| == 0 ==> r == Failure(EmptyCoordinate)
    ensures |sel.lons| == 0 ==> r.Failure?
    ensures r.Failure? ==> r.error == EmptyCoordinate || r.error == RankTooSmall
  {
    var vals := NanToNumArray(sel.values, f);
    FixOrientation(sel.lats, sel.lons, FixShape(vals, |sel.lats|, |sel.lons|))
  }

  /** Every array the file can yield is rectangular and holds values of its format. */
  ghost predicate GoodView(view: ViewRequest -> Selection, f: FloatFormat) {
    forall q :: var s := view(q); s.Selected? ==> Rect(s.values.m) && AllRepresentable(s.values, f)
  }

  /** `_load_and_process_gpm` from the variable choice to the flips: the
      variable, the coordinate names, the slice with its retry and the
      normalisation. `view` answers `ds[variable][0].sel(...)`. */
  function LoadAndProcess(ds: Dataset, b: Bounds, f: FloatFormat, view: ViewRequest -> Selection)
    : (r: Result<Processed, GpmError>)
    requires GoodView(view, f)
    ensures ChooseVariable(ds.variables).None? <==> r == Failure(NoPrecipitationVariable)
    ensures r.Success? ==>
              && ChooseVariable(ds.variables).Some?
              && Oriented(r.value)
    // a selection that raised fails the request; otherwise it is normalised
    ensures ChooseVariable(ds.variables).Some? ==>
              var sel := SliceWithRetry(view, ChooseVariable(ds.variables).value, LatName(ds), LonName(ds), b);
              && (sel.Failure? <==> r == Failure(SelectionFailed))
              && (sel.Success? ==> r == Normalize(sel.value, f))
  {
    match ChooseVariable(ds.variables)
    case None => Failure(NoPrecipitationVariable)
    case Some(variable) =>
      var sel := SliceWithRetry(view, variable, LatName(ds), LonName(ds), b);
      if sel.Failure? then Failure(SelectionFailed)
      else
        Normalize(sel.value, f)
  }

  // ---------------------------------------------------------------------
  // Properties of the normalisation

  /** Step E on an array whose data axes have the coordinates' lengths,
      in either order, both at least 2: a `(lon, lat)` array is transposed,
      a square one included, and a `(lat, lon)` one is kept. */
  lemma ShapeFixedGrid<T>(a: Raw<T>, nLats: nat, nLons: nat)
    requires Rect(a.m) && nLats >= 2 && nLons >= 2
    requires (a.m.rows == nLats && a.m.cols == nLons) || (a.m.rows == nLons && a.m.cols == nLats)
    ensures FixShape(a, nLats, nLons)
              == if a.m.rows == nLons && a.m.cols == nLats then Grid(Transpose(a.m)) else Grid(a.m)
  {
    NonUnitShape(a);
    assert NonUnit([a.m.rows, a.m.cols]) == [a.m.rows, a.m.cols] by {
      assert [a.m.rows, a.m.cols][1..] == [a.m.cols];
      assert [a.m.cols][1..] == [];
    }
    assert |Shape(a)| == a.lead + 2 + a.trail;
  }

  /** Steps D to F on a selection whose data axes have its coordinates'
      lengths, in either order, both at least 2: the result is a
      `len(lats)` x `len(lons)` grid whose cell (i, j) is the converted
      sample stored for the latitude and the longitude that output
      positions i and j came from. Storage is read as `(lon, lat)` when
      its shape allows, a square grid included. */
  lemma NormalizeKeepsPairs(sel: Selection, f: FloatFormat)
    requires sel.Selected? && Rect(sel.values.m) && AllRepresentable(sel.values, f)
    requires |sel.lats| >= 2 && |sel.lons| >= 2
    requires var m := sel.values.m;
             (m.rows == |sel.lats| && m.cols == |sel.lons|) || (m.rows == |sel.lons| && m.cols == |sel.lats|)
    ensures Normalize(sel, f).Success?
    ensures var p := Normalize(sel, f).value;
            && |p.lats| == |sel.lats| && |p.lons| == |sel.lons|
            && (forall i :: 0 <= i < |sel.lats| ==> p.lats[i] == sel.lats[Source(sel.lats, i)])
            && (forall j :: 0 <= j < |sel.lons| ==> p.lons[j] == sel.lons[Source(sel.lons, j)])
            && p.values.Grid? && Rect(p.values.m)
            && p.values.m.rows == |sel.lats| && p.values.m.cols == |sel.lons|
    ensures var p := Normalize(sel, f).value; var m := sel.values.m;
            m.rows == |sel.lons| && m.cols == |sel.lats| ==>
              forall i, j :: 0 <= i < |sel.lats| && 0 <= j < |sel.lons| ==>
                p.values.m.cells[i][j] == NanToNum(m.cells[Source(sel.lons, j)][Source(sel.lats, i)], f)
    ensures var p := Normalize(sel, f).value; var m := sel.values.m;
            !(m.rows == |sel.lons| && m.cols == |sel.lats|) ==>
              forall i, j :: 0 <= i < |sel.lats| && 0 <= j < |sel.lons| ==>
                p.values.m.cells[i][j] == NanToNum(m.cells[Source(sel.lats, i)][Source(sel.lons, j)], f)
  {
    NormalizedCoordinates(sel, f);
    forall i, j | 0 <= i < |sel.lats| && 0 <= j < |sel.lons| {
      NormalizedCell(sel, f, i, j);
    }
  }

  /** The coordinates of `NormalizeKeepsPairs`. */
  lemma NormalizedCoordinates(sel: Selection, f: FloatFormat)
    requires sel.Selected? && Rect(sel.values.m) && AllRepresentable(sel.values, f)
    requires |sel.lats| >= 2 && |sel.lons| >= 2
    requires var m := sel.values.m;
             (m.rows == |sel.lats| && m.cols == |sel.lons|) || (m.rows == |sel.lons| && m.cols == |sel.lats|)
    ensures Normalize(sel, f).Success?
    ensures var p := Normalize(sel, f).value;
            && |p.lats| == |sel.lats| && |p.lons| == |sel.lons|
            && (forall i :: 0 <= i < |sel.lats| ==> p.lats[i] == sel.lats[Source(sel.lats, i)])
            && (forall j :: 0 <= j < |sel.lons| ==> p.lons[j] == sel.lons[Source(sel.lons, j)])
  {
    NormalizeSteps(sel, f);
    ConvertedGrid(sel, f);
  }

  /** One cell of `NormalizeKeepsPairs`. */
  lemma NormalizedCell(sel: Selection, f: FloatFormat, i: int, j: int)
    requires sel.Selected? && Rect(sel.values.m) && AllRepresentable(sel.values, f)
    requires |sel.lats| >= 2 && |sel.lons| >= 2
    requires var m := sel.values.m;
             (m.rows == |sel.lats| && m.cols == |sel.lons|) || (m.rows == |sel.lons| && m.cols == |sel.lats|)
    requires 0 <= i < |sel.lats| && 0 <= j < |sel.lons|
    ensures Normalize(sel, f).Success?
    ensures var p := Normalize(sel, f).value; var m := sel.values.m;
            && p.values.Grid? && Rect(p.values.m)
            && p.values.m.rows == |sel.lats| && p.values.m.cols == |sel.lons|
            && (m.rows == |sel.lons| && m.cols == |sel.lats| ==>
                  p.values.m.cells[i][j] == NanToNum(m.cells[Source(sel.lons, j)][Source(sel.lats, i)], f))
            && (!(m.rows == |sel.lons| && m.cols == |sel.lats|) ==>
                  p.values.m.cells[i][j] == NanToNum(m.cells[Source(sel.lats, i)][Source(sel.lons, j)], f))
  {
    var lats, lons := sel.lats, sel.lons;
    NormalizeSteps(sel, f);
    ConvertedGrid(sel, f);
    var g := FixShape(NanToNumArray(sel.values, f), |lats|, |lons|).m;
    OrientationKeepsPairs(lats, lons, g);
    var a, b := Source(lats, i), Source(lons, j);
    assert Normalize(sel, f).value.values.m.cells[i][j] == g.cells[a][b];
  }

  /** Steps D and E together: the grid of converted samples, rows
      following the latitudes. */
  lemma ConvertedGrid(sel: Selection, f: FloatFormat)
    requires sel.Selected? && Rect(sel.values.m) && AllRepresentable(sel.values, f)
    requires |sel.lats| >= 2 && |sel.lons| >= 2
    requires var m := sel.values.m;
             (m.rows == |sel.lats| && m.cols == |sel.lons|) || (m.rows == |sel.lons| && m.cols == |sel.lats|)
    ensures var r := FixShape(NanToNumArray(sel.values, f), |sel.lats|, |sel.lons|);
            && r.Grid? && Rect(r.m) && r.m.rows == |sel.lats| && r.m.cols == |sel.lons|
            && var m := sel.values.m;
               && (m.rows == |sel.lons| && m.cols == |sel.lats| ==>
                     forall i, j :: 0 <= i < |sel.lats| && 0 <= j < |sel.lons| ==> r.m.cells[i][j] == NanToNum(m.cells[j][i], f))
               && (!(m.rows == |sel.lons| && m.cols == |sel.lats|) ==>
                     forall i, j :: 0 <= i < |sel.lats| && 0 <= j < |sel.lons| ==> r.m.cells[i][j] == NanToNum(m.cells[i][j], f))
  {
    var vals := NanToNumArray(sel.values, f);
    ShapeFixedGrid(vals, |sel.lats|, |sel.lons|);
  }

  /** Such a selection gives a grid the contour routine accepts: the
      smoothed grid has its shape, so the vector mode cannot fail with
      ContourFailed on it. */
  lemma NormalizedGridContours(sel: Selection, f: FloatFormat)
    requires sel.Selected? && Rect(sel.values.m) && AllRepresentable(sel.values, f)
    requires |sel.lats| >= 2 && |sel.lons| >= 2
    requires var m := sel.values.m;
             (m.rows == |sel.lats| && m.cols == |sel.lons|) || (m.rows == |sel.lons| && m.cols == |sel.lats|)
    ensures Normalize(sel, f).Success?
    ensures var p := Normalize(sel, f).value;
            ContourAccepts(|p.lats|, |p.lons|, p.values)
  {
    NormalizedCoordinates(sel, f);
    NormalizedCell(sel, f, 0, 0);
  }

  /** Unfolds `Normalize` into steps D, E and F, in that order, for the
      lemmas below. */
  lemma NormalizeSteps(sel: Selection, f: FloatFormat)
    requires sel.Selected? && Rect(sel.values.m) && AllRepresentable(sel.values, f)
    ensures var vals := NanToNumArray(sel.values, f);
            Normalize(sel, f) == FixOrientation(sel.lats, sel.lons, FixShape(vals, |sel.lats|, |sel.lons|))
  {
  }

  predicate StrictlyIncreasing(c: seq<real>) {
    forall i, j :: 0 <= i < j < |c| ==> c[i] < c[j]
  }

  predicate StrictlyDecreasing(c: seq<real>) {
    forall i, j :: 0 <= i < j < |c| ==> c[i] > c[j]
  }

  /** A coordinate vector stored strictly monotone in either direction
      comes out strictly ascending. */
  lemma MonotoneComesOutAscending(lats: seq<real>, lons: seq<real>, v: Squeezed<real>)
    requires v.Grid? ==> Rect(v.m)
    requires StrictlyIncreasing(lats) || StrictlyDecreasing(lats)
    requires StrictlyIncreasing(lons) || StrictlyDecreasing(lons)
    requires FixOrientation(lats, lons, v).Success?
    ensures StrictlyIncreasing(FixOrientation(lats, lons, v).value.lats)
    ensures StrictlyIncreasing(FixOrientation(lats, lons, v).value.lons)
  {
    var p := FixOrientation(lats, lons, v).value;
    forall i, j | 0 <= i < j < |p.lats| ensures p.lats[i] < p.lats[j] {
      if |lats| > 1 && Descending(lats) {
        assert !StrictlyIncreasing(lats) by { assert lats[0] > lats[|lats| - 1]; }
        assert p.lats[i] == lats[|lats| - 1 - i] && p.lats[j] == lats[|lats| - 1 - j];
      } else if |lats| > 1 {
        assert !StrictlyDecreasing(lats) by { assert lats[0] <= lats[|lats| - 1]; }
      }
    }
    forall i, j | 0 <= i < j < |p.lons| ensures p.lons[i] < p.lons[j] {
      if |lons| > 1 && Descending(lons) {
        assert !StrictlyIncreasing(lons) by { assert lons[0] > lons[|lons| - 1]; }
        assert p.lons[i] == lons[|lons| - 1 - i] && p.lons[j] == lons[|lons| - 1 - j];
      } else if |lons| > 1 {
        assert !StrictlyDecreasing(lons) by { assert lons[0] <= lons[|lons| - 1]; }
      }
    }
  }

  /** Each value stays paired with its (latitude, longitude): the value at
      output position (i, j) is the one stored at the input positions the
      two coordinates came from. */
  lemma OrientationKeepsPairs(lats: seq<real>, lons: seq<real>, g: Matrix<real>)
    requires Rect(g) && g.rows == |lats| && g.cols == |lons|
    requires FixOrientation(lats, lons, Grid(g)).Success?
    ensures var p := FixOrientation(lats, lons, Grid(g)).value;
            && p.values.Grid? && Rect(p.values.m)
            && p.values.m.rows == |lats| && p.values.m.cols == |lons|
            && forall i, j :: 0 <= i < |lats| && 0 <= j < |lons| ==>
                 p.values.m.cells[i][j] == g.cells[Source(lats, i)][Source(lons, j)]
  {
    var rows := if Descending(lats) then FlipRows(g) else g;
    var cols := if Descending(lons) then FlipCols(rows) else rows;
    var lats1 := if Descending(lats) then Reverse(lats) else lats;
    var lons1 := if Descending(lons) then Reverse(lons) else lons;
    assert FixOrientation(lats, lons, Grid(g)) == Success(Processed(lats1, lons1, Grid(cols)));
    forall i, j | 0 <= i < |lats| && 0 <= j < |lons|
      ensures cols.cells[i][j] == g.cells[Source(lats, i)][Source(lons, j)]
    {
      FlippedCell(g, lats, lons, i, j);
    }
  }

  /** One cell of `OrientationKeepsPairs`. */
  lemma FlippedCell(g: Matrix<real>, lats: seq<real>, lons: seq<real>, i: int, j: int)
    requires Rect(g) && g.rows == |lats| && g.cols == |lons|
    requires 0 <= i < |lats| && 0 <= j < |lons|
    ensures var rows := if Descending(lats) then FlipRows(g) else g;
            var cols := if Descending(lons) then FlipCols(rows) else rows;
            cols.cells[i][j] == g.cells[Source(lats, i)][Source(lons, j)]
  {
    var rows := if Descending(lats) then FlipRows(g) else g;
    var b := Source(lons, j);
    assert rows.cells[i][b] == g.cells[Source(lats, i)][b];
  }

  /** A grid already in canonical form and not square is returned as it
      is: no transpose, no flip. */
  lemma CanonicalGridUnchanged(lats: seq<real>, lons: seq<real>, g: Matrix<real>)
    requires Rect(g) && g.rows == |lats| && g.cols == |lons| && |lats| != |lons|
    requires |lats| > 0 && |lons| > 0 && !Descending(lats) && !Descending(lons)
    ensures FixOrientation(lats, lons, FixShape(Raw(0, g, 0), |lats|, |lons|)) == Success(Processed(lats, lons, Grid(g)))
  {
    assert Shape(Raw(0, g, 0)) == [|lats|, |lons|];
  }

  /** A field stored with descending latitudes and in (lon, lat) order
      comes back as the same field in canonical form. */
  lemma InvertedFieldRestored(lats: seq<real>, lons: seq<real>, g: Matrix<real>)
    requires Rect(g) && g.rows == |lats| && g.cols == |lons|
    requires |lats| > 0 && |lons| > 0 && lats[0] < lats[|lats| - 1] && !Descending(lons)
    ensures var stored := Raw(0, Transpose(FlipRows(g)), 0);
            FixOrientation(Reverse(lats), lons, FixShape(stored, |lats|, |lons|)) == Success(Processed(lats, lons, Grid(g)))
  {
    var stored := Raw(0, Transpose(FlipRows(g)), 0);
    InvertedShapeFixed(g, |lats|, |lons|);
    var r := Reverse(lats);
    assert Descending(r);
    ReverseTwice(lats);
    FlipRowsTwice(g);
    assert FlipUp(Grid(FlipRows(g))) == Success(Grid(g));
  }

  lemma InvertedShapeFixed(g: Matrix<real>, nLats: nat, nLons: nat)
    requires Rect(g) && g.rows == nLats && g.cols == nLons
    ensures FixShape(Raw(0, Transpose(FlipRows(g)), 0), nLats, nLons) == Grid(FlipRows(g))
  {
    var stored := Raw(0, Transpose(FlipRows(g)), 0);
    assert Shape(stored) == [nLons, nLats];
    TransposeTwice(FlipRows(g));
  }

  /** The `(lon, lat)` test comes first, so a square grid already in
      (lat, lon) order is transposed all the same: the value stored at
      (lat 0, lon 20) is moved to (lat 1, lon 10). */
  lemma SquareGridTransposed()
    ensures var g := Matrix(2, 2, [[1.0, 2.0], [3.0, 4.0]]);
            Normalize(Selected(Raw(0, MapMatrix(g, (x: real) => Finite(x)), 0), [0.0, 1.0], [10.0, 20.0]), Float32)
              == Success(Processed([0.0, 1.0], [10.0, 20.0], Grid(Matrix(2, 2, [[1.0, 3.0], [2.0, 4.0]]))))
  {
    var g := Matrix(2, 2, [[1.0, 2.0], [3.0, 4.0]]);
    FiniteValuesKept(g, Float32, 0, 0);
    assert Shape(Raw(0, g, 0)) == [2, 2];
    var t := Transpose(g);
    assert t.cells[0] == [1.0, 3.0];
    assert t.cells[1] == [2.0, 4.0];
    assert t == Matrix(2, 2, [[1.0, 3.0], [2.0, 4.0]]);
    assert FixShape(Raw(0, g, 0), 2, 2) == Grid(t);
    assert !Descending([0.0, 1.0]) && !Descending([10.0, 20.0]);
  }

  /** An array of shape (3, 4) against 5 latitudes and 4 longitudes matches
      the coordinates in neither order; it is kept as it is and no error
      is raised. */
  lemma MismatchedShapeKept(lats: seq<real>, lons: seq<real>, g: Matrix<real>)
    requires Rect(g) && g.rows == 3 && g.cols == 4 && |lats| == 5 && |lons| == 4
    requires !Descending(lats) && !Descending(lons)
    ensures FixOrientation(lats, lons, FixShape(Raw(0, g, 0), |lats|, |lons|)) == Success(Processed(lats, lons, Grid(g)))
    // the contour routine then rejects it
    ensures !ContourAccepts(|lats|, |lons|, Grid(g))
  {
    assert Shape(Raw(0, g, 0)) == [3, 4];
    assert NonUnit([3, 4]) == [3, 4] by {
      assert [3, 4][1..] == [4];
      assert [4][1..] == [];
    }
  }

  // ---------------------------------------------------------------------
  // Vector mode: contour rings into polygon features

  /** A contour vertex (longitude, latitude). */
  type Vertex = (real, real)

  /** One GeoJSON feature: a MultiPolygon holding one polygon of one ring,
      with its `level` property. */
  datatype Feature = Feature(level: real, ring: seq<Vertex>)

  predicate Closed(ring: seq<Vertex>) {
    |ring| > 0 && ring[0] == ring[|ring| - 1]
  }

  /** Closes a ring whose last vertex differs from its first by appending
      the first; a closed ring is left alone, so closing is idempotent. */
  function CloseRing(ring: seq<Vertex>): (c: seq<Vertex>)
    requires |ring| > 0
    ensures Closed(c) && |c| >= |ring|
    ensures c[..|ring|] == ring
    ensures Closed(ring) ==> c == ring
    ensures !Closed(ring) ==> |c| == |ring| + 1
  {
    if ring[0] != ring[|ring| - 1] then ring + [ring[0]] else ring
  }

  /** The features for one level's rings, in extraction order: rings with
      fewer than 3 vertices are dropped, the others closed. */
  function RingFeatures(level: real, rings: seq<seq<Vertex>>): (fs: seq<Feature>)
    ensures |fs| <= |rings|
    ensures forall f :: f in fs ==> f.level == level && Closed(f.ring) && |f.ring| >= 3
  {
    if rings == [] then []
    else
      var init := RingFeatures(level, rings[..|rings| - 1]);
      var last := rings[|rings| - 1];
      if |last| < 3 then init else init + [Feature(level, CloseRing(last))]
  }

  /** `allsegs` for one level, as the contour routine returns it. */
  type Segments = seq<seq<seq<Vertex>>>

  /** One level: nothing when the grid's maximum is below it, else a
      feature per kept ring of the first segment list. */
  function LevelFeatures(level: real, peak: real, allsegs: Segments): (fs: seq<Feature>)
    ensures peak < level || |allsegs| == 0 ==> fs == []
    ensures level <= peak && |allsegs| > 0 ==> fs == RingFeatures(level, allsegs[0])
    ensures forall f :: f in fs ==> f.level == level && level <= peak
  {
    if peak < level then []
    else if |allsegs| > 0 then RingFeatures(level, allsegs[0])
    else []
  }

  /** What every emitted feature satisfies: its level is at most the grid's
      maximum, and its ring is closed with at least 3 vertices. */
  predicate Emitted(fs: seq<Feature>, peak: real) {
    forall f :: f in fs ==> f.level <= peak && Closed(f.ring) && |f.ring| >= 3
  }

  /** All features, level by level in the given order. Each is at or below
      the grid's maximum, with a closed ring of at least 3 vertices. */
  function Features(levels: seq<real>, peak: real, contour: real -> Segments): (fs: seq<Feature>)
    ensures Emitted(fs, peak)
  {
    if levels == [] then []
    else LevelFeatures(levels[0], peak, contour(levels[0])) + Features(levels[1..], peak, contour)
  }

  /** `np.max`: the largest cell. */
  function Max(s: seq<real>): (m: real)
    requires |s| > 0
    ensures m in s
    ensures forall x :: x in s ==> x <= m
  {
    if |s| == 1 then s[0]
    else
      var rest := Max(s[1..]);
      assert forall x :: x in s ==> x == s[0] || x in s[1..];
      if s[0] >= rest then s[0] else rest
  }

  /** The inner loop of the vector branch: appends to `features` one
      feature per ring of at least 3 vertices, each closed, in extraction
      order. */
  method AppendRingFeatures(features: seq<Feature>, level: real, rings: seq<seq<Vertex>>) returns (out: seq<Feature>)
    ensures out == features + RingFeatures(level, rings)
  {
    out := features;
    for j := 0 to |rings|
      invariant out == features + RingFeatures(level, rings[..j])
    {
      assert rings[..j + 1][..j] == rings[..j];
      var vertices := rings[j];
      if |vertices| < 3 {
        continue;
      }
      var polyCoords := vertices;
      if polyCoords[0] != polyCoords[|polyCoords| - 1] {
        polyCoords := polyCoords + [polyCoords[0]];
      }
      out := out + [Feature(level, polyCoords)];
    }
    assert rings[..|rings|] == rings;
  }

  /** What `ax.contour(lons, lats, z)` accepts: a two-dimensional `z` of at
      least 2 x 2 whose rows follow `lats` and whose columns follow `lons`.
      Anything else raises TypeError. */
  predicate ContourAccepts(nLats: nat, nLons: nat, z: Squeezed<real>) {
    z.Grid? && Rect(z.m) && z.m.rows >= 2 && z.m.cols >= 2 && z.m.rows == nLats && z.m.cols == nLons
  }

  /** The vector branch of `get_gpm_data`: for each level of `Levels`, skip
      it when the smoothed grid's maximum is below it, else close and emit
      the rings the contour routine found at that level. `smooth` is the
      smoothed grid, of the processed grid's shape; `contour(level)` is
      `allsegs` of the contour set at that single level, for a grid the
      contour routine accepts. */
  method VectorFeatures(lats: seq<real>, lons: seq<real>, smooth: Squeezed<real>, contour: real -> Segments)
    returns (r: Result<seq<Feature>, GpmError>)
    ensures |FlatOf(smooth)| == 0 ==> r == Failure(EmptyReduction)
    ensures |FlatOf(smooth)| > 0 && ContourAccepts(|lats|, |lons|, smooth) ==>
              r == Success(Features(Levels, Max(FlatOf(smooth)), contour))
    // a grid the contour routine rejects fails once some level is reached
    ensures |FlatOf(smooth)| > 0 && !ContourAccepts(|lats|, |lons|, smooth) ==>
              r == if exists l :: l in Levels && l <= Max(FlatOf(smooth)) then Failure(ContourFailed) else Success([])
  {
    var cells := FlatOf(smooth);
    var accepted := ContourAccepts(|lats|, |lons|, smooth);
    var features: seq<Feature> := [];
    for k := 0 to |Levels|
      invariant k > 0 ==> |cells| > 0
      invariant |cells| > 0 && accepted ==> features == Features(Levels[..k], Max(cells), contour)
      invariant |cells| > 0 && !accepted ==> features == [] && forall m :: 0 <= m < k ==> Max(cells) < Levels[m]
    {
      var level := Levels[k];
      if |cells| == 0 {
        return Failure(EmptyReduction);
      }
      assert Levels[..k + 1] == Levels[..k] + [level];
      FeaturesSnoc(Levels[..k], level, Max(cells), contour);
      ghost var before := features;
      if Max(cells) < level {
        continue;
      }
      if !accepted {
        assert level in Levels;
        return Failure(ContourFailed);
      }
      var allsegs := contour(level);
      if |allsegs| > 0 {
        features := AppendRingFeatures(features, level, allsegs[0]);
      }
      assert features == before + LevelFeatures(level, Max(cells), allsegs);
    }
    assert Levels[..|Levels|] == Levels;
    return Success(features);
  }

  // ---------------------------------------------------------------------
  // Properties of the vector mode

  /** Rings are handled one after another: the features of `a + b` are
      those of `a` followed by those of `b`. */
  lemma {:induction false} RingFeaturesAppend(level: real, a: seq<seq<Vertex>>, b: seq<seq<Vertex>>)
    ensures RingFeatures(level, a + b) == RingFeatures(level, a) + RingFeatures(level, b)
    decreases |b|
  {
    if b == [] {
      assert a + b == a;
    } else {
      var b' := b[..|b| - 1];
      assert (a + b)[..|a + b| - 1] == a + b';
      assert (a + b)[|a + b| - 1] == b[|b| - 1];
      RingFeaturesAppend(level, a, b');
    }
  }

  /** One ring on its own: dropped below 3 vertices, else closed. */
  lemma RingFeaturesSingle(level: real, ring: seq<Vertex>)
    ensures RingFeatures(level, [ring]) == if |ring| < 3 then [] else [Feature(level, CloseRing(ring))]
  {
    assert [ring][..0] == [];
  }

  /** A ring given as 3 vertices whose last repeats the first is emitted with
      those 3 vertices: an emitted ring need not have 4. */
  lemma ClosedTriangleKept(level: real, a: Vertex, b: Vertex)
    ensures RingFeatures(level, [[a, b, a]]) == [Feature(level, [a, b, a])]
  {
    RingFeaturesSingle(level, [a, b, a]);
  }

  /** An open ring comes out one vertex longer, so with at least 4 vertices. */
  lemma OpenRingGrows(level: real, ring: seq<Vertex>)
    requires |ring| >= 3 && ring[0] != ring[|ring| - 1]
    ensures RingFeatures(level, [ring]) == [Feature(level, ring + [ring[0]])]
    ensures |RingFeatures(level, [ring])[0].ring| >= 4
  {
    RingFeaturesSingle(level, ring);
  }

  /** Levels are handled one after another: the features for `a + b` are
      those for `a` followed by those for `b`. */
  lemma {:induction false} FeaturesAppend(a: seq<real>, b: seq<real>, peak: real, contour: real -> Segments)
    ensures Features(a + b, peak, contour) == Features(a, peak, contour) + Features(b, peak, contour)
  {
    if a == [] {
      assert a + b == b;
    } else {
      assert (a + b)[0] == a[0];
      assert (a + b)[1..] == a[1..] + b;
      FeaturesAppend(a[1..], b, peak, contour);
    }
  }

  /** One more level adds its features at the end. */
  lemma FeaturesSnoc(levels: seq<real>, level: real, peak: real, contour: real -> Segments)
    ensures Features(levels + [level], peak, contour) == Features(levels, peak, contour) + LevelFeatures(level, peak, contour(level))
  {
    FeaturesAppend(levels, [level], peak, contour);
    assert [level][1..] == [];
  }

  /** Every feature carries one of the given levels. */
  lemma {:induction false} FeatureLevelsListed(levels: seq<real>, peak: real, contour: real -> Segments)
    ensures forall f :: f in Features(levels, peak, contour) ==> f.level in levels
  {
    if levels != [] {
      var rest := levels[1..];
      FeatureLevelsListed(rest, peak, contour);
      assert forall l :: l in rest ==> l in levels;
      assert forall f :: f in LevelFeatures(levels[0], peak, contour(levels[0])) ==> f.level == levels[0];
    }
  }

  predicate LevelOrdered(fs: seq<Feature>) {
    forall i, j :: 0 <= i < j < |fs| ==> fs[i].level <= fs[j].level
  }

  /** With the levels in ascending order, the features come out in
      ascending level order. */
  lemma {:induction false} FeaturesInLevelOrder(levels: seq<real>, peak: real, contour: real -> Segments)
    requires StrictlyIncreasing(levels)
    ensures LevelOrdered(Features(levels, peak, contour))
  {
    if levels != [] {
      var first, rest := levels[0], levels[1..];
      FeaturesInLevelOrder(rest, peak, contour);
      FeatureLevelsListed(rest, peak, contour);
      var front := LevelFeatures(first, peak, contour(first));
      var back := Features(rest, peak, contour);
      assert forall f :: f in front ==> f.level == first;
      assert forall f :: f in back ==> first < f.level by {
        forall f | f in back ensures first < f.level {
          var k :| 0 <= k < |rest| && rest[k] == f.level;
          assert levels[k + 1] == f.level;
        }
      }
      var fs := front + back;
      assert LevelOrdered(back);
      forall i, j | 0 <= i < j < |fs| ensures fs[i].level <= fs[j].level {
        if j < |front| {
          assert fs[i] == front[i] && fs[j] == front[j];
          assert front[i] in front && front[j] in front;
        } else if i >= |front| {
          assert fs[i] == back[i - |front|] && fs[j] == back[j - |front|];
        } else {
          assert fs[i] == front[i] && fs[j] == back[j - |front|];
          assert front[i] in front && back[j - |front|] in back;
        }
      }
    }
  }

  /** The router's thresholds are positive and ascending. */
  lemma LevelsAscending()
    ensures StrictlyIncreasing(Levels)
    ensures forall l :: l in Levels ==> l > 0.0
  {
  }

  /** Levels above the grid's maximum contribute nothing: with every level
      above it, there are no features. */
  lemma {:induction false} AllAboveMaxYieldsNothing(levels: seq<real>, peak: real, contour: real -> Segments)
    requires forall l :: l in levels ==> l > peak
    ensures Features(levels, peak, contour) == []
  {
    if levels != [] {
      var rest := levels[1..];
      assert forall l :: l in rest ==> l in levels;
      AllAboveMaxYieldsNothing(rest, peak, contour);
      assert levels[0] in levels;
    }
  }

  /** A smoothed grid whose cells are all zero yields no feature at all. */
  lemma AllZeroGridYieldsNothing(smooth: seq<real>, contour: real -> Segments)
    requires |smooth| > 0 && forall i :: 0 <= i < |smooth| ==> smooth[i] == 0.0
    ensures Features(Levels, Max(smooth), contour) == []
  {
    LevelsAscending();
    AllAboveMaxYieldsNothing(Levels, Max(smooth), contour);
  }
}
