/** The local-file adapter: variable choice from its own preference list,
    coordinate names, a crop window normalised with min/max, the fallback to
    the uncropped variable, squeeze and a transpose of `(lon, lat)` data;
    and the listing of the data directory. */
module GpmService {
  import opened Wrappers
  import opened Text
  import opened Arrays
  import opened Datasets
  import GpmRouter

  /** Why `process_local_file` fails. */
  datatype ServiceError =
    | FileNotFound      // FileNotFoundError("GPM File not found")
    | VariableNotFound  // ValueError("Variable not found in GPM file")
    | SelectionFailed   // reading the (uncropped) variable or coordinates raised

  const Candidates: seq<string> := ["precipitationCal", "precipitation", "precip"]

  /** The first of `Candidates` the file holds. */
  function ChooseVariable(names: seq<string>): (r: Option<string>)
    ensures r.None? <==> forall c :: c in Candidates ==> c !in names
    ensures "precipitationCal" in names ==> r == Some("precipitationCal")
    ensures "precipitationCal" !in names && "precipitation" in names ==> r == Some("precipitation")
    ensures "precipitationCal" !in names && "precipitation" !in names && "precip" in names ==> r == Some("precip")
  {
    var r := FirstPresent(Candidates, names);
    assert Candidates[0] == "precipitationCal" && Candidates[1] == "precipitation" && Candidates[2] == "precip";
    r
  }

  /** `min` and `max` of two bounds. */
  function Smaller(a: real, b: real): real { if b < a then b else a }
  function Larger(a: real, b: real): real { if b > a then b else a }

  /** The crop window: each slice runs from the smaller to the larger of
      its two bounds, whatever order they came in. */
  function CropWindow(b: GpmRouter.Bounds): (w: Window)
    ensures w.lat.start <= w.lat.stop && w.lon.start <= w.lon.stop
    ensures multiset{w.lat.start, w.lat.stop} == multiset{b.bottom, b.top}
    ensures multiset{w.lon.start, w.lon.stop} == multiset{b.left, b.right}
  {
    Window(Slice(Smaller(b.bottom, b.top), Larger(b.bottom, b.top)),
           Slice(Smaller(b.left, b.right), Larger(b.left, b.right)))
  }

  /** The crop with its fallback: the cropped variable unless selecting it
      raised or left it empty, in which case the whole variable. */
  function CropOrWhole(view: ViewRequest -> Selection, variable: string, latName: string, lonName: string, b: GpmRouter.Bounds)
    : (s: Selection)
    ensures var cropped := view(ViewRequest(variable, latName, lonName, Some(CropWindow(b))));
            var whole := view(ViewRequest(variable, latName, lonName, None));
            s == (if cropped.Selected? && Size(cropped.values) != 0 then cropped else whole)
    ensures s.Selected? && Size(s.values) == 0 ==> s == view(ViewRequest(variable, latName, lonName, None))
  {
    var cropped := view(ViewRequest(variable, latName, lonName, Some(CropWindow(b))));
    if cropped.SelectionError? then view(ViewRequest(variable, latName, lonName, None))
    else if Size(cropped.values) == 0 then view(ViewRequest(variable, latName, lonName, None))
    else cropped
  }

  /** `data = var.squeeze()`, then `if data.shape == (len(lons),
      len(lats)): data = data.T`: the unit axes always go, and the data is
      transposed exactly when the squeezed shape is `(len(lons), len(lats))`. */
  function ExtractData<T>(values: Raw<T>, nLats: nat, nLons: nat): (r: Squeezed<T>)
    requires Rect(values.m)
    ensures NonUnit(Shape(values)) == [nLons, nLats] ==>
              && values.m.rows == nLons && values.m.cols == nLats
              && r.Grid? && Rect(r.m) && r.m.rows == nLats && r.m.cols == nLons
              && forall i, j :: 0 <= i < nLats && 0 <= j < nLons ==> r.m.cells[i][j] == values.m.cells[j][i]
    ensures NonUnit(Shape(values)) != [nLons, nLats] ==> r == Squeeze(values)
  {
    var data := Squeeze(values);
    if ShapeOf(data) == [nLons, nLats] then
      NonUnitShape(values);
      assert values.m.rows == nLons && values.m.cols == nLats by {
        assert NonUnit([values.m.rows, values.m.cols]) == [nLons, nLats];
        assert values.m.rows != 1 && values.m.cols != 1;
        assert [values.m.rows, values.m.cols][1..] == [values.m.cols];
      }
      Grid(Transpose(data.m))
    else data
  }

  /** What `process_local_file` returns: the coordinate vectors as stored
      and the squeezed data. */
  datatype LocalGrid = LocalGrid(lats: seq<real>, lons: seq<real>, data: Squeezed<Sample>)

  /** The grid read from the cropped-or-whole selection: coordinates as
      stored, data squeezed and, when stored `(lon, lat)`, transposed. */
  ghost predicate LocalResult(g: LocalGrid, ds: Dataset, b: GpmRouter.Bounds, view: ViewRequest -> Selection)
    requires forall q :: WellFormed(view(q))
    requires ChooseVariable(ds.variables).Some?
  {
    var latName, lonName := LatName(ds), LonName(ds);
    var s := CropOrWhole(view, ChooseVariable(ds.variables).value, latName, lonName, b);
    assert WellFormed(s);
    && s.Selected?
    && g.lats == s.lats && g.lons == s.lons
    && g.data == ExtractData(s.values, |s.lats|, |s.lons|)
  }

  /** `process_local_file`: `fileExists` says whether the file is there and
      `view` answers the selections made on the opened dataset. The data
      is always squeezed, transposed exactly when its squeezed shape is
      `(len(lons), len(lats))`, and the coordinate order is never flipped. */
  function ProcessLocalFile(fileExists: bool, ds: Dataset, b: GpmRouter.Bounds, view: ViewRequest -> Selection)
    : (r: Result<LocalGrid, ServiceError>)
    requires forall q :: WellFormed(view(q))
    ensures !fileExists ==> r == Failure(FileNotFound)
    ensures fileExists && ChooseVariable(ds.variables).None? ==> r == Failure(VariableNotFound)
    ensures r.Success? ==> fileExists && ChooseVariable(ds.variables).Some?
    ensures r.Success? ==> LocalResult(r.value, ds, b, view)
    // a selection that raises is the only other failure; any other
    // selection, cropped or whole, gives data
    ensures fileExists && ChooseVariable(ds.variables).Some? ==>
              var s := CropOrWhole(view, ChooseVariable(ds.variables).value, LatName(ds), LonName(ds), b);
              && (s.SelectionError? <==> r == Failure(SelectionFailed))
              && (s.Selected? ==> r.Success?)
  {
    if !fileExists then Failure(FileNotFound)
    else
      match ChooseVariable(ds.variables)
      case None => Failure(VariableNotFound)
      case Some(variable) =>
        var s := CropOrWhole(view, variable, LatName(ds), LonName(ds), b);
        if s.SelectionError? then Failure(SelectionFailed)
        else
          assert WellFormed(s);
          Success(LocalGrid(s.lats, s.lons, ExtractData(s.values, |s.lats|, |s.lons|)))
  }

  /** The router and this adapter fix the shape of an array the same way when neither
      of its data axes has length 1. */
  lemma AdaptersAgree<T>(a: Raw<T>, nLats: nat, nLons: nat)
    requires Rect(a.m) && a.m.rows != 1 && a.m.cols != 1
    ensures GpmRouter.FixShape(a, nLats, nLons) == ExtractData(a, nLats, nLons)
  {
    NonUnitShape(a);
    assert NonUnit([a.m.rows, a.m.cols]) == [a.m.rows, a.m.cols] by {
      assert [a.m.rows, a.m.cols][1..] == [a.m.cols];
      assert [a.m.cols][1..] == [];
    }
    if Shape(a) == [nLats, nLons] || Shape(a) == [nLons, nLats] {
      assert |Shape(a)| == a.lead + 2 + a.trail;
    }
  }

  // ---------------------------------------------------------------------
  // list_available_files

  /** The file name ends in `.HDF5`, `.nc` or `.nc4` (case-sensitive). */
  predicate IsDataFile(name: string) {
    EndsWith(name, ".HDF5") || EndsWith(name, ".nc") || EndsWith(name, ".nc4")
  }

  /** The data files of a listing, in listing order. */
  function DataFiles(listing: seq<string>): (files: seq<string>)
    ensures |files| <= |listing|
    ensures forall f :: f in files <==> f in listing && IsDataFile(f)
  {
    if listing == [] then []
    else
      var init := DataFiles(listing[..|listing| - 1]);
      var last := listing[|listing| - 1];
      assert forall f :: f in listing <==> f in listing[..|listing| - 1] || f == last;
      if IsDataFile(last) then init + [last] else init
  }

  /** The filter keeps listing order: the data files of `a + b` are those of
      `a` followed by those of `b`. */
  lemma {:induction false} DataFilesAppend(a: seq<string>, b: seq<string>)
    ensures DataFiles(a + b) == DataFiles(a) + DataFiles(b)
    decreases |b|
  {
    if b == [] {
      assert a + b == a;
    } else {
      var b' := b[..|b| - 1];
      assert (a + b)[..|a + b| - 1] == a + b';
      assert (a + b)[|a + b| - 1] == b[|b| - 1];
      DataFilesAppend(a, b');
    }
  }

  /** Each name is kept as many times as the listing holds it, if it is a
      data file, and not at all otherwise. */
  lemma {:induction false} DataFilesCount(listing: seq<string>)
    ensures forall f :: multiset(DataFiles(listing))[f] == if IsDataFile(f) then multiset(listing)[f] else 0
  {
    if listing != [] {
      var init := listing[..|listing| - 1];
      DataFilesCount(init);
      assert listing == init + [listing[|listing| - 1]];
    }
  }

  /** `list_available_files`: nothing when the directory is missing, else
      exactly the data files of the listing, in listing order. */
  function ListAvailableFiles(dirExists: bool, listing: seq<string>): (files: seq<string>)
    ensures !dirExists ==> files == []
    ensures dirExists ==> files == DataFiles(listing)
    ensures dirExists ==> forall f :: f in files <==> f in listing && IsDataFile(f)
    ensures dirExists ==> forall f :: multiset(files)[f] == if IsDataFile(f) then multiset(listing)[f] else 0
  {
    if !dirExists then []
    else
      DataFilesCount(listing);
      DataFiles(listing)
  }
}
