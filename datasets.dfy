/** The abstract view of an opened grid file that both adapters work on: the
    names of its variables, its coordinate names in order, and what a
    selection by coordinate labels returns. Opening the file (engine and
    group fallbacks) and closing it are not part of this view. */
module Datasets {
  import opened Wrappers
  import opened Text
  import opened Arrays

  /** One stored floating-point sample. */
  datatype Sample = Finite(r: real) | NaN | PosInf | NegInf

  /** The names in `ds` (data variables and coordinates) and, in order,
      the names in `ds.coords`. */
  datatype Dataset = Dataset(variables: seq<string>, coords: seq<string>)

  /** A label slice `slice(start, stop)`. */
  datatype Slice = Slice(start: real, stop: real)

  /** The window of a selection: a label slice per coordinate. */
  datatype Window = Window(lat: Slice, lon: Slice)

  /** What an adapter asks of the file: the variable, the names of its
      latitude and longitude coordinates, and the window to select
      (`None`: the whole variable). */
  datatype ViewRequest = ViewRequest(variable: string, latName: string, lonName: string, window: Option<Window>)

  /** What a selection yields: the values and the latitude and longitude
      coordinate vectors, or the exception the selection raised. */
  datatype Selection =
    | Selected(values: Raw<Sample>, lats: seq<real>, lons: seq<real>)
    | SelectionError

  /** A selection is well-formed when its value array is rectangular. */
  predicate WellFormed(s: Selection) {
    s.Selected? ==> Rect(s.values.m)
  }

  /** The first of `candidates` that the dataset holds, as
      `next((v for v in candidates if v in ds), None)` finds it. */
  function FirstPresent(candidates: seq<string>, names: seq<string>): (r: Option<string>)
    ensures r.None? <==> forall c :: c in candidates ==> c !in names
    ensures r.Some? ==> exists k :: 0 <= k < |candidates| && candidates[k] == r.value && r.value in names
                          && forall j :: 0 <= j < k ==> candidates[j] !in names
  {
    if candidates == [] then None
    else if candidates[0] in names then
      assert candidates[0] == candidates[0];
      Some(candidates[0])
    else
      var rest := FirstPresent(candidates[1..], names);
      assert forall c :: c in candidates ==> c == candidates[0] || c in candidates[1..];
      if rest.Some? then
        var k :| 0 <= k < |candidates[1..]| && candidates[1..][k] == rest.value && rest.value in names
                 && forall j :: 0 <= j < k ==> candidates[1..][j] !in names;
        assert candidates[k + 1] == rest.value;
        rest
      else rest
  }

  /** `key` occurs in the lower-cased `name`. */
  predicate NameMatches(name: string, key: string) {
    Contains(Lower(name), key)
  }

  /** `next((k for k in coords if key in k.lower()), fallback)`: the first
      coordinate whose lower-cased name contains `key`, else `fallback`. */
  function FindCoordName(coords: seq<string>, key: string, fallback: string): (r: string)
    ensures (forall k :: 0 <= k < |coords| ==> !NameMatches(coords[k], key)) ==> r == fallback
    ensures (exists k :: 0 <= k < |coords| && NameMatches(coords[k], key)) ==>
              exists k :: 0 <= k < |coords| && r == coords[k] && NameMatches(r, key)
                          && forall j :: 0 <= j < k ==> !NameMatches(coords[j], key)
  {
    if coords == [] then fallback
    else if NameMatches(coords[0], key) then coords[0]
    else
      var r := FindCoordName(coords[1..], key, fallback);
      assert forall k :: 0 < k < |coords| ==> coords[k] == coords[1..][k - 1];
      if exists k :: 0 <= k < |coords| && NameMatches(coords[k], key) then
        var k :| 0 <= k < |coords[1..]| && r == coords[1..][k] && NameMatches(r, key)
                 && forall j :: 0 <= j < k ==> !NameMatches(coords[1..][j], key);
        assert coords[k + 1] == r;
        r
      else r
  }

  /** The latitude coordinate name: the first coordinate containing `lat`,
      defaulting to `"lat"`. */
  function LatName(ds: Dataset): string {
    FindCoordName(ds.coords, "lat", "lat")
  }

  /** The longitude coordinate name: the first coordinate containing `lon`,
      defaulting to `"lon"`. */
  function LonName(ds: Dataset): string {
    FindCoordName(ds.coords, "lon", "lon")
  }
}
