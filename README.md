# GPM precipitation grid: normalisation, contour vectorisation and display formatting

This project is a Dafny model of the core of a precipitation dashboard
backend that serves GPM IMERG satellite grids, and proofs about that model.
It covers three parts.

- **The GPM router** (`gpm_router.dfy`). This is the processing behind the
  GPM endpoint. It picks the precipitation variable and finds the latitude
  and longitude coordinate names. It cuts the bounding box, and when that
  selection is empty it retries once with top and bottom swapped. It
  replaces NaN and infinities through `np.nan_to_num`. It fixes the array
  shape by transposing, squeezing, or transposing after squeezing. It flips
  descending latitude and longitude axes. Then it runs the vector mode:
  - for every rain threshold (0.1, 0.5, 5, 10 and 20 mm/hr), in that order,
    the threshold is skipped when the smoothed grid's maximum is below it;
  - otherwise every contour ring of at least 3 vertices is closed and
    emitted as one polygon feature carrying its level.
- **The local-file adapter** (`gpm_service.dfy`). It has its own variable
  preference list. It crops with a min/max-normalised window and falls back
  to the whole variable when the crop is empty. It squeezes the data and
  transposes `(lon, lat)` data. It also lists the data directory.
- **Display formatting** (`formatting.dfy`). `format_pretty_date` turns
  `YYYYMMDD` plus `HH` into `"DD Mon YYYY - HH:00 UTC"`. `parse_gpm_filename`
  renders the `.YYYYMMDD-SHHMM` stamp of a file name in the same layout.
  Both fall back to a plain string when the input does not parse.

Supporting modules:

- `arrays.dfy` models the numpy arrays involved. A rank-2 matrix sits
  between leading and trailing axes of length 1. `np.squeeze` gives a
  scalar, a vector or a grid. The module also models transposition and the
  flips.
- `datasets.dfy` is the abstract view of an opened file. It holds the
  variable names, the coordinate names in order, and the result of a label
  selection.
- `text.dfy` models `lower()`, substring search and `endswith`.
- `wrappers.dfy` defines `Option` and `Result`.

Library computations are inputs to the model:

- The label selection (`ds[var][0].sel(...)`, `ds.sel(...)`) is a function
  from a request (variable, coordinate names, slice window) to a selection
  or a failure.
- The Gaussian smoothing is given by the smoothed grid's cells.
- The contour routine is a function from a level to its `allsegs`. Which
  grids it accepts is modelled after matplotlib's own checks: `z` must be
  two-dimensional, at least 2 x 2, with as many rows as latitudes and as
  many columns as longitudes (`ContourAccepts`). Any other grid raises
  TypeError, which the model returns as `ContourFailed`.

## Behaviour of the code worth knowing

The model follows the code, including where a reader might expect
something else.

- **No shape mismatch error.** Normalisation raises nothing for an array
  whose squeezed shape matches neither `(len(lats), len(lons))` nor its
  reverse: it keeps the squeezed array (`FixShape`, `MismatchedShapeKept`).
  Such a grid fails later, in the vector mode, once the contour routine is
  reached (`ContourFailed`).
- **Square grids are transposed.** The `(len(lons), len(lats))` test comes
  first, so a square grid already in `(lat, lon)` order is transposed
  anyway (`SquareGridTransposed`, `NormalizeKeepsPairs`).
- **3-vertex rings.** An emitted ring need not have 4 vertices. A 3-vertex
  ring whose last vertex repeats its first is emitted as it is
  (`ClosedTriangleKept`). Only open rings grow to 4 or more vertices
  (`OpenRingGrows`).
- **Infinities.** `np.nan_to_num` does not turn every non-finite sample
  into 0. NaN becomes 0, but +inf and -inf become the largest and the most
  negative finite value of the array's float type (`NanToNum`).
- **Coordinate order.** Only the first and last values are compared, so
  the output coordinates have ascending endpoints (`FixOrientation`). They
  are strictly ascending only when the input was strictly monotone
  (`MonotoneComesOutAscending`).
- **The vector mode can fail.** `np.max` of an empty smoothed grid raises
  (`EmptyReduction`). A grid the contour routine rejects raises as soon as
  some level is not above the grid's maximum (`ContourFailed`). Both are in
  `VectorFeatures`' contract.

## Model

| member | source | states |
|---|---|---|
| GpmRouter.LevelsAscending | app/api/routers/gpm.py:22 | The thresholds are positive and strictly ascending. |
| GpmRouter.ChooseVariable | app/api/routers/gpm.py:43-49 | `precipitation` is preferred, then `precipitationCal`. The result is None exactly when neither is present. |
| GpmRouter.LoadAndProcess | app/api/routers/gpm.py:42-89 | It fails with NoPrecipitationVariable exactly when no variable is chosen. Once a variable is chosen, it fails with SelectionFailed exactly when the slice with its retry fails, and otherwise returns the normalisation of the selection. On success both coordinates are non-empty with ascending endpoints. |
| Datasets.FindCoordName | app/api/routers/gpm.py:52-53 | Returns the first coordinate whose lower-cased name contains the key, or the fallback when none does. |
| Datasets.FirstPresent | app/services/gpm_service.py:22 | Returns the first candidate present in the names. The result is None exactly when no candidate is present. |
| GpmRouter.PrimaryRequest | app/api/routers/gpm.py:55-58 | The first selection asks the chosen variable for latitudes from `bottom` to `top` and longitudes from `left` to `right`, under the coordinate names found. |
| GpmRouter.RetryRequest | app/api/routers/gpm.py:62-65 | The retry is the primary request with only the ends of the latitude slice swapped. |
| GpmRouter.SliceWithRetry | app/api/routers/gpm.py:55-65 | A non-empty first selection is used as is. An empty one is retried with top and bottom swapped. A selection that raises fails without a retry. |
| GpmRouter.NanToNum | app/api/routers/gpm.py:68 | NaN becomes 0, +inf and -inf become plus and minus the format's largest finite value, and finite samples are kept. Every result lies in the format's finite range. |
| GpmRouter.NanToNumArray | app/api/routers/gpm.py:68 | Keeps the shape and converts every cell by `NanToNum`. |
| GpmRouter.FiniteValuesKept | app/api/routers/gpm.py:68 | An array of finite samples within range is returned unchanged. |
| GpmRouter.FixShape | app/api/routers/gpm.py:72-80 | The result is the array, its transpose, or its squeezed form. When the shape or the squeezed shape matches the coordinates in either order, the result has shape (len(lats), len(lons)). A `(lon, lat)` array is transposed, both before and after the squeeze, square grids included. A `(lat, lon)` non-square array is kept. Any other array is only squeezed, and no error is raised. |
| GpmRouter.CanonicalGridUnchanged | app/api/routers/gpm.py:72-89 | A non-square grid in `(lat, lon)` order with ascending coordinates is returned unchanged. |
| GpmRouter.InvertedShapeFixed | app/api/routers/gpm.py:74-75 | A grid stored as `(lon, lat)` is transposed back into `(lat, lon)` order. |
| GpmRouter.InvertedFieldRestored | app/api/routers/gpm.py:72-89 | A field stored with descending latitudes in `(lon, lat)` order comes back as the same field in canonical form. |
| GpmRouter.SquareGridTransposed | app/api/routers/gpm.py:74-75 | A 2x2 grid already in `(lat, lon)` order is transposed anyway. |
| GpmRouter.MismatchedShapeKept | app/api/routers/gpm.py:76-80 | A (3, 4) array with 5 latitudes and 4 longitudes is kept as it is, and nothing is raised. The contour routine then rejects it. |
| GpmRouter.FlipUp | app/api/routers/gpm.py:85 | `np.flipud` fails with RankTooSmall exactly on a 0-d array. It reverses a vector and reverses the rows of a grid. |
| GpmRouter.FlipLeft | app/api/routers/gpm.py:89 | `np.fliplr` fails with RankTooSmall exactly on arrays of rank below 2, and reverses the columns of a grid. |
| GpmRouter.FixOrientation | app/api/routers/gpm.py:82-89 | Failure cases: an empty coordinate fails with EmptyCoordinate; a descending coordinate fails with RankTooSmall when the array is too small to flip; exactly these cases fail. On success each coordinate has its first value at most its last, and every output coordinate is the input coordinate at its mirrored or unchanged position. Input already ascending is returned unchanged. A descending longitude on anything but a grid fails with RankTooSmall. On success a scalar is kept, a vector is reversed exactly when the latitudes descend, and a grid keeps its shape, with cell (i, j) taken from the row mirrored when the latitudes descend and the column mirrored when the longitudes descend. |
| GpmRouter.OrientationKeepsPairs | app/api/routers/gpm.py:82-89 | After the flips, every value is still paired with its (latitude, longitude). |
| GpmRouter.MonotoneComesOutAscending | app/api/routers/gpm.py:82-89 | Strictly monotone coordinates in either direction come out strictly ascending. |
| GpmRouter.Normalize | app/api/routers/gpm.py:67-89 | On success both coordinates are non-empty, with ascending endpoints. Empty latitudes fail with EmptyCoordinate. Only EmptyCoordinate and RankTooSmall can occur. What the result holds is stated by `NormalizeKeepsPairs`. |
| GpmRouter.NormalizeKeepsPairs | app/api/routers/gpm.py:67-89 | For a selection whose data axes have the coordinates' lengths, in either order and both at least 2, normalisation succeeds. The coordinates come out mirrored or unchanged. The values form a `len(lats)` x `len(lons)` grid whose cell (i, j) is `np.nan_to_num` of the sample stored for the latitude and longitude that positions i and j came from. Storage is read as `(lon, lat)` whenever its shape allows, as the code does. |
| GpmRouter.ShapeFixedGrid | app/api/routers/gpm.py:72-80 | An array whose data axes have the coordinates' lengths, both at least 2, is transposed when stored `(lon, lat)`, a square one included, and is kept otherwise. |
| GpmRouter.NormalizedGridContours | app/api/routers/gpm.py:67-89 | Such a selection normalises to a grid the contour routine of gpm.py:137 accepts. |
| GpmRouter.CloseRing | app/api/routers/gpm.py:148-149 | The result is closed and starts with the given ring. A closed ring is unchanged, and an open ring gains exactly its first vertex. |
| GpmRouter.RingFeatures | app/api/routers/gpm.py:140-157 | Every feature carries the level, and its ring is closed with at least 3 vertices. There are no more features than rings. |
| GpmRouter.Max | app/api/routers/gpm.py:134 | `np.max`: an element of the grid that no element exceeds. |
| GpmRouter.AppendRingFeatures | app/api/routers/gpm.py:140-157 | The inner loop appends exactly the features of the level's rings, in extraction order. |
| GpmRouter.ContourAccepts | app/api/routers/gpm.py:137 | The grids the contour call accepts without a TypeError: two-dimensional and rectangular, at least 2 x 2, with as many rows as latitudes and as many columns as longitudes. |
| GpmRouter.VectorFeatures | app/api/routers/gpm.py:127-161 | An empty smoothed grid fails with EmptyReduction. For a grid the contour routine accepts, the result is the features of every level, in level order, from the grid's maximum and the contour routine. For a grid it rejects, the result is ContourFailed when some level is at most the maximum, and no feature otherwise. |
| GpmRouter.RingFeaturesAppend | app/api/routers/gpm.py:140-157 | Rings are handled independently, in order: the features of `a + b` are those of `a` followed by those of `b`. |
| GpmRouter.RingFeaturesSingle | app/api/routers/gpm.py:141-157 | A single ring is dropped when it has fewer than 3 vertices, and is otherwise emitted closed. |
| GpmRouter.ClosedTriangleKept | app/api/routers/gpm.py:141-149 | A 3-vertex ring whose last vertex repeats its first is emitted with 3 vertices. |
| GpmRouter.OpenRingGrows | app/api/routers/gpm.py:141-149 | An open ring of at least 3 vertices is emitted with its first vertex appended, so with at least 4 vertices. |
| GpmRouter.FeaturesAppend | app/api/routers/gpm.py:133-157 | Levels are handled independently, in order: the features of `a + b` are those of `a` followed by those of `b`. |
| GpmRouter.FeaturesSnoc | app/api/routers/gpm.py:133-157 | One more level adds its own features at the end. |
| GpmRouter.LevelFeatures | app/api/routers/gpm.py:134-140 | A level above the grid's maximum, or a contour with no segment list, gives nothing. Otherwise the level gives the features of the rings in the first segment list. Every feature carries that level, which is at most the maximum. |
| GpmRouter.Features | app/api/routers/gpm.py:133-157 | The features of all levels, level by level. Every feature's level is at most the grid's maximum, and its ring is closed with at least 3 vertices. |
| GpmRouter.FeatureLevelsListed | app/api/routers/gpm.py:133-156 | Every feature's level is one of the given levels. |
| GpmRouter.FeaturesInLevelOrder | app/api/routers/gpm.py:133-157 | With strictly ascending levels, the features come out in ascending level order. |
| GpmRouter.AllAboveMaxYieldsNothing | app/api/routers/gpm.py:134 | Levels above the grid's maximum yield no feature. |
| GpmRouter.AllZeroGridYieldsNothing | app/api/routers/gpm.py:133-134 | An all-zero smoothed grid yields no feature. |
| GpmService.ChooseVariable | app/services/gpm_service.py:21-23 | `precipitationCal` is preferred, then `precipitation`, then `precip`. The result is None exactly when none is present. |
| GpmService.CropWindow | app/services/gpm_service.py:29-30 | Each slice runs from the smaller to the larger of its two bounds, and holds exactly those two bounds. |
| GpmService.CropOrWhole | app/services/gpm_service.py:32-36 | Returns the cropped selection unless it raised or is empty, and otherwise the whole variable. |
| GpmService.ExtractData | app/services/gpm_service.py:39-45 | Unit axes are always squeezed away. When the squeezed shape is `(len(lons), len(lats))`, the data is transposed cell by cell; otherwise it is only squeezed. |
| GpmService.ProcessLocalFile | app/services/gpm_service.py:10-48 | A missing file gives FileNotFound, and a missing variable gives VariableNotFound. A selection that raises gives SelectionFailed, and it is the only other failure: any crop, or the whole-variable fallback, gives data. On success the coordinates are as the selected view stores them, and the data is the squeezed, possibly transposed, array of the crop or its fallback. |
| GpmService.AdaptersAgree | app/services/gpm_service.py:43-45 | The router's `FixShape` and this adapter's `ExtractData` fix the shape of an array the same way when neither of its data axes has length 1. Neither flips anything here. |
| GpmService.DataFiles | app/services/gpm_service.py:52 | A name is kept exactly when it is in the listing and ends in `.HDF5`, `.nc` or `.nc4`. |
| GpmService.DataFilesAppend | app/services/gpm_service.py:52 | The filter keeps listing order: the data files of `a + b` are those of `a` followed by those of `b`. |
| GpmService.DataFilesCount | app/services/gpm_service.py:52 | Each data file is kept as many times as the listing holds it, and every other name is dropped. |
| GpmService.ListAvailableFiles | app/services/gpm_service.py:50-52 | A missing directory gives nothing. Otherwise the result is exactly the data files of the listing, in listing order and with their multiplicities. |
| Text.Lower | app/api/routers/gpm.py:52 | Lower-cases each character, keeping the length. |
| Text.Contains | app/api/routers/gpm.py:52 | True exactly when the needle occurs at some index of the haystack. |
| Formatting.Number | app/utils/formatting.py:7 | The value of a digit string is below 10 to the power of its length. |
| Formatting.Pad | app/utils/formatting.py:8 | Renders a number as exactly `width` digits. |
| Formatting.NumberOfPad | app/utils/formatting.py:7-8 | Reading back a padded number gives the number. |
| Formatting.PadOfNumber | app/utils/formatting.py:7-8 | Padding the value of a digit string gives the string back. |
| Formatting.Valid | app/utils/formatting.py:7 | The times `datetime` accepts, as the parsing at formatting.py:7 and :17 checks them: year 1 to 9999, month 1 to 12, a day within the month, hour 0 to 23 and minute 0 to 59. |
| Formatting.DaysInMonth | app/utils/formatting.py:7 | A month has 28 to 31 days, and February has 29 exactly in leap years. |
| Formatting.MonthNumber | app/utils/formatting.py:8 | Returns the month an abbreviation names, and Some for every real abbreviation. |
| Formatting.MonthNumberOfAbbr | app/utils/formatting.py:8 | Each month's abbreviation names that month. |
| Formatting.ReadFields | app/utils/formatting.py:7 | Fields are read exactly when they are all digits and write a valid date and time. A result is that time, and its padded fields are the input digits. |
| Formatting.Stamp | app/utils/formatting.py:8 | The shared `"%d %b %Y - %H:"` prefix is 17 characters long. |
| Formatting.ReadStamp | app/utils/formatting.py:18 | Only 23-character strings ending in `C` can be read as a rendered time. |
| Formatting.RenderedFields | app/utils/formatting.py:18 | Gives the position of each field in a rendered time. |
| Formatting.NotAStamp | app/utils/formatting.py:10 | A string not ending in `C` is not a rendered time. |
| Formatting.ReadStampOfRendered | app/utils/formatting.py:18 | Reading a rendered time gives the time back. |
| Formatting.ParseDateHour | app/utils/formatting.py:7 | Parsing succeeds exactly when the date has 8 digits, the hour 2, and together they write a valid date and hour. The result is then that time, at minute 0. |
| Formatting.FormatPrettyDate | app/utils/formatting.py:4-10 | A date and hour that parse render as a string that reads back as them. Anything else gives `"{date} {hour}z"`, which never reads as a time. Which inputs parse is stated by `ParseDateHour`, and `ValidDateRenders` joins the two. |
| Formatting.PrettyDateOfParsed | app/utils/formatting.py:7-8 | A parsed date renders as its stamp followed by `00 UTC`. |
| Formatting.PrettyDateDigits | app/utils/formatting.py:7-8 | The rendering copies the input's day, year and hour digits, and its minutes are `00`. |
| Formatting.ValidDateRenders | app/utils/formatting.py:4-8 | An 8-digit date and 2-digit hour that write a valid time always render as that time, and never fall back. |
| Formatting.ParseDateHourExample | app/utils/formatting.py:5 | `20251218` with hour `00` parses as 18 December 2025, 00:00. |
| Formatting.PrettyDateExample | app/utils/formatting.py:5 | `20251218` with the default hour renders as `18 Dec 2025 - 00:00 UTC`. |
| Formatting.FirstStamp | app/utils/formatting.py:15 | Like `re.search`: the leftmost index at which `.DDDDDDDD-SDDDD` matches, or None when it matches nowhere. |
| Formatting.StampTime | app/utils/formatting.py:17 | The stamp is read exactly when its digits write a valid time, and the result is that time. |
| Formatting.Truncated | app/utils/formatting.py:21 | A name of at most 25 characters comes back whole, followed by `...`. A longer one is cut to its first 25 characters, followed by `...`. |
| Formatting.FilenameTime | app/utils/formatting.py:15-17 | The time of the leftmost stamp decides: the result is what that stamp reads as. A name without a stamp has no time. A result is always valid. |
| Formatting.ParseGpmFilename | app/utils/formatting.py:12-21 | When the first stamp is a real time, the result reads back as that time. Otherwise the result is the truncated name, which never reads as a time. |
| Formatting.ValidStampRenders | app/utils/formatting.py:14-18 | A name whose leftmost stamp writes a valid time always renders as that time. |
| Formatting.ShortNameFallback | app/utils/formatting.py:21 | A short name without a stamp comes back whole, followed by `...`. |
| Arrays.NonUnit | app/api/routers/gpm.py:78 | The squeezed shape has no axis of length 1 and is no longer than the original shape. |
| Arrays.NonUnitAppend | app/api/routers/gpm.py:78 | Squeezing a concatenated shape squeezes each part. |
| Arrays.NonUnitOnes | app/api/routers/gpm.py:78 | Axes that are all of length 1 squeeze to nothing. |
| Arrays.NonUnitShape | app/api/routers/gpm.py:78 | Only the two data axes can survive the squeeze. |
| Arrays.FlatColumn | app/api/routers/gpm.py:78 | A one-column matrix flattens to its column. |
| Arrays.Squeeze | app/api/routers/gpm.py:78 | The shape of the result is the input's shape without its unit axes, the cells keep their row-major order, and a grid is returned unchanged. |
| Arrays.Transpose | app/api/routers/gpm.py:75 | Rows and columns swap, and cell (i, j) of the result is cell (j, i) of the input. |
| Arrays.TransposeTwice | app/api/routers/gpm.py:74-80 | Transposing twice gives the matrix back. |
| Arrays.Reverse | app/api/routers/gpm.py:84 | `np.flip` of a vector: element i is element n-1-i of the input. |
| Arrays.ReverseTwice | app/api/routers/gpm.py:84 | Reversing twice gives the vector back. |
| Arrays.FlipRows | app/api/routers/gpm.py:85 | `np.flipud`: row i is row n-1-i of the input. |
| Arrays.FlipRowsTwice | app/api/routers/gpm.py:85 | Flipping the rows twice gives the matrix back. |
| Arrays.FlipCols | app/api/routers/gpm.py:89 | `np.fliplr`: column j is column n-1-j of the input. |
| Arrays.MapMatrix | app/api/routers/gpm.py:68 | Keeps the shape and applies the function to every cell. |

## Left out

- Opening the file is not modelled: the engine and group fallbacks, `decode_times`, and closing the file are left out. The router's file-existence check (`app/api/routers/gpm.py:32-34`) is not modelled either. The adapter's check is modelled as a boolean input.
- The label selection is taken as an input function. The model does not capture what `sel` computes from coordinate labels (inclusive ends, ordering).
- The Gaussian smoothing (`gaussian_filter`, sigma 1) and the contour routine are library numerics. Their outputs are inputs to `VectorFeatures`, so no statement links a raw grid to the polygons drawn around it.
- The plot mode, the GeoJSON and JSON serialisation, the HTTP status mapping of exceptions, the file listing endpoint's wiring and the NOAA source are outside this model.
- Values are real numbers. Floating-point rounding is not modelled. The two float formats appear only through their largest finite value.
- NaN in the smoothed grid is not modelled: `np.max` propagating NaN, and the skip test comparing with NaN.
- Arrays with non-unit axes other than the two data axes, and unit axes between the two data axes, are not modelled.
- GpmRouter.VectorFeatures: the contour routine's failures are modelled only through the shape checks of `ContourAccepts`. Any other exception matplotlib might raise is not modelled.
- Text.Lower: folds ASCII letters only, whereas Python's `lower()` is Unicode-aware.
- Formatting.FirstStamp: matches ASCII digits only. Python's `\d` also matches other Unicode decimal digits.
- Formatting.ParseDateHour: `strptime` with `%Y%m%d %H` accepts a 1-digit hour, surrounding whitespace and non-ASCII decimal digits (its `\d` is Unicode-aware, so fullwidth `２０２５１２１８` parses). The model accepts only an 8-digit ASCII date and a 2-digit ASCII hour. For example, date `20251218` with hour `5` renders as `18 Dec 2025 - 05:00 UTC` in the code but falls back in the model.
- Formatting.FormatPrettyDate: `strptime` with `%Y%m%d %H` also accepts shorter fields, surrounding whitespace and non-ASCII decimal digits. The model accepts only an 8-digit ASCII date and a 2-digit ASCII hour, and takes every other input to the fallback.
- Formatting.Stamp: renders years below 1000 with 4 digits, as current Python does; older Python on glibc writes them without leading zeros. `%b` is the C-locale English abbreviation.
