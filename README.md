# ObsPack input generator, modelled in Dafny

This project models `make_ObsPack_Input_netcdfs` from `gcpy/obspack_fill.py`. That routine prepares
ObsPack input files for GEOS-Chem for a stationary observation site. It splits a requested time
window into day segments and writes one netCDF file per segment. Each file holds equal-length
columns over the segment's sample instants:

- latitude, longitude and altitude;
- the calendar components of each instant;
- a 200-character observation identifier;
- the sampling strategy.

The routine returns the list of paths it wrote.

Instants are whole seconds counted from 1970-01-01 00:00:00 UTC, and a day is 86400 seconds.
A call's arguments are a `Config`. The window ends come both as the text the caller gave
(`'YYYYMMDD HH:MM:SS'`), which the identifier prefix uses, and as the instants that text denotes.

Modules, in dependency order:

- `Arith`: facts about multiplication and division by a positive number, shared by the modules
  below.
- `Errors`: the exceptions of the routine that the model covers, as a `Result`.
- `Text`: `str(n)`, `str.ljust`, the first field of `split(' ')`, and the `yyyy-mm-dd` date text.
- `Calendar`: the proleptic Gregorian calendar. It has days-to-date (`CivilFromDays`) and its
  inverse, and takes an instant apart into components (`Split`) and back (`Compose`).
- `Segments`: the day count and the segment starts and ends, with the last end clamped in place
  (lines 73-87).
- `Sampling`: the sample instants of a segment and their time components (lines 96-111).
- `ObsIds`: the identifier prefix and the row-by-row fill of the identifier matrix (lines 116-131).
- `ObsPack`: one file's columns (lines 140-200), file naming, and the outer loop that writes the
  files and collects their paths (lines 90-93, 202-210).
  - `Expected` is the outcome of a call as a function: the result, and the files handed to the
    writer.
  - `Generate` is the imperative routine, proved equal to `Expected`.

The model covers four of the errors the routine can raise, and for these it follows the code
(the integer-width errors of the sampling step and the strategy code are listed under "## Left out"):

- `OutOfBounds`: a window end the nanosecond timestamp type cannot hold (`OutOfBoundsDatetime`).
- `Overflow`: one day past the last segment start overflows that type.
- `EmptyWindow`: the window end is not after its start. The day count is then 0 or negative, the
  slice of starts is empty, and `ends2Use[-1]` raises `IndexError` (line 86). A reading of the
  routine in which `end == start` yields one segment does not match the code, and the model
  follows the code.
- `IdTooLong`: `prefix + str(i)` is longer than 200 characters. `ljust` does not truncate, so the
  row assignment at line 130 raises. The loop keeps the files written before the failing one, but
  the first file has the most samples, so this failure always comes before any file is written
  (`FailureWritesNothing`). A failure of the netCDF write itself is not modelled (see
  "## Left out").

The altitude column is filled with the longitude argument (line 162), and the altitude argument is
never used. `SegmentDataset`, and the generator built on it, keep this as written, because they
describe the files the routine produces. `AltitudeIgnored` states what the defect does: whenever
the two arguments differ, the altitude given appears nowhere in the file. `IntendedDataset` is the
corrected column set, and `IntendedColumns` proves that it holds the altitude in every row and
differs from the written file in the altitude column alone (see "## Findings").

## Model

| member | source | states |
|---|---|---|
| Segments.SegmentationOutcome | gcpy/obspack_fill.py:73-87 | segmentation succeeds exactly when both ends are representable, end is after start and the day after the last start is representable; otherwise the error is OutOfBounds, EmptyWindow or Overflow accordingly |
| Segments.SegmentCount | gcpy/obspack_fill.py:75-82 | the segment count is delta.days + 1 when delta.seconds is non-zero and delta.days otherwise, the fewest whole days covering the window |
| Segments.SegmentBounds | gcpy/obspack_fill.py:81-87 | segment i starts at start + i days; every end but the last is one second before the next day; the last is clamped to the window end only when it would pass it |
| Segments.SegmentsContiguous | gcpy/obspack_fill.py:81-87 | segments follow each other with no gap or overlap, none is empty, none passes the window end, the first starts at the window start |
| Segments.WholeDayWindow | gcpy/obspack_fill.py:77-87 | with no leftover seconds nothing is clamped and the window end instant lies in no segment |
| Segments.SegmentOfInstant | gcpy/obspack_fill.py:81-87 | every instant of the window lies in exactly segment (t - start) / 86400, except the end of a whole-day window |
| Segments.SegmentsInRange | gcpy/obspack_fill.py:81-87 | every segment lies within the window |
| Segments.SegmentDays | gcpy/obspack_fill.py:81-84 | segment i starts on the i-th day after the day of the window start |
| Segments.ClampLastInPlace | gcpy/obspack_fill.py:86-87 | the array after the call is the clamped sequence: only the last element changes, and it no longer exceeds the limit |
| Segments.ComputeSegments | gcpy/obspack_fill.py:73-87 | the computed segments, clamped in place, equal the segmentation function |
| Sampling.SampleInstantsShape | gcpy/obspack_fill.py:96-97 | the instants are first + k * freq, inside the segment, strictly increasing, and stop only where one more step would pass the segment end; empty exactly for an empty segment |
| Sampling.SampleMembership | gcpy/obspack_fill.py:96-97 | an instant is sampled if and only if it lies in the segment a whole number of steps after its start |
| Sampling.SamplesPerSegment | gcpy/obspack_fill.py:81-97 | every segment but the last holds 86399 / freq + 1 samples and none holds more than the first |
| Sampling.TimeComponentsRoundTrip | gcpy/obspack_fill.py:103-111 | every time-components row is a valid calendar instant (month, day of that month, hour, minute, second in range) and composes back to its sample instant |
| Sampling.TimeRowInjective | gcpy/obspack_fill.py:103-111 | distinct instants give distinct rows |
| Sampling.DayYearRange | gcpy/obspack_fill.py:103 | every day the timestamp type can hold falls in a year from 1600 to 2400, so the year field has four digits |
| Calendar.SplitRoundTrip | gcpy/obspack_fill.py:103-108 | splitting an instant gives valid components, and composing them gives the instant back |
| Calendar.CivilFromDaysValid | gcpy/obspack_fill.py:103-105 | every day number names a valid date |
| Calendar.EpochDay | gcpy/obspack_fill.py:103-105 | day number 0 is 1970-01-01, so instants and day numbers count from the Unix epoch the timestamps use |
| Calendar.DaysFromCivilNextDay | gcpy/obspack_fill.py:81-84 | the day after a valid date has the next day number, so one-day steps of the segment starts walk the calendar date by date |
| Calendar.CivilFromDaysRoundTrip | gcpy/obspack_fill.py:103-105 | counting the days of the date a day number names gives the number back |
| Text.DecimalRoundTrip | gcpy/obspack_fill.py:116 | str(n) read back as a decimal numeral gives n |
| Text.DecimalLengthMonotone | gcpy/obspack_fill.py:116 | a larger counter never has a shorter numeral |
| Text.FirstFieldOf | gcpy/obspack_fill.py:118-119 | the first field of 'date time' is the date |
| Text.IsoDateInjective | gcpy/obspack_fill.py:203 | different dates have different yyyy-mm-dd texts |
| ObsIds.IdPrefixOf | gcpy/obspack_fill.py:118-119 | the prefix is the site name, '_from_', the start date, '_to_', the end date and '_n' |
| ObsIds.AllIdsFitLast | gcpy/obspack_fill.py:127-131 | all rows of a file fit exactly when its last row does |
| ObsIds.IdRowShape | gcpy/obspack_fill.py:129 | a row that fits is exactly 200 characters: the prefix, str(i), then only '_' |
| ObsIds.IdRowInjective | gcpy/obspack_fill.py:116-131 | different counters give different rows |
| ObsIds.FillIds | gcpy/obspack_fill.py:125-131 | the matrix is n by 200; the fill succeeds exactly when every row fits, and then row i is prefix + str(i) padded with '_' |
| ObsPack.LeadingFits | gcpy/obspack_fill.py:93-131 | the number of files written before the first failing row assignment: all earlier segments fit and the next one does not |
| ObsPack.BuildFile | gcpy/obspack_fill.py:96-206 | one pass of the loop body fails exactly when the segment's identifiers do not fit, and otherwise yields that segment's file |
| ObsPack.WriteFiles | gcpy/obspack_fill.py:90-210 | the loop writes the files up to the first failure and returns their paths when there is none |
| ObsPack.Generate | gcpy/obspack_fill.py:73-212 | the result and the files written equal the outcome of a call |
| ObsPack.OutputFiles | gcpy/obspack_fill.py:93-210 | a successful call writes one file per segment, in segment order, returns their paths in that order, and path i is named after the date of segment i's start, the i-th day after the window start |
| ObsPack.OutputDistinct | gcpy/obspack_fill.py:202-210 | the returned paths are pairwise distinct |
| ObsPack.FilePathInjective | gcpy/obspack_fill.py:202-206 | files for different dates get different paths |
| ObsPack.FileDateFirstRow | gcpy/obspack_fill.py:202-203 | the date in a file's name is the date of its first time-components row |
| ObsPack.FirstFitsAll | gcpy/obspack_fill.py:116-131 | when the first file's identifiers fit, every file's do |
| ObsPack.FailureWritesNothing | gcpy/obspack_fill.py:86-130 | a call that fails with OutOfBounds, Overflow, EmptyWindow or IdTooLong has written no file |
| ObsPack.DatasetColumns | gcpy/obspack_fill.py:140-200 | all columns are as long as the sample list; latitude, longitude and strategy are constant; altitude equals the longitude; time rows are valid and compose back to the samples; identifiers are 200 characters, pairwise distinct, and row i is the same in every file |
| ObsPack.AltitudeIgnored | gcpy/obspack_fill.py:161-162 | when altitude and longitude differ, the altitude column never holds the altitude given |
| ObsPack.IntendedColumns | gcpy/obspack_fill.py:140-200 | the corrected altitude column holds the altitude argument in every row; every other column equals the written file's; the corrected and written datasets agree exactly when altitude equals longitude or the segment has no sample |
| ObsPack.WholeDaySamples | gcpy/obspack_fill.py:77-97 | a whole-day window gives 86399 / freq + 1 samples per file |
| ObsPack.DocumentedWindow | gcpy/obspack_fill.py:62-65 | the documented hourly call from 2013-06-01 00:00:00 to 2013-07-16 00:00:00 (the instants of those dates) gives 45 files of 24 samples |

## Left out

- Writing netCDF (`ds.to_netcdf`, line 206) is recorded as a `FileWrite` of the path and the columns. The on-disk format, variable dimensions and attribute dictionaries (units, long names, `_FillValue`) are not modelled.
- A failure of `ds.to_netcdf` itself (line 206: disk full, permissions, a missing directory) is not modelled. Every write succeeds, so a write error that stops the loop after earlier files exist is outside the model.
- The `np.float32` conversion of latitude, longitude and altitude is not modelled. Coordinates are `real` values copied unchanged.
- `strptime` parsing of the window text is not modelled. The caller supplies both the text and the instants it denotes, so malformed text, locales and time zones are outside the model.
- Behaviour for a sampling step of zero or less, which pandas decides, is not modelled. `sampleFreq > 0` is a precondition.
- The sampling step `str(samplefreq) + 's'` (line 97) is held by pandas in 64-bit nanoseconds, so a step of 9223372037 seconds or more raises before any file is written. The model has no upper bound on `sampleFreq`: such a step gives one sample per segment, and the call succeeds.
- The strategy code is stored with `np.full(..., dtype=int)` (line 193), a C integer of 64 bits (32 on some platforms). Depending on the NumPy version, a code outside that range raises OverflowError or wraps around. The model copies any integer code unchanged into `samplingStrategy`.
- The pandas, numpy and xarray objects (`DataFrame`, `chararray`, `Dataset`) are sequences and records here. The byte encoding of a non-ASCII site name in the character matrix is not modelled.
- FillIds: when a row does not fit, the partial matrix it returns is unspecified, because the source raises at that point and the matrix is discarded.
- The timestamp range is taken in whole seconds. Sub-second bounds of the nanosecond type are not modelled.

## Findings

| source | as written | input that shows it | evidently intended | confidence | as-written member | corrected member |
|---|---|---|---|---|---|---|
| gcpy/obspack_fill.py:162 | the altitude variable is filled with `lon`; the `alt` argument is never read | any call with `alt != lon` and a non-empty segment, e.g. the documented SOAS-Ground call with lon=-87.249942 and alt=125: every altitude entry is -87.249942 | the altitude variable holds `alt` in every row | not executed | ObsPack.AltitudeIgnored | ObsPack.IntendedColumns |
