# Engineering archive fetch: a verified model

This project models the core of the engineering telemetry archive's fetch
module (`Ska/engarchive/fetch.py`) in Dafny.

The fetch module turns a user's MSID spec into archive MSID names. The spec is
case-insensitive, may be a glob, and may omit the `DP_` prefix of derived
parameters. For each MSID the module then:

- locates the padded row range of its content type's HDF5 files through the
  `archfiles` catalog, memoized by exact arguments;
- reads the time column through a one-slot cache;
- masks out bad times and slices the values, quality flags and times to the
  requested window.

On an `MSID` object the model covers:

- `filter_bad` and `filter_bad_times`, which remove bad samples column by
  column;
- `logical_intervals` and `state_intervals`, which derive interval tables from
  the samples.

An `MSIDset` expands a list of specs into an ordered set of MSIDs. Its
`filter_bad` ORs the masks of each content type, and its `interpolate`
resamples every member onto one uniform grid by nearest neighbour. The
`_cache_ft` guard restores the caller's filetype context after a fetch.
`_plural` names the columns of a statistics table.

Files and modules:

| file | module | what |
|---|---|---|
| `wrappers.dfy` | `Wrappers` | `Option`, `Result`, `Outcome` and the error kinds the module raises |
| `columns.dfy` | `Columns` | the numpy operations the module uses, on sequences: `~`, `\|`, `any`, `all`, `flatnonzero`, boolean and integer indexing, Python slicing, `searchsorted` |
| `names.dfy` | `NameResolver` | ASCII case mapping, `fnmatch`, `msid_glob`, the single-match check of `MSID.__init__`, spec expansion of `MSIDset.__init__` |
| `archive_index.dfy` | `ArchiveIndex` | `get_interval` on an `archfiles` catalog; the `memoized` decorator as a class |
| `raw_reader.dfy` | `RawReader` | `_get_msid_data` with the `times_cache` slot as a class |
| `series.dfy` | `SeriesModel` | an MSID's columns and mask as a value; `MSID.__init__` (resolve, read, optional filter), `filter_bad` and `filter_bad_times` as functions, and the `MSID` class whose methods apply them in place |
| `intervals.dfy` | `Intervals` | `logical_intervals` and `state_intervals` |
| `msidset.dfy` | `MsidSet` | `numpy.arange`, nearest-neighbour indices, `MSIDset.filter_bad` and `MSIDset.interpolate` as functions, and the `MSIDset` class with loop methods proved against them |
| `context.dfy` | `FetchContext` | the `ft` context as a class with the `_cache_ft` snapshot and restore; `_plural` |

Times and values are `real`. Time conversion (`DateTime`) and unit conversion
(`units.convert`) are parameters: times arrive as numbers, and `convert` is a
function applied element by element. The HDF5 files are a map from
(content type, file name) to a column's `data` and `quality` arrays. The
`archfiles` table of a content type is a sequence of catalog rows.

## Model

| member | source | states |
|---|---|---|
| `NameResolver.Upper` | Ska/engarchive/fetch.py:137 | the upper-cased spec has the same length, and each character is the ASCII upper case of the input's |
| `NameResolver.Lower` | Ska/engarchive/fetch.py:156 | the lower-cased name has the same length, and each character is the ASCII lower case of the input's |
| `NameResolver.UpperOfLower` | Ska/engarchive/fetch.py:156 | an archive name without lower-case letters is recovered by upper-casing its lower-cased form, so the `msids` returned for a glob name the matched `MSIDs` |
| `NameResolver.GlobFilterSpec` | Ska/engarchive/fetch.py:149 | `fnmatch.filter` keeps exactly the names the pattern matches, in catalog order |
| `NameResolver.GlobFilterEmpty` | Ska/engarchive/fetch.py:149-150 | the filter is empty exactly when no catalog name matches |
| `NameResolver.PlainMatchesItself` | Ska/engarchive/fetch.py:148-149 | a pattern without `*`, `?` or `[` matches one string only, itself |
| `NameResolver.MsidGlob` | Ska/engarchive/fetch.py:125-158 | a success returns equally long, non-empty `msids` and `MSIDs`, and every `MSIDs` entry is an archive name |
| `NameResolver.MsidGlobExact` | Ska/engarchive/fetch.py:137-142 | when the upper-cased spec, or `DP_` plus it, is an archive name, the result is `[spec]` and that name, the plain name taking precedence |
| `NameResolver.MsidGlobFromGlob` | Ska/engarchive/fetch.py:144-158 | otherwise the glob of the name, else of `DP_` plus it, decides: no match raises not-in-archive, more than 10 raises too-many, else the matches and their lower-case forms |
| `NameResolver.MsidGlobNotFound` | Ska/engarchive/fetch.py:137-158 | the not-in-archive error is raised exactly when no archive name equals or glob-matches either form of the spec |
| `NameResolver.PlainSpecResolvesExactly` | Ska/engarchive/fetch.py:137-158 | a spec without glob characters resolves exactly when it names an archive MSID, with or without `DP_` |
| `NameResolver.ResolveSingle` | Ska/engarchive/fetch.py:177-184 | `MSID.__init__` accepts a spec exactly when it globs to one MSID and raises multiple-matches exactly when it globs to more; the accepted MSID's content type is its catalog entry |
| `NameResolver.ExpandedNamesResolve` | Ska/engarchive/fetch.py:703-709 | every name the expansion of a set's specs produces resolves to exactly one MSID when the set fetches it |
| `NameResolver.InsertionOrder` | Ska/engarchive/fetch.py:707-708 | the set's keys are exactly the expanded names, each once |
| `NameResolver.InsertionOrderExtends` | Ska/engarchive/fetch.py:707-708 | inserting further names never reorders or drops earlier keys: the earlier keys are a prefix of the later ones |
| `ArchiveIndex.LatestBefore` | Ska/engarchive/fetch.py:993-995 | returns the catalog row with the latest filetime before `tstart`, or none exactly when no file starts before it |
| `ArchiveIndex.EarliestAfter` | Ska/engarchive/fetch.py:1002-1004 | returns the catalog row with the earliest filetime after `tstop`, or none exactly when no file starts after it |
| `ArchiveIndex.Earliest` | Ska/engarchive/fetch.py:997-998 | the fallback row has the least filetime |
| `ArchiveIndex.Latest` | Ska/engarchive/fetch.py:1006-1007 | the fallback row has the greatest filetime |
| `ArchiveIndex.GetInterval` | Ska/engarchive/fetch.py:977-1011 | fails exactly on an empty catalog, where the query finds no row |
| `ArchiveIndex.EarliestIsFirst` | Ska/engarchive/fetch.py:997-998 | in a time-ordered catalog the fallback for `rowstart` is the first file |
| `ArchiveIndex.LatestIsLast` | Ska/engarchive/fetch.py:1006-1007 | in a time-ordered catalog the fallback for `rowstop` is the last file |
| `ArchiveIndex.LowFileIsLastBefore` | Ska/engarchive/fetch.py:993-1000 | `rowstart` comes from the last file starting before `tstart`, or from the first file |
| `ArchiveIndex.HighFileIsFirstAfter` | Ska/engarchive/fetch.py:1002-1009 | `rowstop` comes from the first file starting after `tstop`, or from the last file |
| `ArchiveIndex.GetIntervalCovers` | Ska/engarchive/fetch.py:977-1011 | the returned slice encloses the rows of every file that can hold samples in `[tstart, tstop]` |
| `ArchiveIndex.Memoized.constructor` | Ska/engarchive/fetch.py:959-961 | a fresh memo wraps its function with an empty cache |
| `ArchiveIndex.Memoized.Call` | Ska/engarchive/fetch.py:962-967 | a call returns what the function returns; a cached key returns the stored value and leaves the cache alone; a new key's successful value is stored, and no other entry changes |
| `RawReader.Convert` | Ska/engarchive/fetch.py:331 | unit conversion keeps the length and converts every value by the MSID's upper-case name |
| `RawReader.MaskedAt` | Ska/engarchive/fetch.py:305-306 | entry `c` of a column masked by the good-time flags is the column's entry at a good row |
| `RawReader.MaskedRowOf` | Ska/engarchive/fetch.py:322-326 | every good row survives the masking, at a position where the masked column holds its value |
| `RawReader.ReadTimesMasked` | Ska/engarchive/fetch.py:293-306 | reading the time column fails exactly when its file is missing; the flags are the negated quality, and the times are the time data at the good rows |
| `RawReader.ReadWindowIsWindow` | Ska/engarchive/fetch.py:313-336 | a read fails exactly when the time or MSID file is missing; otherwise it is the window cut from the masked columns |
| `RawReader.CutAt` | Ska/engarchive/fetch.py:329-333 | row `k` of the cut is row `searchsorted(times, tstart) + k` of times, converted values and flags |
| `RawReader.WindowShape` | Ska/engarchive/fetch.py:329-334 | values, times and flags of a window have one length, and the column names are `times`, `vals`, `bads` |
| `RawReader.ReadWindowShape` | Ska/engarchive/fetch.py:313-334 | the same for a read, with the read's error cases |
| `RawReader.WindowInRange` | Ska/engarchive/fetch.py:329-332 | on sorted times every time in a window lies in `[tstart, tstop)` |
| `RawReader.ReadWindowInRange` | Ska/engarchive/fetch.py:293-332 | a read from an archive with time-ordered files returns only times in `[tstart, tstop)` |
| `RawReader.WindowLength` | Ska/engarchive/fetch.py:329 | a window holds `searchsorted(tstop) - searchsorted(tstart)` rows |
| `RawReader.WindowAt` | Ska/engarchive/fetch.py:322-333 | window row `k` is masked row `searchsorted(tstart) + k` |
| `RawReader.WindowKept` | Ska/engarchive/fetch.py:305-333 | each window row takes its time, converted value and flag from one good raw row |
| `RawReader.WindowAligned` | Ska/engarchive/fetch.py:305-333 | each window row is one good raw row: time, converted value and bad flag all come from it |
| `RawReader.MaskedPosition` | Ska/engarchive/fetch.py:322-330 | on sorted times a good raw row with a time in `[tstart, tstop)` sits at a masked position between the two `searchsorted` positions |
| `RawReader.WindowHasRow` | Ska/engarchive/fetch.py:322-334 | a masked position between the two `searchsorted` positions is a row of the window, holding that raw row's time, value and flag |
| `RawReader.WindowComplete` | Ska/engarchive/fetch.py:305-333 | on sorted times every good raw row with a time in `[tstart, tstop)` appears in the window |
| `RawReader.ReadWindowRowsAligned` | Ska/engarchive/fetch.py:277-336 | every row `_get_msid_data` returns is one good row of the time and MSID files |
| `RawReader.ReadWindowComplete` | Ska/engarchive/fetch.py:277-336 | every good row in the window appears in what `_get_msid_data` returns |
| `RawReader.TimesCache.constructor` | Ska/engarchive/fetch.py:61 | the cache starts with no key |
| `RawReader.GetMsidData` | Ska/engarchive/fetch.py:277-336 | the result equals the uncached read, whether the times come from the slot or from disk; the memo and the slot stay consistent; the slot holds the last successfully read key and is untouched on a hit or a failed read |
| `RawReader.MsidDataSharedTimes` | Ska/engarchive/fetch.py:293-334 | two MSIDs of one content type read over one window get the same times, taken from the content type's time file, and each read's flags match its times in length |
| `SeriesModel.KeepColumnsStep` | Ska/engarchive/fetch.py:396-397 | one turn of the column loop: a failing column stops it, otherwise it continues with the next |
| `SeriesModel.KeepColumnsFits` | Ska/engarchive/fetch.py:396-397 | on columns that exist and fit the mask, the loop completes; the listed columns keep the masked rows and the rest are unchanged |
| `SeriesModel.KeepColumnsAppend` | Ska/engarchive/fetch.py:396-397 | the loop over two lists of names is the loop over the first, then over the second unless it failed |
| `SeriesModel.Others` | Ska/engarchive/fetch.py:395 | the names filtered are exactly the listed names other than `bads` |
| `SeriesModel.FilteredKeeps` | Ska/engarchive/fetch.py:376-399 | `filter_bad` leaves no mask and keeps the names; the listed columns keep the rows the mask (given or own) does not flag; without a mask nothing changes |
| `SeriesModel.FilterBadResult` | Ska/engarchive/fetch.py:376-399 | `filter_bad` keeps the column names, whether it completes or raises part-way |
| `SeriesModel.KeepColumnsNames` | Ska/engarchive/fetch.py:395-397 | the column loop never changes the column names |
| `SeriesModel.FilterBadAligned` | Ska/engarchive/fetch.py:385-399 | with a mask of the series' length `filter_bad` always completes, with the filtered series |
| `SeriesModel.FilterBadMismatch` | Ska/engarchive/fetch.py:385-397 | a given mask of the wrong length replaces `bads` and then raises an index error if it flags anything; if it flags nothing, `bads` is just cleared |
| `SeriesModel.NoneBadAllKept` | Ska/engarchive/fetch.py:392-399 | a mask that flags nothing keeps every row |
| `SeriesModel.FilteredIdempotent` | Ska/engarchive/fetch.py:388-390 | filtering again changes nothing |
| `SeriesModel.BadTimesSource` | Ska/engarchive/fetch.py:427-436 | a table wins; with no arguments the registry's list for the MSID is used, or none; start or stop alone is an error; both give the one interval |
| `SeriesModel.Outside` | Ska/engarchive/fetch.py:449 | a sample is kept exactly when it lies outside the closed interval |
| `SeriesModel.RemoveIntervalKeeps` | Ska/engarchive/fetch.py:445-452 | an overlapping interval cuts every listed column, `bads` included, to the samples outside it |
| `SeriesModel.RemoveIntervalTimes` | Ska/engarchive/fetch.py:449-452 | after an overlapping interval the times are exactly the old ones outside it |
| `SeriesModel.SkipRemovesNothing` | Ska/engarchive/fetch.py:445-446 | on ordered times an interval missing `[times[0], times[-1]]` would remove nothing anyway |
| `SeriesModel.KeepAllIsIdentity` | Ska/engarchive/fetch.py:450-452 | a mask keeping every row leaves the series unchanged |
| `SeriesModel.RemoveIntervalsStep` | Ska/engarchive/fetch.py:438-452 | one turn of the interval loop |
| `SeriesModel.RemoveIntervalsAppend` | Ska/engarchive/fetch.py:438-452 | the interval loop over two lists runs one after the other |
| `SeriesModel.ReversedIntervalKeepsEarlierRemovals` | Ska/engarchive/fetch.py:438-443 | a reversed interval raises, and removals by earlier intervals stay in place |
| `SeriesModel.RemoveIntervalSorted` | Ska/engarchive/fetch.py:438-452 | one valid interval on ordered times fails only on an empty series; otherwise it leaves a consistent, ordered series with exactly the times outside it |
| `SeriesModel.RemoveIntervalsKeeps` | Ska/engarchive/fetch.py:401-452 | a completed loop keeps exactly the times outside every interval; it can fail only once every sample is gone |
| `SeriesModel.RemoveIntervalWithoutMask` | Ska/engarchive/fetch.py:450-452 | without a mask, an overlapping interval raises on reaching `bads`, after the columns listed before it were already cut |
| `SeriesModel.BadTimesAfterFilterBadFails` | Ska/engarchive/fetch.py:399 | `filter_bad_times` after `filter_bad` raises on any overlapping interval, because `bads` is then `None` |
| `SeriesModel.Reindexed` | Ska/engarchive/fetch.py:801-804 | reindexing keeps the names, the attributes and whether a mask exists, with the length of the index list |
| `SeriesModel.ReindexedAt` | Ska/engarchive/fetch.py:801-804 | entry `k` of each listed column and of the mask is the old entry at `idx[k]` |
| `SeriesModel.ReindexAttributes` | Ska/engarchive/fetch.py:801-804 | the per-column loop produces the reindexed series |
| `SeriesModel.SeriesOfRaw` | Ska/engarchive/fetch.py:226-227 | the read's `vals`, `times`, `bads` and `colnames` become the object's attributes |
| `SeriesModel.FetchMsid` | Ska/engarchive/fetch.py:177-227 | a built MSID's data is consistent |
| `SeriesModel.FetchMsidOk` | Ska/engarchive/fetch.py:177-227 | when the name resolves and the read succeeds, the MSID holds the resolved names and the read, filtered when asked |
| `SeriesModel.FetchMsidResolves` | Ska/engarchive/fetch.py:178-198 | a resolution error or a read error is raised as it is; a built MSID has the resolved names and the content type of its archive name |
| `SeriesModel.FetchMsidUnfiltered` | Ska/engarchive/fetch.py:213-227 | without `filter_bad` the MSID holds the read's times, values, flags and column names |
| `SeriesModel.FilteredRaw` | Ska/engarchive/fetch.py:376-399 | filtering a read keeps the times and values its flags do not mark, and leaves no mask |
| `SeriesModel.FetchMsidFiltered` | Ska/engarchive/fetch.py:204-206 | with `filter_bad` the MSID holds only the read's good times and values, with no mask |
| `SeriesModel.FetchMsidSharedTimes` | Ska/engarchive/fetch.py:177-227 | two MSIDs of one content type built over one range have the same times, and masks of one length |
| `SeriesModel.MSID.constructor` | Ska/engarchive/fetch.py:177-183 | stores the given resolved names and data |
| `SeriesModel.MSID.Fetch` | Ska/engarchive/fetch.py:177-227 | `MSID(msid, start, stop, filter_bad)` through the memoized interval and the cached read: it raises exactly when the model function does, with the same error, and otherwise the new object holds the resolved names and the same data |
| `SeriesModel.MSID.KeepRows` | Ska/engarchive/fetch.py:396-397 | the in-place column loop has the effect and outcome of the column-loop function |
| `SeriesModel.MSID.FilterBad` | Ska/engarchive/fetch.py:376-399 | the object's new data and outcome are those of the `filter_bad` function, including a given mask of the wrong length |
| `SeriesModel.MSID.FilterBadTimes` | Ska/engarchive/fetch.py:401-452 | an argument error changes nothing; otherwise the new data and outcome are those of the interval loop |
| `SeriesModel.MSID.TakeRows` | Ska/engarchive/fetch.py:801-804 | the object's new data is the reindexed series |
| `Intervals.LocalFilter` | Ska/engarchive/fetch.py:526-533 | no mask, or a mask flagging nothing, leaves the samples as they are; otherwise no longer and aligned |
| `Intervals.LocalFilterIncreasing` | Ska/engarchive/fetch.py:526-530 | local filtering keeps strictly increasing times strictly increasing |
| `Intervals.ParseOp` | Ska/engarchive/fetch.py:514-524 | exactly the six operators are accepted; any other raises naming it |
| `Intervals.Predicate` | Ska/engarchive/fetch.py:535-536 | the predicate at each sample is `op(vals[i], val)` |
| `Intervals.StartAt` | Ska/engarchive/fetch.py:535 | a start is a false sample followed by a true one |
| `Intervals.EndAt` | Ska/engarchive/fetch.py:536 | an end is a true sample followed by a false one |
| `Intervals.Balance` | Ska/engarchive/fetch.py:535-536 | starts minus ends before sample `j` is `p[j] - p[0]` |
| `Intervals.TotalBalance` | Ska/engarchive/fetch.py:535-547 | over the whole sample, the starts found by `flatnonzero` outnumber the ends by `p[-1] - p[0]` |
| `Intervals.PairCount` | Ska/engarchive/fetch.py:541-549 | after the trimming there are as many starts as ends |
| `Intervals.TrimmedAt` | Ska/engarchive/fetch.py:541-549 | trimmed start `k` is raw start `k`; trimmed end `k` is raw end `k + p[0]` |
| `Intervals.StartBeforeEnd` | Ska/engarchive/fetch.py:541-552 | each start comes before its end, and the end is not the last sample |
| `Intervals.FalseOutside` | Ska/engarchive/fetch.py:535-549 | the predicate is false at a start and just after its end |
| `Intervals.HoldsWithin` | Ska/engarchive/fetch.py:535-549 | the predicate holds at every sample after a start up to its end |
| `Intervals.EndBeforeNextStart` | Ska/engarchive/fetch.py:541-549 | an interval ends before the next one starts |
| `Intervals.IndicesInRange` | Ska/engarchive/fetch.py:541-552 | every start and end index is a sample other than the last |
| `Intervals.LogicalRowAt` | Ska/engarchive/fetch.py:551-557 | row `k` has the time of start `k`, the time of end `k` and their difference |
| `Intervals.LogicalIntervals` | Ska/engarchive/fetch.py:484-560 | raises exactly on an unknown operator or no samples left after filtering, the latter as an index error |
| `Intervals.RowIsInterval` | Ska/engarchive/fetch.py:491-493 | every row is a complete interval: false at its start, true up to its stop, false just after, with duration stop minus start |
| `Intervals.RowsOrdered` | Ska/engarchive/fetch.py:551-557 | on increasing times the rows have positive duration and do not overlap |
| `Intervals.LogicalIntervalsRows` | Ska/engarchive/fetch.py:484-560 | every returned row is a complete interval of the filtered samples |
| `Intervals.CompleteIntervalPaired` | Ska/engarchive/fetch.py:535-549 | the start and the end of a complete interval of the flags are paired at one index of the trimmed start and end lists |
| `Intervals.PairedAt` | Ska/engarchive/fetch.py:541-549 | raw start `k` and raw end `k + p[0]` form trimmed pair `k` whenever a further start follows when the last sample holds |
| `Columns.FlatnonzeroExact` | Ska/engarchive/fetch.py:541 | `flatnonzero` is the only increasing list of exactly the true positions |
| `Intervals.LogicalIntervalsComplete` | Ska/engarchive/fetch.py:484-560 | every complete interval of the filtered samples is returned as a row |
| `Intervals.LogicalIntervalsExact` | Ska/engarchive/fetch.py:484-560 | the returned rows are exactly the complete intervals of the filtered samples |
| `Intervals.LogicalIntervalsOrdered` | Ska/engarchive/fetch.py:484-560 | on increasing times the returned rows have positive duration and come in order, each stopping before the next starts |
| `Intervals.ChangeAt` | Ska/engarchive/fetch.py:597 | a change marks two different neighbouring values |
| `Intervals.MidAt` | Ska/engarchive/fetch.py:598-600 | boundary 0 is half a step before the first sample, boundary `n` half a step after the last, the others midway between neighbours |
| `Intervals.MidBefore` | Ska/engarchive/fetch.py:598-600 | on increasing times boundary `j` precedes every sample from `j` on |
| `Intervals.MidAfter` | Ska/engarchive/fetch.py:598-600 | on increasing times boundary `j` follows every sample before `j` |
| `Intervals.TransitionsTail` | Ska/engarchive/fetch.py:597-602 | the transitions after the first are the changes followed by `True` |
| `Intervals.TransitionsCount` | Ska/engarchive/fetch.py:597-603 | the first and last transitions are set, and there are two more transitions than changes |
| `Intervals.TransitionAt` | Ska/engarchive/fetch.py:597 | inner transition `j` is set exactly when samples `j - 1` and `j` differ |
| `Intervals.RunConstant` | Ska/engarchive/fetch.py:597-602 | a stretch without changes has one value |
| `Intervals.StateValOf` | Ska/engarchive/fetch.py:602 | the run numbered by the changes before sample `i` has the value of sample `i` |
| `Intervals.BoundaryIndices` | Ska/engarchive/fetch.py:597-603 | the boundaries around sample `i`'s run enclose it |
| `Intervals.StateIntervals` | Ska/engarchive/fetch.py:562-613 | fewer than two samples before filtering is the value error; otherwise fewer than two after filtering is an index error; otherwise one row per run of equal values |
| `Intervals.StateIntervalsRows` | Ska/engarchive/fetch.py:585-613 | a result is the rows of the locally filtered samples |
| `Intervals.StateRowsCover` | Ska/engarchive/fetch.py:562-613 | on increasing times every sample lies strictly inside a row whose value is its own |
| `Intervals.StateValsAlternate` | Ska/engarchive/fetch.py:602 | neighbouring runs have different values |
| `Intervals.StateRowsAlternate` | Ska/engarchive/fetch.py:605-610 | neighbouring rows have different values and touch: one stops where the next starts |
| `Intervals.StateTimesFirst` | Ska/engarchive/fetch.py:598-603 | the first boundary is half a step before the first sample |
| `Intervals.StateTimesLast` | Ska/engarchive/fetch.py:599-603 | the last boundary is half a step after the last sample |
| `Intervals.StateTimesInner` | Ska/engarchive/fetch.py:600-603 | every inner boundary is the midpoint of two neighbours with different values |
| `Intervals.StateRowsFirstStart` | Ska/engarchive/fetch.py:598-607 | the first row starts half a step before the first sample |
| `Intervals.StateRowsLastStop` | Ska/engarchive/fetch.py:599-608 | the last row stops half a step after the last sample |
| `Intervals.StateRowsInnerStart` | Ska/engarchive/fetch.py:600-607 | every later row starts midway between two neighbours with different values |
| `Intervals.StateIntervalsChecked` | Ska/engarchive/fetch.py:594-595 | with the check on the filtered samples: an error exactly when fewer than two remain, always the value error, and otherwise the same rows |
| `Intervals.StateIntervalsCheckMisplaced` | Ska/engarchive/fetch.py:594-600 | two samples of which one is bad give an index error as written, and the value error once corrected |
| `Intervals.ThresholdExample` | Ska/engarchive/fetch.py:484-560 | `vals == 1` on `[0, 0, 1, 1, 0, 1]` gives the one complete interval from sample 1 to 3; the open interval at the end is dropped |
| `Intervals.StateRunsExample` | Ska/engarchive/fetch.py:562-613 | `[5, 5, 7, 7, 7, 2]` at times `0..50` gives three runs with boundaries `-5, 15, 45, 55` |
| `MsidSet.Ceil` | Ska/engarchive/fetch.py:791 | the ceiling is the least integer at or above its argument |
| `MsidSet.Arange` | Ska/engarchive/fetch.py:791 | a zero step is an error, and only a zero step |
| `MsidSet.ArangeRising` | Ska/engarchive/fetch.py:791 | with a positive step the grid holds `start + k * step` exactly for the `k` where it lies below `stop` |
| `MsidSet.ArangeFalling` | Ska/engarchive/fetch.py:791 | with a negative step the grid holds `start + k * step` exactly for the `k` where it lies above `stop` |
| `MsidSet.Nearest` | Ska/engarchive/fetch.py:797-799 | the index of a sample at least as close as any other, and the first such |
| `MsidSet.NearestIndexes` | Ska/engarchive/fetch.py:797-799 | one valid sample index per grid point |
| `MsidSet.GroupMask` | Ska/engarchive/fetch.py:740-749 | a group mask exists exactly when a member of the content type still has a mask, and it has that mask's length |
| `MsidSet.GroupMaskAt` | Ska/engarchive/fetch.py:745-749 | a sample is flagged in the group mask exactly when some masked member of the group flags it |
| `MsidSet.SetFilteredMember` | Ska/engarchive/fetch.py:740-752 | after the set filter a member has no mask; a member that had one keeps the rows no member of its group flags; a member without one is unchanged |
| `MsidSet.SetFilteredAligned` | Ska/engarchive/fetch.py:716-719 | members of one content type that had masks end with equal lengths, and equal times stay equal |
| `MsidSet.SetFilteredIdempotent` | Ska/engarchive/fetch.py:713-752 | filtering the set again changes nothing |
| `MsidSet.Prepared` | Ska/engarchive/fetch.py:794-795 | the optional `filter_bad` before resampling leaves a consistent series |
| `MsidSet.Interpolated` | Ska/engarchive/fetch.py:793-810 | resampling fails exactly when the member has no samples and the grid is not empty, as an index error |
| `MsidSet.InterpolatedShape` | Ska/engarchive/fetch.py:801-810 | a resampled member is consistent, its times are the grid, `times0` has the grid's length, names are kept, and a mask survives only when not filtered |
| `MsidSet.InterpolatedNearest` | Ska/engarchive/fetch.py:797-809 | grid point `k` takes every attribute, and `times0`, from the sample nearest to it |
| `MsidSet.FirstErr` | Ska/engarchive/fetch.py:706-709 | every attempt before the first failure succeeded, and the one there failed |
| `MsidSet.FirstFailing` | Ska/engarchive/fetch.py:793-810 | the loop stops at the first member that cannot be resampled |
| `MsidSet.Bound` | Ska/engarchive/fetch.py:789-790 | a given non-zero bound is used; a missing or zero bound falls back to the set's own, as Python's truth test does |
| `MsidSet.ApplyGroupMaskAt` | Ska/engarchive/fetch.py:751-752 | group members with a mask end consistent and unmasked; every other member is unchanged |
| `MsidSet.StageNone` | Ska/engarchive/fetch.py:740 | before any content type is processed the set is as it was |
| `MsidSet.StageAll` | Ska/engarchive/fetch.py:740 | once every content type is processed the set is the filtered one |
| `MsidSet.StageAdvance` | Ska/engarchive/fetch.py:740-752 | processing one more content type advances the staged set by that group |
| `MsidSet.GroupMaskLocal` | Ska/engarchive/fetch.py:743-749 | a group's mask depends only on that group's members, so the order of content types does not matter |
| `MsidSet.ResampledStep` | Ska/engarchive/fetch.py:793-810 | one more resampled member extends the partly resampled set |
| `MsidSet.ResampledFails` | Ska/engarchive/fetch.py:793-810 | on a failure the earlier members are resampled, the failing one is only filtered, and the later ones are untouched |
| `MsidSet.ResampledAll` | Ska/engarchive/fetch.py:793-810 | when no member fails the whole set is resampled |
| `MsidSet.ResampleMember` | Ska/engarchive/fetch.py:794-810 | returns the member after the optional filter, and its resampling |
| `MsidSet.GroupMaskOf` | Ska/engarchive/fetch.py:741-749 | the OR loop computes the group mask |
| `MsidSet.FilterGroup` | Ska/engarchive/fetch.py:751-752 | the filter loop applies the group mask to the group's masked members |
| `MsidSet.FilterByContent` | Ska/engarchive/fetch.py:740-752 | the loop over content types produces the set filter |
| `MsidSet.ResampleAll` | Ska/engarchive/fetch.py:793-810 | the loop produces the partly or fully resampled set, and passes exactly when every member resampled |
| `MsidSet.InterpolatedSetWellFormed` | Ska/engarchive/fetch.py:793-810 | every member stays consistent through resampling |
| `MsidSet.MSIDset.constructor` | Ska/engarchive/fetch.py:694-701 | an empty set with its time range |
| `MsidSet.MSIDset.Put` | Ska/engarchive/fetch.py:708 | assigning a new key appends it; assigning an existing key replaces its value in place |
| `MsidSet.PutExistingKeeps` | Ska/engarchive/fetch.py:708 | overwriting a name with the MSID built from it keeps every member the MSID built from its own name |
| `MsidSet.PutNewKeeps` | Ska/engarchive/fetch.py:708 | appending a new name with the MSID built from it extends the members by that MSID |
| `MsidSet.MembersAligned` | Ska/engarchive/fetch.py:707-709 | MSIDs of one content type built over the set's range share their times and carry masks of one length, as the set filter needs |
| `MsidSet.MSIDset.AddMember` | Ska/engarchive/fetch.py:707-709 | one `self[msid] = MSID(...)`: the error building it is raised with the set unchanged, or the name is stored with its MSID |
| `MsidSet.MSIDset.AddMembers` | Ska/engarchive/fetch.py:706-709 | the first name whose MSID cannot be built raises its error; otherwise the set holds the expanded names in insertion order, each with the MSID built from it |
| `MsidSet.MSIDset.FilterBad` | Ska/engarchive/fetch.py:713-752 | the members become the set filter of the old members; names and content types are unchanged |
| `MsidSet.MSIDset.Interpolate` | Ska/engarchive/fetch.py:754-810 | a zero step raises and changes nothing; otherwise the grid is set and the members are resampled up to the first failure |
| `MsidSet.MakeSet` | Ska/engarchive/fetch.py:694-711 | an expansion error is raised; otherwise the first name whose MSID cannot be built raises its error; otherwise the set holds each expanded name's MSID, read over the set's range, filtered by group when asked |
| `MsidSet.SetFilterExample` | Ska/engarchive/fetch.py:740-752 | of two same-content members, the masked one loses its flagged sample while the one without a mask keeps all three |
| `MsidSet.NearestExample` | Ska/engarchive/fetch.py:791-799 | `arange(0, 20, 10)` is `[0, 10]`; grid point 10 takes the sample at 5; a tie takes the earlier sample |
| `MsidSet.InterpolateExample` | Ska/engarchive/fetch.py:797-810 | a member at times `0, 5, 20` resampled onto `[0, 10]` has times `[0, 10]`, and grid point `k` takes value `[1, 2][k]` and `times0` entry `[0, 5][k]` |
| `FetchContext.FtContext.constructor` | Ska/engarchive/fetch.py:41 | the context starts with the given entries |
| `FetchContext.FtContext.Snapshot` | Ska/engarchive/fetch.py:1019 | the snapshot equals the current contents |
| `FetchContext.FtContext.Set` | Ska/engarchive/fetch.py:215-216 | one key set, nothing else changed |
| `FetchContext.FtContext.Restore` | Ska/engarchive/fetch.py:1022-1027 | after the update and the deletions the context equals the snapshot, whatever was set in between |
| `FetchContext.FtContext.FetchUnderCachedFt` | Ska/engarchive/fetch.py:213-219 | a fetch under the guard leaves the caller's context exactly as it was |
| `FetchContext.Plural` | Ska/engarchive/fetch.py:1049-1053 | the plural extends the word and ends in `s`; it is two letters longer, via `es`, exactly when the word ends in `x` or `s` |
| `FetchContext.SingularOfPlural` | Ska/engarchive/fetch.py:1049-1053 | words not ending in `xe` or `se` are recovered from their plural |
| `FetchContext.PluralCollides` | Ska/engarchive/fetch.py:1049-1053 | `max` and `maxe` share a plural, so the rule is not one-to-one |
| `FetchContext.StatColumnNames` | Ska/engarchive/fetch.py:246 | statistics columns are renamed `vals`, `mins`, `maxes`, `means`, `p50s`, and `n` becomes `samples` |

## Left out

- Reading HDF5 files, querying the SQLite `archfiles` database and opening
  files: these are the `Store` and catalog parameters. `ft['msid'] = 'time'`
  inside `_get_msid_data` only selects the file to open and is not modelled
  there.
- `DateTime` conversions and the current time as the default stop: times
  are numbers, and a missing stop is not modelled.
- `units.convert` and `units.get_msid_unit`: conversion is a function
  parameter applied element by element.
- `_get_stat_data` (statistics fetch): only the column renaming at line 246 is
  modelled. The HDF5 stats table, the `index` arithmetic and the
  `means`/`midvals` swap are not.
- `_get_msid_data_cached` and the `CACHE` switch: the `lru_cache` is off by
  default, and the result is the same either way.
- The `TypeError` branch of `memoized`: the keys are always hashable here.
- Logging, plotting (`iplot`, `plot`), `write_zip`, `raw_vals`,
  `state_codes`, `fetch_records`, `fetch_arrays`, `fetch_array`,
  `read_bad_times` file parsing, and the `Msid`/`Msidset` subclasses, which
  only change a default.
- String-valued (state code) `vals`: values are reals, so `logical_intervals`
  compares reals only.
- Floating point: times and values are exact reals, so `numpy.arange`'s
  rounding and the midpoint arithmetic are exact in the model.
- `datestart`/`datestop` columns of the interval tables: these are `DateTime`
  renderings of `tstart`/`tstop`.
- `Ska.Numpy.interpolate`: modelled as nearest neighbour with the lower index
  on a tie. On an empty member and a non-empty grid the model raises an index
  error.
- `Ska.Numpy.structured_array`: the tables are sequences of row records.
- `MsidSet.MSIDset.FilterBad`: requires the masks within each content type
  to have one length. The code would raise on a shape mismatch, and that error
  path is not modelled. `MsidSet.MakeSet` establishes the requirement for
  every set it builds (`MsidSet.MembersAligned`).
- `MsidSet.MakeSet`: each member is read through `SeriesModel.FetchMsid`.
  That function reads through the uncached `_get_msid_data` path
  (`RawReader.MsidData`). `SeriesModel.MSID.Fetch` and
  `RawReader.GetMsidData` show that the memoized and cached path gives the
  same result.
- `NameResolver.Upper`, `NameResolver.Lower`: `str.upper`/`str.lower` are
  modelled on ASCII letters only (line 137). Other characters are left as
  they are, so the case mapping of non-ASCII letters is not captured.
- `ArchiveIndex.Memoized.Call`: the `ft['content'] = content` assignment in
  the body of `get_interval` (line 990) is not modelled. In the code that
  write is skipped on a memo hit, so which content `ft` names after a cached
  call is not captured.
- `Columns.SearchSortedLeft`: `numpy.searchsorted` (line 329) is modelled as
  a linear scan for the first element not below the key. This agrees with
  numpy's binary search only on sorted input (`Columns.SearchSortedLeftSorted`).
  The archive's time columns are in time order (`RawReader.SortedTimes`). On
  unsorted input the model's index can differ from numpy's.
- MSIDset members are values held in the set. The caller's aliases to the same
  `MSID` objects are not modelled.
- `set(...)` iteration order in `MSIDset.filter_bad`: the model processes
  content types in first-seen order. `GroupMaskLocal` and the `Stage` lemmas
  show that the result does not depend on that order.
- `fnmatch`: a reversed range such as `[z-a]` raises in Python and matches
  nothing in the model. Character classes, `*`, `?` and `!` are modelled.
- `ft` values are strings: pyyaks `ContextValue` objects are not modelled,
  and neither is a `pickle` round trip that could change them.
- The docstring of `MSIDset.filter_bad` (lines 716-719) says the arrays of a
  content type all match up after filtering. Members that no longer have a
  mask are left untouched, so the model follows the code (`SetFilterExample`).

## Findings

| source | as written | input that shows it | evidently intended | confidence | as-written member | corrected member |
|---|---|---|---|---|---|---|
| Ska/engarchive/fetch.py:594-595 | `state_intervals` checks the length of the unfiltered `self.vals` | `vals = [1, 2]`, `bads = [False, True]`: one sample survives, and `times[1]` is read past the end (index error) | the check the message describes, on the filtered `vals`, raising the value error | not executed; high | `Intervals.StateIntervals` (shown by `Intervals.StateIntervalsCheckMisplaced`) | `Intervals.StateIntervalsChecked` |
