/** One fetched series (an `MSID` object) and its two in-place filters:
    dropping the samples flagged bad, and dropping bad time intervals. */
module SeriesModel {
  import opened Wrappers
  import opened Columns
  import NameResolver
  import ArchiveIndex
  import RawReader

  const TIMES := "times"
  const VALS := "vals"
  const BADS := "bads"

  /** The data of an MSID object.  Every name in `colnames` other than `bads`
      is an attribute held in `columns`; `bads` is the quality mask, `None`
      once bad values have been filtered out. */
  datatype Series = Series(columns: map<string, seq<real>>, bads: Option<seq<bool>>, colnames: seq<string>)

  /** A consistent series: the listed columns, `times` among them, all have
      the length of `times`, and so has the mask when present, which is then
      listed as `bads`. */
  ghost predicate WellFormed(s: Series) {
    && TIMES in s.columns
    && TIMES in s.colnames
    && Distinct(s.colnames)
    && (forall c :: c in s.colnames && c != BADS ==> c in s.columns && |s.columns[c]| == |s.columns[TIMES]|)
    && (s.bads.Some? ==> BADS in s.colnames && |s.bads.value| == |s.columns[TIMES]|)
  }

  /** Number of samples. */
  function Length(s: Series): nat
    requires TIMES in s.columns
  {
    |s.columns[TIMES]|
  }

  /** The state a filter leaves behind, and whether it completed. */
  datatype Partial = Partial(state: Series, outcome: Outcome)

  /** `setattr(self, name, getattr(self, name)[ok])` for one column name; the
      name `bads` designates the mask, which cannot be indexed once `None`. */
  function KeepColumn(s: Series, name: string, ok: seq<bool>): Result<Series> {
    if name == BADS then
      if s.bads.None? then Err(NoneNotSubscriptable)
      else if |s.bads.value| != |ok| then Err(IndexOutOfRange)
      else Ok(s.(bads := Some(Select(s.bads.value, ok))))
    else if name !in s.columns then Err(MissingAttribute(name))
    else if |s.columns[name]| != |ok| then Err(IndexOutOfRange)
    else Ok(s.(columns := s.columns[name := Select(s.columns[name], ok)]))
  }

  /** The loop over column names, in order: the first failing column stops it
      and the columns before it stay filtered. */
  function KeepColumns(s: Series, names: seq<string>, ok: seq<bool>): Partial
    decreases |names|
  {
    if |names| == 0 then Partial(s, Pass)
    else
      match KeepColumn(s, names[0], ok)
      case Err(e) => Partial(s, Fail(e))
      case Ok(t) => KeepColumns(t, names[1..], ok)
  }

  /** One turn of the loop over `names[i..]`. */
  lemma KeepColumnsStep(s: Series, names: seq<string>, i: nat, ok: seq<bool>)
    requires i < |names|
    ensures KeepColumns(s, names[i..], ok)
         == match KeepColumn(s, names[i], ok)
            case Err(e) => Partial(s, Fail(e))
            case Ok(t) => KeepColumns(t, names[i + 1..], ok)
  {
    assert names[i..][0] == names[i] && names[i..][1..] == names[i + 1..];
  }

  /** Every name to be filtered designates a column (or a present mask) of
      length `n`. */
  ghost predicate Fits(s: Series, names: seq<string>, n: nat) {
    && (forall c :: c in names && c != BADS ==> c in s.columns && |s.columns[c]| == n)
    && (BADS in names ==> s.bads.Some? && |s.bads.value| == n)
  }

  /** When every name fits, the loop completes and each named column keeps
      exactly the rows where `ok` holds; nothing else changes. */
  lemma {:induction false} KeepColumnsFits(s: Series, names: seq<string>, ok: seq<bool>)
    requires Fits(s, names, |ok|) && Distinct(names)
    ensures var p := KeepColumns(s, names, ok);
      && p.outcome == Pass
      && p.state.colnames == s.colnames
      && p.state.columns.Keys == s.columns.Keys
      && (forall c :: c in s.columns ==>
            p.state.columns[c] == (if c in names && c != BADS then Select(s.columns[c], ok) else s.columns[c]))
      && p.state.bads == (if BADS in names then Some(Select(s.bads.value, ok)) else s.bads)
    decreases |names|
  {
    if |names| > 0 {
      var t := KeepColumn(s, names[0], ok).value;
      var rest := names[1..];
      DistinctTail(names);
      assert forall c :: c in names <==> c == names[0] || c in rest by {
        assert names == [names[0]] + rest;
      }
      assert Fits(t, rest, |ok|);
      KeepColumnsFits(t, rest, ok);
      var p := KeepColumns(s, names, ok);
      assert p == KeepColumns(t, rest, ok);
      forall c | c in s.columns
        ensures p.state.columns[c] == (if c in names && c != BADS then Select(s.columns[c], ok) else s.columns[c])
      {
        if c != names[0] {
          assert t.columns[c] == s.columns[c];
        }
      }
      assert p.state.bads == (if BADS in names then Some(Select(s.bads.value, ok)) else s.bads);
    }
  }

  /** The loop over a concatenation is the loop over the first part, then,
      if that completed, over the second. */
  lemma {:induction false} KeepColumnsAppend(s: Series, x: seq<string>, y: seq<string>, ok: seq<bool>)
    ensures KeepColumns(s, x + y, ok)
         == (var p := KeepColumns(s, x, ok); if p.outcome.Fail? then p else KeepColumns(p.state, y, ok))
    decreases |x|
  {
    if |x| == 0 {
      assert x + y == y;
    } else {
      assert (x + y)[0] == x[0] && (x + y)[1..] == x[1..] + y;
      match KeepColumn(s, x[0], ok)
      case Err(e) =>
      case Ok(t) =>
        calc {
          KeepColumns(s, x + y, ok);
          KeepColumns(t, x[1..] + y, ok);
          { KeepColumnsAppend(t, x[1..], y, ok); }
          var p := KeepColumns(t, x[1..], ok); if p.outcome.Fail? then p else KeepColumns(p.state, y, ok);
        }
    }
  }

  // ---------------------------------------------------------------------
  // filter_bad
  // ---------------------------------------------------------------------

  /** The generator of column names other than `bads`, in order. */
  function Others(names: seq<string>): (r: seq<string>)
    ensures forall c :: c in r <==> c in names && c != BADS
  {
    if |names| == 0 then []
    else (if names[0] == BADS then [] else [names[0]]) + Others(names[1..])
  }

  lemma {:induction false} OthersDistinct(names: seq<string>)
    requires Distinct(names)
    ensures Distinct(Others(names))
  {
    if |names| > 0 {
      var rest := names[1..];
      assert Distinct(rest) by {
        forall i, j | 0 <= i < j < |rest|
          ensures rest[i] != rest[j]
        {
          assert rest[i] == names[i + 1] && rest[j] == names[j + 1];
        }
      }
      OthersDistinct(rest);
      var r := Others(names);
      var head := if names[0] == BADS then [] else [names[0]];
      assert r == head + Others(rest);
      forall i, j | 0 <= i < j < |r|
        ensures r[i] != r[j]
      {
        if i < |head| {
          assert r[i] == names[0];
          assert r[j] in Others(rest);
          var k :| 0 <= k < |rest| && rest[k] == r[j];
          assert names[k + 1] == r[j];
        } else {
          assert r[i] == Others(rest)[i - |head|] && r[j] == Others(rest)[j - |head|];
        }
      }
    }
  }

  /** `filter_bad(bads)`: a supplied mask replaces the series' own; with no
      mask the series is already clean; otherwise, when the mask flags
      anything, every column other than `bads` keeps the rows where it is
      false, a column the mask does not fit stopping the loop with the mask
      already stored; once the loop completes the mask becomes `None`. */
  function FilterBadResult(s: Series, mask: Option<seq<bool>>): (r: Partial)
    requires WellFormed(s)
    ensures r.state.colnames == s.colnames
  {
    var s1 := if mask.Some? then s.(bads := mask) else s;
    if s1.bads.None? then Partial(s1, Pass)
    else if Any(s1.bads.value) then
      var p := KeepColumns(s1, Others(s1.colnames), Not(s1.bads.value));
      KeepColumnsNames(s1, Others(s1.colnames), Not(s1.bads.value));
      if p.outcome.Fail? then p else Partial(p.state.(bads := None), Pass)
    else Partial(s1.(bads := None), Pass)
  }

  /** The column loop never changes the list of names. */
  lemma {:induction false} KeepColumnsNames(s: Series, names: seq<string>, ok: seq<bool>)
    ensures KeepColumns(s, names, ok).state.colnames == s.colnames
    decreases |names|
  {
    if |names| > 0 && KeepColumn(s, names[0], ok).Ok? {
      KeepColumnsNames(KeepColumn(s, names[0], ok).value, names[1..], ok);
    }
  }

  /** The series `filter_bad(bads)` leaves behind when the mask (the supplied
      one, else the series' own) has one entry per sample. */
  function Filtered(s: Series, mask: Option<seq<bool>>): Series
    requires WellFormed(s)
    requires mask.Some? ==> |mask.value| == Length(s)
  {
    FilterBadResult(s, mask).state
  }

  /** A mask with one entry per sample always lets `filter_bad` complete. */
  lemma FilterBadAligned(s: Series, mask: Option<seq<bool>>)
    requires WellFormed(s)
    requires mask.Some? ==> |mask.value| == Length(s)
    ensures FilterBadResult(s, mask) == Partial(Filtered(s, mask), Pass)
  {
    var s1 := if mask.Some? then s.(bads := mask) else s;
    if s1.bads.Some? && Any(s1.bads.value) {
      OthersDistinct(s.colnames);
      KeepColumnsFits(s1, Others(s.colnames), Not(s1.bads.value));
    }
  }

  /** A supplied mask of the wrong length that flags something is stored,
      then the first column it indexes raises an index error and nothing is
      cut; one that flags nothing is simply cleared. */
  lemma FilterBadMismatch(s: Series, mask: Option<seq<bool>>)
    requires WellFormed(s)
    requires mask.Some? && |mask.value| != Length(s)
    ensures Any(mask.value) ==> FilterBadResult(s, mask) == Partial(s.(bads := mask), Fail(IndexOutOfRange))
    ensures !Any(mask.value) ==> FilterBadResult(s, mask) == Partial(s.(bads := None), Pass)
  {
    var s1 := s.(bads := mask);
    var names := Others(s.colnames);
    assert TIMES in names;
    var c := names[0];
    assert c in names;
    assert c in s.colnames && c != BADS;
  }

  /** `not any(m)` means every entry of `~m` is true. */
  lemma NoneBadAllKept(m: seq<bool>)
    requires !Any(m)
    ensures All(Not(m))
  {
  }

  /** What filtering leaves: with a mask `b` (the supplied one, else the
      series' own), every listed column other than `bads` is masked by `~b`
      and the mask is cleared; without one nothing changes.  The `any` test
      is only a shortcut, and the result is again consistent. */
  lemma FilteredKeeps(s: Series, mask: Option<seq<bool>>)
    requires WellFormed(s)
    requires mask.Some? ==> |mask.value| == Length(s)
    ensures var r := Filtered(s, mask);
      var b := if mask.Some? then mask else s.bads;
      && WellFormed(r)
      && r.bads.None?
      && r.colnames == s.colnames
      && r.columns.Keys == s.columns.Keys
      && (forall c :: c in s.columns ==>
            r.columns[c] == (if b.Some? && c in s.colnames && c != BADS then Select(s.columns[c], Not(b.value))
                             else s.columns[c]))
      && (b.None? ==> r == s)
  {
    var r := Filtered(s, mask);
    var b := if mask.Some? then mask else s.bads;
    var s1 := if mask.Some? then s.(bads := mask) else s;
    if b.Some? {
      var ok := Not(b.value);
      if Any(b.value) {
        OthersDistinct(s.colnames);
        KeepColumnsFits(s1, Others(s.colnames), ok);
      } else {
        NoneBadAllKept(b.value);
        forall c | c in s.columns && c in s.colnames && c != BADS
          ensures Select(s.columns[c], ok) == s.columns[c]
        {
          SelectAllKept(s.columns[c], ok);
        }
      }
      assert |r.columns[TIMES]| == Count(ok);
    }
  }

  /** Filtering twice changes nothing more: the second call finds no mask. */
  lemma FilteredIdempotent(s: Series, mask: Option<seq<bool>>)
    requires WellFormed(s)
    requires mask.Some? ==> |mask.value| == Length(s)
    ensures WellFormed(Filtered(s, mask))
    ensures Filtered(Filtered(s, mask), None) == Filtered(s, mask)
  {
    FilteredKeeps(s, mask);
    FilteredKeeps(Filtered(s, mask), None);
  }

  // ---------------------------------------------------------------------
  // filter_bad_times
  // ---------------------------------------------------------------------

  /** The bad-time intervals to remove: a table takes precedence; with neither
      `start` nor `stop` the registry's list for this MSID (empty when it has
      none); with both, the single interval; with only one, an error. */
  function BadTimesSource(registry: map<string, seq<(real, real)>>, canonical: string,
                          start: Option<real>, stop: Option<real>, table: Option<seq<(real, real)>>)
    : (r: Result<seq<(real, real)>>)
    ensures r.Err? <==> table.None? && (start.None? != stop.None?)
    ensures table.Some? ==> r == Ok(table.value)
    ensures table.None? && start.None? && stop.None? && canonical !in registry ==> r == Ok([])
    ensures table.None? && start.None? && stop.None? && canonical in registry ==> r == Ok(registry[canonical])
    ensures table.None? && start.Some? && stop.Some? ==> r == Ok([(start.value, stop.value)])
  {
    if table.Some? then Ok(table.value)
    else if start.None? && stop.None? then Ok(if canonical in registry then registry[canonical] else [])
    else if start.None? || stop.None? then Err(BadTimesArguments)
    else Ok([(start.value, stop.value)])
  }

  /** `(times < tstart) | (times > tstop)` */
  function Outside(times: seq<real>, tstart: real, tstop: real): (ok: seq<bool>)
    ensures |ok| == |times|
    ensures forall i :: 0 <= i < |times| ==> ok[i] == (times[i] < tstart || times[i] > tstop)
  {
    seq(|times|, i requires 0 <= i < |times| => times[i] < tstart || times[i] > tstop)
  }

  /** One pass of the interval loop: a reversed interval raises; an interval
      missing `[times[0], times[-1]]` is skipped; otherwise every listed
      column, `bads` included, keeps the samples outside the closed interval. */
  function RemoveInterval(s: Series, tstart: real, tstop: real): Partial {
    if tstart > tstop then Partial(s, Fail(InvalidInterval(tstart, tstop)))
    else if TIMES !in s.columns then Partial(s, Fail(MissingAttribute(TIMES)))
    else
      var t := s.columns[TIMES];
      if |t| == 0 then Partial(s, Fail(IndexOutOfRange))
      else if tstop < t[0] || tstart > t[|t| - 1] then Partial(s, Pass)
      else KeepColumns(s, s.colnames, Outside(t, tstart, tstop))
  }

  /** The interval loop: intervals in order, stopping at the first failure
      with the earlier removals kept. */
  function RemoveIntervals(s: Series, intervals: seq<(real, real)>): Partial
    decreases |intervals|
  {
    if |intervals| == 0 then Partial(s, Pass)
    else
      var p := RemoveInterval(s, intervals[0].0, intervals[0].1);
      if p.outcome.Fail? then p else RemoveIntervals(p.state, intervals[1..])
  }

  /** A series whose mask can be indexed wherever `colnames` lists it. */
  ghost predicate MaskIndexable(s: Series) {
    BADS in s.colnames ==> s.bads.Some?
  }

  /** A consistent series with a usable mask fits a filter over all its
      listed columns. */
  lemma WellFormedFits(s: Series)
    requires WellFormed(s) && MaskIndexable(s)
    ensures Fits(s, s.colnames, Length(s))
  {
  }

  /** An overlapping interval on a consistent series removes the samples
      inside it from every listed column alike, and leaves a consistent
      series. */
  lemma RemoveIntervalKeeps(s: Series, tstart: real, tstop: real)
    requires WellFormed(s) && MaskIndexable(s) && tstart <= tstop && Length(s) > 0
    requires var t := s.columns[TIMES]; !(tstop < t[0] || tstart > t[|t| - 1])
    ensures var p := RemoveInterval(s, tstart, tstop);
      var ok := Outside(s.columns[TIMES], tstart, tstop);
      && p.outcome == Pass
      && WellFormed(p.state) && MaskIndexable(p.state)
      && p.state.colnames == s.colnames
      && p.state.columns.Keys == s.columns.Keys
      && (forall c :: c in s.columns ==>
            p.state.columns[c] == (if c in s.colnames && c != BADS then Select(s.columns[c], ok) else s.columns[c]))
      && p.state.bads == (if BADS in s.colnames then Some(Select(s.bads.value, ok)) else s.bads)
  {
    var t := s.columns[TIMES];
    var ok := Outside(t, tstart, tstop);
    WellFormedFits(s);
    KeepColumnsFits(s, s.colnames, ok);
    var p := RemoveInterval(s, tstart, tstop);
    assert p == KeepColumns(s, s.colnames, ok);
    assert |p.state.columns[TIMES]| == Count(ok);
  }

  /** An overlapping interval removes exactly the times inside it. */
  lemma RemoveIntervalTimes(s: Series, tstart: real, tstop: real)
    requires WellFormed(s) && MaskIndexable(s) && tstart <= tstop && Length(s) > 0
    requires var t := s.columns[TIMES]; !(tstop < t[0] || tstart > t[|t| - 1])
    ensures var p := RemoveInterval(s, tstart, tstop);
      && TIMES in p.state.columns
      && p.state.columns[TIMES] == Select(s.columns[TIMES], Outside(s.columns[TIMES], tstart, tstop))
      && (forall x :: x in p.state.columns[TIMES] <==> x in s.columns[TIMES] && (x < tstart || x > tstop))
  {
    var t := s.columns[TIMES];
    var ok := Outside(t, tstart, tstop);
    RemoveIntervalKeeps(s, tstart, tstop);
    var p := RemoveInterval(s, tstart, tstop);
    forall x
      ensures x in p.state.columns[TIMES] <==> x in t && (x < tstart || x > tstop)
    {
      SelectMember(t, ok, x);
    }
  }

  /** On time-ordered samples the skip is only a shortcut: an interval that
      misses `[times[0], times[-1]]` contains no sample, so filtering by it
      would remove nothing. */
  lemma SkipRemovesNothing(s: Series, tstart: real, tstop: real)
    requires WellFormed(s) && MaskIndexable(s) && Length(s) > 0 && Sorted(s.columns[TIMES])
    requires var t := s.columns[TIMES]; tstop < t[0] || tstart > t[|t| - 1]
    ensures KeepColumns(s, s.colnames, Outside(s.columns[TIMES], tstart, tstop)) == Partial(s, Pass)
  {
    var t := s.columns[TIMES];
    var ok := Outside(t, tstart, tstop);
    assert All(ok) by {
      forall i | 0 <= i < |t|
        ensures ok[i]
      {
        assert t[0] <= t[i] <= t[|t| - 1];
      }
    }
    WellFormedFits(s);
    KeepAllIsIdentity(s, s.colnames, ok);
  }

  /** A mask that keeps every row leaves the series as it was. */
  lemma KeepAllIsIdentity(s: Series, names: seq<string>, ok: seq<bool>)
    requires Fits(s, names, |ok|) && Distinct(names) && All(ok)
    ensures KeepColumns(s, names, ok) == Partial(s, Pass)
  {
    KeepColumnsFits(s, names, ok);
    var p := KeepColumns(s, names, ok);
    forall c | c in s.columns
      ensures p.state.columns[c] == s.columns[c]
    {
      if c in names && c != BADS {
        SelectAllKept(s.columns[c], ok);
      }
    }
    if BADS in names {
      SelectAllKept(s.bads.value, ok);
    }
    assert p.state.columns == s.columns;
  }

  /** One turn of the interval loop over `intervals[j..]`. */
  lemma RemoveIntervalsStep(s: Series, intervals: seq<(real, real)>, j: nat)
    requires j < |intervals|
    ensures RemoveIntervals(s, intervals[j..])
         == (var p := RemoveInterval(s, intervals[j].0, intervals[j].1);
             if p.outcome.Fail? then p else RemoveIntervals(p.state, intervals[j + 1..]))
  {
    assert intervals[j..][0] == intervals[j] && intervals[j..][1..] == intervals[j + 1..];
  }

  /** The interval loop over a concatenation of lists. */
  lemma {:induction false} RemoveIntervalsAppend(s: Series, x: seq<(real, real)>, y: seq<(real, real)>)
    ensures RemoveIntervals(s, x + y)
         == (var p := RemoveIntervals(s, x); if p.outcome.Fail? then p else RemoveIntervals(p.state, y))
    decreases |x|
  {
    if |x| == 0 {
      assert x + y == y;
    } else {
      assert (x + y)[0] == x[0] && (x + y)[1..] == x[1..] + y;
      var p := RemoveInterval(s, x[0].0, x[0].1);
      if p.outcome.Pass? {
        calc {
          RemoveIntervals(s, x + y);
          RemoveIntervals(p.state, x[1..] + y);
          { RemoveIntervalsAppend(p.state, x[1..], y); }
          var q := RemoveIntervals(p.state, x[1..]); if q.outcome.Fail? then q else RemoveIntervals(q.state, y);
        }
      }
    }
  }

  /** Not atomic: a reversed interval raises, and the removals made for the
      intervals before it stay in place. */
  lemma ReversedIntervalKeepsEarlierRemovals(s: Series, intervals: seq<(real, real)>, j: nat)
    requires j < |intervals| && intervals[j].0 > intervals[j].1
    requires RemoveIntervals(s, intervals[..j]).outcome == Pass
    ensures RemoveIntervals(s, intervals)
         == Partial(RemoveIntervals(s, intervals[..j]).state, Fail(InvalidInterval(intervals[j].0, intervals[j].1)))
  {
    assert intervals == intervals[..j] + intervals[j..];
    RemoveIntervalsAppend(s, intervals[..j], intervals[j..]);
  }

  /** `x` lies outside every interval of the list. */
  ghost predicate OutsideAll(x: real, intervals: seq<(real, real)>) {
    forall k :: 0 <= k < |intervals| ==> x < intervals[k].0 || x > intervals[k].1
  }

  /** Outside every interval is outside the first and outside the rest. */
  lemma OutsideAllCons(x: real, intervals: seq<(real, real)>)
    requires |intervals| > 0
    ensures OutsideAll(x, intervals) <==>
      (x < intervals[0].0 || x > intervals[0].1) && OutsideAll(x, intervals[1..])
  {
    if (x < intervals[0].0 || x > intervals[0].1) && OutsideAll(x, intervals[1..]) {
      forall k | 0 < k < |intervals|
        ensures x < intervals[k].0 || x > intervals[k].1
      {
        assert intervals[k] == intervals[1..][k - 1];
      }
    }
  }

  /** One valid interval on time-ordered samples with a usable mask: it
      fails only on an empty series, and otherwise keeps a consistent,
      time-ordered series holding exactly the times outside the interval. */
  lemma RemoveIntervalSorted(s: Series, a: real, b: real)
    requires WellFormed(s) && MaskIndexable(s) && Sorted(s.columns[TIMES]) && a <= b
    ensures var p := RemoveInterval(s, a, b);
      && (p.outcome.Fail? ==> p == Partial(s, Fail(IndexOutOfRange)) && Length(s) == 0)
      && (p.outcome.Pass? ==>
            && WellFormed(p.state) && MaskIndexable(p.state) && Sorted(p.state.columns[TIMES])
            && forall x :: x in p.state.columns[TIMES] <==> x in s.columns[TIMES] && (x < a || x > b))
  {
    var t := s.columns[TIMES];
    if |t| > 0 {
      if b < t[0] || a > t[|t| - 1] {
        forall x | x in t
          ensures x < a || x > b
        {
          var i :| 0 <= i < |t| && t[i] == x;
          assert t[0] <= t[i] <= t[|t| - 1];
        }
      } else {
        RemoveIntervalKeeps(s, a, b);
        RemoveIntervalTimes(s, a, b);
        SelectSorted(t, Outside(t, a, b));
      }
    }
  }

  /** On time-ordered samples with a usable mask and valid intervals, a
      completed loop keeps exactly the samples lying outside every interval;
      it can only fail once every sample is gone, at `times[0]`. */
  lemma {:induction false} RemoveIntervalsKeeps(s: Series, intervals: seq<(real, real)>)
    requires WellFormed(s) && MaskIndexable(s) && Sorted(s.columns[TIMES])
    requires forall k :: 0 <= k < |intervals| ==> intervals[k].0 <= intervals[k].1
    ensures var p := RemoveIntervals(s, intervals);
      && (p.outcome.Fail? ==>
            p.outcome.error == IndexOutOfRange && TIMES in p.state.columns && |p.state.columns[TIMES]| == 0)
      && (p.outcome == Pass ==>
            && WellFormed(p.state)
            && forall x :: x in p.state.columns[TIMES] <==> x in s.columns[TIMES] && OutsideAll(x, intervals))
    decreases |intervals|
  {
    if |intervals| > 0 {
      var rest := intervals[1..];
      var p := RemoveInterval(s, intervals[0].0, intervals[0].1);
      RemoveIntervalSorted(s, intervals[0].0, intervals[0].1);
      if p.outcome.Pass? {
        assert forall k :: 0 <= k < |rest| ==> rest[k] == intervals[k + 1];
        RemoveIntervalsKeeps(p.state, rest);
        forall x {
          OutsideAllCons(x, intervals);
        }
      }
    }
  }

  /** Without a mask, an overlapping interval raises on reaching `bads`,
      after the columns listed before it have already been cut. */
  lemma RemoveIntervalWithoutMask(f: Series, tstart: real, tstop: real, p: nat)
    requires WellFormed(f) && f.bads.None?
    requires p < |f.colnames| && f.colnames[p] == BADS
    requires tstart <= tstop && Length(f) > 0
    requires var t := f.columns[TIMES]; !(tstop < t[0] || tstart > t[|t| - 1])
    ensures var ok := Outside(f.columns[TIMES], tstart, tstop);
      var r := RemoveInterval(f, tstart, tstop);
      && r.outcome == Fail(NoneNotSubscriptable)
      && r.state.bads.None?
      && r.state.columns.Keys == f.columns.Keys
      && (forall c :: c in f.columns ==>
            r.state.columns[c] == (if c in f.colnames[..p] then Select(f.columns[c], ok) else f.columns[c]))
  {
    var names := f.colnames;
    var ok := Outside(f.columns[TIMES], tstart, tstop);
    assert names == names[..p] + names[p..];
    KeepColumnsAppend(f, names[..p], names[p..], ok);
    assert Distinct(names[..p]);
    assert BADS !in names[..p];
    KeepColumnsFits(f, names[..p], ok);
    var q := KeepColumns(f, names[..p], ok);
    assert names[p..][0] == BADS;
  }

  /** `filter_bad` followed by `filter_bad_times` raises: the filtered series
      has no mask left to index. */
  lemma BadTimesAfterFilterBadFails(s: Series, mask: Option<seq<bool>>, tstart: real, tstop: real)
    requires WellFormed(s) && (mask.Some? ==> |mask.value| == Length(s))
    requires BADS in s.colnames && tstart <= tstop
    ensures var f := Filtered(s, mask);
      && WellFormed(f)
      && (Length(f) > 0 && !(tstop < f.columns[TIMES][0] || tstart > f.columns[TIMES][Length(f) - 1]) ==>
            RemoveInterval(f, tstart, tstop).outcome == Fail(NoneNotSubscriptable))
  {
    FilteredKeeps(s, mask);
    var f := Filtered(s, mask);
    var t := f.columns[TIMES];
    if |t| > 0 && !(tstop < t[0] || tstart > t[|t| - 1]) {
      var p :| 0 <= p < |f.colnames| && f.colnames[p] == BADS;
      RemoveIntervalWithoutMask(f, tstart, tstop, p);
    }
  }

  // ---------------------------------------------------------------------
  // Reindexing by an integer index array (the column loop of
  // MSIDset.interpolate)
  // ---------------------------------------------------------------------

  /** Attribute `c` indexed by `idx` when it is a listed column other than
      `bads`, otherwise as it was. */
  function ReindexedColumn(s: Series, idx: seq<nat>, c: string): (r: seq<real>)
    requires WellFormed(s) && c in s.columns
    requires forall k :: 0 <= k < |idx| ==> idx[k] < Length(s)
  {
    if c in s.colnames && c != BADS then
      assert |s.columns[c]| == Length(s);
      Take(s.columns[c], idx)
    else s.columns[c]
  }

  /** The mask indexed by `idx`, when there is one. */
  function ReindexedMask(s: Series, idx: seq<nat>): (r: Option<seq<bool>>)
    requires WellFormed(s)
    requires forall k :: 0 <= k < |idx| ==> idx[k] < Length(s)
  {
    if s.bads.Some? then
      assert |s.bads.value| == Length(s);
      Some(Take(s.bads.value, idx))
    else None
  }

  /** Every listed attribute indexed by `idx`: the columns other than `bads`,
      and the mask when it is present; unlisted attributes are kept. */
  function Reindexed(s: Series, idx: seq<nat>): (r: Series)
    requires WellFormed(s)
    requires forall k :: 0 <= k < |idx| ==> idx[k] < Length(s)
    ensures WellFormed(r) && Length(r) == |idx|
    ensures r.colnames == s.colnames && r.columns.Keys == s.columns.Keys
    ensures r.bads.Some? <==> s.bads.Some?
  {
    var cols := map c | c in s.columns :: ReindexedColumn(s, idx, c);
    assert TIMES != BADS;
    Series(cols, ReindexedMask(s, idx), s.colnames)
  }

  /** Row k of every listed column, and of the mask, is row `idx[k]` of the
      original: the attributes stay aligned. */
  lemma ReindexedAt(s: Series, idx: seq<nat>, c: string, k: nat)
    requires WellFormed(s)
    requires forall k :: 0 <= k < |idx| ==> idx[k] < Length(s)
    requires k < |idx|
    ensures c in s.colnames && c != BADS ==> Reindexed(s, idx).columns[c][k] == s.columns[c][idx[k]]
    ensures s.bads.Some? ==> Reindexed(s, idx).bads.value[k] == s.bads.value[idx[k]]
  {
  }

  /** Attributes that agree with the reindexed series on every listed
      name, and with the original elsewhere, are the reindexed series. */
  lemma ReindexedFrom(s: Series, idx: seq<nat>, cols: map<string, seq<real>>, mask: Option<seq<bool>>)
    requires WellFormed(s)
    requires forall k :: 0 <= k < |idx| ==> idx[k] < Length(s)
    requires cols.Keys == s.columns.Keys
    requires forall c :: c in s.columns ==> cols[c] == ReindexedColumn(s, idx, c)
    requires mask == if BADS in s.colnames then ReindexedMask(s, idx) else s.bads
    ensures Reindexed(s, idx) == Series(cols, mask, s.colnames)
  {
    var target := Reindexed(s, idx);
    assert cols == target.columns;
    assert mask == target.bads by {
      if BADS !in s.colnames {
        assert s.bads.None?;
      }
    }
  }

  /** The loop over `colnames` that indexes each attribute in turn. */
  method ReindexAttributes(s: Series, idx: seq<nat>) returns (cols: map<string, seq<real>>, mask: Option<seq<bool>>)
    requires WellFormed(s)
    requires forall k :: 0 <= k < |idx| ==> idx[k] < Length(s)
    ensures Series(cols, mask, s.colnames) == Reindexed(s, idx)
  {
    var names := s.colnames;
    cols, mask := s.columns, s.bads;
    ghost var done: set<string> := {};
    var i := 0;
    while i < |names|
      invariant 0 <= i <= |names|
      invariant forall j :: 0 <= j < i ==> names[j] in done
      invariant forall j :: i <= j < |names| ==> names[j] !in done
      invariant forall c :: c in done ==> c in names
      invariant cols.Keys == s.columns.Keys
      invariant forall c :: c in s.columns ==>
        cols[c] == if c in done then ReindexedColumn(s, idx, c) else s.columns[c]
      invariant mask == if BADS in done then ReindexedMask(s, idx) else s.bads
    {
      var name := names[i];
      if name == BADS {
        if mask.Some? {
          mask := ReindexedMask(s, idx);
        }
      } else {
        cols := cols[name := ReindexedColumn(s, idx, name)];
      }
      assert forall j :: i < j < |names| ==> names[j] != name;
      done := done + {name};
      i := i + 1;
    }
    assert forall c :: c in s.columns ==> cols[c] == ReindexedColumn(s, idx, c);
    ReindexedFrom(s, idx, cols, mask);
  }

  // ---------------------------------------------------------------------
  // The MSID object
  // ---------------------------------------------------------------------

  /** The archive an MSID is fetched from: the catalog of names with their
      content types, the file catalogs of each content type, the HDF5
      columns, and the unit conversion. */
  datatype Archive = Archive(index: NameResolver.ContentIndex, cats: ArchiveIndex.Catalogs,
                             store: RawReader.Store, convert: (string, real) -> real)

  /** A consistent archive: the name catalog is well formed and the files of
      one content type hold one row per sample. */
  ghost predicate ValidArchive(a: Archive) {
    NameResolver.ValidIndex(a.index) && RawReader.ValidStore(a.store)
  }

  /** The attributes `_get_data` sets from a full-resolution read: `times`,
      `vals`, the mask `bads` and `colnames`. */
  function SeriesOfRaw(raw: RawReader.Raw): Series {
    Series(map[TIMES := raw.times, VALS := raw.vals], Some(raw.bads), raw.colnames)
  }

  /** Three columns of one length, listed as `times`, `vals` and `bads`,
      make a consistent series. */
  lemma SeriesOfRawWellFormed(raw: RawReader.Raw)
    requires |raw.vals| == |raw.times| == |raw.bads| && raw.colnames == [TIMES, VALS, BADS]
    ensures WellFormed(SeriesOfRaw(raw)) && Length(SeriesOfRaw(raw)) == |raw.times|
  {
    var s := SeriesOfRaw(raw);
    forall i, j | 0 <= i < j < |s.colnames|
      ensures s.colnames[i] != s.colnames[j]
    {
    }
    forall c | c in s.colnames && c != BADS
      ensures c in s.columns && |s.columns[c]| == |s.columns[TIMES]|
    {
      assert c == TIMES || c == VALS;
    }
  }

  /** A successful read returns three columns of one length, listed as
      `times`, `vals` and `bads`. */
  lemma RawShape(a: Archive, id: NameResolver.Resolved, tstart: real, tstop: real)
    requires ValidArchive(a)
    requires RawReader.MsidData(a.cats, a.store, id.content, tstart, tstop, id.MSID, a.convert).Ok?
    ensures var raw := RawReader.MsidData(a.cats, a.store, id.content, tstart, tstop, id.MSID, a.convert).value;
      |raw.vals| == |raw.times| == |raw.bads| && raw.colnames == [TIMES, VALS, BADS]
  {
    var s := ArchiveIndex.GetIntervalFor(a.cats, id.content, tstart, tstop).value;
    var r := RawReader.ReadWindow(a.store, id.content, id.MSID, s, tstart, tstop, a.convert);
    assert RawReader.MsidData(a.cats, a.store, id.content, tstart, tstop, id.MSID, a.convert) == r;
    RawReader.ReadWindowShape(a.store, id.content, id.MSID, s, tstart, tstop, a.convert);
  }

  /** A successful read makes a consistent series. */
  lemma MsidDataWellFormed(a: Archive, id: NameResolver.Resolved, tstart: real, tstop: real)
    requires ValidArchive(a)
    requires RawReader.MsidData(a.cats, a.store, id.content, tstart, tstop, id.MSID, a.convert).Ok?
    ensures var raw := RawReader.MsidData(a.cats, a.store, id.content, tstart, tstop, id.MSID, a.convert).value;
      WellFormed(SeriesOfRaw(raw)) && Length(SeriesOfRaw(raw)) == |raw.times|
  {
    RawShape(a, id, tstart, tstop);
    SeriesOfRawWellFormed(RawReader.MsidData(a.cats, a.store, id.content, tstart, tstop, id.MSID, a.convert).value);
  }

  /** The names an MSID object is known by, with its data. */
  datatype Fetched = Fetched(id: NameResolver.Resolved, data: Series)

  /** `MSID(msid, start, stop, filter_bad)` for full-resolution data: the
      single match of the spec with its content type, the read of that MSID
      over `[tstart, tstop)`, then `filter_bad()` when asked. */
  function FetchMsid(a: Archive, spec: string, tstart: real, tstop: real, filterBad: bool): (r: Result<Fetched>)
    requires ValidArchive(a)
    ensures r.Ok? ==> WellFormed(r.value.data)
  {
    match NameResolver.ResolveSingle(a.index, spec)
    case Err(e) => Err(e)
    case Ok(id) =>
      match RawReader.MsidData(a.cats, a.store, id.content, tstart, tstop, id.MSID, a.convert)
      case Err(e) => Err(e)
      case Ok(raw) =>
        MsidDataWellFormed(a, id, tstart, tstop);
        FilteredKeeps(SeriesOfRaw(raw), None);
        Ok(Fetched(id, if filterBad then Filtered(SeriesOfRaw(raw), None) else SeriesOfRaw(raw)))
  }

  /** The object for a matched spec whose read succeeded. */
  lemma FetchMsidOk(a: Archive, spec: string, tstart: real, tstop: real, filterBad: bool,
                    id: NameResolver.Resolved, raw: RawReader.Raw)
    requires ValidArchive(a) && NameResolver.ResolveSingle(a.index, spec) == Ok(id)
    requires RawReader.MsidData(a.cats, a.store, id.content, tstart, tstop, id.MSID, a.convert) == Ok(raw)
    ensures WellFormed(SeriesOfRaw(raw))
    ensures FetchMsid(a, spec, tstart, tstop, filterBad)
         == Ok(Fetched(id, if filterBad then Filtered(SeriesOfRaw(raw), None) else SeriesOfRaw(raw)))
  {
    MsidDataWellFormed(a, id, tstart, tstop);
  }

  /** An MSID object is built exactly when the spec matches one MSID and
      both of its archive files can be read; it carries the names and content
      type of that match. */
  lemma FetchMsidResolves(a: Archive, spec: string, tstart: real, tstop: real, filterBad: bool)
    requires ValidArchive(a)
    ensures var r, id := FetchMsid(a, spec, tstart, tstop, filterBad), NameResolver.ResolveSingle(a.index, spec);
      && (id.Err? ==> r == Err(id.error))
      && (id.Ok? ==>
            var raw := RawReader.MsidData(a.cats, a.store, id.value.content, tstart, tstop, id.value.MSID, a.convert);
            && (r.Err? <==> raw.Err?)
            && (raw.Err? ==> r == Err(raw.error))
            && (r.Ok? ==> r.value.id == id.value && id.value.content == a.index.group[id.value.MSID]))
  {
  }

  /** Without `filter_bad` the object holds the read as it came: times,
      values and the quality mask, listed as `times`, `vals` and `bads`. */
  lemma FetchMsidUnfiltered(a: Archive, spec: string, tstart: real, tstop: real)
    requires ValidArchive(a) && FetchMsid(a, spec, tstart, tstop, false).Ok?
    ensures var f := FetchMsid(a, spec, tstart, tstop, false).value;
      var raw := RawReader.MsidData(a.cats, a.store, f.id.content, tstart, tstop, f.id.MSID, a.convert).value;
      && f.data.colnames == [TIMES, VALS, BADS]
      && f.data.columns == map[TIMES := raw.times, VALS := raw.vals]
      && f.data.bads == Some(raw.bads)
  {
  }

  /** Filtering a read by its own mask keeps the times and values it does
      not flag, and drops the mask. */
  lemma FilteredRaw(raw: RawReader.Raw)
    requires |raw.vals| == |raw.times| == |raw.bads| && raw.colnames == [TIMES, VALS, BADS]
    ensures Filtered(SeriesOfRaw(raw), None)
         == Series(map[TIMES := Select(raw.times, Not(raw.bads)), VALS := Select(raw.vals, Not(raw.bads))], None, raw.colnames)
  {
    FilteredRawColumns(raw);
    var r := Filtered(SeriesOfRaw(raw), None);
    TwoColumns(r.columns, Select(raw.times, Not(raw.bads)), Select(raw.vals, Not(raw.bads)));
  }

  /** The columns of a filtered read, one by one. */
  lemma FilteredRawColumns(raw: RawReader.Raw)
    requires |raw.vals| == |raw.times| == |raw.bads| && raw.colnames == [TIMES, VALS, BADS]
    ensures WellFormed(SeriesOfRaw(raw))
    ensures var r := Filtered(SeriesOfRaw(raw), None);
      && r.bads.None? && r.colnames == raw.colnames
      && r.columns.Keys == {TIMES, VALS}
      && r.columns[TIMES] == Select(raw.times, Not(raw.bads))
      && r.columns[VALS] == Select(raw.vals, Not(raw.bads))
  {
    var s := SeriesOfRaw(raw);
    SeriesOfRawWellFormed(raw);
    FilteredKeeps(s, None);
    assert s.bads == Some(raw.bads) && s.columns[TIMES] == raw.times && s.columns[VALS] == raw.vals;
    assert TIMES in s.colnames && VALS in s.colnames;
  }

  /** A map with the keys `times` and `vals` is the display of its two
      entries. */
  lemma TwoColumns(m: map<string, seq<real>>, t: seq<real>, v: seq<real>)
    requires m.Keys == {TIMES, VALS} && m[TIMES] == t && m[VALS] == v
    ensures m == map[TIMES := t, VALS := v]
  {
  }

  /** With `filter_bad` the object holds the samples the read's quality
      mask does not flag, and no mask. */
  lemma FetchMsidFiltered(a: Archive, spec: string, tstart: real, tstop: real)
    requires ValidArchive(a) && FetchMsid(a, spec, tstart, tstop, true).Ok?
    ensures var f := FetchMsid(a, spec, tstart, tstop, true).value;
      var raw := RawReader.MsidData(a.cats, a.store, f.id.content, tstart, tstop, f.id.MSID, a.convert).value;
      && f.data.colnames == [TIMES, VALS, BADS]
      && f.data.bads.None?
      && |raw.bads| == |raw.times| == |raw.vals|
      && f.data.columns == map[TIMES := Select(raw.times, Not(raw.bads)), VALS := Select(raw.vals, Not(raw.bads))]
  {
    var id := NameResolver.ResolveSingle(a.index, spec).value;
    var raw := RawReader.MsidData(a.cats, a.store, id.content, tstart, tstop, id.MSID, a.convert).value;
    FetchMsidOk(a, spec, tstart, tstop, true, id, raw);
    RawShape(a, id, tstart, tstop);
    FilteredRaw(raw);
  }

  /** Two MSIDs of one content type read over one range share their times,
      which come from the content type's time file, so their masks have one
      length. */
  lemma FetchMsidSharedTimes(a: Archive, x: string, y: string, tstart: real, tstop: real)
    requires ValidArchive(a)
    requires FetchMsid(a, x, tstart, tstop, false).Ok? && FetchMsid(a, y, tstart, tstop, false).Ok?
    requires FetchMsid(a, x, tstart, tstop, false).value.id.content == FetchMsid(a, y, tstart, tstop, false).value.id.content
    ensures var f, g := FetchMsid(a, x, tstart, tstop, false).value.data, FetchMsid(a, y, tstart, tstop, false).value.data;
      && f.columns[TIMES] == g.columns[TIMES]
      && f.bads.Some? && g.bads.Some? && |f.bads.value| == |g.bads.value|
  {
    var i, j := FetchMsid(a, x, tstart, tstop, false).value.id, FetchMsid(a, y, tstart, tstop, false).value.id;
    RawReader.MsidDataSharedTimes(a.cats, a.store, i.content, tstart, tstop, i.MSID, j.MSID, a.convert);
  }

  /** An MSID object: the names it was fetched under and its columns, which
      the filters rewrite in place. */
  class MSID {
    const msid: string
    const canonical: string
    const content: string
    var columns: map<string, seq<real>>
    var bads: Option<seq<bool>>
    var colnames: seq<string>

    /** The object's data as a value. */
    function Value(): Series
      reads this
    {
      Series(columns, bads, colnames)
    }

    /** The object for a resolved name, holding the given data. */
    constructor (id: NameResolver.Resolved, data: Series)
      ensures msid == id.msid && canonical == id.MSID && content == id.content
      ensures Value() == data
    {
      msid, canonical, content := id.msid, id.MSID, id.content;
      columns, bads, colnames := data.columns, data.bads, data.colnames;
    }

    /** `MSID(msid, start, stop, filter_bad)`: the match check, the read
        through the memoized `get_interval` and the one-slot times cache, then
        `filter_bad()` when asked.  The object is the one `FetchMsid`
        describes. */
    static method Fetch(a: Archive, memo: ArchiveIndex.Memoized<ArchiveIndex.IntervalKey, ArchiveIndex.RowSlice>,
                        cache: RawReader.TimesCache, spec: string, tstart: real, tstop: real, filterBad: bool)
      returns (r: Result<MSID>)
      requires ValidArchive(a)
      requires memo.f == ArchiveIndex.IntervalFunction(a.cats) && memo.Valid() && cache.Valid(a.cats, a.store)
      modifies memo, cache
      ensures memo.Valid() && cache.Valid(a.cats, a.store)
      ensures r.Err? <==> FetchMsid(a, spec, tstart, tstop, filterBad).Err?
      ensures r.Err? ==> r.error == FetchMsid(a, spec, tstart, tstop, filterBad).error
      ensures r.Ok? ==> var f := FetchMsid(a, spec, tstart, tstop, filterBad).value;
        && fresh(r.value)
        && r.value.msid == f.id.msid && r.value.canonical == f.id.MSID && r.value.content == f.id.content
        && r.value.Value() == f.data
    {
      var id :- NameResolver.ResolveSingle(a.index, spec);
      var raw :- RawReader.GetMsidData(a.cats, a.store, memo, cache, id.content, tstart, tstop, id.MSID, a.convert);
      FetchMsidOk(a, spec, tstart, tstop, filterBad, id, raw);
      var m := new MSID(id, SeriesOfRaw(raw));
      if filterBad {
        FilterBadAligned(SeriesOfRaw(raw), None);
        var _ := m.FilterBad(None);
      }
      r := Ok(m);
    }

    /** The `setattr` loop: each of `names` in turn keeps the rows where
        `ok` holds; a column that cannot be indexed stops the loop, leaving
        the earlier columns cut. */
    method KeepRows(names: seq<string>, ok: seq<bool>) returns (r: Outcome)
      modifies this
      ensures Partial(Value(), r) == KeepColumns(old(Value()), names, ok)
    {
      ghost var after := KeepColumns(Value(), names, ok);
      var i := 0;
      while i < |names|
        invariant 0 <= i <= |names|
        invariant KeepColumns(Value(), names[i..], ok) == after
      {
        KeepColumnsStep(Value(), names, i, ok);
        var step := KeepColumn(Value(), names[i], ok);
        if step.Err? {
          return Fail(step.error);
        }
        columns, bads := step.value.columns, step.value.bads;
        i := i + 1;
      }
      assert names[i..] == [];
      r := Pass;
    }

    /** `MSID.filter_bad(bads)` */
    method FilterBad(mask: Option<seq<bool>>) returns (r: Outcome)
      requires WellFormed(Value())
      modifies this
      ensures Partial(Value(), r) == FilterBadResult(old(Value()), mask)
    {
      if mask.Some? {
        bads := mask;
      }
      if bads.None? {
        return Pass;
      }
      if Any(bads.value) {
        r := KeepRows(Others(colnames), Not(bads.value));
        if r.Fail? {
          return;
        }
      }
      bads := None;
      r := Pass;
    }

    /** `MSID.filter_bad_times(start, stop, table)`, with the registry of
        bad times by MSID name. */
    method FilterBadTimes(registry: map<string, seq<(real, real)>>,
                          start: Option<real>, stop: Option<real>, table: Option<seq<(real, real)>>)
      returns (r: Outcome)
      modifies this
      ensures match BadTimesSource(registry, canonical, start, stop, table)
        case Err(e) => r == Fail(e) && Value() == old(Value())
        case Ok(intervals) => Partial(Value(), r) == RemoveIntervals(old(Value()), intervals)
    {
      var source := BadTimesSource(registry, canonical, start, stop, table);
      if source.Err? {
        return Fail(source.error);
      }
      var intervals := source.value;
      var j := 0;
      while j < |intervals|
        invariant 0 <= j <= |intervals|
        invariant RemoveIntervals(Value(), intervals[j..]) == RemoveIntervals(old(Value()), intervals)
      {
        RemoveIntervalsStep(Value(), intervals, j);
        var tstart, tstop := intervals[j].0, intervals[j].1;
        if tstart > tstop {
          return Fail(InvalidInterval(tstart, tstop));
        }
        if TIMES !in columns {
          return Fail(MissingAttribute(TIMES));
        }
        var times := columns[TIMES];
        if |times| == 0 {
          return Fail(IndexOutOfRange);
        }
        if tstop < times[0] || tstart > times[|times| - 1] {
          j := j + 1;
          continue;
        }
        var outcome := KeepRows(colnames, Outside(times, tstart, tstop));
        if outcome.Fail? {
          return outcome;
        }
        j := j + 1;
      }
      assert intervals[j..] == [];
      r := Pass;
    }

    /** The column loop of `MSIDset.interpolate`: every listed attribute
        that is not None is replaced by its entries at `idx`. */
    method TakeRows(idx: seq<nat>)
      requires WellFormed(Value())
      requires forall k :: 0 <= k < |idx| ==> idx[k] < Length(Value())
      modifies this
      ensures Value() == Reindexed(old(Value()), idx)
    {
      var cols, mask := ReindexAttributes(Value(), idx);
      columns, bads := cols, mask;
    }
  }
}
