/** The interval detectors of an MSID object: intervals during which a
    comparison with a value holds, and intervals of unchanged value.  Both
    read the object's columns and build a new table; the object is left as
    it was. */
module Intervals {
  import opened Wrappers
  import opened Columns

  // ---------------------------------------------------------------------
  // Local bad-value filtering
  // ---------------------------------------------------------------------

  /** Sample times with their values. */
  datatype Samples = Samples(times: seq<real>, vals: seq<real>)

  /** The samples the detectors work on: masked by `~bads` when the mask is
      present and flags anything, as they are otherwise. */
  function LocalFilter(times: seq<real>, vals: seq<real>, bads: Option<seq<bool>>): (r: Samples)
    requires |times| == |vals| && (bads.Some? ==> |bads.value| == |vals|)
    ensures |r.times| == |r.vals| <= |vals|
    ensures bads.None? || !Any(bads.value) ==> r == Samples(times, vals)
  {
    if bads.Some? && Any(bads.value) then Samples(Select(times, Not(bads.value)), Select(vals, Not(bads.value)))
    else Samples(times, vals)
  }

  /** Masking keeps strictly increasing times strictly increasing. */
  lemma SelectIncreasing(s: seq<real>, keep: seq<bool>)
    requires |s| == |keep| && Increasing(s)
    ensures Increasing(Select(s, keep))
  {
    var r, f := Select(s, keep), Flatnonzero(keep);
    forall i, j | 0 <= i < j < |r|
      ensures r[i] < r[j]
    {
      FlatnonzeroIncreasing(keep, i, j);
    }
  }

  lemma LocalFilterIncreasing(times: seq<real>, vals: seq<real>, bads: Option<seq<bool>>)
    requires |times| == |vals| && (bads.Some? ==> |bads.value| == |vals|)
    requires Increasing(times)
    ensures Increasing(LocalFilter(times, vals, bads).times)
  {
    if bads.Some? && Any(bads.value) {
      SelectIncreasing(times, Not(bads.value));
    }
  }

  // ---------------------------------------------------------------------
  // logical_intervals
  // ---------------------------------------------------------------------

  /** The comparison operators `logical_intervals` accepts. */
  datatype Op = Eq | Ne | Gt | Lt | Ge | Le

  /** The `ops` table: only `==`, `!=`, `>`, `<`, `>=` and `<=` are known. */
  function ParseOp(op: string): (r: Result<Op>)
    ensures r.Err? <==> op !in {"==", "!=", ">", "<", ">=", "<="}
    ensures r.Err? ==> r.error == UnsupportedOp(op)
  {
    if op == "==" then Ok(Eq)
    else if op == "!=" then Ok(Ne)
    else if op == ">" then Ok(Gt)
    else if op == "<" then Ok(Lt)
    else if op == ">=" then Ok(Ge)
    else if op == "<=" then Ok(Le)
    else Err(UnsupportedOp(op))
  }

  /** `op(x, val)` */
  function Holds(op: Op, x: real, val: real): bool {
    match op
    case Eq => x == val
    case Ne => x != val
    case Gt => x > val
    case Lt => x < val
    case Ge => x >= val
    case Le => x <= val
  }

  /** `op(vals, val)`, element by element. */
  function Predicate(vals: seq<real>, op: Op, val: real): (p: seq<bool>)
    ensures |p| == |vals|
    ensures forall i :: 0 <= i < |vals| ==> p[i] == Holds(op, vals[i], val)
  {
    seq(|vals|, i requires 0 <= i < |vals| => Holds(op, vals[i], val))
  }

  /** `~p[:-1] & p[1:]`: the predicate becomes true just after `i`. */
  function Starts(p: seq<bool>): (m: seq<bool>)
    requires |p| >= 1
    ensures |m| == |p| - 1
  {
    seq(|p| - 1, i requires 0 <= i < |p| - 1 => !p[i] && p[i + 1])
  }

  /** `p[:-1] & ~p[1:]`: the predicate becomes false just after `i`. */
  function Ends(p: seq<bool>): (m: seq<bool>)
    requires |p| >= 1
    ensures |m| == |p| - 1
  {
    seq(|p| - 1, i requires 0 <= i < |p| - 1 => p[i] && !p[i + 1])
  }

  /** A start is a false sample followed by a true one. */
  lemma StartAt(p: seq<bool>, i: nat)
    requires i < |p| - 1 && Starts(p)[i]
    ensures !p[i] && p[i + 1]
  {
  }

  /** An end is a true sample followed by a false one. */
  lemma EndAt(p: seq<bool>, i: nat)
    requires i < |p| - 1 && Ends(p)[i]
    ensures p[i] && !p[i + 1]
  {
  }

  /** The start indices, without the last one when the final sample satisfies
      the predicate (that interval has no end). */
  function StartIndices(p: seq<bool>): seq<nat>
    requires |p| >= 1
  {
    var s := Flatnonzero(Starts(p));
    if p[|p| - 1] && |s| > 0 then s[..|s| - 1] else s
  }

  /** The end indices, without the first one when the first sample satisfies
      the predicate (that interval has no start). */
  function EndIndices(p: seq<bool>): seq<nat>
    requires |p| >= 1
  {
    var e := Flatnonzero(Ends(p));
    if p[0] && |e| > 0 then e[1..] else e
  }

  /** 1 for true, 0 for false. */
  function B(b: bool): int {
    if b then 1 else 0
  }

  /** Starts and ends balance: before position `j`, the starts outnumber the
      ends by exactly the change of the predicate from `p[0]` to `p[j]`. */
  lemma {:induction false} Balance(p: seq<bool>, j: nat)
    requires 1 <= |p| && j <= |p| - 1
    ensures Count(Starts(p)[..j]) - Count(Ends(p)[..j]) == B(p[j]) - B(p[0])
  {
    if j > 0 {
      Balance(p, j - 1);
      CountStep(Starts(p), j - 1);
      CountStep(Ends(p), j - 1);
    }
  }

  /** Exactly as many starts as ends survive the trimming. */
  lemma PairCount(p: seq<bool>)
    requires |p| >= 1
    ensures |StartIndices(p)| == |EndIndices(p)|
  {
    var st, en := Starts(p), Ends(p);
    Balance(p, |p| - 1);
    CountFull(st);
    CountFull(en);
    var cs, ce := |Flatnonzero(st)|, |Flatnonzero(en)|;
    assert cs - ce == B(p[|p| - 1]) - B(p[0]);
    assert |StartIndices(p)| == if p[|p| - 1] && cs > 0 then cs - 1 else cs;
    assert |EndIndices(p)| == if p[0] && ce > 0 then ce - 1 else ce;
  }

  /** The k-th trimmed start is the k-th start; the k-th trimmed end is the
      k-th end, or the one after it when the first end was dropped. */
  lemma TrimmedAt(p: seq<bool>, k: nat)
    requires |p| >= 1 && k < |StartIndices(p)|
    ensures k < |Flatnonzero(Starts(p))| && k + B(p[0]) < |Flatnonzero(Ends(p))|
    ensures k < |EndIndices(p)|
    ensures StartIndices(p)[k] == Flatnonzero(Starts(p))[k]
    ensures EndIndices(p)[k] == Flatnonzero(Ends(p))[k + B(p[0])]
  {
    PairCount(p);
    var fs, fe := Flatnonzero(Starts(p)), Flatnonzero(Ends(p));
    var si, ei := StartIndices(p), EndIndices(p);
    if p[|p| - 1] && |fs| > 0 {
      assert si == fs[..|fs| - 1];
    } else {
      assert si == fs;
    }
    if p[0] {
      assert |fe| > 0 by {
        assert |ei| == |si| > k;
      }
      assert ei == fe[1..];
      assert B(p[0]) == 1;
    } else {
      assert ei == fe;
      assert B(p[0]) == 0;
    }
  }


  /** Before the c-th start there are c starts, so just after it the ends
      number `c + B(p[0])`: the matching end lies after it. */
  lemma StartThenEnd(p: seq<bool>, c: nat)
    requires |p| >= 1 && c < |Flatnonzero(Starts(p))| && c + B(p[0]) < |Flatnonzero(Ends(p))|
    ensures Flatnonzero(Starts(p))[c] < Flatnonzero(Ends(p))[c + B(p[0])]
  {
    var st, en := Starts(p), Ends(p);
    var s := Flatnonzero(st)[c];
    FlatnonzeroRankNext(st, c);
    Balance(p, s + 1);
    FlatnonzeroAfter(en, c + B(p[0]), s);
  }

  /** Just after the `(k + B(p[0]))`-th end there are `k + B(p[0]) + 1` ends
      and, the predicate being false there, `k + 1` starts: the next start
      lies after it. */
  lemma EndThenStart(p: seq<bool>, k: nat)
    requires |p| >= 1 && k + B(p[0]) < |Flatnonzero(Ends(p))|
    requires k + 1 < |Flatnonzero(Starts(p))|
    ensures Flatnonzero(Ends(p))[k + B(p[0])] < Flatnonzero(Starts(p))[k + 1]
  {
    var st, en := Starts(p), Ends(p);
    var c := k + B(p[0]);
    var e := Flatnonzero(en)[c];
    FlatnonzeroRankNext(en, c);
    Balance(p, e + 1);
    FlatnonzeroAfter(st, k + 1, e);
  }

  /** Strictly after the c-th start and up to the matching end, the predicate
      holds. */
  lemma HoldsBetween(p: seq<bool>, c: nat, j: nat)
    requires |p| >= 1 && c < |Flatnonzero(Starts(p))| && c + B(p[0]) < |Flatnonzero(Ends(p))|
    requires Flatnonzero(Starts(p))[c] < j <= Flatnonzero(Ends(p))[c + B(p[0])]
    ensures p[j]
  {
    CountsBetween(Starts(p), Ends(p), c, c + B(p[0]), j);
    Balance(p, j);
  }

  /** The k-th start comes before the k-th end. */
  lemma StartBeforeEnd(p: seq<bool>, k: nat)
    requires |p| >= 1 && k < |StartIndices(p)|
    ensures k < |EndIndices(p)|
    ensures StartIndices(p)[k] < EndIndices(p)[k] < |p| - 1
  {
    TrimmedAt(p, k);
    StartThenEnd(p, k);
  }

  /** The predicate is false at the k-th start and just after the k-th end. */
  lemma FalseOutside(p: seq<bool>, k: nat)
    requires |p| >= 1 && k < |StartIndices(p)|
    ensures k < |EndIndices(p)| && EndIndices(p)[k] < |p| - 1
    ensures !p[StartIndices(p)[k]] && !p[EndIndices(p)[k] + 1]
  {
    TrimmedAt(p, k);
    StartAt(p, StartIndices(p)[k]);
    EndAt(p, EndIndices(p)[k]);
  }

  /** The k-th end comes before the next start. */
  lemma EndBeforeNextStart(p: seq<bool>, k: nat)
    requires |p| >= 1 && k + 1 < |StartIndices(p)|
    ensures k < |EndIndices(p)|
    ensures EndIndices(p)[k] < StartIndices(p)[k + 1]
  {
    TrimmedAt(p, k);
    TrimmedAt(p, k + 1);
    EndThenStart(p, k);
  }

  /** The predicate holds from just after the k-th start up to the k-th end. */
  lemma HoldsWithin(p: seq<bool>, k: nat, j: nat)
    requires |p| >= 1 && k < |StartIndices(p)|
    requires k < |EndIndices(p)| && StartIndices(p)[k] < j <= EndIndices(p)[k]
    ensures p[j]
  {
    TrimmedAt(p, k);
    HoldsBetween(p, k, j);
  }

  /** Every trimmed start and end is a sample index below the last one. */
  lemma IndicesInRange(p: seq<bool>)
    requires |p| >= 1
    ensures forall k :: 0 <= k < |StartIndices(p)| ==> StartIndices(p)[k] < |p| - 1
    ensures forall k :: 0 <= k < |EndIndices(p)| ==> EndIndices(p)[k] < |p| - 1
  {
  }

  /** No end lies inside a stretch where the predicate holds. */
  lemma NoEndWithin(p: seq<bool>, s: nat, e: nat)
    requires s < e < |p| - 1
    requires forall j :: s < j <= e ==> p[j]
    ensures Count(Ends(p)[..e]) == Count(Ends(p)[..s + 1])
  {
    var en := Ends(p);
    forall j | s + 1 <= j < e
      ensures !en[j]
    {
      assert p[j + 1];
    }
    CountNoneBetween(en, s + 1, e);
  }

  /** The start at `s` and the end at `e` of a complete interval have ranks
      that differ by `B(p[0])`, the end dropped when the first sample holds. */
  lemma CompleteIntervalRanks(p: seq<bool>, s: nat, e: nat)
    requires s < e < |p| - 1 && !p[s] && !p[e + 1]
    requires forall j :: s < j <= e ==> p[j]
    ensures Count(Starts(p)[..s]) < |Flatnonzero(Starts(p))|
    ensures Flatnonzero(Starts(p))[Count(Starts(p)[..s])] == s
    ensures Count(Ends(p)[..e]) < |Flatnonzero(Ends(p))|
    ensures Flatnonzero(Ends(p))[Count(Ends(p)[..e])] == e
    ensures Count(Ends(p)[..e]) == Count(Starts(p)[..s]) + B(p[0])
  {
    var st, en := Starts(p), Ends(p);
    assert p[s + 1] && p[e];
    assert st[s] && en[e];
    FlatnonzeroAt(st, s);
    FlatnonzeroAt(en, e);
    CountStep(st, s);
    Balance(p, s + 1);
    NoEndWithin(p, s, e);
  }

  /** Every complete interval of the predicate, from a false sample `s`
      through true samples up to `e` with a false sample after it, is one of
      the paired start and end indices. */
  lemma CompleteIntervalPaired(p: seq<bool>, s: nat, e: nat) returns (k: nat)
    requires s < e < |p| - 1 && !p[s] && !p[e + 1]
    requires forall j :: s < j <= e ==> p[j]
    ensures k < |StartIndices(p)| && k < |EndIndices(p)|
    ensures StartIndices(p)[k] == s && EndIndices(p)[k] == e
  {
    CompleteIntervalRanks(p, s, e);
    TotalBalance(p);
    k := Count(Starts(p)[..s]);
    // When the final sample holds, a start follows this interval's end, so
    // dropping the last start keeps this one.
    PairedAt(p, k, s, e);
  }

  /** The `k`-th start `s` and the `k + B(p[0])`-th end `e` are the `k`-th
      pair, provided a further start follows when the final sample holds. */
  lemma PairedAt(p: seq<bool>, k: nat, s: nat, e: nat)
    requires |p| >= 1
    requires k + B(p[|p| - 1]) < |Flatnonzero(Starts(p))| && Flatnonzero(Starts(p))[k] == s
    requires k + B(p[0]) < |Flatnonzero(Ends(p))| && Flatnonzero(Ends(p))[k + B(p[0])] == e
    ensures k < |StartIndices(p)| && k < |EndIndices(p)|
    ensures StartIndices(p)[k] == s && EndIndices(p)[k] == e
  {
    var fs := Flatnonzero(Starts(p));
    if p[|p| - 1] {
      assert StartIndices(p) == fs[..|fs| - 1];
    } else {
      assert StartIndices(p) == fs;
    }
    TrimmedAt(p, k);
  }

  /** Over the whole sample, the starts outnumber the ends by whether the
      last sample holds, less whether the first does. */
  lemma TotalBalance(p: seq<bool>)
    requires |p| >= 1
    ensures |Flatnonzero(Starts(p))| - |Flatnonzero(Ends(p))| == B(p[|p| - 1]) - B(p[0])
  {
    Balance(p, |p| - 1);
    CountFull(Starts(p));
    CountFull(Ends(p));
  }

  /** A row of the `logical_intervals` table (dates left out). */
  datatype LogicalRow = LogicalRow(tstart: real, tstop: real, duration: real)

  /** The table built from paired start and end indices: their times and the
      duration `tstop - tstart`. */
  function LogicalRowsFrom(t: seq<real>, S: seq<nat>, E: seq<nat>): (rows: seq<LogicalRow>)
    requires |S| == |E|
    requires forall k :: 0 <= k < |S| ==> S[k] < |t| && E[k] < |t|
    ensures |rows| == |S|
  {
    seq(|S|, k requires 0 <= k < |S| => LogicalRow(t[S[k]], t[E[k]], t[E[k]] - t[S[k]]))
  }

  lemma LogicalRowAt(t: seq<real>, S: seq<nat>, E: seq<nat>, k: nat)
    requires |S| == |E| && k < |S|
    requires forall k :: 0 <= k < |S| ==> S[k] < |t| && E[k] < |t|
    ensures LogicalRowsFrom(t, S, E)[k] == LogicalRow(t[S[k]], t[E[k]], t[E[k]] - t[S[k]])
  {
  }

  /** The rows for the samples `f` and the predicate values `p` on them. */
  function Rows(f: Samples, p: seq<bool>): (rows: seq<LogicalRow>)
    requires |f.times| == |p| >= 1
    ensures |rows| == |StartIndices(p)| == |EndIndices(p)|
  {
    PairCount(p);
    IndicesInRange(p);
    LogicalRowsFrom(f.times, StartIndices(p), EndIndices(p))
  }

  /** `MSID.logical_intervals(op, val)`: an unknown operator raises; no
      samples left after local filtering raise when the last one is read. */
  function LogicalIntervals(times: seq<real>, vals: seq<real>, bads: Option<seq<bool>>, op: string, val: real)
    : (r: Result<seq<LogicalRow>>)
    requires |times| == |vals| && (bads.Some? ==> |bads.value| == |vals|)
    ensures r.Err? <==> ParseOp(op).Err? || |LocalFilter(times, vals, bads).vals| == 0
    ensures r.Err? && ParseOp(op).Ok? ==> r.error == IndexOutOfRange
  {
    if ParseOp(op).Err? then Err(ParseOp(op).error)
    else
      var f := LocalFilter(times, vals, bads);
      if |f.vals| == 0 then Err(IndexOutOfRange)
      else Ok(Rows(f, Predicate(f.vals, ParseOp(op).value, val)))
  }

  /** `row` is one complete interval of `op(·, val)` over the samples `f`: it
      starts at the time of the last sample before the predicate turns true and
      stops at the time of the last sample before it turns false again, the
      predicate holding on every sample in between. */
  ghost predicate IsInterval(row: LogicalRow, f: Samples, o: Op, val: real)
    requires |f.times| == |f.vals|
  {
    exists s: nat, e: nat :: s < e < |f.vals| - 1 && Bounds(row, f, o, val, s, e)
  }

  /** `row` runs from sample `s` to sample `e` and `op(·, val)` holds exactly
      on the samples after `s` up to `e`, not at `s` nor at `e + 1`. */
  ghost predicate Bounds(row: LogicalRow, f: Samples, o: Op, val: real, s: nat, e: nat)
    requires |f.times| == |f.vals| && s < e < |f.vals| - 1
  {
    && row.tstart == f.times[s] && row.tstop == f.times[e]
    && !Holds(o, f.vals[s], val) && !Holds(o, f.vals[e + 1], val)
    && (forall j :: s < j <= e ==> Holds(o, f.vals[j], val))
  }

  /** Row k is a complete interval of the predicate, and its duration is its
      stop minus its start. */
  lemma RowIsInterval(f: Samples, o: Op, val: real, k: nat)
    requires |f.times| == |f.vals| >= 1
    requires k < |Rows(f, Predicate(f.vals, o, val))|
    ensures IsInterval(Rows(f, Predicate(f.vals, o, val))[k], f, o, val)
    ensures Rows(f, Predicate(f.vals, o, val))[k].duration
      == Rows(f, Predicate(f.vals, o, val))[k].tstop - Rows(f, Predicate(f.vals, o, val))[k].tstart
  {
    var p := Predicate(f.vals, o, val);
    var S, E := StartIndices(p), EndIndices(p);
    PairCount(p);
    IndicesInRange(p);
    StartBeforeEnd(p, k);
    FalseOutside(p, k);
    forall j | S[k] < j <= E[k]
      ensures Holds(o, f.vals[j], val)
    {
      HoldsWithin(p, k, j);
    }
    LogicalRowAt(f.times, S, E, k);
    assert Bounds(Rows(f, p)[k], f, o, val, S[k], E[k]);
  }

  /** With strictly increasing times row k has positive length and ends
      before row k + 1 starts. */
  lemma RowsOrdered(f: Samples, p: seq<bool>, k: nat)
    requires |f.times| == |p| >= 1 && Increasing(f.times) && k < |Rows(f, p)|
    ensures Rows(f, p)[k].tstart < Rows(f, p)[k].tstop && Rows(f, p)[k].duration > 0.0
    ensures k + 1 < |Rows(f, p)| ==> Rows(f, p)[k].tstop < Rows(f, p)[k + 1].tstart
  {
    var S, E := StartIndices(p), EndIndices(p);
    PairCount(p);
    IndicesInRange(p);
    StartBeforeEnd(p, k);
    LogicalRowAt(f.times, S, E, k);
    if k + 1 < |S| {
      EndBeforeNextStart(p, k);
      LogicalRowAt(f.times, S, E, k + 1);
    }
  }

  /** Every row of a successful `logical_intervals` call is a complete interval
      of the predicate over the locally filtered samples, and its duration is
      stop minus start. */
  lemma LogicalIntervalsRows(times: seq<real>, vals: seq<real>, bads: Option<seq<bool>>, op: string, val: real)
    requires |times| == |vals| && (bads.Some? ==> |bads.value| == |vals|)
    requires LogicalIntervals(times, vals, bads, op, val).Ok?
    ensures forall row :: row in LogicalIntervals(times, vals, bads, op, val).value ==>
      && IsInterval(row, LocalFilter(times, vals, bads), ParseOp(op).value, val)
      && row.duration == row.tstop - row.tstart
  {
    var rows := LogicalIntervals(times, vals, bads, op, val).value;
    var f := LocalFilter(times, vals, bads);
    var o := ParseOp(op).value;
    assert rows == Rows(f, Predicate(f.vals, o, val));
    forall k | 0 <= k < |rows|
      ensures IsInterval(rows[k], f, o, val) && rows[k].duration == rows[k].tstop - rows[k].tstart
    {
      RowIsInterval(f, o, val, k);
    }
  }

  /** Conversely, every complete interval of the predicate over the locally
      filtered samples is a row of a successful `logical_intervals` call. */
  lemma LogicalIntervalsComplete(times: seq<real>, vals: seq<real>, bads: Option<seq<bool>>, op: string, val: real,
                                 s: nat, e: nat) returns (k: nat)
    requires |times| == |vals| && (bads.Some? ==> |bads.value| == |vals|)
    requires ParseOp(op).Ok?
    requires s < e < |LocalFilter(times, vals, bads).vals| - 1
    requires !Holds(ParseOp(op).value, LocalFilter(times, vals, bads).vals[s], val)
    requires !Holds(ParseOp(op).value, LocalFilter(times, vals, bads).vals[e + 1], val)
    requires forall j :: s < j <= e ==> Holds(ParseOp(op).value, LocalFilter(times, vals, bads).vals[j], val)
    ensures LogicalIntervals(times, vals, bads, op, val).Ok?
    ensures var rows, f := LogicalIntervals(times, vals, bads, op, val).value, LocalFilter(times, vals, bads);
      k < |rows| && rows[k] == LogicalRow(f.times[s], f.times[e], f.times[e] - f.times[s])
  {
    var f := LocalFilter(times, vals, bads);
    var p := Predicate(f.vals, ParseOp(op).value, val);
    assert LogicalIntervals(times, vals, bads, op, val) == Ok(Rows(f, p));
    k := CompleteIntervalPaired(p, s, e);
    PairCount(p);
    IndicesInRange(p);
    LogicalRowAt(f.times, StartIndices(p), EndIndices(p), k);
    assert Rows(f, p)[k] == LogicalRow(f.times[s], f.times[e], f.times[e] - f.times[s]);
  }

  /** The rows of a successful `logical_intervals` call are exactly the
      complete intervals of the predicate over the locally filtered samples,
      each with duration stop minus start. */
  lemma LogicalIntervalsExact(times: seq<real>, vals: seq<real>, bads: Option<seq<bool>>, op: string, val: real)
    requires |times| == |vals| && (bads.Some? ==> |bads.value| == |vals|)
    requires LogicalIntervals(times, vals, bads, op, val).Ok?
    ensures forall row :: row in LogicalIntervals(times, vals, bads, op, val).value <==>
      && IsInterval(row, LocalFilter(times, vals, bads), ParseOp(op).value, val)
      && row.duration == row.tstop - row.tstart
  {
    var rows := LogicalIntervals(times, vals, bads, op, val).value;
    var f := LocalFilter(times, vals, bads);
    var o := ParseOp(op).value;
    LogicalIntervalsRows(times, vals, bads, op, val);
    forall row | IsInterval(row, f, o, val) && row.duration == row.tstop - row.tstart
      ensures row in rows
    {
      var s: nat, e: nat :| s < e < |f.vals| - 1 && Bounds(row, f, o, val, s, e);
      var k := LogicalIntervalsComplete(times, vals, bads, op, val, s, e);
      assert rows[k] == row;
    }
  }

  /** With strictly increasing sample times each interval has positive length,
      and the intervals are in time order without overlapping. */
  lemma LogicalIntervalsOrdered(times: seq<real>, vals: seq<real>, bads: Option<seq<bool>>, op: string, val: real)
    requires |times| == |vals| && (bads.Some? ==> |bads.value| == |vals|)
    requires Increasing(times)
    requires LogicalIntervals(times, vals, bads, op, val).Ok?
    ensures var rows := LogicalIntervals(times, vals, bads, op, val).value;
      && (forall k :: 0 <= k < |rows| ==> rows[k].tstart < rows[k].tstop && rows[k].duration > 0.0)
      && (forall k :: 0 <= k < |rows| - 1 ==> rows[k].tstop < rows[k + 1].tstart)
  {
    var rows := LogicalIntervals(times, vals, bads, op, val).value;
    var f := LocalFilter(times, vals, bads);
    var p := Predicate(f.vals, ParseOp(op).value, val);
    assert rows == Rows(f, p);
    LocalFilterIncreasing(times, vals, bads);
    forall k | 0 <= k < |rows|
      ensures rows[k].tstart < rows[k].tstop && rows[k].duration > 0.0
      ensures k + 1 < |rows| ==> rows[k].tstop < rows[k + 1].tstart
    {
      RowsOrdered(f, p, k);
    }
  }

  // ---------------------------------------------------------------------
  // state_intervals
  // ---------------------------------------------------------------------

  /** `vals[:-1] != vals[1:]`: the value changes between sample i and i + 1. */
  function Changes(v: seq<real>): (ch: seq<bool>)
    requires |v| >= 1
    ensures |ch| == |v| - 1
  {
    seq(|v| - 1, i requires 0 <= i < |v| - 1 => v[i] != v[i + 1])
  }

  lemma ChangeAt(v: seq<real>, i: nat)
    requires i < |v| - 1
    ensures Changes(v)[i] == (v[i] != v[i + 1])
  {
  }

  /** `hstack([[True], vals[:-1] != vals[1:], [True]])`: a boundary before the
      first sample, between two samples of different value, after the last. */
  function Transitions(v: seq<real>): (tr: seq<bool>)
    requires |v| >= 1
    ensures |tr| == |v| + 1
  {
    [true] + Changes(v) + [true]
  }

  /** The boundary positions: half a sample step before the first sample,
      midway between neighbouring samples, half a step after the last. */
  function MidTimes(t: seq<real>): (mid: seq<real>)
    requires |t| >= 2
    ensures |mid| == |t| + 1
  {
    [t[0] - (t[1] - t[0]) / 2.0]
      + seq(|t| - 1, i requires 0 <= i < |t| - 1 => (t[i] + t[i + 1]) / 2.0)
      + [t[|t| - 1] + (t[|t| - 1] - t[|t| - 2]) / 2.0]
  }

  lemma MidAt(t: seq<real>, j: nat)
    requires |t| >= 2 && j <= |t|
    ensures MidTimes(t)[j] == (if j == 0 then t[0] - (t[1] - t[0]) / 2.0
                               else if j == |t| then t[|t| - 1] + (t[|t| - 1] - t[|t| - 2]) / 2.0
                               else (t[j - 1] + t[j]) / 2.0)
  {
  }

  /** With increasing times, a boundary at or before sample i lies before it. */
  lemma MidBefore(t: seq<real>, j: nat, i: nat)
    requires |t| >= 2 && Increasing(t) && j <= i < |t|
    ensures MidTimes(t)[j] < t[i]
  {
    MidAt(t, j);
    if j == 0 {
      assert t[0] < t[1];
    } else {
      assert t[j - 1] < t[j];
    }
  }

  /** With increasing times, a boundary after sample i lies after it. */
  lemma MidAfter(t: seq<real>, j: nat, i: nat)
    requires |t| >= 2 && Increasing(t) && i < j <= |t|
    ensures MidTimes(t)[j] > t[i]
  {
    MidAt(t, j);
    if j == |t| {
      assert t[|t| - 2] < t[|t| - 1];
    } else {
      assert t[j - 1] < t[j];
    }
  }

  /** `transitions[1:]` is the changes followed by the final boundary. */
  lemma TransitionsTail(v: seq<real>)
    requires |v| >= 1
    ensures Transitions(v)[1..] == Changes(v) + [true]
    ensures Count(Transitions(v)[1..]) == Count(Changes(v)) + 1
  {
    var ch := Changes(v);
    assert Transitions(v)[1..] == ch + [true];
    assert Count([true]) == 1;
    CountAppend(ch, [true]);
  }

  /** The first and last boundaries are always present, around the changes. */
  lemma TransitionsCount(v: seq<real>)
    requires |v| >= 1
    ensures Transitions(v)[0] && Transitions(v)[|v|]
    ensures Count(Transitions(v)) == Count(Changes(v)) + 2
  {
    var ch := Changes(v);
    TransitionsTail(v);
    assert Transitions(v) == [true] + (ch + [true]);
    assert Count([true]) == 1;
    CountAppend([true], ch + [true]);
  }

  /** An inner boundary marks a change of value. */
  lemma TransitionAt(v: seq<real>, j: nat)
    requires 0 < j < |v|
    ensures Transitions(v)[j] == (v[j - 1] != v[j])
  {
    ChangeAt(v, j - 1);
  }

  /** Before sample i the boundaries number one more than the changes. */
  lemma TransitionsBefore(v: seq<real>, i: nat)
    requires i < |v|
    ensures Count(Transitions(v)[..i + 1]) == Count(Changes(v)[..i]) + 1
    ensures Count(Transitions(v)[1..][..i]) == Count(Changes(v)[..i])
  {
    var ch := Changes(v);
    var tr := Transitions(v);
    TransitionsTail(v);
    assert tr[..i + 1] == [true] + ch[..i];
    assert tr[1..][..i] == ch[..i];
    assert Count([true]) == 1;
    CountAppend([true], ch[..i]);
  }

  /** A stretch without changes has one value throughout. */
  lemma {:induction false} RunConstant(v: seq<real>, a: nat, b: nat)
    requires a <= b < |v|
    requires forall j :: a <= j < b ==> v[j] == v[j + 1]
    ensures v[a] == v[b]
    decreases b - a
  {
    if a < b {
      RunConstant(v, a + 1, b);
    }
  }

  /** The values of the runs: the last sample of each (`vals[transitions[1:]]`). */
  function StateVals(v: seq<real>): (sv: seq<real>)
    requires |v| >= 1
    ensures |sv| == Count(Changes(v)) + 1
  {
    TransitionsTail(v);
    Select(v, Transitions(v)[1..])
  }

  /** The run boundaries (`midtimes[transitions]`). */
  function StateTimes(t: seq<real>, v: seq<real>): (st: seq<real>)
    requires |t| == |v| >= 2
    ensures |st| == Count(Changes(v)) + 2
  {
    TransitionsCount(v);
    Select(MidTimes(t), Transitions(v))
  }

  /** A row of the `state_intervals` table (dates left out). */
  datatype StateRow = StateRow(tstart: real, tstop: real, duration: real, val: real)

  /** One row per run: row k between boundaries k and k + 1, with the value
      of run k. */
  function RowsFrom(st: seq<real>, sv: seq<real>): (rows: seq<StateRow>)
    requires |st| == |sv| + 1
    ensures |rows| == |sv|
  {
    seq(|sv|, k requires 0 <= k < |sv| => StateRow(st[k], st[k + 1], st[k + 1] - st[k], sv[k]))
  }

  lemma RowsFromAt(st: seq<real>, sv: seq<real>, k: nat)
    requires |st| == |sv| + 1 && k < |sv|
    ensures RowsFrom(st, sv)[k] == StateRow(st[k], st[k + 1], st[k + 1] - st[k], sv[k])
  {
  }

  /** One row per run of equal values, between consecutive boundaries. */
  function StateRows(f: Samples): (rows: seq<StateRow>)
    requires |f.times| == |f.vals| >= 2
    ensures |rows| == Count(Changes(f.vals)) + 1
  {
    RowsFrom(StateTimes(f.times, f.vals), StateVals(f.vals))
  }

  /** `MSID.state_intervals()`: fewer than two samples before filtering is a
      value error; fewer than two after local filtering fails when the second
      sample time is read. */
  function StateIntervals(times: seq<real>, vals: seq<real>, bads: Option<seq<bool>>): (r: Result<seq<StateRow>>)
    requires |times| == |vals| && (bads.Some? ==> |bads.value| == |vals|)
    ensures |vals| < 2 <==> r.Err? && r.error == TooFewSamples
    ensures r.Err? <==> |LocalFilter(times, vals, bads).vals| < 2
    ensures r.Err? && |vals| >= 2 ==> r.error == IndexOutOfRange
    ensures r.Ok? ==> |r.value| == Count(Changes(LocalFilter(times, vals, bads).vals)) + 1
  {
    var f := LocalFilter(times, vals, bads);
    if |vals| < 2 then Err(TooFewSamples)
    else if |f.vals| < 2 then Err(IndexOutOfRange)
    else Ok(StateRows(f))
  }

  /** `state_intervals` with its length check applied, as its message says,
      to the filtered samples: too few samples left is always the value
      error, and otherwise the result is the one above. */
  function StateIntervalsChecked(times: seq<real>, vals: seq<real>, bads: Option<seq<bool>>)
    : (r: Result<seq<StateRow>>)
    requires |times| == |vals| && (bads.Some? ==> |bads.value| == |vals|)
    ensures r.Err? <==> |LocalFilter(times, vals, bads).vals| < 2
    ensures r.Err? ==> r.error == TooFewSamples
    ensures StateIntervals(times, vals, bads).Err? <==> r.Err?
    ensures r.Ok? ==> r == StateIntervals(times, vals, bads)
  {
    var f := LocalFilter(times, vals, bads);
    if |f.vals| < 2 then Err(TooFewSamples) else Ok(StateRows(f))
  }

  /** The check on the unfiltered length lets two samples through when one of
      them is bad: the single sample left makes the midpoint computation read
      past the end, an index error instead of the value error. */
  lemma StateIntervalsCheckMisplaced()
    ensures StateIntervals([0.0, 1.0], [1.0, 2.0], Some([false, true])) == Err(IndexOutOfRange)
    ensures StateIntervalsChecked([0.0, 1.0], [1.0, 2.0], Some([false, true])) == Err(TooFewSamples)
  {
    assert [false, true][1];
    assert Not([false, true]) == [true, false];
    assert [true, false][..1] == [true];
    assert Count([true, false]) == 1;
  }

  /** The run containing sample i is the one numbered by the changes before i:
      its value is the sample's value. */
  lemma StateValOf(v: seq<real>, i: nat)
    requires i < |v|
    ensures Count(Changes(v)[..i]) < |StateVals(v)|
    ensures StateVals(v)[Count(Changes(v)[..i])] == v[i]
  {
    var ch := Changes(v);
    var tr1 := Transitions(v)[1..];
    var c := Count(ch[..i]);
    TransitionsTail(v);
    TransitionsBefore(v, i);
    CountMonotone(ch, i, |ch|);
    CountFull(ch);
    var F1 := Flatnonzero(tr1);
    FlatnonzeroAtLeast(tr1, c, i);
    var e := F1[c];
    forall j | i <= j < e
      ensures v[j] == v[j + 1]
    {
      NoneBetween(tr1, c, i, j);
      ChangeAt(v, j);
    }
    RunConstant(v, i, e);
  }

  /** The run containing sample i opens at the boundary numbered by the
      changes before i, which lies at or before i, and closes at the next
      boundary, which lies after i. */
  lemma BoundaryIndices(v: seq<real>, i: nat) returns (a: nat, b: nat)
    requires i < |v|
    ensures Count(Changes(v)[..i]) + 1 < |Flatnonzero(Transitions(v))|
    ensures a == Flatnonzero(Transitions(v))[Count(Changes(v)[..i])]
    ensures b == Flatnonzero(Transitions(v))[Count(Changes(v)[..i]) + 1]
    ensures a <= i < b <= |v|
  {
    var ch := Changes(v);
    var tr := Transitions(v);
    var c := Count(ch[..i]);
    TransitionsCount(v);
    TransitionsBefore(v, i);
    CountMonotone(ch, i, |ch|);
    CountFull(ch);
    var F0 := Flatnonzero(tr);
    FlatnonzeroBefore(tr, c, i + 1);
    FlatnonzeroAfter(tr, c + 1, i);
    a, b := F0[c], F0[c + 1];
  }

  /** Every sample lies strictly inside the row of its run, and that row
      carries the sample's value (times strictly increasing). */
  lemma StateRowsCover(f: Samples, i: nat)
    requires |f.times| == |f.vals| >= 2 && Increasing(f.times) && i < |f.vals|
    ensures exists k :: (0 <= k < |StateRows(f)|
      && StateRows(f)[k].tstart < f.times[i] < StateRows(f)[k].tstop && StateRows(f)[k].val == f.vals[i])
  {
    var rows := StateRows(f);
    var k := Count(Changes(f.vals)[..i]);
    StateValOf(f.vals, i);
    var a, b := BoundaryIndices(f.vals, i);
    TransitionsCount(f.vals);
    assert StateTimes(f.times, f.vals)[k] == MidTimes(f.times)[a];
    assert StateTimes(f.times, f.vals)[k + 1] == MidTimes(f.times)[b];
    MidBefore(f.times, a, i);
    MidAfter(f.times, b, i);
    RowsFromAt(StateTimes(f.times, f.vals), StateVals(f.vals), k);
    assert rows[k].tstart < f.times[i] < rows[k].tstop && rows[k].val == f.vals[i];
  }

  /** Neighbouring runs have different values. */
  lemma StateValsAlternate(v: seq<real>, k: nat)
    requires |v| >= 1 && k + 1 < |StateVals(v)|
    ensures StateVals(v)[k] != StateVals(v)[k + 1]
  {
    var ch := Changes(v);
    var tr1 := Transitions(v)[1..];
    TransitionsTail(v);
    var F1 := Flatnonzero(tr1);
    var e0, e1 := F1[k], F1[k + 1];
    FlatnonzeroIncreasing(tr1, k, k + 1);
    assert e0 < e1 < |v|;
    ChangeAt(v, e0);
    assert tr1[e0] == ch[e0];
    forall j | e0 + 1 <= j < e1
      ensures v[j] == v[j + 1]
    {
      FlatnonzeroGap(tr1, k, j);
      ChangeAt(v, j);
    }
    RunConstant(v, e0 + 1, e1);
  }

  /** Neighbouring rows carry different values, and each row stops where the
      next one starts. */
  lemma StateRowsAlternate(f: Samples, k: nat)
    requires |f.times| == |f.vals| >= 2 && k + 1 < |StateRows(f)|
    ensures StateRows(f)[k].val != StateRows(f)[k + 1].val
    ensures StateRows(f)[k].tstop == StateRows(f)[k + 1].tstart
  {
    StateValsAlternate(f.vals, k);
    RowsFromAt(StateTimes(f.times, f.vals), StateVals(f.vals), k);
    RowsFromAt(StateTimes(f.times, f.vals), StateVals(f.vals), k + 1);
  }

  /** The first boundary lies half a sample step before the first sample. */
  lemma StateTimesFirst(t: seq<real>, v: seq<real>)
    requires |t| == |v| >= 2
    ensures StateTimes(t, v)[0] == t[0] - (t[1] - t[0]) / 2.0
  {
    var tr := Transitions(v);
    TransitionsCount(v);
    FlatnonzeroAt(tr, 0);
    assert tr[..0] == [];
    MidAt(t, 0);
  }

  /** The last boundary lies half a sample step after the last sample. */
  lemma StateTimesLast(t: seq<real>, v: seq<real>)
    requires |t| == |v| >= 2
    ensures var st, n := StateTimes(t, v), |t|;
      st[|st| - 1] == t[n - 1] + (t[n - 1] - t[n - 2]) / 2.0
  {
    var n := |t|;
    var tr := Transitions(v);
    TransitionsCount(v);
    FlatnonzeroAt(tr, n);
    CountStep(tr, n);
    CountFull(tr);
    assert Flatnonzero(tr)[|StateTimes(t, v)| - 1] == n;
    MidAt(t, n);
  }

  /** Every inner boundary lies midway between two neighbouring samples of
      different value. */
  lemma StateTimesInner(t: seq<real>, v: seq<real>, k: nat)
    requires |t| == |v| >= 2 && 0 < k < |StateTimes(t, v)| - 1
    ensures exists j :: (0 < j < |t| && v[j - 1] != v[j] && StateTimes(t, v)[k] == (t[j - 1] + t[j]) / 2.0)
  {
    var n := |t|;
    var tr := Transitions(v);
    TransitionsCount(v);
    var F0 := Flatnonzero(tr);
    var j := F0[k];
    FlatnonzeroAt(tr, 0);
    assert tr[..0] == [];
    FlatnonzeroAt(tr, n);
    CountStep(tr, n);
    CountFull(tr);
    assert F0[0] == 0 && F0[|F0| - 1] == n;
    FlatnonzeroIncreasing(tr, 0, k);
    FlatnonzeroIncreasing(tr, k, |F0| - 1);
    assert 0 < j < n;
    TransitionAt(v, j);
    MidAt(t, j);
  }

  /** The first row starts half a sample step before the first sample. */
  lemma StateRowsFirstStart(f: Samples)
    requires |f.times| == |f.vals| >= 2
    ensures StateRows(f)[0].tstart == f.times[0] - (f.times[1] - f.times[0]) / 2.0
  {
    StateTimesFirst(f.times, f.vals);
    RowsFromAt(StateTimes(f.times, f.vals), StateVals(f.vals), 0);
  }

  /** The last row stops half a sample step after the last sample. */
  lemma StateRowsLastStop(f: Samples)
    requires |f.times| == |f.vals| >= 2
    ensures var rows, t, n := StateRows(f), f.times, |f.times|;
      rows[|rows| - 1].tstop == t[n - 1] + (t[n - 1] - t[n - 2]) / 2.0
  {
    var sv := StateVals(f.vals);
    StateTimesLast(f.times, f.vals);
    RowsFromAt(StateTimes(f.times, f.vals), sv, |sv| - 1);
  }

  /** Every later row starts midway between two neighbouring samples whose
      values differ. */
  lemma StateRowsInnerStart(f: Samples, k: nat)
    requires |f.times| == |f.vals| >= 2 && 0 < k < |StateRows(f)|
    ensures exists j :: (0 < j < |f.times| && f.vals[j - 1] != f.vals[j]
      && StateRows(f)[k].tstart == (f.times[j - 1] + f.times[j]) / 2.0)
  {
    StateTimesInner(f.times, f.vals, k);
    RowsFromAt(StateTimes(f.times, f.vals), StateVals(f.vals), k);
  }

  /** A successful `state_intervals` call returns the rows of the locally
      filtered samples, which are at least two. */
  lemma StateIntervalsRows(times: seq<real>, vals: seq<real>, bads: Option<seq<bool>>)
    requires |times| == |vals| && (bads.Some? ==> |bads.value| == |vals|)
    requires StateIntervals(times, vals, bads).Ok?
    ensures |LocalFilter(times, vals, bads).vals| >= 2
    ensures StateIntervals(times, vals, bads).value == StateRows(LocalFilter(times, vals, bads))
  {
  }

  // ---------------------------------------------------------------------
  // Worked examples
  // ---------------------------------------------------------------------



  /** `flatnonzero` of the starts in the threshold example. */
  lemma ThresholdStarts(m: seq<bool>)
    requires |m| == 5 && !m[0] && m[1] && !m[2] && !m[3] && m[4]
    ensures Flatnonzero(m) == [1, 4]
  {
    forall i | 0 <= i < |m| && m[i]
      ensures i in [1, 4]
    {
      assert i == 1 || i == 4;
    }
    FlatnonzeroExact(m, [1, 4]);
  }

  /** `flatnonzero` of the ends in the threshold example. */
  lemma ThresholdEnds(m: seq<bool>)
    requires |m| == 5 && !m[0] && !m[1] && !m[2] && m[3] && !m[4]
    ensures Flatnonzero(m) == [3]
  {
    forall i | 0 <= i < |m| && m[i]
      ensures i in [3]
    {
      assert i == 3;
    }
    FlatnonzeroExact(m, [3]);
  }

  /** `vals == 1` on `[0, 0, 1, 1, 0, 1]` at times `0..5`: the predicate
      turns true after sample 1 and false after sample 3; the start after
      sample 4 is dropped because the last sample still satisfies it. */
  lemma ThresholdExample()
    ensures LogicalIntervals([0.0, 1.0, 2.0, 3.0, 4.0, 5.0], [0.0, 0.0, 1.0, 1.0, 0.0, 1.0], None, "==", 1.0)
            == Ok([LogicalRow(1.0, 3.0, 2.0)])
  {
    var t, v := [0.0, 1.0, 2.0, 3.0, 4.0, 5.0], [0.0, 0.0, 1.0, 1.0, 0.0, 1.0];
    var f := LocalFilter(t, v, None);
    var p := Predicate(v, Eq, 1.0);
    assert p == [false, false, true, true, false, true];
    assert Starts(p) == [false, true, false, false, true];
    assert Ends(p) == [false, false, false, true, false];
    ThresholdStarts(Starts(p));
    ThresholdEnds(Ends(p));
    assert StartIndices(p) == [1];
    assert EndIndices(p) == [3];
    LogicalRowAt(t, [1], [3], 0);
    assert Rows(f, p) == [LogicalRow(1.0, 3.0, 2.0)];
  }



  /** `flatnonzero` of the transitions in the state-runs example. */
  lemma StateRunsBoundaries(m: seq<bool>)
    requires |m| == 7 && m[0] && !m[1] && m[2] && !m[3] && !m[4] && m[5] && m[6]
    ensures Flatnonzero(m) == [0, 2, 5, 6]
  {
    forall i | 0 <= i < |m| && m[i]
      ensures i in [0, 2, 5, 6]
    {
      assert i == 0 || i == 2 || i == 5 || i == 6;
    }
    FlatnonzeroExact(m, [0, 2, 5, 6]);
  }

  /** `flatnonzero` of the transitions after the first in the state-runs example. */
  lemma StateRunsStarts(m: seq<bool>)
    requires |m| == 6 && !m[0] && m[1] && !m[2] && !m[3] && m[4] && m[5]
    ensures Flatnonzero(m) == [1, 4, 5]
  {
    forall i | 0 <= i < |m| && m[i]
      ensures i in [1, 4, 5]
    {
      assert i == 1 || i == 4 || i == 5;
    }
    FlatnonzeroExact(m, [1, 4, 5]);
  }

  /** The boundaries of the runs of `[5, 5, 7, 7, 7, 2]` at times `0, 10, .., 50`. */
  lemma StateRunsTimes()
    ensures StateTimes([0.0, 10.0, 20.0, 30.0, 40.0, 50.0], [5.0, 5.0, 7.0, 7.0, 7.0, 2.0]) == [-5.0, 15.0, 45.0, 55.0]
  {
    var t, v := [0.0, 10.0, 20.0, 30.0, 40.0, 50.0], [5.0, 5.0, 7.0, 7.0, 7.0, 2.0];
    assert Changes(v) == [false, true, false, false, true];
    assert Transitions(v) == [true, false, true, false, false, true, true];
    StateRunsBoundaries(Transitions(v));
    var mid := MidTimes(t);
    MidAt(t, 0);
    MidAt(t, 2);
    MidAt(t, 5);
    MidAt(t, 6);
    assert mid[0] == -5.0 && mid[2] == 15.0 && mid[5] == 45.0 && mid[6] == 55.0;
  }

  /** The values of the runs of `[5, 5, 7, 7, 7, 2]`. */
  lemma StateRunsVals()
    ensures StateVals([5.0, 5.0, 7.0, 7.0, 7.0, 2.0]) == [5.0, 7.0, 2.0]
  {
    var v := [5.0, 5.0, 7.0, 7.0, 7.0, 2.0];
    assert Changes(v) == [false, true, false, false, true];
    TransitionsTail(v);
    assert Transitions(v)[1..] == [false, true, false, false, true, true];
    StateRunsStarts(Transitions(v)[1..]);
  }

  /** `[5, 5, 7, 7, 7, 2]` at times `0, 10, .., 50` has three runs, each
      bounded by the midpoints around its first and last samples, the first
      and last extended by half a step. */
  lemma StateRunsExample()
    ensures StateIntervals([0.0, 10.0, 20.0, 30.0, 40.0, 50.0], [5.0, 5.0, 7.0, 7.0, 7.0, 2.0], None)
            == Ok([StateRow(-5.0, 15.0, 20.0, 5.0), StateRow(15.0, 45.0, 30.0, 7.0), StateRow(45.0, 55.0, 10.0, 2.0)])
  {
    var t, v := [0.0, 10.0, 20.0, 30.0, 40.0, 50.0], [5.0, 5.0, 7.0, 7.0, 7.0, 2.0];
    StateRunsTimes();
    StateRunsVals();
    var st, sv := [-5.0, 15.0, 45.0, 55.0], [5.0, 7.0, 2.0];
    RowsFromAt(st, sv, 0);
    RowsFromAt(st, sv, 1);
    RowsFromAt(st, sv, 2);
    assert StateRows(Samples(t, v)) == RowsFrom(st, sv);
    assert RowsFrom(st, sv) == [StateRow(-5.0, 15.0, 20.0, 5.0), StateRow(15.0, 45.0, 30.0, 7.0), StateRow(45.0, 55.0, 10.0, 2.0)];
  }
}
