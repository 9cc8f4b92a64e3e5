/** A set of fetched MSIDs (`MSIDset`): expansion of the requested names,
    bad-value filtering shared by every member of one content type, and
    nearest-neighbour resampling of every member onto one uniform grid. */
module MsidSet {
  import opened Wrappers
  import opened Columns
  import opened SeriesModel
  import opened NameResolver

  /** The attribute that keeps, after interpolation, the original time of the
      sample chosen for each grid point. */
  const TIMES0 := "times0"

  // ---------------------------------------------------------------------
  // numpy.arange
  // ---------------------------------------------------------------------

  /** `ceil(x)` */
  function Ceil(x: real): (c: int)
    ensures c as real >= x && (c as real) - 1.0 < x
  {
    -((-x).Floor)
  }

  /** numpy.arange(start, stop, step): `start + k * step` for
      `k = 0, 1, ...` up to `ceil((stop - start) / step)` terms; a zero step
      divides by zero. */
  function Arange(start: real, stop: real, step: real): (r: Result<seq<real>>)
    ensures r.Err? <==> step == 0.0
    ensures r.Err? ==> r.error == ZeroStep
  {
    if step == 0.0 then Err(ZeroStep)
    else
      var c := Ceil((stop - start) / step);
      var n: nat := if c <= 0 then 0 else c;
      Ok(seq(n, k requires 0 <= k < n => start + (k as real) * step))
  }

  /** With a positive step, `start + k * step` is on the grid exactly when it
      lies below `stop`: the grid holds every such point and no other, in
      steps of `step`. */
  lemma ArangeRising(start: real, stop: real, step: real, k: nat)
    requires step > 0.0
    ensures var g := Arange(start, stop, step).value;
      && (k < |g| <==> start + (k as real) * step < stop)
      && (k < |g| ==> g[k] == start + (k as real) * step)
  {
    var q := (stop - start) / step;
    var c := Ceil(q);
    assert q * step == stop - start;
    var kr := k as real;
    if kr < q {
      assert kr * step < q * step;
    } else {
      assert kr * step >= q * step;
    }
    assert (k < c) <==> kr < q;
  }

  /** With a negative step the grid descends and holds exactly the points
      `start + k * step` above `stop`. */
  lemma ArangeFalling(start: real, stop: real, step: real, k: nat)
    requires step < 0.0
    ensures var g := Arange(start, stop, step).value;
      && (k < |g| <==> start + (k as real) * step > stop)
      && (k < |g| ==> g[k] == start + (k as real) * step)
  {
    var q := (stop - start) / step;
    var c := Ceil(q);
    assert q * step == stop - start;
    var kr := k as real;
    if kr < q {
      assert kr * step > q * step;
    } else {
      assert kr * step <= q * step;
    }
    assert (k < c) <==> kr < q;
  }

  // ---------------------------------------------------------------------
  // Nearest-neighbour index
  // ---------------------------------------------------------------------

  /** `|a - b|` */
  function Dist(a: real, b: real): (d: real)
    ensures d >= 0.0 && (d == a - b || d == b - a)
  {
    if a >= b then a - b else b - a
  }

  /** The index of the sample of `t` closest to `x`, the lower index on a
      tie. */
  function Nearest(t: seq<real>, x: real): (r: nat)
    requires |t| > 0
    ensures r < |t|
    ensures forall j :: 0 <= j < |t| ==> Dist(t[r], x) <= Dist(t[j], x)
    ensures forall j :: 0 <= j < r ==> Dist(t[j], x) > Dist(t[r], x)
    decreases |t|
  {
    if |t| == 1 then 0
    else
      var n := |t| - 1;
      var r := Nearest(t[..n], x);
      if Dist(t[n], x) < Dist(t[r], x) then n else r
  }

  /** The nearest-neighbour index of every grid point: the
      `Ska.Numpy.interpolate(arange(len(times)), times, grid, 'nearest')`
      call. */
  function NearestIndexes(t: seq<real>, grid: seq<real>): (idx: seq<nat>)
    requires |t| > 0 || |grid| == 0
    ensures |idx| == |grid|
    ensures forall k :: 0 <= k < |grid| ==> idx[k] < |t|
  {
    seq(|grid|, k requires 0 <= k < |grid| => Nearest(t, grid[k]))
  }

  // ---------------------------------------------------------------------
  // MSIDset.filter_bad: one mask per content type
  // ---------------------------------------------------------------------

  /** Every member is a consistent series. */
  ghost predicate AllWellFormed(vs: seq<Series>) {
    forall i :: 0 <= i < |vs| ==> WellFormed(vs[i])
  }

  /** Members of one content type that still have a mask have masks of one
      length, so that they can be OR-ed together. */
  ghost predicate GroupAligned(contents: seq<string>, vs: seq<Series>)
    requires |contents| == |vs|
  {
    forall i, j ::
      (0 <= i < |vs| && 0 <= j < |vs| && contents[i] == contents[j] && vs[i].bads.Some? && vs[j].bads.Some?)
      ==> |vs[i].bads.value| == |vs[j].bads.value|
  }

  /** A member of content type `c` that still has a mask. */
  predicate Masked(contents: seq<string>, vs: seq<Series>, c: string, i: nat)
    requires |contents| == |vs| && i < |vs|
  {
    contents[i] == c && vs[i].bads.Some?
  }

  /** The `bads |=` loop over the first `n` members: the OR of the masks of
      the members of content type `c` that still have one; None when there
      is none. */
  function GroupMask(contents: seq<string>, vs: seq<Series>, c: string, n: nat): (r: Option<seq<bool>>)
    requires |contents| == |vs| && n <= |vs| && GroupAligned(contents, vs)
    ensures r.Some? <==> exists i :: 0 <= i < n && Masked(contents, vs, c, i)
    ensures forall i :: 0 <= i < n && Masked(contents, vs, c, i) ==> r.Some? && |r.value| == |vs[i].bads.value|
  {
    if n == 0 then None
    else
      var front := GroupMask(contents, vs, c, n - 1);
      if !Masked(contents, vs, c, n - 1) then front
      else if front.None? then vs[n - 1].bads
      else Some(Or(front.value, vs[n - 1].bads.value))
  }

  /** A sample position is bad in the group mask exactly when it is bad for
      some member of the group that still has a mask. */
  lemma {:induction false} GroupMaskAt(contents: seq<string>, vs: seq<Series>, c: string, n: nat, k: nat)
    requires |contents| == |vs| && n <= |vs| && GroupAligned(contents, vs)
    requires GroupMask(contents, vs, c, n).Some? && k < |GroupMask(contents, vs, c, n).value|
    ensures GroupMask(contents, vs, c, n).value[k] <==>
      exists i :: 0 <= i < n && Masked(contents, vs, c, i) && k < |vs[i].bads.value| && vs[i].bads.value[k]
  {
    var front := GroupMask(contents, vs, c, n - 1);
    var m := GroupMask(contents, vs, c, n).value;
    if front.Some? {
      GroupMaskAt(contents, vs, c, n - 1, k);
    }
    if m[k] {
      if Masked(contents, vs, c, n - 1) && vs[n - 1].bads.value[k] {
      } else {
        var i :| 0 <= i < n - 1 && Masked(contents, vs, c, i) && k < |vs[i].bads.value| && vs[i].bads.value[k];
      }
    }
  }

  /** `MSIDset.filter_bad()`: every member that still has a mask is filtered
      with its content type's group mask; members without one are left as
      they are. */
  function SetFiltered(contents: seq<string>, vs: seq<Series>): (r: seq<Series>)
    requires |contents| == |vs| && AllWellFormed(vs) && GroupAligned(contents, vs)
    ensures |r| == |vs|
  {
    seq(|vs|, i requires 0 <= i < |vs| =>
      if vs[i].bads.None? then vs[i]
      else
        assert Masked(contents, vs, contents[i], i);
        Filtered(vs[i], GroupMask(contents, vs, contents[i], |vs|)))
  }

  /** What the set filter leaves in member i: a consistent series without a
      mask whose listed columns keep the rows that no member of its group
      flags; a member that had no mask is unchanged. */
  lemma SetFilteredMember(contents: seq<string>, vs: seq<Series>, i: nat)
    requires |contents| == |vs| && AllWellFormed(vs) && GroupAligned(contents, vs) && i < |vs|
    ensures var r := SetFiltered(contents, vs)[i];
      && WellFormed(r) && r.bads.None?
      && (vs[i].bads.None? ==> r == vs[i])
      && (vs[i].bads.Some? ==>
            var m := GroupMask(contents, vs, contents[i], |vs|).value;
            && r.colnames == vs[i].colnames
            && (forall c :: c in vs[i].colnames && c != BADS ==> r.columns[c] == Select(vs[i].columns[c], Not(m))))
  {
    if vs[i].bads.Some? {
      assert Masked(contents, vs, contents[i], i);
      FilteredKeeps(vs[i], GroupMask(contents, vs, contents[i], |vs|));
    }
  }

  /** The point of filtering by group: members of one content type that had
      a mask end with the same number of samples, and members that shared
      their sample times still share them. */
  lemma SetFilteredAligned(contents: seq<string>, vs: seq<Series>, i: nat, j: nat)
    requires |contents| == |vs| && AllWellFormed(vs) && GroupAligned(contents, vs)
    requires i < |vs| && j < |vs| && contents[i] == contents[j]
    requires vs[i].bads.Some? && vs[j].bads.Some?
    ensures WellFormed(SetFiltered(contents, vs)[i]) && WellFormed(SetFiltered(contents, vs)[j])
    ensures var r := SetFiltered(contents, vs);
      && Length(r[i]) == Length(r[j])
      && (vs[i].columns[TIMES] == vs[j].columns[TIMES] ==> r[i].columns[TIMES] == r[j].columns[TIMES])
  {
    assert TIMES != BADS;
    SetFilteredMember(contents, vs, i);
    SetFilteredMember(contents, vs, j);
  }

  /** Filtering the set twice is filtering it once: no member keeps a mask. */
  lemma SetFilteredIdempotent(contents: seq<string>, vs: seq<Series>)
    requires |contents| == |vs| && AllWellFormed(vs) && GroupAligned(contents, vs)
    ensures var r := SetFiltered(contents, vs);
      AllWellFormed(r) && GroupAligned(contents, r) && SetFiltered(contents, r) == r
  {
    var r := SetFiltered(contents, vs);
    forall i | 0 <= i < |vs|
      ensures WellFormed(r[i]) && r[i].bads.None?
    {
      SetFilteredMember(contents, vs, i);
    }
  }

  // ---------------------------------------------------------------------
  // MSIDset.interpolate: one member
  // ---------------------------------------------------------------------

  /** The member as the loop finds it after the optional `filter_bad()`. */
  function Prepared(s: Series, filterBad: bool): (r: Series)
    requires WellFormed(s)
    ensures WellFormed(r)
  {
    if !filterBad then s
    else
      FilteredKeeps(s, None);
      Filtered(s, None)
  }

  /** One member resampled onto `grid`: every listed attribute taken at the
      nearest-neighbour indices, `times0` set to the resampled times and
      `times` to the grid.  A member left without samples cannot be
      resampled onto a non-empty grid. */
  function Interpolated(s: Series, grid: seq<real>, filterBad: bool): (r: Result<Series>)
    requires WellFormed(s)
    ensures r.Err? <==> Length(Prepared(s, filterBad)) == 0 && |grid| > 0
    ensures r.Err? ==> r.error == IndexOutOfRange
  {
    var p := Prepared(s, filterBad);
    var t := p.columns[TIMES];
    if |t| == 0 && |grid| > 0 then Err(IndexOutOfRange)
    else
      var q := Reindexed(p, NearestIndexes(t, grid));
      Ok(q.(columns := q.columns[TIMES0 := q.columns[TIMES]][TIMES := grid]))
  }

  /** A resampled member is consistent, runs on the grid, keeps its listed
      names, and keeps a mask only when it was not filtered and had one. */
  lemma InterpolatedShape(s: Series, grid: seq<real>, filterBad: bool)
    requires WellFormed(s) && Interpolated(s, grid, filterBad).Ok?
    ensures var r := Interpolated(s, grid, filterBad).value;
      && WellFormed(r)
      && r.columns[TIMES] == grid
      && TIMES0 in r.columns && |r.columns[TIMES0]| == |grid|
      && r.colnames == s.colnames
      && (r.bads.Some? <==> !filterBad && s.bads.Some?)
  {
    var p := Prepared(s, filterBad);
    if filterBad {
      FilteredKeeps(s, None);
    }
    var q := Reindexed(p, NearestIndexes(p.columns[TIMES], grid));
    assert TIMES != BADS && TIMES0 != TIMES;
    assert forall c :: c in q.colnames && c != BADS ==> c in q.columns && |q.columns[c]| == |grid|;
  }

  /** Grid point k takes every listed attribute from the sample nearest to
      it, and `times0` records that sample's original time. */
  lemma InterpolatedNearest(s: Series, grid: seq<real>, filterBad: bool, k: nat)
    requires WellFormed(s) && Interpolated(s, grid, filterBad).Ok? && k < |grid|
    ensures var p := Prepared(s, filterBad);
      var t := p.columns[TIMES];
      var r := Interpolated(s, grid, filterBad).value;
      && |t| > 0
      && r.columns[TIMES0][k] == t[Nearest(t, grid[k])]
      && (forall c :: c in p.colnames && c != BADS && c != TIMES && c != TIMES0 ==>
            r.columns[c][k] == p.columns[c][Nearest(t, grid[k])])
      && (r.bads.Some? ==> r.bads.value[k] == p.bads.value[Nearest(t, grid[k])])
  {
    var p := Prepared(s, filterBad);
    var t := p.columns[TIMES];
    var idx := NearestIndexes(t, grid);
    assert TIMES != BADS && TIMES0 != TIMES;
    forall c | c in p.colnames && c != BADS
      ensures Reindexed(p, idx).columns[c][k] == p.columns[c][idx[k]]
    {
      ReindexedAt(p, idx, c, k);
    }
    ReindexedAt(p, idx, TIMES, k);
  }

  // ---------------------------------------------------------------------
  // MSIDset.interpolate: the loop over the members
  // ---------------------------------------------------------------------

  /** Each member's resampling as the loop would attempt it. */
  function Attempts(vs: seq<Series>, grid: seq<real>, filterBad: bool): (rs: seq<Result<Series>>)
    requires AllWellFormed(vs)
    ensures |rs| == |vs|
  {
    seq(|vs|, i requires 0 <= i < |vs| => Interpolated(vs[i], grid, filterBad))
  }

  /** The position of the first failed attempt, or the number of attempts
      when none failed. */
  function FirstErr<T>(rs: seq<Result<T>>): (k: nat)
    ensures k <= |rs|
    ensures forall i :: 0 <= i < k ==> rs[i].Ok?
    ensures k < |rs| ==> rs[k].Err?
  {
    if |rs| == 0 || rs[0].Err? then 0 else 1 + FirstErr(rs[1..])
  }

  /** Scanning the attempts in order: past an attempt that succeeded, the
      first failure lies further on; at one that failed, it is there. */
  lemma FirstErrStep<T>(rs: seq<Result<T>>, i: nat)
    requires i < |rs| && i <= FirstErr(rs)
    ensures rs[i].Ok? ==> i + 1 <= FirstErr(rs)
    ensures rs[i].Err? ==> FirstErr(rs) == i
  {
  }

  /** The position of the first member that cannot be resampled, or the
      number of members when every one can. */
  function FirstFailing(vs: seq<Series>, grid: seq<real>, filterBad: bool): (k: nat)
    requires AllWellFormed(vs)
    ensures k <= |vs|
    ensures forall i :: 0 <= i < k ==> Interpolated(vs[i], grid, filterBad).Ok?
    ensures k < |vs| ==> Interpolated(vs[k], grid, filterBad).Err?
  {
    var rs := Attempts(vs, grid, filterBad);
    assert forall i :: 0 <= i < |vs| ==> rs[i] == Interpolated(vs[i], grid, filterBad);
    FirstErr(rs)
  }

  /** The members after the loop: those before the first failure resampled,
      the failing one filtered (when asked) but not resampled, the rest
      untouched. */
  function InterpolatedSet(vs: seq<Series>, grid: seq<real>, filterBad: bool): (r: seq<Series>)
    requires AllWellFormed(vs)
    ensures |r| == |vs|
  {
    var rs := Attempts(vs, grid, filterBad);
    var k := FirstErr(rs);
    seq(|vs|, i requires 0 <= i < |vs| =>
      if i < k then rs[i].value
      else if i == k then Prepared(vs[i], filterBad)
      else vs[i])
  }

  /** Python's truth test on the `start` / `stop` arguments: an argument that
      is missing or zero falls back to the set's own bound. */
  function Bound(given: Option<real>, default: real): (b: real)
    ensures given.Some? && given.value != 0.0 ==> b == given.value
    ensures given.None? || given.value == 0.0 ==> b == default
  {
    if given.Some? && given.value != 0.0 then given.value else default
  }

  /** `bads` is as long as every member of content type `c` that still has
      a mask. */
  ghost predicate GroupFits(contents: seq<string>, vs: seq<Series>, c: string, bads: Option<seq<bool>>)
    requires |contents| == |vs| && AllWellFormed(vs)
  {
    forall i :: 0 <= i < |vs| && Masked(contents, vs, c, i) ==> bads.Some? && |bads.value| == Length(vs[i])
  }

  /** The members of content type `c` that still have a mask, each filtered
      with `bads`; the others as they were. */
  function ApplyGroupMask(contents: seq<string>, vs: seq<Series>, c: string, bads: Option<seq<bool>>): (r: seq<Series>)
    requires |contents| == |vs| && AllWellFormed(vs) && GroupFits(contents, vs, c, bads)
    ensures |r| == |vs|
  {
    seq(|vs|, i requires 0 <= i < |vs| =>
      if Masked(contents, vs, c, i) then Filtered(vs[i], bads) else vs[i])
  }

  /** Applying a group mask keeps every member consistent, and removes the
      mask from exactly the members it filters. */
  lemma ApplyGroupMaskAt(contents: seq<string>, vs: seq<Series>, c: string, bads: Option<seq<bool>>, i: nat)
    requires |contents| == |vs| && AllWellFormed(vs) && GroupFits(contents, vs, c, bads) && i < |vs|
    ensures WellFormed(ApplyGroupMask(contents, vs, c, bads)[i])
    ensures Masked(contents, vs, c, i) ==> ApplyGroupMask(contents, vs, c, bads)[i].bads.None?
    ensures !Masked(contents, vs, c, i) ==> ApplyGroupMask(contents, vs, c, bads)[i] == vs[i]
  {
    if Masked(contents, vs, c, i) {
      FilteredKeeps(vs[i], bads);
    }
  }

  /** `filter_bad` part-way: the members whose content type is in `done`
      as the whole operation leaves them (`after`), the others as they were
      (`before`). */
  function Stage(contents: seq<string>, before: seq<Series>, after: seq<Series>, done: seq<string>): (r: seq<Series>)
    requires |contents| == |before| == |after|
    ensures |r| == |before|
    ensures forall i :: 0 <= i < |r| ==> r[i] == if contents[i] in done then after[i] else before[i]
  {
    seq(|before|, i requires 0 <= i < |before| => if contents[i] in done then after[i] else before[i])
  }

  /** Before any group is processed nothing has changed. */
  lemma StageNone(contents: seq<string>, before: seq<Series>, after: seq<Series>)
    requires |contents| == |before| == |after|
    ensures Stage(contents, before, after, []) == before
  {
  }

  /** Once every content type is processed the stage is the result. */
  lemma StageAll(contents: seq<string>, before: seq<Series>, after: seq<Series>, done: seq<string>)
    requires |contents| == |before| == |after|
    requires forall i :: 0 <= i < |contents| ==> contents[i] in done
    ensures Stage(contents, before, after, done) == after
  {
  }

  /** In the middle of `filter_bad`, before content type `c` is processed:
      the members are consistent, their masks still align, and those of `c`
      are as at the start, so its group mask is too. */
  lemma StageBefore(contents: seq<string>, vs: seq<Series>, done: seq<string>, c: string)
    requires |contents| == |vs| && AllWellFormed(vs) && GroupAligned(contents, vs) && c !in done
    ensures var cur := Stage(contents, vs, SetFiltered(contents, vs), done);
      var bads := GroupMask(contents, vs, c, |vs|);
      && AllWellFormed(cur) && GroupAligned(contents, cur)
      && GroupMask(contents, cur, c, |cur|) == bads
      && GroupFits(contents, cur, c, bads)
  {
    var cur := Stage(contents, vs, SetFiltered(contents, vs), done);
    var bads := GroupMask(contents, vs, c, |vs|);
    forall i | 0 <= i < |vs|
      ensures WellFormed(cur[i]) && (cur[i].bads.Some? ==> cur[i] == vs[i])
      ensures contents[i] == c ==> cur[i] == vs[i]
    {
      SetFilteredMember(contents, vs, i);
    }
    GroupMaskLocal(contents, cur, vs, c, |vs|);
    forall i | 0 <= i < |vs| && Masked(contents, cur, c, i)
      ensures bads.Some? && |bads.value| == Length(cur[i])
    {
      assert Masked(contents, vs, c, i);
    }
  }

  /** Applying the group mask of `c` advances the stage by `c`. */
  lemma StageAdvance(contents: seq<string>, vs: seq<Series>, done: seq<string>, c: string)
    requires |contents| == |vs| && AllWellFormed(vs) && GroupAligned(contents, vs) && c !in done
    requires var cur := Stage(contents, vs, SetFiltered(contents, vs), done);
      AllWellFormed(cur) && GroupFits(contents, cur, c, GroupMask(contents, vs, c, |vs|))
    ensures ApplyGroupMask(contents, Stage(contents, vs, SetFiltered(contents, vs), done), c, GroupMask(contents, vs, c, |vs|))
      == Stage(contents, vs, SetFiltered(contents, vs), done + [c])
  {
    var R := SetFiltered(contents, vs);
    var cur := Stage(contents, vs, R, done);
    var bads := GroupMask(contents, vs, c, |vs|);
    var next := ApplyGroupMask(contents, cur, c, bads);
    var want := Stage(contents, vs, R, done + [c]);
    forall i | 0 <= i < |vs|
      ensures next[i] == want[i]
    {
      StageAdvanceAt(contents, vs, done, c, i);
    }
  }

  /** `StageAdvance` at one member. */
  lemma StageAdvanceAt(contents: seq<string>, vs: seq<Series>, done: seq<string>, c: string, i: nat)
    requires |contents| == |vs| && AllWellFormed(vs) && GroupAligned(contents, vs) && c !in done && i < |vs|
    requires var cur := Stage(contents, vs, SetFiltered(contents, vs), done);
      AllWellFormed(cur) && GroupFits(contents, cur, c, GroupMask(contents, vs, c, |vs|))
    ensures ApplyGroupMask(contents, Stage(contents, vs, SetFiltered(contents, vs), done), c, GroupMask(contents, vs, c, |vs|))[i]
      == Stage(contents, vs, SetFiltered(contents, vs), done + [c])[i]
  {
    var R := SetFiltered(contents, vs);
    var cur := Stage(contents, vs, R, done);
    var bads := GroupMask(contents, vs, c, |vs|);
    var next := ApplyGroupMask(contents, cur, c, bads);
    var want := Stage(contents, vs, R, done + [c]);
    SetFilteredMember(contents, vs, i);
    if contents[i] in done {
      assert cur[i] == R[i] && !Masked(contents, cur, c, i);
      assert next[i] == R[i] == want[i];
    } else if contents[i] == c {
      assert cur[i] == vs[i] && want[i] == R[i];
      if vs[i].bads.Some? {
        assert Masked(contents, cur, c, i);
        assert next[i] == Filtered(vs[i], bads) == R[i];
      } else {
        assert next[i] == vs[i] == R[i];
      }
    } else {
      assert cur[i] == vs[i] && want[i] == vs[i] && !Masked(contents, cur, c, i);
    }
  }



  /** The group mask of `c` depends only on the members of content type
      `c`. */
  lemma {:induction false} GroupMaskLocal(contents: seq<string>, vs: seq<Series>, ws: seq<Series>, c: string, n: nat)
    requires |contents| == |vs| == |ws| && n <= |vs|
    requires GroupAligned(contents, vs) && GroupAligned(contents, ws)
    requires forall i :: 0 <= i < |vs| && contents[i] == c ==> vs[i] == ws[i]
    ensures GroupMask(contents, vs, c, n) == GroupMask(contents, ws, c, n)
  {
    if n > 0 {
      GroupMaskLocal(contents, vs, ws, c, n - 1);
    }
  }


  /** A group mask, once it exists, is as long as the mask of every member
      of its group. */
  lemma GroupMaskLength(contents: seq<string>, vs: seq<Series>, c: string, n: nat, j: nat)
    requires |contents| == |vs| && n <= |vs| && j < |vs| && GroupAligned(contents, vs)
    requires GroupMask(contents, vs, c, n).Some? && Masked(contents, vs, c, j)
    ensures |GroupMask(contents, vs, c, n).value| == |vs[j].bads.value|
  {
    var i :| 0 <= i < n && Masked(contents, vs, c, i);
  }

  /** The first `i` attempts taken, the other members as they were. */
  function Resampled(rs: seq<Result<Series>>, vs: seq<Series>, i: nat): (r: seq<Series>)
    requires |rs| == |vs| && i <= FirstErr(rs)
    ensures |r| == |vs|
  {
    seq(|vs|, j requires 0 <= j < |vs| => if j < i then rs[j].value else vs[j])
  }

  /** One more member resampled by the `interpolate` loop. */
  lemma ResampledStep(rs: seq<Result<Series>>, vs: seq<Series>, i: nat)
    requires |rs| == |vs| && i < |vs| && i <= FirstErr(rs) && rs[i].Ok?
    ensures i + 1 <= FirstErr(rs)
    ensures Resampled(rs, vs, i)[i := rs[i].value] == Resampled(rs, vs, i + 1)
  {
  }

  /** Member `i` has no samples to resample: this is where `interpolate`
      stops, and what it leaves. */
  lemma ResampledFails(vs: seq<Series>, grid: seq<real>, filterBad: bool, i: nat)
    requires AllWellFormed(vs) && i < |vs|
    requires i <= FirstErr(Attempts(vs, grid, filterBad)) && Attempts(vs, grid, filterBad)[i].Err?
    ensures FirstFailing(vs, grid, filterBad) == i
    ensures Resampled(Attempts(vs, grid, filterBad), vs, i)[i := Prepared(vs[i], filterBad)]
      == InterpolatedSet(vs, grid, filterBad)
  {
  }

  /** Every member resampled: `interpolate` ran to the end. */
  lemma ResampledAll(vs: seq<Series>, grid: seq<real>, filterBad: bool)
    requires AllWellFormed(vs) && |vs| <= FirstErr(Attempts(vs, grid, filterBad))
    ensures FirstFailing(vs, grid, filterBad) == |vs|
    ensures Resampled(Attempts(vs, grid, filterBad), vs, |vs|) == InterpolatedSet(vs, grid, filterBad)
  {
  }

  /** One turn of the `interpolate` loop on member data `s`: the optional
      `filter_bad()`, the nearest-neighbour index, the column loop, then
      `times0` and `times`.  Also returns the member as it stands when the
      index cannot be built. */
  method ResampleMember(s: Series, grid: seq<real>, filterBad: bool) returns (prepared: Series, r: Result<Series>)
    requires WellFormed(s)
    ensures prepared == Prepared(s, filterBad) && WellFormed(prepared)
    ensures r == Interpolated(s, grid, filterBad)
    ensures r.Ok? ==> WellFormed(r.value)
  {
    prepared := s;
    if filterBad {
      FilteredKeeps(s, None);
      prepared := Filtered(s, None);
    }
    var t := prepared.columns[TIMES];
    if |t| == 0 && |grid| > 0 {
      return prepared, Err(IndexOutOfRange);
    }
    var idx := NearestIndexes(t, grid);
    var cols, mask := ReindexAttributes(prepared, idx);
    r := Ok(Series(cols[TIMES0 := cols[TIMES]][TIMES := grid], mask, prepared.colnames));
    InterpolatedShape(s, grid, filterBad);
  }

  /** The accumulation loop of `filter_bad` for content type `c`: the OR
      of the masks of its members that still have one. */
  method GroupMaskOf(contents: seq<string>, vs: seq<Series>, c: string) returns (bads: Option<seq<bool>>)
    requires |contents| == |vs| && GroupAligned(contents, vs)
    ensures bads == GroupMask(contents, vs, c, |vs|)
  {
    bads := None;
    var j := 0;
    while j < |vs|
      invariant 0 <= j <= |vs|
      invariant bads == GroupMask(contents, vs, c, j)
    {
      if contents[j] == c && vs[j].bads.Some? {
        if bads.None? {
          bads := vs[j].bads;
        } else {
          GroupMaskLength(contents, vs, c, j, j);
          bads := Some(Or(bads.value, vs[j].bads.value));
        }
      }
      j := j + 1;
    }
  }

  /** The application loop of `filter_bad` for content type `c`: each of
      its members that still has a mask is filtered with `bads`. */
  method FilterGroup(contents: seq<string>, vs: seq<Series>, c: string, bads: Option<seq<bool>>) returns (ws: seq<Series>)
    requires |contents| == |vs| && AllWellFormed(vs) && GroupFits(contents, vs, c, bads)
    ensures ws == ApplyGroupMask(contents, vs, c, bads)
  {
    ghost var W := ApplyGroupMask(contents, vs, c, bads);
    ws := vs;
    var j := 0;
    while j < |ws|
      invariant 0 <= j <= |ws| == |vs|
      invariant forall i :: 0 <= i < j ==> ws[i] == W[i]
      invariant forall i :: j <= i < |ws| ==> ws[i] == vs[i]
    {
      if contents[j] == c && ws[j].bads.Some? {
        assert Masked(contents, vs, c, j) && W[j] == Filtered(vs[j], bads);
        ws := ws[j := Filtered(ws[j], bads)];
      } else {
        assert W[j] == vs[j];
      }
      j := j + 1;
    }
  }

  /** The loop of `filter_bad` over content types, on the members' data. */
  method FilterByContent(contents: seq<string>, vs: seq<Series>) returns (ws: seq<Series>)
    requires |contents| == |vs| && AllWellFormed(vs) && GroupAligned(contents, vs)
    ensures ws == SetFiltered(contents, vs)
  {
    ghost var R := SetFiltered(contents, vs);
    var groups := InsertionOrder(contents);
    StageNone(contents, vs, R);
    ws := vs;
    var g := 0;
    while g < |groups|
      invariant 0 <= g <= |groups|
      invariant ws == Stage(contents, vs, R, groups[..g])
    {
      var c := groups[g];
      assert c !in groups[..g];
      StageBefore(contents, vs, groups[..g], c);
      var bads := GroupMaskOf(contents, ws, c);
      assert bads == GroupMask(contents, vs, c, |vs|);
      ws := FilterGroup(contents, ws, c, bads);
      StageAdvance(contents, vs, groups[..g], c);
      PrefixMember(groups, g);
      g := g + 1;
    }
    assert groups[..g] == groups;
    StageAll(contents, vs, R, groups);
  }

  /** The member loop of `interpolate` on the members' data: each member in
      turn filtered when asked and resampled onto `grid`; a member without
      samples stops the loop. */
  method ResampleAll(vs: seq<Series>, grid: seq<real>, filterBad: bool) returns (ws: seq<Series>, r: Outcome)
    requires AllWellFormed(vs)
    ensures ws == InterpolatedSet(vs, grid, filterBad)
    ensures r == Pass <==> FirstFailing(vs, grid, filterBad) == |vs|
    ensures r != Pass ==> r == Fail(IndexOutOfRange)
  {
    ghost var rs := Attempts(vs, grid, filterBad);
    ws := vs;
    var i := 0;
    while i < |ws|
      invariant 0 <= i <= |ws| == |vs| && i <= FirstErr(rs)
      invariant ws == Resampled(rs, vs, i)
    {
      var prepared, res := ResampleMember(ws[i], grid, filterBad);
      assert res == rs[i];
      if res.Err? {
        ResampledFails(vs, grid, filterBad, i);
        return ws[i := prepared], Fail(res.error);
      }
      ResampledStep(rs, vs, i);
      ws := ws[i := res.value];
      i := i + 1;
    }
    ResampledAll(vs, grid, filterBad);
    r := Pass;
  }

  /** Every member the loop leaves behind is consistent. */
  lemma InterpolatedSetWellFormed(vs: seq<Series>, grid: seq<real>, filterBad: bool)
    requires AllWellFormed(vs)
    ensures AllWellFormed(InterpolatedSet(vs, grid, filterBad))
  {
    var r := InterpolatedSet(vs, grid, filterBad);
    var k := FirstFailing(vs, grid, filterBad);
    forall i | 0 <= i < |vs|
      ensures WellFormed(r[i])
    {
      if i < k {
        InterpolatedShape(vs[i], grid, filterBad);
      }
    }
  }

  // ---------------------------------------------------------------------
  // The MSIDset object
  // ---------------------------------------------------------------------

  /** The ordered dict of fetched MSIDs.  `names` are its keys in insertion
      order; the MSID stored under `names[i]` has content type `contents[i]`
      and data `data[i]`. */
  class MSIDset {
    const tstart: real
    const tstop: real
    var names: seq<string>
    var contents: seq<string>
    var data: seq<Series>
    /** The common grid, once `interpolate` has built one. */
    var times: Option<seq<real>>

    /** Keys without repeats, one consistent member per key. */
    ghost predicate Valid()
      reads this
    {
      && |names| == |contents| == |data|
      && Distinct(names)
      && AllWellFormed(data)
    }

    constructor (tstart: real, tstop: real)
      ensures this.tstart == tstart && this.tstop == tstop
      ensures names == [] && contents == [] && data == [] && times == None && Valid()
    {
      this.tstart, this.tstop := tstart, tstop;
      names, contents, data, times := [], [], [], None;
    }

    /** `self[key] = msid`: a new key is appended; an existing key keeps its
        place and its member is replaced. */
    method Put(key: string, content: string, s: Series)
      requires Valid() && WellFormed(s)
      modifies this
      ensures Valid() && times == old(times)
      ensures key in old(names) ==> names == old(names)
      ensures key in old(names) ==> forall i :: 0 <= i < |names| ==>
        if names[i] == key then contents[i] == content && data[i] == s
        else contents[i] == old(contents)[i] && data[i] == old(data)[i]
      ensures key !in old(names) ==>
        names == old(names) + [key] && contents == old(contents) + [content] && data == old(data) + [s]
    {
      if key in names {
        var p :| 0 <= p < |names| && names[p] == key;
        contents, data := contents[p := content], data[p := s];
      } else {
        names, contents, data := names + [key], contents + [content], data + [s];
      }
    }

    /** Every member is what `build` gives for its own name. */
    ghost predicate BuiltFrom(build: string -> Result<Fetched>)
      reads this
    {
      && AllBuilt(Built(build, names))
      && contents == ContentsOf(Built(build, names))
      && data == DataOf(Built(build, names))
    }

    /** One step of the loop of `MSIDset.__init__`: `self[name] =
        MSID(name, self.tstart, self.tstop, filter_bad=False)`, with the MSID
        built by `build`, or the error building it raises, with the set left
        as it was. */
    method AddMember(build: string -> Result<Fetched>, name: string) returns (m: Result<Fetched>)
      requires Valid() && BuiltFrom(build)
      requires forall n :: build(n).Ok? ==> WellFormed(build(n).value.data)
      modifies this
      ensures m == build(name)
      ensures Valid() && times == old(times) && BuiltFrom(build)
      ensures m.Err? ==> names == old(names)
      ensures m.Ok? ==> names == if name in old(names) then old(names) else old(names) + [name]
    {
      m := build(name);
      if m.Err? {
        return;
      }
      if name in names {
        ghost var beforeContents, beforeData := contents, data;
        Put(name, m.value.id.content, m.value.data);
        PutExistingKeeps(build, name, names, beforeContents, beforeData, contents, data);
      } else {
        PutNewKeeps(build, name, names);
        Put(name, m.value.id.content, m.value.data);
      }
    }

    /** The loop of `MSIDset.__init__` that stores one MSID per expanded
        name, each built by `build`; the first name whose MSID cannot be
        built stops it with that error. */
    method AddMembers(build: string -> Result<Fetched>, expanded: seq<string>) returns (r: Outcome)
      requires Valid() && names == []
      requires forall n :: build(n).Ok? ==> WellFormed(build(n).value.data)
      modifies this
      ensures Valid() && times == old(times)
      ensures var built := Built(build, expanded);
        && (r.Fail? <==> FirstErr(built) < |expanded|)
        && (FirstErr(built) < |expanded| ==> r == Fail(built[FirstErr(built)].error))
      ensures r.Pass? ==> names == InsertionOrder(expanded) && BuiltFrom(build)
    {
      ghost var built := Built(build, expanded);
      ghost var stop := FirstErr(built);
      var i := 0;
      while i < |expanded|
        invariant 0 <= i <= |expanded| && Valid() && times == old(times)
        invariant i <= stop
        invariant names == InsertionOrder(expanded[..i]) && BuiltFrom(build)
      {
        var m := AddMember(build, expanded[i]);
        FirstErrStep(built, i);
        if m.Err? {
          return Fail(m.error);
        }
        InsertionOrderStep(expanded, i);
        i := i + 1;
      }
      assert expanded[..i] == expanded;
      r := Pass;
    }

    /** `MSIDset.filter_bad()`: for each content type, the OR of the masks of
        its members that still have one, applied to each of those members. */
    method FilterBad()
      requires Valid() && GroupAligned(contents, data)
      modifies this
      ensures Valid() && names == old(names) && contents == old(contents) && times == old(times)
      ensures data == SetFiltered(contents, old(data))
    {
      data := FilterByContent(contents, data);
      forall i | 0 <= i < |data|
        ensures WellFormed(data[i])
      {
        SetFilteredMember(contents, old(data), i);
      }
    }

    /** `MSIDset.interpolate(dt, start, stop, filter_bad)`: the common grid
        from `start` (else the set's start) to `stop` (else the set's stop),
        then the member loop. */
    method Interpolate(dt: real, start: Option<real>, stop: Option<real>, filterBad: bool)
      returns (r: Outcome)
      requires Valid()
      modifies this
      ensures Valid() && names == old(names) && contents == old(contents)
      ensures var grid := Arange(Bound(start, tstart), Bound(stop, tstop), dt);
        && (grid.Err? ==> r == Fail(ZeroStep) && times == old(times) && data == old(data))
        && (grid.Ok? ==>
              && times == Some(grid.value)
              && data == InterpolatedSet(old(data), grid.value, filterBad)
              && (r == Pass <==> FirstFailing(old(data), grid.value, filterBad) == |data|)
              && (r != Pass ==> r == Fail(IndexOutOfRange)))
    {
      var grid := Arange(Bound(start, tstart), Bound(stop, tstop), dt);
      if grid.Err? {
        return Fail(grid.error);
      }
      times := Some(grid.value);
      InterpolatedSetWellFormed(data, grid.value, filterBad);
      data, r := ResampleAll(data, grid.value, filterBad);
    }
  }

  // ---------------------------------------------------------------------
  // MSIDset.__init__
  // ---------------------------------------------------------------------

  /** What `build` gives for each name. */
  function Built(build: string -> Result<Fetched>, names: seq<string>): (rs: seq<Result<Fetched>>)
    ensures |rs| == |names|
    ensures forall i :: 0 <= i < |names| ==> rs[i] == build(names[i])
  {
    seq(|names|, i requires 0 <= i < |names| => build(names[i]))
  }

  /** `MSID(name, tstart, tstop, filter_bad=False)` as a function of the
      name: what `MSIDset.__init__` builds for each expanded name. */
  function Reader(a: Archive, tstart: real, tstop: real): (build: string -> Result<Fetched>)
    requires ValidArchive(a)
    ensures forall n :: build(n) == FetchMsid(a, n, tstart, tstop, false)
    ensures forall n :: build(n).Ok? ==> WellFormed(build(n).value.data)
  {
    n => FetchMsid(a, n, tstart, tstop, false)
  }

  /** What `MSID(name, tstart, tstop)` gives for each name, unfiltered. */
  function Members(a: Archive, names: seq<string>, tstart: real, tstop: real): (rs: seq<Result<Fetched>>)
    requires ValidArchive(a)
    ensures |rs| == |names|
  {
    Built(Reader(a, tstart, tstop), names)
  }

  /** Every MSID could be built. */
  predicate AllBuilt(rs: seq<Result<Fetched>>) {
    forall i :: 0 <= i < |rs| ==> rs[i].Ok?
  }

  /** The content type of each member. */
  function ContentsOf(rs: seq<Result<Fetched>>): (cs: seq<string>)
    requires AllBuilt(rs)
    ensures |cs| == |rs|
  {
    seq(|rs|, i requires 0 <= i < |rs| => rs[i].value.id.content)
  }

  /** The data of each member. */
  function DataOf(rs: seq<Result<Fetched>>): (vs: seq<Series>)
    requires AllBuilt(rs)
    ensures |vs| == |rs|
  {
    seq(|rs|, i requires 0 <= i < |rs| => rs[i].value.data)
  }

  /** Appending one built MSID appends its content type and data. */
  lemma BuiltSnoc(rs: seq<Result<Fetched>>, x: Result<Fetched>)
    requires AllBuilt(rs) && x.Ok?
    ensures AllBuilt(rs + [x])
    ensures ContentsOf(rs + [x]) == ContentsOf(rs) + [x.value.id.content]
    ensures DataOf(rs + [x]) == DataOf(rs) + [x.value.data]
  {
  }

  /** Storing the MSID built from `name` under that name, as
      `MSIDset.__setitem__` does, keeps every member's content type and data
      those of the MSID built from its own name: a name already present is
      overwritten in place with what it held... */
  lemma PutExistingKeeps(build: string -> Result<Fetched>, name: string,
                         names: seq<string>, bc: seq<string>, bd: seq<Series>, ac: seq<string>, ad: seq<Series>)
    requires build(name).Ok? && AllBuilt(Built(build, names))
    requires bc == ContentsOf(Built(build, names)) && bd == DataOf(Built(build, names))
    requires |ac| == |bc| && |ad| == |bd|
    requires forall j :: 0 <= j < |names| ==>
      if names[j] == name then ac[j] == build(name).value.id.content && ad[j] == build(name).value.data
      else ac[j] == bc[j] && ad[j] == bd[j]
    ensures ac == bc && ad == bd
  {
  }

  /** ...and a new name is appended with the MSID built from it. */
  lemma PutNewKeeps(build: string -> Result<Fetched>, name: string, names: seq<string>)
    requires build(name).Ok? && AllBuilt(Built(build, names))
    ensures AllBuilt(Built(build, names + [name]))
    ensures ContentsOf(Built(build, names + [name])) == ContentsOf(Built(build, names)) + [build(name).value.id.content]
    ensures DataOf(Built(build, names + [name])) == DataOf(Built(build, names)) + [build(name).value.data]
  {
    assert Built(build, names + [name]) == Built(build, names) + [build(name)];
    BuiltSnoc(Built(build, names), build(name));
  }

  /** Members of one content type built over one range share their times,
      so the masks the set filter combines have one length. */
  lemma MembersAligned(a: Archive, names: seq<string>, tstart: real, tstop: real)
    requires ValidArchive(a) && AllBuilt(Members(a, names, tstart, tstop))
    ensures var cs, vs := ContentsOf(Members(a, names, tstart, tstop)), DataOf(Members(a, names, tstart, tstop));
      && AllWellFormed(vs)
      && (forall i, j :: 0 <= i < |vs| && 0 <= j < |vs| && cs[i] == cs[j] ==>
            vs[i].columns[TIMES] == vs[j].columns[TIMES] && vs[i].bads.Some? && vs[j].bads.Some?)
      && GroupAligned(cs, vs)
  {
    var rs := Members(a, names, tstart, tstop);
    var cs, vs := ContentsOf(rs), DataOf(rs);
    forall i, j | 0 <= i < |vs| && 0 <= j < |vs| && cs[i] == cs[j]
      ensures vs[i].columns[TIMES] == vs[j].columns[TIMES] && vs[i].bads.Some? && vs[j].bads.Some?
      ensures |vs[i].bads.value| == |vs[j].bads.value|
    {
      FetchMsidSharedTimes(a, names[i], names[j], tstart, tstop);
    }
  }

  /** The data of a set whose members were built from `names`: each
      name's MSID, then the set-wide filter when asked. */
  function SetData(a: Archive, names: seq<string>, tstart: real, tstop: real, filterBad: bool): (vs: seq<Series>)
    requires ValidArchive(a) && AllBuilt(Members(a, names, tstart, tstop))
    ensures |vs| == |names|
  {
    var built := Members(a, names, tstart, tstop);
    MembersAligned(a, names, tstart, tstop);
    if filterBad then SetFiltered(ContentsOf(built), DataOf(built)) else DataOf(built)
  }

  /** `MSIDset(msids, start, stop, filter_bad)`: every spec expanded by
      `msid_glob`, in order; one MSID built without filtering per expanded
      name, over the set's range, and stored under that name; then the
      set-wide `filter_bad` when asked.  The first spec that does not expand,
      or else the first name whose MSID cannot be built, raises. */
  method MakeSet(a: Archive, specs: seq<string>, tstart: real, tstop: real, filterBad: bool)
    returns (r: Result<MSIDset>)
    requires ValidArchive(a)
    ensures ExpandSpecs(a.index, specs).Err? ==> r == Err(ExpandSpecs(a.index, specs).error)
    ensures ExpandSpecs(a.index, specs).Ok? ==>
      var built := Members(a, ExpandSpecs(a.index, specs).value, tstart, tstop);
      && (r.Err? <==> FirstErr(built) < |built|)
      && (FirstErr(built) < |built| ==> r == Err(built[FirstErr(built)].error))
    ensures r.Ok? ==>
      var names := InsertionOrder(ExpandSpecs(a.index, specs).value);
      var built := Members(a, names, tstart, tstop);
      && fresh(r.value) && r.value.Valid()
      && r.value.tstart == tstart && r.value.tstop == tstop && r.value.times == None
      && r.value.names == names
      && AllBuilt(built)
      && r.value.contents == ContentsOf(built)
      && r.value.data == SetData(a, names, tstart, tstop, filterBad)
  {
    var expanded :- ExpandSpecs(a.index, specs);
    var ms := new MSIDset(tstart, tstop);
    var added := ms.AddMembers(Reader(a, tstart, tstop), expanded);
    if added.Fail? {
      return Err(added.error);
    }
    if filterBad {
      MembersAligned(a, ms.names, tstart, tstop);
      ms.FilterBad();
    }
    r := Ok(ms);
  }

  // ---------------------------------------------------------------------
  // Worked examples
  // ---------------------------------------------------------------------

  /** A member with a mask: times `0, 1, 2`, the middle sample flagged. */
  function MaskedMember(): (s: Series) {
    Series(map[TIMES := [0.0, 1.0, 2.0], "vals" := [1.0, 2.0, 3.0]], Some([false, true, false]), [TIMES, "vals", BADS])
  }

  /** A member of the same content type at the same times, already without
      a mask. */
  function UnmaskedMember(): (s: Series) {
    Series(map[TIMES := [0.0, 1.0, 2.0], "vals" := [4.0, 5.0, 6.0]], None, [TIMES, "vals"])
  }

  /** Both example members are consistent, and their masks can be OR-ed. */
  lemma ExampleMembers()
    ensures AllWellFormed([MaskedMember(), UnmaskedMember()])
    ensures GroupAligned(["acis2eng", "acis2eng"], [MaskedMember(), UnmaskedMember()])
  {
    var a, b := MaskedMember(), UnmaskedMember();
    assert WellFormed(a);
    assert WellFormed(b);
  }

  /** The group mask of the example is the one mask present. */
  lemma ExampleGroupMask()
    requires GroupAligned(["acis2eng", "acis2eng"], [MaskedMember(), UnmaskedMember()])
    ensures GroupMask(["acis2eng", "acis2eng"], [MaskedMember(), UnmaskedMember()], "acis2eng", 2) == Some([false, true, false])
  {
    var contents, vs := ["acis2eng", "acis2eng"], [MaskedMember(), UnmaskedMember()];
    assert Masked(contents, vs, "acis2eng", 0);
    assert !Masked(contents, vs, "acis2eng", 1);
    assert GroupMask(contents, vs, "acis2eng", 1) == Some([false, true, false]);
  }

  /** Keeping the first and last of three samples. */
  lemma KeepOuterExample(s: seq<real>)
    requires |s| == 3
    ensures Select(s, Not([false, true, false])) == [s[0], s[2]]
  {
    assert Not([false, true, false]) == [true, false, true];
    assert Flatnonzero([true]) == [0];
    FlatnonzeroSnoc([true], false);
    assert [true] + [false] == [true, false];
    FlatnonzeroSnoc([true, false], true);
    assert [true, false] + [true] == [true, false, true];
    assert Flatnonzero([true, false, true]) == [0, 2];
  }

  /** Filtering a set of two members of one content type: the masked member
      loses its flagged middle sample, while the member that no longer has a
      mask keeps all three samples, so the two are left unaligned. */
  lemma SetFilterExample()
    ensures AllWellFormed([MaskedMember(), UnmaskedMember()])
    ensures GroupAligned(["acis2eng", "acis2eng"], [MaskedMember(), UnmaskedMember()])
    ensures var r := SetFiltered(["acis2eng", "acis2eng"], [MaskedMember(), UnmaskedMember()]);
      && TIMES in r[0].columns && "vals" in r[0].columns
      && r[0].columns[TIMES] == [0.0, 2.0] && r[0].columns["vals"] == [1.0, 3.0] && r[0].bads.None?
      && r[1] == UnmaskedMember() && Length(r[1]) == 3
  {
    var contents, vs := ["acis2eng", "acis2eng"], [MaskedMember(), UnmaskedMember()];
    ExampleMembers();
    ExampleGroupMask();
    SetFilteredMember(contents, vs, 0);
    SetFilteredMember(contents, vs, 1);
    assert "vals" != BADS && "vals" in vs[0].colnames;
    KeepOuterExample(vs[0].columns[TIMES]);
    KeepOuterExample(vs[0].columns["vals"]);
  }

  /** The nearest sample of `0, 5, 20` to the grid point `10` is the one at
      `5`; to a point midway between two samples, the earlier one. */
  lemma NearestExample()
    ensures Arange(0.0, 20.0, 10.0) == Ok([0.0, 10.0])
    ensures NearestIndexes([0.0, 5.0, 20.0], [0.0, 10.0]) == [0, 1]
    ensures Nearest([0.0, 10.0], 5.0) == 0
    ensures Nearest([0.0, 5.0, 20.0], 0.0) == 0 && Nearest([0.0, 5.0, 20.0], 10.0) == 1
  {
    assert Ceil(2.0) == 2;
    var g := Arange(0.0, 20.0, 10.0).value;
    assert |g| == 2 && g[0] == 0.0 && g[1] == 10.0;
    assert [0.0, 10.0][..1] == [0.0];
    var t := [0.0, 5.0, 20.0];
    assert t[..2] == [0.0, 5.0];
    assert Nearest([0.0, 5.0], 10.0) == 1;
    assert Nearest(t, 10.0) == 1;
    assert Nearest(t, 0.0) == 0;
    var idx := NearestIndexes(t, [0.0, 10.0]);
    assert idx[0] == 0 && idx[1] == 1;
    assert idx == [0, 1];
    assert Nearest([0.0], 5.0) == 0;
    assert Nearest([0.0, 10.0], 5.0) == 0;
    assert Arange(0.0, 20.0, 10.0).value == [0.0, 10.0];
  }

  /** A member without a mask sampled at times `0, 5, 20`. */
  function SparseMember(): (s: Series) {
    Series(map[TIMES := [0.0, 5.0, 20.0], "vals" := [1.0, 2.0, 3.0]], None, [TIMES, "vals"])
  }

  lemma SparseMemberWellFormed()
    ensures WellFormed(SparseMember()) && Length(SparseMember()) == 3
  {
  }

  /** Resampling a member with times `0, 5, 20` onto the grid `0, 10`: grid
      point 0 takes the sample at 0, grid point 10 the sample at 5, and
      `times0` records their original times. */
  lemma InterpolateExample(k: nat)
    requires k < 2
    ensures WellFormed(SparseMember())
    ensures var r := Interpolated(SparseMember(), [0.0, 10.0], false);
      && r.Ok? && TIMES in r.value.columns && TIMES0 in r.value.columns && "vals" in r.value.columns
      && r.value.columns[TIMES] == [0.0, 10.0]
      && |r.value.columns[TIMES0]| == 2 && |r.value.columns["vals"]| == 2
      && r.value.columns[TIMES0][k] == [0.0, 5.0][k]
      && r.value.columns["vals"][k] == [1.0, 2.0][k]
  {
    var s := SparseMember();
    SparseMemberWellFormed();
    NearestExample();
    InterpolatedShape(s, [0.0, 10.0], false);
    InterpolatedNearest(s, [0.0, 10.0], false, k);
    assert "vals" != TIMES && "vals" != TIMES0 && "vals" != BADS && "vals" in s.colnames;
  }
}
