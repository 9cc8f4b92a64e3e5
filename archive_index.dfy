/** The archive index locator: translating a time window into the padded row
    range of a content type's HDF5 files, memoized by exact arguments. */
module ArchiveIndex {
  import opened Wrappers

  /** One row of a content type's `archfiles` table: the file's start time and
      the rows `[rowstart, rowstop)` it contributed to the archive. */
  datatype ArchFile = ArchFile(filetime: real, rowstart: int, rowstop: int)

  /** `slice(start, stop)` */
  datatype RowSlice = RowSlice(start: int, stop: int)

  /** The archive's own invariant: files in time order, rows in file order. */
  ghost predicate ValidCatalog(cat: seq<ArchFile>) {
    && (forall i :: 0 <= i < |cat| ==> cat[i].rowstart <= cat[i].rowstop)
    && (forall i, j :: 0 <= i < j < |cat| ==> cat[i].filetime < cat[j].filetime)
    && (forall i, j :: 0 <= i < j < |cat| ==> cat[i].rowstop <= cat[j].rowstart)
  }

  /** `WHERE filetime < t ORDER BY filetime DESC`, first row. */
  function LatestBefore(cat: seq<ArchFile>, t: real): (r: Option<nat>)
    ensures r.Some? ==> r.value < |cat| && cat[r.value].filetime < t
    ensures r.Some? ==> forall j :: 0 <= j < |cat| && cat[j].filetime < t ==> cat[j].filetime <= cat[r.value].filetime
    ensures r.None? <==> forall j :: 0 <= j < |cat| ==> cat[j].filetime >= t
  {
    if |cat| == 0 then None
    else
      var n := |cat| - 1;
      var r := LatestBefore(cat[..n], t);
      if cat[n].filetime < t && (r.None? || cat[r.value].filetime <= cat[n].filetime) then Some(n) else r
  }

  /** `WHERE filetime > t ORDER BY filetime ASC`, first row. */
  function EarliestAfter(cat: seq<ArchFile>, t: real): (r: Option<nat>)
    ensures r.Some? ==> r.value < |cat| && cat[r.value].filetime > t
    ensures r.Some? ==> forall j :: 0 <= j < |cat| && cat[j].filetime > t ==> cat[j].filetime >= cat[r.value].filetime
    ensures r.None? <==> forall j :: 0 <= j < |cat| ==> cat[j].filetime <= t
  {
    if |cat| == 0 then None
    else
      var n := |cat| - 1;
      var r := EarliestAfter(cat[..n], t);
      if cat[n].filetime > t && (r.None? || cat[r.value].filetime > cat[n].filetime) then Some(n) else r
  }

  /** `ORDER BY filetime ASC`, first row, of a non-empty table. */
  function Earliest(cat: seq<ArchFile>): (r: nat)
    requires |cat| > 0
    ensures r < |cat| && forall j :: 0 <= j < |cat| ==> cat[r].filetime <= cat[j].filetime
  {
    if |cat| == 1 then 0
    else
      var r := Earliest(cat[..|cat| - 1]);
      if cat[|cat| - 1].filetime < cat[r].filetime then |cat| - 1 else r
  }

  /** `ORDER BY filetime DESC`, first row, of a non-empty table. */
  function Latest(cat: seq<ArchFile>): (r: nat)
    requires |cat| > 0
    ensures r < |cat| && forall j :: 0 <= j < |cat| ==> cat[r].filetime >= cat[j].filetime
  {
    if |cat| == 1 then 0
    else
      var r := Latest(cat[..|cat| - 1]);
      if cat[|cat| - 1].filetime > cat[r].filetime then |cat| - 1 else r
  }

  /** The file whose rowstart opens the range: the latest one starting before
      `tstart`, else the first. */
  function LowFile(cat: seq<ArchFile>, tstart: real): (l: nat)
    requires |cat| > 0
    ensures l < |cat|
  {
    match LatestBefore(cat, tstart)
    case Some(i) => i
    case None => Earliest(cat)
  }

  /** The file whose rowstop closes the range: the earliest one starting after
      `tstop`, else the last. */
  function HighFile(cat: seq<ArchFile>, tstop: real): (h: nat)
    requires |cat| > 0
    ensures h < |cat|
  {
    match EarliestAfter(cat, tstop)
    case Some(i) => i
    case None => Latest(cat)
  }

  /** get_interval for one content type's catalog.  An empty catalog fails
      when the missing row is subscripted. */
  function GetInterval(cat: seq<ArchFile>, tstart: real, tstop: real): (r: Result<RowSlice>)
    ensures r.Err? <==> |cat| == 0
    ensures r.Err? ==> r.error == EmptyCatalog
  {
    if |cat| == 0 then Err(EmptyCatalog)
    else Ok(RowSlice(cat[LowFile(cat, tstart)].rowstart, cat[HighFile(cat, tstop)].rowstop))
  }

  /** The catalogs of every content type, by content name. */
  type Catalogs = map<string, seq<ArchFile>>

  /** get_interval(content, tstart, tstop): a content type without a catalog
      cannot be queried. */
  function GetIntervalFor(cats: Catalogs, content: string, tstart: real, tstop: real): (r: Result<RowSlice>) {
    if content in cats then GetInterval(cats[content], tstart, tstop)
    else Err(MissingFile(content, "archfiles"))
  }

  /** The arguments get_interval is memoized by. */
  type IntervalKey = (string, real, real)

  /** get_interval as the function the memo wraps. */
  function IntervalFunction(cats: Catalogs): (f: IntervalKey -> Result<RowSlice>) {
    (k: IntervalKey) => GetIntervalFor(cats, k.0, k.1, k.2)
  }

  /** In a time-ordered catalog the earliest file is the first one. */
  lemma EarliestIsFirst(cat: seq<ArchFile>)
    requires ValidCatalog(cat) && |cat| > 0
    ensures Earliest(cat) == 0
  {
    var e := Earliest(cat);
    assert cat[e].filetime <= cat[0].filetime;
  }

  /** In a time-ordered catalog the latest file is the last one. */
  lemma LatestIsLast(cat: seq<ArchFile>)
    requires ValidCatalog(cat) && |cat| > 0
    ensures Latest(cat) == |cat| - 1
  {
    var l := Latest(cat);
    assert cat[l].filetime >= cat[|cat| - 1].filetime;
  }

  /** On a valid catalog the range opens at the last file that starts before
      `tstart`, or at the first file when none does. */
  lemma LowFileIsLastBefore(cat: seq<ArchFile>, tstart: real)
    requires ValidCatalog(cat) && |cat| > 0
    ensures var l := LowFile(cat, tstart);
      && (cat[l].filetime < tstart || l == 0)
      && (forall j :: l < j < |cat| ==> cat[j].filetime >= tstart)
  {
    var l := LowFile(cat, tstart);
    match LatestBefore(cat, tstart)
    case Some(i) =>
      forall j | l < j < |cat|
        ensures cat[j].filetime >= tstart
      {
        assert cat[l].filetime < cat[j].filetime;
      }
    case None =>
      EarliestIsFirst(cat);
  }

  /** On a valid catalog the range closes at the first file that starts after
      `tstop`, or at the last file when none does. */
  lemma HighFileIsFirstAfter(cat: seq<ArchFile>, tstop: real)
    requires ValidCatalog(cat) && |cat| > 0
    ensures var h := HighFile(cat, tstop);
      && (cat[h].filetime > tstop || h == |cat| - 1)
      && (forall j :: 0 <= j < h ==> cat[j].filetime <= tstop)
  {
    var h := HighFile(cat, tstop);
    match EarliestAfter(cat, tstop)
    case Some(i) =>
      forall j | 0 <= j < h
        ensures cat[j].filetime <= tstop
      {
        assert cat[j].filetime < cat[h].filetime;
      }
    case None =>
      LatestIsLast(cat);
  }

  /** The range over-covers the window: every file that may hold samples in
      `[tstart, tstop]` (the next file starts at or after `tstart`, and the file
      itself starts no later than `tstop`) lies wholly inside it. */
  lemma GetIntervalCovers(cat: seq<ArchFile>, tstart: real, tstop: real, j: nat)
    requires ValidCatalog(cat) && j < |cat|
    requires j == |cat| - 1 || cat[j + 1].filetime >= tstart
    requires cat[j].filetime <= tstop
    ensures GetInterval(cat, tstart, tstop).Ok?
    ensures GetInterval(cat, tstart, tstop).value.start <= cat[j].rowstart
    ensures cat[j].rowstop <= GetInterval(cat, tstart, tstop).value.stop
  {
    var l := LowFile(cat, tstart);
    var h := HighFile(cat, tstop);
    LowFileIsLastBefore(cat, tstart);
    HighFileIsFirstAfter(cat, tstop);
    assert l <= j;
    assert l == j || cat[l].rowstop <= cat[j].rowstart;
    assert j <= h;
    assert h == j || cat[j].rowstop <= cat[h].rowstart;
  }

  // ---------------------------------------------------------------------
  // memoized
  // ---------------------------------------------------------------------

  /** The `memoized` decorator: results of `f` kept by exact argument, for the
      life of the object.  A failing call propagates its error and stores
      nothing. */
  class Memoized<K(==), V> {
    const f: K -> Result<V>
    var cache: map<K, V>

    /** Every stored value is what `f` returns for its key. */
    ghost predicate Valid()
      reads this
    {
      forall k :: k in cache ==> f(k) == Ok(cache[k])
    }

    constructor (f: K -> Result<V>)
      ensures this.f == f && cache == map[] && Valid()
    {
      this.f := f;
      cache := map[];
    }

    /** `__call__`: the stored value on a hit, otherwise `f(k)`, stored when it
        succeeds.  Entries are never evicted or changed. */
    method Call(k: K) returns (r: Result<V>)
      requires Valid()
      modifies this
      ensures Valid()
      ensures r == f(k)
      ensures k in old(cache) ==> cache == old(cache) && r == Ok(old(cache)[k])
      ensures k !in old(cache) ==> cache == (if r.Ok? then old(cache)[k := r.value] else old(cache))
      ensures forall x :: x in old(cache) ==> x in cache && cache[x] == old(cache)[x]
    {
      if k in cache {
        r := Ok(cache[k]);
      } else {
        r := f(k);
        if r.Ok? {
          cache := cache[k := r.value];
        }
      }
    }
  }
}
