/** The raw series reader: one MSID's times, values and quality flags over a
    time window, read through the padded row range of its content type and the
    one-slot cache of the most recently read time column. */
module RawReader {
  import opened Wrappers
  import opened Columns
  import opened ArchiveIndex
  import NameResolver

  /** One HDF5 column file: its `data` and `quality` arrays. */
  datatype H5Column = H5Column(data: seq<real>, quality: seq<bool>)

  /** The archive's column files, by (content type, file name). */
  type Store = map<(string, string), H5Column>

  /** The name of every content type's time column file. */
  const TIME_COLUMN := "time"

  /** The column names of a raw fetch. */
  const RAW_COLNAMES := ["times", "vals", "bads"]

  /** The archive's own invariant: a file's data and quality arrays have the
      same length, and all files of one content type have the same number of
      rows. */
  ghost predicate ValidStore(store: Store) {
    && (forall k :: k in store ==> |store[k].data| == |store[k].quality|)
    && (forall k, l :: k in store && l in store && k.0 == l.0 ==> |store[k].data| == |store[l].data|)
  }

  /** Every time column is in time order. */
  ghost predicate SortedTimes(store: Store) {
    forall k :: k in store && k.1 == TIME_COLUMN ==> Sorted(store[k].data)
  }

  /** `h5.root.data[h5_slice]` of a file (empty when the file is absent). */
  function RawData(store: Store, content: string, name: string, s: RowSlice): seq<real> {
    if (content, name) in store then PySlice(store[(content, name)].data, s.start, s.stop) else []
  }

  /** `h5.root.quality[h5_slice]` of a file (empty when the file is absent). */
  function RawQuality(store: Store, content: string, name: string, s: RowSlice): seq<bool> {
    if (content, name) in store then PySlice(store[(content, name)].quality, s.start, s.stop) else []
  }

  /** The contents of the times cache slot: the time column already masked by
      `ok`, the good-time mask `ok` itself, and whether every time is good. */
  datatype TimesEntry = TimesEntry(val: seq<real>, ok: seq<bool>, allOk: bool)

  /** Reading the time column over a row range: `ok` is the negated quality
      flag; the times are masked by it only when some entry is bad. */
  function ReadTimes(store: Store, content: string, s: RowSlice): Result<TimesEntry> {
    if (content, TIME_COLUMN) !in store then Err(MissingFile(content, TIME_COLUMN))
    else
      var ok := Not(RawQuality(store, content, TIME_COLUMN, s));
      var times := RawData(store, content, TIME_COLUMN, s);
      if All(ok) then Ok(TimesEntry(times, ok, true))
      else if |times| != |ok| then Err(IndexOutOfRange)
      else Ok(TimesEntry(Masked(times, TimesEntry([], ok, false)), ok, false))
  }

  /** A column read alongside the times, masked by `ok` exactly when the
      times were. */
  function Masked<T>(col: seq<T>, e: TimesEntry): seq<T>
    requires e.allOk || |col| == |e.ok|
  {
    if e.allOk then col else Select(col, e.ok)
  }

  /** The row of the unmasked range that masked row `c` came from. */
  function KeptRow(e: TimesEntry, c: nat): nat
    requires e.allOk || c < |Flatnonzero(e.ok)|
  {
    if e.allOk then c else Flatnonzero(e.ok)[c]
  }

  /** Masked row `c` is unmasked row `KeptRow(e, c)`, a row whose time is good. */
  lemma MaskedAt<T>(col: seq<T>, e: TimesEntry, c: nat)
    requires |col| == |e.ok| && e.allOk == All(e.ok)
    requires c < |Masked(col, e)|
    ensures e.allOk || c < |Flatnonzero(e.ok)|
    ensures KeptRow(e, c) < |col| && e.ok[KeptRow(e, c)]
    ensures Masked(col, e)[c] == col[KeptRow(e, c)]
  {
  }

  /** A row whose time is good survives the mask, at position `c`. */
  lemma MaskedRowOf<T>(col: seq<T>, e: TimesEntry, i: nat) returns (c: nat)
    requires |col| == |e.ok| && e.allOk == All(e.ok)
    requires i < |col| && e.ok[i]
    ensures c < |Masked(col, e)| && (e.allOk || c < |Flatnonzero(e.ok)|)
    ensures KeptRow(e, c) == i && Masked(col, e)[c] == col[i]
  {
    if e.allOk {
      c := i;
    } else {
      FlatnonzeroAt(e.ok, i);
      c := Count(e.ok[..i]);
    }
  }

  /** `units.convert(MSID, vals)`, element by element. */
  function Convert(convert: (string, real) -> real, name: string, vals: seq<real>): (r: seq<real>)
    ensures |r| == |vals|
    ensures forall i :: 0 <= i < |vals| ==> r[i] == convert(name, vals[i])
  {
    seq(|vals|, i requires 0 <= i < |vals| => convert(name, vals[i]))
  }

  /** The three columns returned by a raw fetch, and their names. */
  datatype Raw = Raw(vals: seq<real>, times: seq<real>, bads: seq<bool>, colnames: seq<string>)

  /** Reading the MSID's own file with a given times entry: values and quality
      are masked by the same `ok` (only when some time is bad), and all three
      columns are cut to the searchsorted-left positions of `tstart` and
      `tstop` in the masked times. */
  function ReadColumns(store: Store, content: string, msid: string, s: RowSlice, e: TimesEntry,
                       tstart: real, tstop: real, convert: (string, real) -> real): Result<Raw>
  {
    if (content, msid) !in store then Err(MissingFile(content, msid))
    else
      var vals := RawData(store, content, msid, s);
      var bads := RawQuality(store, content, msid, s);
      if !e.allOk && (|bads| != |e.ok| || |vals| != |e.ok|) then Err(IndexOutOfRange)
      else Ok(Window(e, vals, bads, tstart, tstop, NameResolver.Upper(msid), convert))
  }

  /** The cut to `[tstart, tstop)`: values and quality masked like the times,
      then all three sliced at the searchsorted-left positions of `tstart` and
      `tstop` in the masked times. */
  function Window(e: TimesEntry, vals: seq<real>, bads: seq<bool>, tstart: real, tstop: real,
                  name: string, convert: (string, real) -> real): Raw
    requires e.allOk || (|vals| == |e.ok| && |bads| == |e.ok|)
  {
    Cut(e.val, Masked(vals, e), Masked(bads, e), tstart, tstop, name, convert)
  }

  /** Slicing masked columns at the searchsorted-left positions of `tstart`
      and `tstop` in the masked times, converting the values. */
  function Cut(times: seq<real>, vals: seq<real>, bads: seq<bool>, tstart: real, tstop: real,
               name: string, convert: (string, real) -> real): Raw
  {
    var row0 := SearchSortedLeft(times, tstart);
    var row1 := SearchSortedLeft(times, tstop);
    Raw(Convert(convert, name, PySlice(vals, row0, row1)),
        PySlice(times, row0, row1),
        PySlice(bads, row0, row1),
        RAW_COLNAMES)
  }

  /** Row `k` of a cut of equally long columns is their row `row0 + k`. */
  lemma CutAt(times: seq<real>, vals: seq<real>, bads: seq<bool>, tstart: real, tstop: real,
              name: string, convert: (string, real) -> real, k: nat)
    requires |vals| == |bads| == |times|
    requires k < |Cut(times, vals, bads, tstart, tstop, name, convert).times|
    ensures var r := Cut(times, vals, bads, tstart, tstop, name, convert);
      var c := SearchSortedLeft(times, tstart) + k;
      && c < |times|
      && r.times[k] == times[c]
      && r.vals[k] == convert(name, vals[c])
      && r.bads[k] == bads[c]
  {
    var row0 := SearchSortedLeft(times, tstart);
    var row1 := SearchSortedLeft(times, tstop);
    PySliceAt(times, row0, row1, k);
    PySliceAt(vals, row0, row1, k);
    PySliceAt(bads, row0, row1, k);
  }

  /** Reading a window over a known row range, without any cache. */
  function ReadWindow(store: Store, content: string, msid: string, s: RowSlice,
                      tstart: real, tstop: real, convert: (string, real) -> real): Result<Raw>
  {
    var e :- ReadTimes(store, content, s);
    ReadColumns(store, content, msid, s, e, tstart, tstop, convert)
  }

  /** What `_get_msid_data(content, tstart, tstop, msid)` returns. */
  function MsidData(cats: Catalogs, store: Store, content: string, tstart: real, tstop: real,
                    msid: string, convert: (string, real) -> real): Result<Raw>
  {
    var s :- GetIntervalFor(cats, content, tstart, tstop);
    ReadWindow(store, content, msid, s, tstart, tstop, convert)
  }

  /** Reads of two MSIDs of one content type over one window share their
      times, which come from the content type's time file, and each read's
      columns have one length. */
  lemma MsidDataSharedTimes(cats: Catalogs, store: Store, content: string, tstart: real, tstop: real,
                            m1: string, m2: string, convert: (string, real) -> real)
    requires ValidStore(store)
    requires MsidData(cats, store, content, tstart, tstop, m1, convert).Ok?
    requires MsidData(cats, store, content, tstart, tstop, m2, convert).Ok?
    ensures var r1, r2 := MsidData(cats, store, content, tstart, tstop, m1, convert).value,
                          MsidData(cats, store, content, tstart, tstop, m2, convert).value;
      && r1.times == r2.times
      && |r1.bads| == |r1.times| && |r2.bads| == |r2.times|
  {
    var s := GetIntervalFor(cats, content, tstart, tstop).value;
    ReadWindowIsWindow(store, content, m1, s, tstart, tstop, convert);
    ReadWindowIsWindow(store, content, m2, s, tstart, tstop, convert);
    ReadWindowShape(store, content, m1, s, tstart, tstop, convert);
    ReadWindowShape(store, content, m2, s, tstart, tstop, convert);
  }

  /** The times entry that belongs in the cache slot for a key. */
  function TimesFor(cats: Catalogs, store: Store, k: IntervalKey): Result<TimesEntry> {
    var s :- GetIntervalFor(cats, k.0, k.1, k.2);
    ReadTimes(store, k.0, s)
  }

  /** The module-level `times_cache`: a single slot holding the masked time
      column of the last (content, tstart, tstop) read. */
  class TimesCache {
    var key: Option<IntervalKey>
    var val: seq<real>
    var ok: seq<bool>
    var allOk: bool

    /** A filled slot holds exactly what reading its key's times gives. */
    ghost predicate Valid(cats: Catalogs, store: Store)
      reads this
    {
      key.Some? ==> TimesFor(cats, store, key.value) == Ok(TimesEntry(val, ok, allOk))
    }

    constructor ()
      ensures key == None
    {
      key := None;
      val, ok, allOk := [], [], true;
    }
  }

  /** `_get_msid_data`: the row range comes from the memoized locator; the
      times come from the cache slot when its key is this window, else from
      the time file, after which the slot holds them. */
  method GetMsidData(cats: Catalogs, store: Store, memo: Memoized<IntervalKey, RowSlice>, cache: TimesCache,
                     content: string, tstart: real, tstop: real, msid: string,
                     convert: (string, real) -> real)
    returns (r: Result<Raw>)
    requires memo.f == IntervalFunction(cats) && memo.Valid() && cache.Valid(cats, store)
    modifies memo, cache
    ensures memo.Valid() && cache.Valid(cats, store)
    ensures r == MsidData(cats, store, content, tstart, tstop, msid, convert)
    ensures TimesFor(cats, store, (content, tstart, tstop)).Ok? ==> cache.key == Some((content, tstart, tstop))
    ensures old(cache.key) == Some((content, tstart, tstop)) || TimesFor(cats, store, (content, tstart, tstop)).Err?
      ==> unchanged(cache)
  {
    var s :- memo.Call((content, tstart, tstop));
    var e: TimesEntry;
    if cache.key == Some((content, tstart, tstop)) {
      e := TimesEntry(cache.val, cache.ok, cache.allOk);
    } else {
      var t := ReadTimes(store, content, s);
      if t.Err? {
        return Err(t.error);
      }
      e := t.value;
      cache.key, cache.val, cache.ok, cache.allOk := Some((content, tstart, tstop)), e.val, e.ok, e.allOk;
    }
    r := ReadColumns(store, content, msid, s, e, tstart, tstop, convert);
  }

  // ---------------------------------------------------------------------
  // Properties of a raw read
  // ---------------------------------------------------------------------

  /** A times entry as read from a time column's rows and quality flags. */
  ghost predicate EntryOf(e: TimesEntry, times: seq<real>, quality: seq<bool>) {
    && |times| == |quality|
    && e.ok == Not(quality)
    && e.allOk == All(e.ok)
    && e.val == Masked(times, e)
  }

  /** Skipping the mask when every time is good changes nothing: the cached
      times are always the raw times masked by `ok`. */
  lemma ReadTimesMasked(store: Store, content: string, s: RowSlice)
    requires ValidStore(store)
    ensures var r := ReadTimes(store, content, s);
      && (r.Ok? <==> (content, TIME_COLUMN) in store)
      && (r.Ok? ==> EntryOf(r.value, RawData(store, content, TIME_COLUMN, s), RawQuality(store, content, TIME_COLUMN, s))
                    && r.value.val == Select(RawData(store, content, TIME_COLUMN, s), r.value.ok))
  {
    var r := ReadTimes(store, content, s);
    if r.Ok? && r.value.allOk {
      SelectAllKept(RawData(store, content, TIME_COLUMN, s), r.value.ok);
    }
  }

  /** With a consistent archive a read that finds both files is the cut of
      their rows, by the entry read from the time file. */
  lemma ReadWindowIsWindow(store: Store, content: string, msid: string, s: RowSlice,
                           tstart: real, tstop: real, convert: (string, real) -> real)
    requires ValidStore(store)
    ensures var r := ReadWindow(store, content, msid, s, tstart, tstop, convert);
      && (r.Err? <==> (content, TIME_COLUMN) !in store || (content, msid) !in store)
      && (r.Ok? ==>
            var e := ReadTimes(store, content, s).value;
            var vals, bads := RawData(store, content, msid, s), RawQuality(store, content, msid, s);
            && EntryOf(e, RawData(store, content, TIME_COLUMN, s), RawQuality(store, content, TIME_COLUMN, s))
            && |vals| == |bads| == |e.ok|
            && r.value == Window(e, vals, bads, tstart, tstop, NameResolver.Upper(msid), convert))
  {
    ReadTimesMasked(store, content, s);
  }

  /** The three columns of a cut have equal length and are named `times`,
      `vals` and `bads`. */
  lemma WindowShape(e: TimesEntry, vals: seq<real>, bads: seq<bool>, tstart: real, tstop: real,
                    name: string, convert: (string, real) -> real)
    requires |vals| == |bads| == |e.ok| && |e.val| == |Masked(vals, e)|
    ensures var r := Window(e, vals, bads, tstart, tstop, name, convert);
      |r.vals| == |r.times| == |r.bads| && r.colnames == ["times", "vals", "bads"]
  {
  }

  /** With a consistent archive a read fails only on a missing file, and
      otherwise returns three columns of equal length named `times`, `vals`
      and `bads`. */
  lemma ReadWindowShape(store: Store, content: string, msid: string, s: RowSlice,
                        tstart: real, tstop: real, convert: (string, real) -> real)
    requires ValidStore(store)
    ensures var r := ReadWindow(store, content, msid, s, tstart, tstop, convert);
      && (r.Err? <==> (content, TIME_COLUMN) !in store || (content, msid) !in store)
      && (r.Ok? ==> |r.value.vals| == |r.value.times| == |r.value.bads|
                    && r.value.colnames == ["times", "vals", "bads"])
  {
    ReadWindowIsWindow(store, content, msid, s, tstart, tstop, convert);
    var r := ReadWindow(store, content, msid, s, tstart, tstop, convert);
    if r.Ok? {
      var e := ReadTimes(store, content, s).value;
      var vals, bads := RawData(store, content, msid, s), RawQuality(store, content, msid, s);
      var times := RawData(store, content, TIME_COLUMN, s);
      assert |times| == |vals|;
      WindowShape(e, vals, bads, tstart, tstop, NameResolver.Upper(msid), convert);
    }
  }

  /** Over sorted masked times every time of the cut lies in `[tstart, tstop)`. */
  lemma WindowInRange(e: TimesEntry, vals: seq<real>, bads: seq<bool>, tstart: real, tstop: real,
                      name: string, convert: (string, real) -> real)
    requires e.allOk || (|vals| == |e.ok| && |bads| == |e.ok|)
    requires Sorted(e.val)
    ensures var r := Window(e, vals, bads, tstart, tstop, name, convert);
      forall k :: 0 <= k < |r.times| ==> tstart <= r.times[k] < tstop
  {
    var r := Window(e, vals, bads, tstart, tstop, name, convert);
    var row0 := SearchSortedLeft(e.val, tstart);
    SearchSortedLeftSorted(e.val, tstart);
    SearchSortedLeftBounds(e.val, tstop);
    forall k | 0 <= k < |r.times|
      ensures tstart <= r.times[k] < tstop
    {
      assert r.times[k] == e.val[row0 + k];
    }
  }

  /** The masked times of a sorted time column are sorted. */
  lemma EntrySorted(e: TimesEntry, times: seq<real>, quality: seq<bool>)
    requires EntryOf(e, times, quality) && Sorted(times)
    ensures Sorted(e.val)
  {
    if !e.allOk {
      SelectSorted(times, e.ok);
    }
  }

  /** A slice of a time-ordered column is time-ordered. */
  lemma RawTimesSorted(store: Store, content: string, s: RowSlice)
    requires SortedTimes(store)
    ensures Sorted(RawData(store, content, TIME_COLUMN, s))
  {
    if (content, TIME_COLUMN) in store {
      var col := store[(content, TIME_COLUMN)].data;
      var raw := RawData(store, content, TIME_COLUMN, s);
      assert Sorted(col);
      forall i, j | 0 <= i < j < |raw|
        ensures raw[i] <= raw[j]
      {
        assert raw[i] == col[SliceBound(s.start, |col|) + i];
        assert raw[j] == col[SliceBound(s.start, |col|) + j];
      }
    }
  }

  /** Given a time-ordered archive, every returned time lies in
      `[tstart, tstop)`. */
  lemma ReadWindowInRange(store: Store, content: string, msid: string, s: RowSlice,
                          tstart: real, tstop: real, convert: (string, real) -> real)
    requires ValidStore(store) && SortedTimes(store)
    ensures var r := ReadWindow(store, content, msid, s, tstart, tstop, convert);
      r.Ok? ==> forall k :: 0 <= k < |r.value.times| ==> tstart <= r.value.times[k] < tstop
  {
    ReadWindowIsWindow(store, content, msid, s, tstart, tstop, convert);
    var r := ReadWindow(store, content, msid, s, tstart, tstop, convert);
    if r.Ok? {
      var e := ReadTimes(store, content, s).value;
      RawTimesSorted(store, content, s);
      EntrySorted(e, RawData(store, content, TIME_COLUMN, s), RawQuality(store, content, TIME_COLUMN, s));
      WindowInRange(e, RawData(store, content, msid, s), RawQuality(store, content, msid, s),
                    tstart, tstop, NameResolver.Upper(msid), convert);
    }
  }

  /** A cut holds the masked rows from the searchsorted position of `tstart`
      up to that of `tstop`. */
  lemma WindowLength(e: TimesEntry, vals: seq<real>, bads: seq<bool>, tstart: real, tstop: real,
                     name: string, convert: (string, real) -> real)
    requires e.allOk || (|vals| == |e.ok| && |bads| == |e.ok|)
    requires SearchSortedLeft(e.val, tstart) <= SearchSortedLeft(e.val, tstop)
    ensures |Window(e, vals, bads, tstart, tstop, name, convert).times|
            == SearchSortedLeft(e.val, tstop) - SearchSortedLeft(e.val, tstart)
  {
  }

  /** Row `k` of a cut is row `row0 + k` of the masked columns, where `row0`
      is the searchsorted position of `tstart`. */
  lemma WindowAt(e: TimesEntry, vals: seq<real>, bads: seq<bool>, tstart: real, tstop: real,
                 name: string, convert: (string, real) -> real, k: nat)
    requires |vals| == |bads| == |e.ok| && |e.val| == |Masked(vals, e)|
    requires k < |Window(e, vals, bads, tstart, tstop, name, convert).times|
    ensures var r := Window(e, vals, bads, tstart, tstop, name, convert);
      var c := SearchSortedLeft(e.val, tstart) + k;
      && c < |e.val|
      && r.times[k] == e.val[c]
      && r.vals[k] == convert(name, Masked(vals, e)[c])
      && r.bads[k] == Masked(bads, e)[c]
  {
    var mv, mb := Masked(vals, e), Masked(bads, e);
    assert |mb| == |mv| == |e.val|;
    CutAt(e.val, mv, mb, tstart, tstop, name, convert, k);
  }

  /** Row `k` of a returned window is row `i` of the unmasked columns, a row
      whose time is good: time, converted value and quality flag all match. */
  predicate SameRow(r: Raw, k: nat, times: seq<real>, quality: seq<bool>, vals: seq<real>, bads: seq<bool>,
                    i: nat, name: string, convert: (string, real) -> real)
  {
    && k < |r.times| && k < |r.vals| && k < |r.bads|
    && i < |times| && i < |quality| && i < |vals| && i < |bads|
    && !quality[i]
    && r.times[k] == times[i] && r.vals[k] == convert(name, vals[i]) && r.bads[k] == bads[i]
  }

  /** Row `i` has a good time inside `[tstart, tstop)`. */
  predicate GoodTimeIn(times: seq<real>, quality: seq<bool>, i: nat, tstart: real, tstop: real) {
    i < |times| && i < |quality| && !quality[i] && tstart <= times[i] < tstop
  }

  /** Row `k` of a cut comes from one unmasked row `i` whose time is good:
      the value and quality flag of row `i`, the time at masked row `c`. */
  lemma WindowKept(e: TimesEntry, vals: seq<real>, bads: seq<bool>, tstart: real, tstop: real,
                   name: string, convert: (string, real) -> real, k: nat)
    returns (c: nat, i: nat)
    requires |vals| == |bads| == |e.ok| && e.allOk == All(e.ok) && |e.val| == |Masked(vals, e)|
    requires k < |Window(e, vals, bads, tstart, tstop, name, convert).times|
    ensures var r := Window(e, vals, bads, tstart, tstop, name, convert);
      && c == SearchSortedLeft(e.val, tstart) + k
      && c < |e.val| && c < |Masked(vals, e)| && i == KeptRow(e, c) && i < |e.ok| && e.ok[i]
      && k < |r.vals| && k < |r.bads|
      && r.times[k] == e.val[c] && r.vals[k] == convert(name, vals[i]) && r.bads[k] == bads[i]
  {
    c := SearchSortedLeft(e.val, tstart) + k;
    WindowShape(e, vals, bads, tstart, tstop, name, convert);
    WindowAt(e, vals, bads, tstart, tstop, name, convert, k);
    if e.allOk {
      i := c;
    } else {
      MaskedAt(vals, e, c);
      MaskedAt(bads, e, c);
      i := KeptRow(e, c);
    }
  }

  /** Row `k` of a cut is one good-time row `i` of the unmasked rows. */
  lemma WindowAligned(e: TimesEntry, times: seq<real>, quality: seq<bool>, vals: seq<real>, bads: seq<bool>,
                      tstart: real, tstop: real, name: string, convert: (string, real) -> real, k: nat)
    returns (i: nat)
    requires EntryOf(e, times, quality) && |vals| == |bads| == |times|
    requires k < |Window(e, vals, bads, tstart, tstop, name, convert).times|
    ensures SameRow(Window(e, vals, bads, tstart, tstop, name, convert), k, times, quality, vals, bads, i, name, convert)
  {
    var c;
    c, i := WindowKept(e, vals, bads, tstart, tstop, name, convert, k);
    MaskedAt(times, e, c);
    assert e.ok[i] == !quality[i];
  }

  /** Over sorted masked times, a good-time row whose time lies in
      `[tstart, tstop)` survives the mask at a position between the
      searchsorted positions of `tstart` and `tstop`. */
  lemma MaskedPosition(e: TimesEntry, times: seq<real>, quality: seq<bool>, tstart: real, tstop: real, i: nat)
    returns (c: nat)
    requires EntryOf(e, times, quality) && Sorted(e.val)
    requires GoodTimeIn(times, quality, i, tstart, tstop)
    ensures SearchSortedLeft(e.val, tstart) <= c < SearchSortedLeft(e.val, tstop)
    ensures (e.allOk || c < |Flatnonzero(e.ok)|) && KeptRow(e, c) == i
  {
    c := MaskedRowOf(times, e, i);
    assert e.val[c] == times[i];
    SearchSortedLeftBounds(e.val, tstart);
    SearchSortedLeftSorted(e.val, tstop);
  }

  /** A good-time row that survives the mask between the searchsorted
      positions of `tstart` and `tstop` is in the cut. */
  lemma WindowHasRow(e: TimesEntry, times: seq<real>, quality: seq<bool>, vals: seq<real>, bads: seq<bool>,
                     tstart: real, tstop: real, name: string, convert: (string, real) -> real, i: nat, c: nat)
    returns (k: nat)
    requires EntryOf(e, times, quality) && |vals| == |bads| == |times|
    requires SearchSortedLeft(e.val, tstart) <= c < SearchSortedLeft(e.val, tstop)
    requires (e.allOk || c < |Flatnonzero(e.ok)|) && KeptRow(e, c) == i
    ensures SameRow(Window(e, vals, bads, tstart, tstop, name, convert), k, times, quality, vals, bads, i, name, convert)
  {
    k := c - SearchSortedLeft(e.val, tstart);
    WindowLength(e, vals, bads, tstart, tstop, name, convert);
    var c', i' := WindowKept(e, vals, bads, tstart, tstop, name, convert, k);
    assert c' == c && i' == i;
    if !e.allOk {
      MaskedAt(times, e, c);
    }
    assert e.val[c] == times[i];
    assert e.ok[i] == !quality[i];
  }

  /** Over sorted masked times, every good-time row whose time lies in
      `[tstart, tstop)` is in the cut, with its value and quality flag. */
  lemma WindowComplete(e: TimesEntry, times: seq<real>, quality: seq<bool>, vals: seq<real>, bads: seq<bool>,
                       tstart: real, tstop: real, name: string, convert: (string, real) -> real, i: nat)
    returns (k: nat)
    requires EntryOf(e, times, quality) && |vals| == |bads| == |times| && Sorted(e.val)
    requires GoodTimeIn(times, quality, i, tstart, tstop)
    ensures SameRow(Window(e, vals, bads, tstart, tstop, name, convert), k, times, quality, vals, bads, i, name, convert)
  {
    var c := MaskedPosition(e, times, quality, tstart, tstop, i);
    k := WindowHasRow(e, times, quality, vals, bads, tstart, tstop, name, convert, i, c);
  }

  /** Every returned sample is one good-time row of the archive range: its
      time, value and quality flag come from the same row, whose time quality
      flag is clear. */
  lemma ReadWindowRowsAligned(store: Store, content: string, msid: string, s: RowSlice,
                              tstart: real, tstop: real, convert: (string, real) -> real, k: nat)
    returns (i: nat)
    requires ValidStore(store)
    requires ReadWindow(store, content, msid, s, tstart, tstop, convert).Ok?
    requires k < |ReadWindow(store, content, msid, s, tstart, tstop, convert).value.times|
    ensures SameRow(ReadWindow(store, content, msid, s, tstart, tstop, convert).value, k,
                    RawData(store, content, TIME_COLUMN, s), RawQuality(store, content, TIME_COLUMN, s),
                    RawData(store, content, msid, s), RawQuality(store, content, msid, s),
                    i, NameResolver.Upper(msid), convert)
  {
    ReadWindowIsWindow(store, content, msid, s, tstart, tstop, convert);
    i := WindowAligned(ReadTimes(store, content, s).value,
                       RawData(store, content, TIME_COLUMN, s), RawQuality(store, content, TIME_COLUMN, s),
                       RawData(store, content, msid, s), RawQuality(store, content, msid, s),
                       tstart, tstop, NameResolver.Upper(msid), convert, k);
  }

  /** Given a time-ordered archive, every good-time row of the range whose
      time lies in `[tstart, tstop)` is returned, with its value and quality
      flag. */
  lemma ReadWindowComplete(store: Store, content: string, msid: string, s: RowSlice,
                           tstart: real, tstop: real, convert: (string, real) -> real, i: nat)
    returns (k: nat)
    requires ValidStore(store) && SortedTimes(store)
    requires ReadWindow(store, content, msid, s, tstart, tstop, convert).Ok?
    requires GoodTimeIn(RawData(store, content, TIME_COLUMN, s), RawQuality(store, content, TIME_COLUMN, s),
                        i, tstart, tstop)
    ensures SameRow(ReadWindow(store, content, msid, s, tstart, tstop, convert).value, k,
                    RawData(store, content, TIME_COLUMN, s), RawQuality(store, content, TIME_COLUMN, s),
                    RawData(store, content, msid, s), RawQuality(store, content, msid, s),
                    i, NameResolver.Upper(msid), convert)
  {
    ReadWindowIsWindow(store, content, msid, s, tstart, tstop, convert);
    var e := ReadTimes(store, content, s).value;
    RawTimesSorted(store, content, s);
    EntrySorted(e, RawData(store, content, TIME_COLUMN, s), RawQuality(store, content, TIME_COLUMN, s));
    k := WindowComplete(e, RawData(store, content, TIME_COLUMN, s), RawQuality(store, content, TIME_COLUMN, s),
                        RawData(store, content, msid, s), RawQuality(store, content, msid, s),
                        tstart, tstop, NameResolver.Upper(msid), convert, i);
  }
}
