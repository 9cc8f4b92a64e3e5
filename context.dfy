/** The module-wide filetype context `ft` and the `_cache_ft` guard that keeps
    fetch operations from corrupting a caller's values in it, and the
    `_plural` helper that names the columns of a statistics table. */
module FetchContext {
  import opened Wrappers

  /** The filetype context: a mutable mapping from keys such as `content`,
      `msid` and `interval` to their current values. */
  class FtContext {
    var ft: map<string, string>

    constructor (init: map<string, string>)
      ensures ft == init
    {
      ft := init;
    }

    /** `pickle.loads(pickle.dumps(ft))`: an independent copy of the
        current contents. */
    method Snapshot() returns (saved: map<string, string>)
      ensures saved == ft
    {
      saved := ft;
    }

    /** `ft[key] = value` */
    method Set(key: string, value: string)
      modifies this
      ensures ft == old(ft)[key := value]
    {
      ft := ft[key := value];
    }

    /** The `finally` clause of `_cache_ft`: every saved entry is written back
        with `update`, then every key that was not saved is deleted.  Whatever
        happened in between, the context ends up exactly as saved. */
    method Restore(saved: map<string, string>)
      modifies this
      ensures ft == saved
    {
      ft := ft + saved;
      var delkeys := ft.Keys - saved.Keys;
      while delkeys != {}
        invariant forall k :: k in ft <==> k in saved || k in delkeys
        invariant forall k :: k in delkeys ==> k !in saved
        invariant forall k :: k in saved ==> ft[k] == saved[k]
        decreases |delkeys|
      {
        var key :| key in delkeys;
        ft := ft - {key};
        delkeys := delkeys - {key};
      }
      SameEntries(ft, saved);
    }

    /** `MSID._get_data` for a full-resolution or statistics fetch: under
        `_cache_ft` it sets `content`, `msid` and, for statistics, `interval`,
        and reads the data with them; on leaving, the caller's context is
        back as it was. */
    method FetchUnderCachedFt(content: string, msid: string, stat: Option<string>)
      modifies this
      ensures ft == old(ft)
    {
      var saved := Snapshot();
      Set("content", content);
      Set("msid", msid);
      if stat.Some? {
        Set("interval", stat.value);
      }
      Restore(saved);
    }
  }

  /** Two maps with the same keys and the same value at every key are equal. */
  lemma SameEntries(m: map<string, string>, n: map<string, string>)
    requires forall k :: k in m <==> k in n
    requires forall k :: k in n ==> m[k] == n[k]
    ensures m == n
  {
  }

  /** `x.endswith(c)` for a single character. */
  predicate EndsWith(x: string, c: char) {
    |x| > 0 && x[|x| - 1] == c
  }

  /** `_plural(x)`: the word with `es` appended when it ends in `x` or `s`,
      and `s` otherwise. */
  function Plural(x: string): (r: string)
    ensures |r| > |x| && r[..|x|] == x && r[|r| - 1] == 's'
    ensures |r| == |x| + 2 <==> EndsWith(x, 'x') || EndsWith(x, 's')
    ensures |r| == |x| + 2 ==> r[|x|] == 'e'
  {
    if EndsWith(x, 'x') || EndsWith(x, 's') then x + "es" else x + "s"
  }

  /** The inverse of `_plural` on the words it is meant for: strip `es`
      after `x` or `s`, otherwise strip the final `s`. */
  function Singular(r: string): (x: string)
    requires |r| > 0
    ensures |x| < |r| && x == r[..|x|]
  {
    if |r| >= 3 && r[|r| - 2..] == "es" && (r[|r| - 3] == 'x' || r[|r| - 3] == 's') then r[..|r| - 2]
    else r[..|r| - 1]
  }

  /** A word that does not end in `xe` or `se` is recovered from its plural. */
  lemma SingularOfPlural(x: string)
    requires !(|x| >= 2 && x[|x| - 1] == 'e' && (x[|x| - 2] == 'x' || x[|x| - 2] == 's'))
    ensures Singular(Plural(x)) == x
  {
    var r := Plural(x);
    if EndsWith(x, 'x') || EndsWith(x, 's') {
      assert r == x + "es";
      assert r[|r| - 2..] == "es";
      assert r[..|r| - 2] == x;
    } else {
      assert r == x + "s";
      assert r[..|r| - 1] == x;
      if |r| >= 3 && r[|r| - 2..] == "es" {
        assert x[|x| - 1] == 'e';
        assert r[|r| - 3] == x[|x| - 2];
      }
    }
  }

  /** `_plural` is not one-to-one: `max` and `maxe` share the plural
      `maxes`, which is why it is only used on the statistics column names. */
  lemma PluralCollides()
    ensures Plural("max") == Plural("maxe") == "maxes"
  {
    assert EndsWith("max", 'x');
    assert !EndsWith("maxe", 'x') && !EndsWith("maxe", 's');
  }

  /** The output column name of a statistics table column: `n` becomes
      `samples`, every other name its plural. */
  function StatColumnName(colname: string): (name: string) {
    if colname == "n" then "samples" else Plural(colname)
  }

  /** The statistics columns get the names the fetch module then looks for. */
  lemma StatColumnNames()
    ensures StatColumnName("val") == "vals" && StatColumnName("min") == "mins"
    ensures StatColumnName("max") == "maxes" && StatColumnName("mean") == "means"
    ensures StatColumnName("p50") == "p50s" && StatColumnName("n") == "samples"
  {
    assert EndsWith("max", 'x');
    assert !EndsWith("val", 'x') && !EndsWith("val", 's');
    assert !EndsWith("min", 'x') && !EndsWith("min", 's');
    assert !EndsWith("mean", 'x') && !EndsWith("mean", 's');
    assert !EndsWith("p50", 'x') && !EndsWith("p50", 's');
  }
}
