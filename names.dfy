/** Resolution of a user's MSID spec (case-insensitive, glob-capable, with an
    optional "DP_" prefix for derived parameters) to archive MSID names. */
module NameResolver {
  import opened Wrappers
  import opened Columns

  /** Most MSIDs a single glob spec may select. */
  const MAX_GLOB_MATCHES: nat := 10

  /** Prefix of derived-parameter MSIDs. */
  const DP_PREFIX: string := "DP_"

  // ---------------------------------------------------------------------
  // ASCII case mapping (Python 2 str.upper / str.lower)
  // ---------------------------------------------------------------------

  function UpperChar(c: char): char {
    if 'a' <= c <= 'z' then (c as int - 32) as char else c
  }

  function LowerChar(c: char): char {
    if 'A' <= c <= 'Z' then (c as int + 32) as char else c
  }

  function Upper(s: string): (r: string)
    ensures |r| == |s|
    ensures forall i :: 0 <= i < |s| ==> r[i] == UpperChar(s[i])
  {
    seq(|s|, i requires 0 <= i < |s| => UpperChar(s[i]))
  }

  function Lower(s: string): (r: string)
    ensures |r| == |s|
    ensures forall i :: 0 <= i < |s| ==> r[i] == LowerChar(s[i])
  {
    seq(|s|, i requires 0 <= i < |s| => LowerChar(s[i]))
  }

  /** `[x.lower() for x in xs]` */
  function LowerAll(xs: seq<string>): (r: seq<string>)
    ensures |r| == |xs|
    ensures forall i :: 0 <= i < |xs| ==> r[i] == Lower(xs[i])
  {
    seq(|xs|, i requires 0 <= i < |xs| => Lower(xs[i]))
  }

  /** No lower-case ASCII letter: the form of every MSID stored in the archive. */
  predicate NoLowerCase(s: string) {
    forall i :: 0 <= i < |s| ==> !('a' <= s[i] <= 'z')
  }

  /** Lower-casing an archive name and upper-casing it again gives it back. */
  lemma UpperOfLower(s: string)
    requires NoLowerCase(s)
    ensures Upper(Lower(s)) == s
  {
    forall i | 0 <= i < |s|
      ensures Upper(Lower(s))[i] == s[i]
    {
      assert !('a' <= s[i] <= 'z');
    }
  }

  // ---------------------------------------------------------------------
  // fnmatch: '*', '?', '[seq]', '[!seq]', everything else literal
  // ---------------------------------------------------------------------

  /** First position at or after j holding ']', or |p| when there is none. */
  function CloseBracket(p: string, j: nat): (r: nat)
    requires j <= |p|
    ensures j <= r <= |p|
    ensures r < |p| ==> p[r] == ']'
    ensures forall k :: j <= k < r ==> p[k] != ']'
    decreases |p| - j
  {
    if j == |p| || p[j] == ']' then j else CloseBracket(p, j + 1)
  }

  /** Where a character class opened by p[0] == '[' closes, as fnmatch finds it:
      a leading '!' and then a leading ']' belong to the class; with no closing
      ']' the '[' is an ordinary character. */
  function ClassEnd(p: string): (r: Option<nat>)
    requires |p| > 0 && p[0] == '['
    ensures r.Some? ==> 2 <= r.value < |p| && p[r.value] == ']'
  {
    var j1 := if 1 < |p| && p[1] == '!' then 2 else 1;
    var j2 := if j1 < |p| && p[j1] == ']' then j1 + 1 else j1;
    var j := CloseBracket(p, j2);
    if j < |p| then Some(j) else None
  }

  /** Whether c is among the members of a class body: single characters and
      ranges `a-z`; a '-' at either end is an ordinary member. */
  function InClassItems(items: string, c: char): bool
    decreases |items|
  {
    if |items| == 0 then false
    else if |items| >= 3 && items[1] == '-' then
      (items[0] <= c <= items[2]) || InClassItems(items[3..], c)
    else
      items[0] == c || InClassItems(items[1..], c)
  }

  /** A class body, negated when it starts with '!'. */
  function InClass(body: string, c: char): bool {
    if |body| > 0 && body[0] == '!' then !InClassItems(body[1..], c)
    else InClassItems(body, c)
  }

  /** fnmatch.fnmatchcase(s, p): the whole of s matches the pattern p. */
  function GlobMatch(p: string, s: string): bool
    decreases |p| + |s|
  {
    if |p| == 0 then |s| == 0
    else if p[0] == '*' then GlobMatch(p[1..], s) || (|s| > 0 && GlobMatch(p, s[1..]))
    else if |s| == 0 then false
    else if p[0] == '?' then GlobMatch(p[1..], s[1..])
    else if p[0] == '[' && ClassEnd(p).Some? then
      var j := ClassEnd(p).value;
      InClass(p[1..j], s[0]) && GlobMatch(p[j + 1..], s[1..])
    else p[0] == s[0] && GlobMatch(p[1..], s[1..])
  }

  /** fnmatch.filter(names, p): the matching names, in the order of `names`. */
  function GlobFilter(names: seq<string>, p: string): (r: seq<string>)
  {
    Select(names, seq(|names|, i requires 0 <= i < |names| => GlobMatch(p, names[i])))
  }

  /** The glob keeps exactly the matching names, and keeps them in catalog order. */
  lemma GlobFilterSpec(names: seq<string>, p: string)
    ensures forall x :: x in GlobFilter(names, p) <==> x in names && GlobMatch(p, x)
    ensures forall k :: 0 <= k < |GlobFilter(names, p)| ==>
      var keep := seq(|names|, i requires 0 <= i < |names| => GlobMatch(p, names[i]));
      GlobFilter(names, p)[k] == names[Flatnonzero(keep)[k]]
  {
    var keep := seq(|names|, i requires 0 <= i < |names| => GlobMatch(p, names[i]));
    forall x
      ensures x in GlobFilter(names, p) <==> x in names && GlobMatch(p, x)
    {
      SelectMember(names, keep, x);
    }
  }

  /** A pattern without '*', '?' or '['. */
  predicate Plain(p: string) {
    forall i :: 0 <= i < |p| ==> p[i] != '*' && p[i] != '?' && p[i] != '['
  }

  /** A plain pattern matches only itself. */
  lemma {:induction false} PlainMatchesItself(p: string, s: string)
    requires Plain(p)
    ensures GlobMatch(p, s) <==> s == p
    decreases |p|
  {
    if |p| > 0 && |s| > 0 {
      PlainMatchesItself(p[1..], s[1..]);
      if s == p {
        assert s[1..] == p[1..];
      } else if p[0] == s[0] {
        assert s == [s[0]] + s[1..] && p == [p[0]] + p[1..];
      }
    }
  }

  // ---------------------------------------------------------------------
  // The archive's MSID catalog and msid_glob
  // ---------------------------------------------------------------------

  /** The archive's ordered dict from MSID name to content type: `names` holds
      the keys in insertion order, `group` the mapping. */
  datatype ContentIndex = ContentIndex(names: seq<string>, group: map<string, string>)

  ghost predicate ValidIndex(c: ContentIndex) {
    && (forall i, j :: 0 <= i < j < |c.names| ==> c.names[i] != c.names[j])
    && (forall x :: x in c.group <==> x in c.names)
  }

  /** `(msids, MSIDs)`: the names as the caller will see them, and the
      archive's own upper-case names. */
  datatype Matches = Matches(msids: seq<string>, MSIDs: seq<string>)

  /** The result of a glob stage that found something. */
  function GlobHit(spec: string, matches: seq<string>): Result<Matches> {
    if |matches| > MAX_GLOB_MATCHES then Err(TooManyMatches(spec))
    else Ok(Matches(LowerAll(matches), matches))
  }

  /** msid_glob: exact name, then DP_ + name, then the glob of each in turn. */
  function MsidGlob(c: ContentIndex, spec: string): (r: Result<Matches>)
    requires ValidIndex(c)
    ensures r.Ok? ==> 1 <= |r.value.MSIDs| == |r.value.msids|
    ensures r.Ok? ==> forall x :: x in r.value.MSIDs ==> x in c.group
  {
    var name := Upper(spec);
    if name in c.group then Ok(Matches([spec], [name]))
    else if DP_PREFIX + name in c.group then Ok(Matches([spec], [DP_PREFIX + name]))
    else
      var direct := GlobFilter(c.names, name);
      if |direct| > 0 then
        GlobFilterSpec(c.names, name);
        GlobHit(spec, direct)
      else
        var derived := GlobFilter(c.names, DP_PREFIX + name);
        GlobFilterSpec(c.names, DP_PREFIX + name);
        if |derived| > 0 then GlobHit(spec, derived) else Err(NotInArchive(name))
  }

  /** An exact hit, with or without the prefix, returns the caller's own
      spelling beside the archive name; no glob is tried. */
  lemma MsidGlobExact(c: ContentIndex, spec: string)
    requires ValidIndex(c)
    requires Upper(spec) in c.group || DP_PREFIX + Upper(spec) in c.group
    ensures MsidGlob(c, spec).Ok?
    ensures MsidGlob(c, spec).value.msids == [spec]
    ensures MsidGlob(c, spec).value.MSIDs
         == [if Upper(spec) in c.group then Upper(spec) else DP_PREFIX + Upper(spec)]
  {
  }

  /** Without an exact hit, the result is the first non-empty glob, names in
      catalog order and the caller's list their lower-case forms; more than
      MAX_GLOB_MATCHES matches is an error and exactly MAX_GLOB_MATCHES is not. */
  lemma MsidGlobFromGlob(c: ContentIndex, spec: string)
    requires ValidIndex(c)
    requires Upper(spec) !in c.group && DP_PREFIX + Upper(spec) !in c.group
    ensures var direct := GlobFilter(c.names, Upper(spec));
            var derived := GlobFilter(c.names, DP_PREFIX + Upper(spec));
            var hit := if |direct| > 0 then direct else derived;
            && (|hit| == 0 ==> MsidGlob(c, spec) == Err(NotInArchive(Upper(spec))))
            && (|hit| > MAX_GLOB_MATCHES ==> MsidGlob(c, spec) == Err(TooManyMatches(spec)))
            && (0 < |hit| <= MAX_GLOB_MATCHES ==>
                 && MsidGlob(c, spec).Ok?
                 && MsidGlob(c, spec).value.MSIDs == hit
                 && (forall k :: 0 <= k < |hit| ==> MsidGlob(c, spec).value.msids[k] == Lower(hit[k])))
  {
  }

  /** The spec is not in the archive exactly when no stage finds anything:
      no name equals it or DP_ + it, and no name matches either as a glob. */
  lemma MsidGlobNotFound(c: ContentIndex, spec: string)
    requires ValidIndex(c)
    ensures MsidGlob(c, spec).Err? && MsidGlob(c, spec).error.NotInArchive?
        <==> forall x :: x in c.names ==>
               && x != Upper(spec) && x != DP_PREFIX + Upper(spec)
               && !GlobMatch(Upper(spec), x) && !GlobMatch(DP_PREFIX + Upper(spec), x)
  {
    var name := Upper(spec);
    GlobFilterEmpty(c.names, name);
    GlobFilterEmpty(c.names, DP_PREFIX + name);
  }

  /** A glob finds nothing exactly when no name matches it. */
  lemma GlobFilterEmpty(names: seq<string>, p: string)
    ensures |GlobFilter(names, p)| == 0 <==> forall x :: x in names ==> !GlobMatch(p, x)
  {
    GlobFilterSpec(names, p);
    if |GlobFilter(names, p)| > 0 {
      assert GlobFilter(names, p)[0] in GlobFilter(names, p);
    }
  }

  /** For a spec without wildcards the glob stages can only find the exact
      names already tried, so it resolves exactly when it is an archive name
      with or without the DP_ prefix. */
  lemma PlainSpecResolvesExactly(c: ContentIndex, spec: string)
    requires ValidIndex(c) && Plain(Upper(spec))
    ensures MsidGlob(c, spec).Ok? <==> Upper(spec) in c.group || DP_PREFIX + Upper(spec) in c.group
  {
    var name := Upper(spec);
    assert Plain(DP_PREFIX + name);
    forall x | x in c.names
      ensures !GlobMatch(name, x) || x == name
      ensures !GlobMatch(DP_PREFIX + name, x) || x == DP_PREFIX + name
    {
      PlainMatchesItself(name, x);
      PlainMatchesItself(DP_PREFIX + name, x);
    }
    MsidGlobNotFound(c, spec);
  }

  // ---------------------------------------------------------------------
  // MSID.__init__: a single match is required
  // ---------------------------------------------------------------------

  /** The identity of one fetched MSID: the caller's name, the archive name and
      its content type. */
  datatype Resolved = Resolved(msid: string, MSID: string, content: string)

  /** The match check of MSID.__init__ and its content-type lookup. */
  function ResolveSingle(c: ContentIndex, spec: string): (r: Result<Resolved>)
    requires ValidIndex(c)
    ensures r.Ok? ==> r.value.MSID in c.group && r.value.content == c.group[r.value.MSID]
    ensures r.Err? && r.error.MultipleMatches? <==> MsidGlob(c, spec).Ok? && |MsidGlob(c, spec).value.MSIDs| > 1
    ensures r.Ok? <==> MsidGlob(c, spec).Ok? && |MsidGlob(c, spec).value.MSIDs| == 1
  {
    var m :- MsidGlob(c, spec);
    if |m.MSIDs| > 1 then Err(MultipleMatches(spec))
    else
      assert m.MSIDs[0] in m.MSIDs;
      Ok(Resolved(m.msids[0], m.MSIDs[0], c.group[m.MSIDs[0]]))
  }

  // ---------------------------------------------------------------------
  // MSIDset.__init__: expansion of the specs
  // ---------------------------------------------------------------------

  /** The caller-side names of every spec, concatenated in order; the first
      spec that fails to resolve stops the expansion. */
  function ExpandSpecs(c: ContentIndex, specs: seq<string>): (r: Result<seq<string>>)
    requires ValidIndex(c)
    decreases |specs|
  {
    if |specs| == 0 then Ok([])
    else
      var m :- MsidGlob(c, specs[0]);
      var rest :- ExpandSpecs(c, specs[1..]);
      Ok(m.msids + rest)
  }

  /** Each name produced by expanding the specs resolves again, to exactly one
      archive MSID, when MSIDset builds its member from it. */
  lemma {:induction false} ExpandedNamesResolve(c: ContentIndex, specs: seq<string>)
    requires ValidIndex(c)
    requires forall x :: x in c.names ==> NoLowerCase(x)
    requires ExpandSpecs(c, specs).Ok?
    ensures forall x :: x in ExpandSpecs(c, specs).value ==> ResolveSingle(c, x).Ok?
    decreases |specs|
  {
    if |specs| > 0 {
      var m := MsidGlob(c, specs[0]).value;
      ExpandedNamesResolve(c, specs[1..]);
      forall x | x in m.msids
        ensures ResolveSingle(c, x).Ok?
      {
        var name := Upper(specs[0]);
        if !(name in c.group || DP_PREFIX + name in c.group) {
          var k :| 0 <= k < |m.msids| && m.msids[k] == x;
          MsidGlobFromGlob(c, specs[0]);
          assert m.MSIDs[k] in m.MSIDs;
          UpperOfLower(m.MSIDs[k]);
        }
      }
    }
  }

  /** The keys of an ordered dict after inserting `xs` in turn: first
      occurrences, in order. */
  function InsertionOrder(xs: seq<string>): (r: seq<string>)
    ensures forall x :: x in r <==> x in xs
    ensures forall i, j :: 0 <= i < j < |r| ==> r[i] != r[j]
    decreases |xs|
  {
    if |xs| == 0 then []
    else
      var front := InsertionOrder(xs[..|xs| - 1]);
      if xs[|xs| - 1] in front then front else front + [xs[|xs| - 1]]
  }

  /** Inserting the next key of `xs` after its first `i`. */
  lemma InsertionOrderStep(xs: seq<string>, i: nat)
    requires i < |xs|
    ensures var before := InsertionOrder(xs[..i]);
      InsertionOrder(xs[..i + 1]) == if xs[i] in before then before else before + [xs[i]]
  {
    assert xs[..i + 1][..i] == xs[..i];
  }

  /** Inserting more keys never reorders or drops the keys already there:
      the earlier keys are a prefix of the later ones. */
  lemma {:induction false} InsertionOrderExtends(xs: seq<string>, ys: seq<string>)
    ensures InsertionOrder(xs) <= InsertionOrder(xs + ys)
    decreases |ys|
  {
    if |ys| == 0 {
      assert xs + ys == xs;
    } else {
      var init := ys[..|ys| - 1];
      assert (xs + ys)[..|xs + ys| - 1] == xs + init;
      InsertionOrderExtends(xs, init);
    }
  }
}
