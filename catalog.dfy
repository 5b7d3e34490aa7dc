/**
 * The metadata index: two insertion-ordered maps, `sql_configs` and
 * `java_classes`, from a file's path relative to the scan root to its
 * record.  A scan rebuilds one map from a directory walk; a search filters
 * both maps with the query terms.
 */
module Catalog {
  import opened Options
  import opened Text
  import opened Markers
  import opened Extract
  import opened AssocList
  import opened Query

  /** What the directory walk sees: no such directory, or the files it
      yields (already restricted to the scan's extension), in walk order. */
  datatype Directory = Missing | Present(files: seq<SourceFile>)

  /** One map of the index. */
  type Entries = seq<(string, Record)>

  /** The map a scan builds: the files folded in walk order, each file with a
      record stored under its relative path (`configs[rel] = metadata`). */
  function Collect(style: Style, files: seq<SourceFile>): Entries
    decreases |files|
  {
    if files == [] then []
    else
      var acc := Collect(style, files[..|files| - 1]);
      var f := files[|files| - 1];
      match ExtractAs(style, f)
      case None => acc
      case Some(r) => Put(acc, f.relative, r)
  }

  /** What extraction makes of each file of the walk. */
  function Outcomes(style: Style, files: seq<SourceFile>): (outs: seq<Option<Record>>)
    ensures |outs| == |files|
    ensures forall i :: 0 <= i < |files| ==> outs[i] == ExtractAs(style, files[i])
  {
    seq(|files|, i requires 0 <= i < |files| => ExtractAs(style, files[i]))
  }

  /** Every file whose outcome is a record, paired with its relative path, in
      walk order. */
  function Listed(files: seq<SourceFile>, outs: seq<Option<Record>>): Entries
    requires |outs| == |files|
    decreases |files|
  {
    if files == [] then []
    else
      var n := |files| - 1;
      Listed(files[..n], outs[..n]) +
        match outs[n]
        case None => []
        case Some(r) => [(files[n].relative, r)]
  }

  /** Reference list: every file that yields a record, paired with its
      relative path, in walk order. */
  function Yielded(style: Style, files: seq<SourceFile>): Entries {
    Listed(files, Outcomes(style, files))
  }

  /** A directory walk never yields the same path twice. */
  predicate DistinctRelatives(files: seq<SourceFile>) {
    forall i, j :: 0 <= i < j < |files| ==> files[i].relative != files[j].relative
  }

  /** A scan's map never holds a key twice. */
  lemma {:induction false} CollectDistinct(style: Style, files: seq<SourceFile>)
    ensures DistinctKeys(Collect(style, files))
    decreases |files|
  {
    if files != [] {
      var f := files[|files| - 1];
      CollectDistinct(style, files[..|files| - 1]);
      if ExtractAs(style, f).Some? {
        PutDistinct(Collect(style, files[..|files| - 1]), f.relative, ExtractAs(style, f).value);
      }
    }
  }

  /** One more file adds its entry, if it has a record, at the end. */
  lemma YieldedLast(style: Style, files: seq<SourceFile>)
    requires files != []
    ensures Yielded(style, files) == Yielded(style, files[..|files| - 1]) +
      match ExtractAs(style, files[|files| - 1])
      case None => []
      case Some(r) => [(files[|files| - 1].relative, r)]
  {
    assert Outcomes(style, files)[..|files| - 1] == Outcomes(style, files[..|files| - 1]);
  }

  /** Every entry of the list comes from a file with that outcome. */
  lemma {:induction false} ListedSound(files: seq<SourceFile>, outs: seq<Option<Record>>, k: string, r: Record)
    requires |outs| == |files| && (k, r) in Listed(files, outs)
    ensures exists j :: 0 <= j < |files| && files[j].relative == k && outs[j] == Some(r)
    decreases |files|
  {
    var n := |files| - 1;
    if (k, r) in Listed(files[..n], outs[..n]) {
      ListedSound(files[..n], outs[..n], k, r);
      var j :| 0 <= j < n && files[..n][j].relative == k && outs[..n][j] == Some(r);
      assert files[j] == files[..n][j] && outs[j] == outs[..n][j];
    } else {
      assert files[n].relative == k && outs[n] == Some(r);
    }
  }

  /** Every file with a record outcome has its entry in the list. */
  lemma {:induction false} ListedComplete(files: seq<SourceFile>, outs: seq<Option<Record>>, j: nat, k: string, r: Record)
    requires |outs| == |files| && j < |files| && files[j].relative == k && outs[j] == Some(r)
    ensures (k, r) in Listed(files, outs)
    decreases |files|
  {
    var n := |files| - 1;
    if j < n {
      assert files[..n][j] == files[j] && outs[..n][j] == outs[j];
      ListedComplete(files[..n], outs[..n], j, k, r);
    }
  }

  /** Every key of the list is the relative path of some file. */
  lemma ListedKeys(files: seq<SourceFile>, outs: seq<Option<Record>>, k: string)
    requires |outs| == |files| && k in Keys(Listed(files, outs))
    ensures exists j :: 0 <= j < |files| && files[j].relative == k
  {
    var y := Listed(files, outs);
    var i :| 0 <= i < |y| && Keys(y)[i] == k;
    assert y[i] in y;
    ListedSound(files, outs, k, y[i].1);
  }

  /** The entries of the reference list are exactly the files with a record. */
  lemma YieldedMembers(style: Style, files: seq<SourceFile>, k: string, r: Record)
    ensures (k, r) in Yielded(style, files) <==>
      exists j :: 0 <= j < |files| && files[j].relative == k && ExtractAs(style, files[j]) == Some(r)
  {
    var outs := Outcomes(style, files);
    if (k, r) in Yielded(style, files) {
      ListedSound(files, outs, k, r);
    }
    if exists j :: 0 <= j < |files| && files[j].relative == k && ExtractAs(style, files[j]) == Some(r) {
      var j :| 0 <= j < |files| && files[j].relative == k && ExtractAs(style, files[j]) == Some(r);
      ListedComplete(files, outs, j, k, r);
    }
  }

  /** When the walk yields distinct paths, as it does, the scan's map is the
      reference list: one entry per file with a record, in walk order. */
  lemma {:induction false} CollectYielded(style: Style, files: seq<SourceFile>)
    requires DistinctRelatives(files)
    ensures Collect(style, files) == Yielded(style, files)
    decreases |files|
  {
    if files != [] {
      var init := files[..|files| - 1];
      var f := files[|files| - 1];
      assert DistinctRelatives(init);
      CollectYielded(style, init);
      YieldedLast(style, files);
      if ExtractAs(style, f).Some? {
        if f.relative in Keys(Yielded(style, init)) {
          ListedKeys(init, Outcomes(style, init), f.relative);
          assert false;
        }
        PutNew(Yielded(style, init), f.relative, ExtractAs(style, f).value);
      } else {
        assert Yielded(style, files) == Yielded(style, init) + [];
      }
    }
  }

  /** One more file of the walk folded into the map. */
  lemma CollectStep(style: Style, files: seq<SourceFile>, i: nat)
    requires i < |files|
    ensures Collect(style, files[..i + 1]) ==
      match ExtractAs(style, files[i])
      case None => Collect(style, files[..i])
      case Some(r) => Put(Collect(style, files[..i]), files[i].relative, r)
  {
    var prefix := files[..i + 1];
    assert prefix[..i] == files[..i] && prefix[i] == files[i];
  }

  /** The scan loop: `configs[rel] = metadata` for every file that yields a
      record. */
  method CollectFiles(style: Style, files: seq<SourceFile>) returns (entries: Entries)
    ensures entries == Collect(style, files)
    ensures DistinctKeys(entries)
  {
    entries := [];
    var i := 0;
    while i < |files|
      invariant 0 <= i <= |files|
      invariant entries == Collect(style, files[..i])
    {
      var metadata := ExtractAs(style, files[i]);
      CollectStep(style, files, i);
      if metadata.Some? {
        entries := Put(entries, files[i].relative, metadata.value);
      }
      i := i + 1;
    }
    assert files[..|files|] == files;
    CollectDistinct(style, files);
  }

  /** One search result: `{"type": ..., "file": key, **metadata}`, where the
      record's own `type` overrides the category label. */
  datatype Hit = Hit(kind: Option<string>, file: string, record: Record)

  function HitOf(e: (string, Record)): Hit {
    Hit(e.1.kind, e.0, e.1)
  }

  /** One search loop: the entries that match, in map order, or the
      TypeError of the first entry that cannot be matched. */
  function FilterMatches(es: Entries, terms: seq<string>): Result<seq<Hit>, QueryError>
    decreases |es|
  {
    if es == [] then Success([])
    else
      match FilterMatches(es[..|es| - 1], terms)
      case Failure(err) => Failure(err)
      case Success(hits) =>
        match MatchesQuery(es[|es| - 1].1, terms)
        case Failure(err) => Failure(err)
        case Success(b) => Success(hits + if b then [HitOf(es[|es| - 1])] else [])
  }

  /** The loop over two maps laid end to end is the loop over the first
      followed by the loop over the second. */
  lemma {:induction false} FilterAppend(a: Entries, b: Entries, terms: seq<string>)
    requires FilterMatches(a, terms).Success? && FilterMatches(b, terms).Success?
    ensures FilterMatches(a + b, terms).Success?
    ensures FilterMatches(a + b, terms).value == FilterMatches(a, terms).value + FilterMatches(b, terms).value
    decreases |b|
  {
    if b == [] {
      assert a + b == a;
    } else {
      var n := |b| - 1;
      var ab := a + b;
      assert ab[..|ab| - 1] == a + b[..n];
      assert ab[|ab| - 1] == b[n];
      FilterAppend(a, b[..n], terms);
      var m := MatchesQuery(b[n].1, terms);
      var last := if m.value then [HitOf(b[n])] else [];
      var x, y := FilterMatches(a, terms).value, FilterMatches(b[..n], terms).value;
      assert FilterMatches(b, terms).value == y + last;
      assert FilterMatches(ab, terms).value == (x + y) + last;
      ConcatAssoc(x, y, last);
    }
  }

  /** The hits of the entries that match, front to back, one per entry:
      the reference list a search loop is measured against. */
  function Kept(es: Entries, terms: seq<string>): seq<Hit>
    decreases |es|
  {
    if es == [] then []
    else
      (if MatchesQuery(es[0].1, terms) == Success(true) then [HitOf(es[0])] else []) +
      Kept(es[1..], terms)
  }

  /** A search loop that succeeds returns the matching entries' hits in map
      order, one per matching entry. */
  lemma {:induction false} FilterKept(es: Entries, terms: seq<string>)
    requires FilterMatches(es, terms).Success?
    ensures FilterMatches(es, terms).value == Kept(es, terms)
    decreases |es|
  {
    if es != [] {
      var head, tail := es[..1], es[1..];
      assert es == head + tail;
      FilterPrefixSuccess(es, terms, 1);
      FilterSuffixSuccess(es, terms);
      FilterKept(tail, terms);
      FilterAppend(head, tail, terms);
      assert head[..0] == [] && head[0] == es[0];
    }
  }

  /** A loop that succeeds over the whole map succeeds over every prefix. */
  lemma {:induction false} FilterPrefixSuccess(es: Entries, terms: seq<string>, k: nat)
    requires k <= |es| && FilterMatches(es, terms).Success?
    ensures FilterMatches(es[..k], terms).Success?
    decreases |es| - k
  {
    if k < |es| {
      assert es[..|es| - 1][..k] == es[..k];
      FilterPrefixSuccess(es[..|es| - 1], terms, k);
    } else {
      assert es[..k] == es;
    }
  }

  /** A loop that succeeds over the whole map succeeds without its first
      entry. */
  lemma FilterSuffixSuccess(es: Entries, terms: seq<string>)
    requires es != [] && FilterMatches(es, terms).Success?
    ensures FilterMatches(es[1..], terms).Success?
  {
    FilterFailure(es, terms);
    FilterFailure(es[1..], terms);
  }

  /** A search loop fails iff some entry lacks a type or a description. */
  lemma {:induction false} FilterFailure(es: Entries, terms: seq<string>)
    ensures FilterMatches(es, terms).Failure? <==>
      exists i :: 0 <= i < |es| && (es[i].1.kind.None? || es[i].1.description.None?)
    decreases |es|
  {
    if es != [] {
      var init := es[..|es| - 1];
      FilterFailure(init, terms);
      MatchesQuerySpec(es[|es| - 1].1, terms);
      if exists i :: 0 <= i < |es| && (es[i].1.kind.None? || es[i].1.description.None?) {
        var i :| 0 <= i < |es| && (es[i].1.kind.None? || es[i].1.description.None?);
        if i < |init| {
          assert init[i] == es[i];
        }
      }
      if exists i :: 0 <= i < |init| && (init[i].1.kind.None? || init[i].1.description.None?) {
        var i :| 0 <= i < |init| && (init[i].1.kind.None? || init[i].1.description.None?);
        assert es[i] == init[i];
      }
    }
  }

  /** Every result of a search loop is a matching entry. */
  lemma {:induction false} FilterSound(es: Entries, terms: seq<string>, h: Hit)
    requires FilterMatches(es, terms).Success? && h in FilterMatches(es, terms).value
    ensures exists i :: 0 <= i < |es| && h == HitOf(es[i]) && MatchesQuery(es[i].1, terms) == Success(true)
    decreases |es|
  {
    var init := es[..|es| - 1];
    var hits := FilterMatches(init, terms).value;
    if h in hits {
      FilterSound(init, terms, h);
      var i :| 0 <= i < |init| && h == HitOf(init[i]) && MatchesQuery(init[i].1, terms) == Success(true);
      assert es[i] == init[i];
    }
  }

  /** Every matching entry is a result of the search loop. */
  lemma {:induction false} FilterComplete(es: Entries, terms: seq<string>, i: nat)
    requires FilterMatches(es, terms).Success?
    requires i < |es| && MatchesQuery(es[i].1, terms) == Success(true)
    ensures HitOf(es[i]) in FilterMatches(es, terms).value
    decreases |es|
  {
    var init := es[..|es| - 1];
    if i < |init| {
      assert init[i] == es[i];
      FilterComplete(init, terms, i);
    }
  }

  /** A result's `type` is the record's own type, which is never missing. */
  lemma {:induction false} FilterLabels(es: Entries, terms: seq<string>, h: Hit)
    requires FilterMatches(es, terms).Success? && h in FilterMatches(es, terms).value
    ensures h.kind == h.record.kind && h.kind.Some?
    ensures h.record.description.Some?
  {
    FilterSound(es, terms, h);
    var i :| 0 <= i < |es| && h == HitOf(es[i]) && MatchesQuery(es[i].1, terms) == Success(true);
    MatchesQuerySpec(es[i].1, terms);
  }

  /** The results of a search loop are at most the entries. */
  lemma {:induction false} FilterLength(es: Entries, terms: seq<string>)
    requires FilterMatches(es, terms).Success?
    ensures |FilterMatches(es, terms).value| <= |es|
    decreases |es|
  {
    if es != [] {
      FilterLength(es[..|es| - 1], terms);
    }
  }

  /** A search loop whose terms hold `""` returns every entry, in map order,
      when no record lacks a type or a description. */
  lemma {:induction false} FilterEmptyTerm(es: Entries, terms: seq<string>)
    requires "" in terms
    requires forall i :: 0 <= i < |es| ==> es[i].1.kind.Some? && es[i].1.description.Some?
    ensures FilterMatches(es, terms).Success?
    ensures |FilterMatches(es, terms).value| == |es|
    ensures forall i :: 0 <= i < |es| ==> FilterMatches(es, terms).value[i] == HitOf(es[i])
    decreases |es|
  {
    if es != [] {
      var init := es[..|es| - 1];
      FilterEmptyTerm(init, terms);
      EmptyTermMatches(es[|es| - 1].1, terms);
      var hits := FilterMatches(es, terms).value;
      forall i | 0 <= i < |es| ensures hits[i] == HitOf(es[i]) {
        if i < |init| {
          assert init[i] == es[i];
        }
      }
    }
  }

  /** `search(query, file_type)` against the two maps: SQL results first,
      then Java results; the first TypeError of either loop ends it. */
  function SearchSpec(sql: Entries, java: Entries, query: string, fileType: string): Result<seq<Hit>, QueryError> {
    var terms := QueryTerms(query);
    Combine(Searched(SearchesSql(fileType), sql, terms), Searched(SearchesJava(fileType), java, terms))
  }

  /** `file_type in ("sql", "all")`. */
  predicate SearchesSql(fileType: string) {
    fileType == "sql" || fileType == "all"
  }

  /** `file_type in ("java", "all")`. */
  predicate SearchesJava(fileType: string) {
    fileType == "java" || fileType == "all"
  }

  /** The results of one loop, or none when the loop is skipped. */
  function Searched(on: bool, es: Entries, terms: seq<string>): Result<seq<Hit>, QueryError> {
    if on then FilterMatches(es, terms) else Success([])
  }

  /** The SQL loop runs first; its failure stops the search. */
  function Combine(s: Result<seq<Hit>, QueryError>, j: Result<seq<Hit>, QueryError>): Result<seq<Hit>, QueryError> {
    if s.Failure? then s
    else if j.Failure? then j
    else Success(s.value + j.value)
  }

  /** A `file_type` other than `sql`, `java` and `all` finds nothing. */
  lemma SearchOtherType(sql: Entries, java: Entries, query: string, fileType: string)
    requires fileType != "sql" && fileType != "java" && fileType != "all"
    ensures SearchSpec(sql, java, query, fileType) == Success([])
  {
    assert SearchSpec(sql, java, query, fileType).value == [];
  }

  /** What combining the two loops yields. */
  lemma CombineSpec(s: Result<seq<Hit>, QueryError>, j: Result<seq<Hit>, QueryError>)
    ensures Combine(s, j).Success? <==> s.Success? && j.Success?
    ensures Combine(s, j).Success? ==> Combine(s, j).value == s.value + j.value
    ensures s.Failure? ==> Combine(s, j) == s
    ensures s.Success? && j.Failure? ==> Combine(s, j) == j
  {
  }

  /** `file_type == "sql"` runs the SQL loop only. */
  lemma SqlOnly(sql: Entries, java: Entries, query: string)
    ensures SearchSpec(sql, java, query, "sql") == Combine(FilterMatches(sql, QueryTerms(query)), Success([]))
  {
    assert SearchesSql("sql") && !SearchesJava("sql");
  }

  /** `file_type == "java"` runs the Java loop only. */
  lemma JavaOnly(sql: Entries, java: Entries, query: string)
    ensures SearchSpec(sql, java, query, "java") == Combine(Success([]), FilterMatches(java, QueryTerms(query)))
  {
    assert !SearchesSql("java") && SearchesJava("java");
  }

  /** `file_type == "all"` runs both loops. */
  lemma BothLoops(sql: Entries, java: Entries, query: string)
    ensures SearchSpec(sql, java, query, "all") ==
      Combine(FilterMatches(sql, QueryTerms(query)), FilterMatches(java, QueryTerms(query)))
  {
    assert SearchesSql("all") && SearchesJava("all");
  }

  /** `all` is the SQL search followed by the Java search. */
  lemma SearchAll(sql: Entries, java: Entries, query: string)
    requires SearchSpec(sql, java, query, "sql").Success? && SearchSpec(sql, java, query, "java").Success?
    ensures SearchSpec(sql, java, query, "all") ==
      Success(SearchSpec(sql, java, query, "sql").value + SearchSpec(sql, java, query, "java").value)
  {
    var terms := QueryTerms(query);
    var s := FilterMatches(sql, terms);
    var j := FilterMatches(java, terms);
    SqlOnly(sql, java, query);
    JavaOnly(sql, java, query);
    BothLoops(sql, java, query);
    CombineSpec(s, Success([]));
    CombineSpec(Success([]), j);
    CombineSpec(s, j);
    assert s.value + [] == s.value;
    assert [] + j.value == j.value;
  }

  /** A search ignores the case of its query. */
  lemma SearchCaseInsensitive(sql: Entries, java: Entries, query: string, fileType: string)
    ensures SearchSpec(sql, java, Lower(query), fileType) == SearchSpec(sql, java, query, fileType)
  {
    QueryCaseInsensitive(query);
  }

  /** A query whose terms hold `""` lists every SQL record, in map order. */
  lemma EmptyTermSql(sql: Entries, java: Entries, query: string)
    requires "" in QueryTerms(query)
    requires forall i :: 0 <= i < |sql| ==> sql[i].1.kind.Some? && sql[i].1.description.Some?
    ensures SearchSpec(sql, java, query, "sql").Success?
    ensures |SearchSpec(sql, java, query, "sql").value| == |sql|
    ensures forall i :: 0 <= i < |sql| ==> SearchSpec(sql, java, query, "sql").value[i] == HitOf(sql[i])
  {
    var terms := QueryTerms(query);
    var s := FilterMatches(sql, terms);
    FilterEmptyTerm(sql, terms);
    SqlOnly(sql, java, query);
    CombineSpec(s, Success([]));
    assert s.value + [] == s.value;
    assert SearchSpec(sql, java, query, "sql").value == s.value;
  }

  /** The empty query lists every SQL record, in map order. */
  lemma EmptyQuerySql(sql: Entries, java: Entries)
    requires forall i :: 0 <= i < |sql| ==> sql[i].1.kind.Some? && sql[i].1.description.Some?
    ensures SearchSpec(sql, java, "", "sql").Success?
    ensures |SearchSpec(sql, java, "", "sql").value| == |sql|
    ensures forall i :: 0 <= i < |sql| ==> SearchSpec(sql, java, "", "sql").value[i] == HitOf(sql[i])
  {
    EmptyTerm("");
    EmptyTermSql(sql, java, "");
  }

  /** The results of a search loop are exactly the matching entries. */
  lemma FilterMembers(es: Entries, terms: seq<string>)
    requires FilterMatches(es, terms).Success?
    ensures forall h :: h in FilterMatches(es, terms).value <==>
      exists i :: 0 <= i < |es| && h == HitOf(es[i]) && MatchesQuery(es[i].1, terms) == Success(true)
  {
    var hits := FilterMatches(es, terms).value;
    forall h ensures h in hits <==>
      exists i :: 0 <= i < |es| && h == HitOf(es[i]) && MatchesQuery(es[i].1, terms) == Success(true)
    {
      if h in hits {
        FilterSound(es, terms, h);
      }
      if exists i :: 0 <= i < |es| && h == HitOf(es[i]) && MatchesQuery(es[i].1, terms) == Success(true) {
        var i :| 0 <= i < |es| && h == HitOf(es[i]) && MatchesQuery(es[i].1, terms) == Success(true);
        FilterComplete(es, terms, i);
      }
    }
  }

  /** A SQL search succeeds iff every SQL record has a type and a
      description, and then returns exactly the matching ones, one hit per
      matching entry, in map order. */
  lemma SearchSql(sql: Entries, java: Entries, query: string)
    ensures SearchSpec(sql, java, query, "sql").Success? <==>
      forall i :: 0 <= i < |sql| ==> sql[i].1.kind.Some? && sql[i].1.description.Some?
    ensures SearchSpec(sql, java, query, "sql").Success? ==>
      forall h :: h in SearchSpec(sql, java, query, "sql").value <==>
        exists i :: 0 <= i < |sql| && h == HitOf(sql[i]) && MatchesQuery(sql[i].1, QueryTerms(query)) == Success(true)
    ensures SearchSpec(sql, java, query, "sql").Success? ==>
      SearchSpec(sql, java, query, "sql").value == Kept(sql, QueryTerms(query))
  {
    var terms := QueryTerms(query);
    var s := FilterMatches(sql, terms);
    SqlOnly(sql, java, query);
    CombineSpec(s, Success([]));
    FilterFailure(sql, terms);
    if s.Success? {
      assert s.value + [] == s.value;
      FilterMembers(sql, terms);
      FilterKept(sql, terms);
    }
  }

  /** The same for a Java search. */
  lemma SearchJava(sql: Entries, java: Entries, query: string)
    ensures SearchSpec(sql, java, query, "java").Success? <==>
      forall i :: 0 <= i < |java| ==> java[i].1.kind.Some? && java[i].1.description.Some?
    ensures SearchSpec(sql, java, query, "java").Success? ==>
      forall h :: h in SearchSpec(sql, java, query, "java").value <==>
        exists i :: 0 <= i < |java| && h == HitOf(java[i]) && MatchesQuery(java[i].1, QueryTerms(query)) == Success(true)
    ensures SearchSpec(sql, java, query, "java").Success? ==>
      SearchSpec(sql, java, query, "java").value == Kept(java, QueryTerms(query))
  {
    var terms := QueryTerms(query);
    var j := FilterMatches(java, terms);
    JavaOnly(sql, java, query);
    CombineSpec(Success([]), j);
    FilterFailure(java, terms);
    if j.Success? {
      assert [] + j.value == j.value;
      FilterMembers(java, terms);
      FilterKept(java, terms);
    }
  }

  /** One search loop appending to `results`. */
  method AppendMatches(results: seq<Hit>, es: Entries, terms: seq<string>) returns (r: Result<seq<Hit>, QueryError>)
    ensures FilterMatches(es, terms).Failure? ==> r == FilterMatches(es, terms)
    ensures FilterMatches(es, terms).Success? ==> r == Success(results + FilterMatches(es, terms).value)
  {
    var acc := results;
    var i := 0;
    while i < |es|
      invariant 0 <= i <= |es|
      invariant FilterMatches(es[..i], terms).Success?
      invariant acc == results + FilterMatches(es[..i], terms).value
    {
      assert es[..i + 1][..i] == es[..i];
      var m := MatchesQuery(es[i].1, terms);
      if m.Failure? {
        FilterPrefixFailure(es, terms, i + 1);
        return Failure(m.error);
      }
      if m.value {
        acc := acc + [HitOf(es[i])];
      }
      i := i + 1;
    }
    assert es[..|es|] == es;
    return Success(acc);
  }

  /** A failure in a prefix is the failure of the whole loop. */
  lemma {:induction false} FilterPrefixFailure(es: Entries, terms: seq<string>, n: nat)
    requires n <= |es| && FilterMatches(es[..n], terms).Failure?
    ensures FilterMatches(es, terms) == FilterMatches(es[..n], terms)
    decreases |es| - n
  {
    if n < |es| {
      assert es[..n + 1][..n] == es[..n];
      FilterPrefixFailure(es, terms, n + 1);
    } else {
      assert es[..n] == es;
    }
  }

  /** The index object (`self.index`). */
  class MetadataIndex {
    var sqlConfigs: Entries
    var javaClasses: Entries

    /** Both maps are dictionaries: no key twice. */
    predicate Valid()
      reads this
    {
      DistinctKeys(sqlConfigs) && DistinctKeys(javaClasses)
    }

    /** A fresh index, with no index file on disk: both maps empty. */
    constructor ()
      ensures sqlConfigs == [] && javaClasses == []
      ensures Valid()
    {
      sqlConfigs := [];
      javaClasses := [];
    }

    /** `scan_sql_configs`: a missing directory returns `{}` and leaves the
        index alone; otherwise the SQL map becomes the scan's map. */
    method ScanSqlConfigs(dir: Directory) returns (configs: Entries)
      requires Valid()
      modifies this
      ensures Valid()
      ensures dir.Missing? ==> configs == [] && sqlConfigs == old(sqlConfigs)
      ensures dir.Present? ==> configs == Collect(SqlComment, dir.files) && sqlConfigs == configs
      ensures javaClasses == old(javaClasses)
    {
      if dir.Missing? {
        return [];
      }
      configs := CollectFiles(SqlComment, dir.files);
      sqlConfigs := configs;
    }

    /** `scan_java_classes`, the same for the Java map. */
    method ScanJavaClasses(dir: Directory) returns (classes: Entries)
      requires Valid()
      modifies this
      ensures Valid()
      ensures dir.Missing? ==> classes == [] && javaClasses == old(javaClasses)
      ensures dir.Present? ==> classes == Collect(Javadoc, dir.files) && javaClasses == classes
      ensures sqlConfigs == old(sqlConfigs)
    {
      if dir.Missing? {
        return [];
      }
      classes := CollectFiles(Javadoc, dir.files);
      javaClasses := classes;
    }

    /** `search`: the two loops over the maps. */
    method Search(query: string, fileType: string) returns (r: Result<seq<Hit>, QueryError>)
      ensures r == SearchSpec(sqlConfigs, javaClasses, query, fileType)
    {
      var terms := QueryTerms(query);
      ghost var s := Searched(SearchesSql(fileType), sqlConfigs, terms);
      ghost var j := Searched(SearchesJava(fileType), javaClasses, terms);
      CombineSpec(s, j);
      var results: seq<Hit> := [];
      if fileType == "sql" || fileType == "all" {
        var part := AppendMatches(results, sqlConfigs, terms);
        if part.Failure? {
          return part;
        }
        results := part.value;
        assert results == s.value;
      }
      if fileType == "java" || fileType == "all" {
        var part := AppendMatches(results, javaClasses, terms);
        if part.Failure? {
          return part;
        }
        results := part.value;
      } else {
        assert results == results + j.value;
      }
      assert results == s.value + j.value;
      return Success(results);
    }
  }
}
