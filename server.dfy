/**
 * The tool layer of the MCP server over the shared index object: lazy scans
 * before a search, match counts, the rebuild summary, and the e-mail
 * inquiry stub.
 */
module Server {
  import opened Options
  import opened Markers
  import opened Extract
  import opened Query
  import opened Catalog

  /** The map a scan of `dir` returns. */
  function ScanResult(style: Style, dir: Directory): (es: Entries)
    ensures dir.Missing? ==> es == []
  {
    match dir
    case Missing => []
    case Present(files) => Collect(style, files)
  }

  /** The map of one kind after a scan of `dir` over the map `old_`: a
      missing directory leaves it as it was. */
  function AfterScan(style: Style, dir: Directory, old_: Entries): Entries {
    if dir.Missing? then old_ else Collect(style, dir.files)
  }

  /** The map searched after the lazy-scan rule: an empty map is rescanned
      first, any other is used as it is. */
  function LazyScan(style: Style, dir: Directory, current: Entries): (es: Entries)
    ensures current != [] ==> es == current
    ensures current == [] && dir.Missing? ==> es == []
    ensures current == [] && dir.Present? ==> es == Collect(style, dir.files)
  {
    if current == [] then AfterScan(style, dir, current) else current
  }

  /** An empty scan leaves the map empty, so the next search scans again. */
  lemma ScanRepeats(style: Style, dir: Directory)
    requires dir.Missing? || Collect(style, dir.files) == []
    ensures LazyScan(style, dir, []) == []
    ensures LazyScan(style, dir, LazyScan(style, dir, [])) == LazyScan(style, dir, [])
  {
  }

  /** The dictionary `search_sql_configs` and `search_java_code` return;
      `matches` is `config_files` or `java_classes`. */
  datatype SearchResponse = SearchResponse(
    status: string,
    searchKeywords: string,
    matchesFound: nat,
    matches: seq<Hit>)

  /** The response to a search's outcome. */
  function Respond(keywords: string, found: Result<seq<Hit>, QueryError>): (r: Result<SearchResponse, QueryError>)
    ensures r.Failure? <==> found.Failure?
    ensures found.Failure? ==> r.error == found.error
    ensures r.Success? ==> r.value.status == "success" && r.value.searchKeywords == keywords
    ensures r.Success? ==> r.value.matches == found.value && r.value.matchesFound == |found.value|
  {
    match found
    case Failure(e) => Failure(e)
    case Success(ms) => Success(SearchResponse("success", keywords, |ms|, ms))
  }

  /** `search_sql_configs`: scan `configDirectory` only when the SQL map is
      empty, then search the SQL map. */
  method SearchSqlConfigs(index: MetadataIndex, searchKeywords: string, configDirectory: Directory)
    returns (r: Result<SearchResponse, QueryError>)
    requires index.Valid()
    modifies index
    ensures index.Valid()
    ensures index.sqlConfigs == LazyScan(SqlComment, configDirectory, old(index.sqlConfigs))
    ensures index.javaClasses == old(index.javaClasses)
    ensures r == Respond(searchKeywords, SearchSpec(index.sqlConfigs, index.javaClasses, searchKeywords, "sql"))
    ensures r.Success? ==> r.value.matchesFound == |r.value.matches|
  {
    if index.sqlConfigs == [] {
      var _ := index.ScanSqlConfigs(configDirectory);
    }
    var matches := index.Search(searchKeywords, "sql");
    r := Respond(searchKeywords, matches);
  }

  /** `search_java_code`: the same rule for the Java map. */
  method SearchJavaCode(index: MetadataIndex, searchKeywords: string, codeDirectory: Directory)
    returns (r: Result<SearchResponse, QueryError>)
    requires index.Valid()
    modifies index
    ensures index.Valid()
    ensures index.javaClasses == LazyScan(Javadoc, codeDirectory, old(index.javaClasses))
    ensures index.sqlConfigs == old(index.sqlConfigs)
    ensures r == Respond(searchKeywords, SearchSpec(index.sqlConfigs, index.javaClasses, searchKeywords, "java"))
    ensures r.Success? ==> r.value.matchesFound == |r.value.matches|
  {
    if index.javaClasses == [] {
      var _ := index.ScanJavaClasses(codeDirectory);
    }
    var matches := index.Search(searchKeywords, "java");
    r := Respond(searchKeywords, matches);
  }

  /** The summary `rebuild_metadata_index` returns (the index file's path is
      not modelled). */
  datatype RebuildSummary = RebuildSummary(
    status: string,
    sqlConfigsIndexed: nat,
    javaClassesIndexed: nat,
    totalFilesIndexed: nat)

  /** The summary of two scan results. */
  function Summarize(configs: Entries, classes: Entries): (s: RebuildSummary)
    ensures s.status == "success"
    ensures s.sqlConfigsIndexed == |configs| && s.javaClassesIndexed == |classes|
    ensures s.totalFilesIndexed == s.sqlConfigsIndexed + s.javaClassesIndexed
  {
    RebuildSummary("success", |configs|, |classes|, |configs| + |classes|)
  }

  /** `rebuild_metadata_index`: scan the configs, then the code, and count
      what each scan returned. */
  method RebuildMetadataIndex(index: MetadataIndex, configDirectory: Directory, codeDirectory: Directory)
    returns (s: RebuildSummary)
    requires index.Valid()
    modifies index
    ensures index.Valid()
    ensures index.sqlConfigs == AfterScan(SqlComment, configDirectory, old(index.sqlConfigs))
    ensures index.javaClasses == AfterScan(Javadoc, codeDirectory, old(index.javaClasses))
    ensures s == Summarize(ScanResult(SqlComment, configDirectory), ScanResult(Javadoc, codeDirectory))
  {
    var configs := index.ScanSqlConfigs(configDirectory);
    var classes := index.ScanJavaClasses(codeDirectory);
    s := Summarize(configs, classes);
  }

  /** A missing directory counts 0 but keeps what was indexed of that kind. */
  lemma RebuildMissing(configDirectory: Directory, codeDirectory: Directory, sql: Entries)
    requires configDirectory.Missing?
    ensures Summarize(ScanResult(SqlComment, configDirectory), ScanResult(Javadoc, codeDirectory)).sqlConfigsIndexed == 0
    ensures AfterScan(SqlComment, configDirectory, sql) == sql
  {
  }

  /** When the walk yields distinct paths, a rebuild counts exactly the files
      that yield a record. */
  lemma RebuildCounts(configs: seq<SourceFile>, classes: seq<SourceFile>)
    requires DistinctRelatives(configs) && DistinctRelatives(classes)
    ensures Summarize(ScanResult(SqlComment, Present(configs)), ScanResult(Javadoc, Present(classes))).totalFilesIndexed ==
      |Yielded(SqlComment, configs)| + |Yielded(Javadoc, classes)|
  {
    CollectYielded(SqlComment, configs);
    CollectYielded(Javadoc, classes);
  }

  /** The dictionary `parse_email_inquiry` returns. */
  datatype Inquiry = Inquiry(
    status: string,
    inquiryType: string,
    tradeIds: seq<string>,
    timePeriod: Option<string>,
    priority: string,
    suggestedActions: seq<string>,
    rawContent: string)

  /** `email_content[:200]`: the whole text when it is shorter. */
  function Preview(email: string): (p: string)
    ensures |p| == if |email| < 200 then |email| else 200
    ensures p <= email
  {
    if |email| <= 200 then email else email[..200]
  }

  /** `parse_email_inquiry`: a fixed record around a preview of the mail. */
  function ParseEmailInquiry(email: string): (r: Inquiry)
    ensures r.status == "parsed" && r.inquiryType == "trade_investigation"
    ensures r.tradeIds == [] && r.timePeriod.None? && r.priority == "medium"
    ensures r.suggestedActions ==
      ["Search for relevant config files", "Check trade history", "Generate compliance report"]
    ensures r.rawContent == Preview(email) + "..."
  {
    Inquiry("parsed", "trade_investigation", [], None, "medium",
      ["Search for relevant config files", "Check trade history", "Generate compliance report"],
      Preview(email) + "...")
  }

  /** Two mails get the same answer iff their first 200 characters agree. */
  lemma InquiryDependsOnPreview(a: string, b: string)
    ensures ParseEmailInquiry(a) == ParseEmailInquiry(b) <==> Preview(a) == Preview(b)
  {
    if ParseEmailInquiry(a) == ParseEmailInquiry(b) {
      var pa := Preview(a) + "...";
      var pb := Preview(b) + "...";
      assert pa == pb;
      assert Preview(a) == pa[..|pa| - 3];
      assert Preview(b) == pb[..|pb| - 3];
    }
  }

  /** A mail of at most 200 characters is previewed whole. */
  lemma ShortInquiry(email: string)
    requires |email| <= 200
    ensures ParseEmailInquiry(email).rawContent == email + "..."
  {
  }
}
