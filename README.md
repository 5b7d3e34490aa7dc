# Trade-surveillance metadata index, modelled in Dafny

This project models the metadata index of the trade-surveillance MCP server
and proves properties of the model. Configuration files (`.sql`) and Java
classes carry annotation markers (`@keywords`, `@type`, `@description`). The
index scans two directory trees for those markers, keeps one record per
annotated file under its relative path, and answers keyword queries over the
records. The server's tools wrap the index:

- a search over SQL configs or Java code, which first scans when that kind's map is empty;
- a rebuild that rescans both trees and counts the results;
- a stub that "parses" an inquiry e-mail.

The model also covers the CSV writer and the suspicious-transaction check of
the audit report test, together with that test's mock data.

Modules:

- `Options`: `Option` and `Result`.
- `Text`: the Python string operations the code relies on (`strip`, `lower`, `split(',')`, `join`, `in`), on ASCII.
- `Markers`: the marker regular expressions, modelled as leftmost `re.search` with greedy, backtracking quantifiers.
- `MethodDecls`: the `re.findall` scan for public method names.
- `Extract`: `_extract_sql_metadata` and `_extract_java_metadata`.
- `AssocList`: insertion-ordered Python dictionaries, written as association lists.
- `Query`: the query terms (`re.split(r'[,\s]+')`) and `_matches_query`.
- `Catalog`: the scans and `search`, and the `MetadataIndex` class whose two maps the methods update.
- `Server`: the tool logic of `search_sql_configs`, `search_java_code`, `rebuild_metadata_index` and `parse_email_inquiry`.
- `CsvReport`: `writeReportToCSV`, plus a decoder for RFC 4180 section 2 records used to prove the round trip.
- `Audit`: the HIGH/CRITICAL filter and `generateMockAuditData`.

In several places the code does something other than what a reader of its
docstrings might expect. The model follows the code:

- Keywords are only stripped. They are not lower-cased, deduplicated or filtered, so `@keywords: a,,b` gives `["a", "", "b"]`.
- A file with a keywords marker always yields a record, since a split yields at least one piece.
- A file without a keywords marker yields a record only when its type value is non-empty.
- A query that is empty, or that starts or ends with a separator, yields the term `""`. That term matches every record.
- `_matches_query` raises `TypeError` when a record has no type or no description. This is modelled as a `Failure` that ends the search and the tool call.
- Each search tool rescans only its own kind, and only while that kind's map is empty. A scan that finds nothing therefore repeats on every search.
- A scan of a missing directory returns `{}` and leaves the previous map in place; the rebuild then reports 0 for that kind.
- In a search result, the record's own `type` key overrides the `"sql_config"`/`"java_class"` label, because `**metadata` comes after it.

## Model

| member | source | states |
|---|---|---|
| Markers.Search | trade_surveillance_mcp/metadata_index.py:71 | the captured group of a marker search is never empty and never holds a newline |
| Markers.SearchNone | trade_surveillance_mcp/metadata_index.py:71-72 | the search fails iff the pattern matches at no start position |
| Markers.SearchLeftmost | trade_surveillance_mcp/metadata_index.py:77 | the value returned is the one captured at the leftmost start position where the pattern matches |
| Markers.FirstMatch | trade_surveillance_mcp/metadata_index.py:82 | the position found matches, and no earlier position matches; none is found iff no position matches |
| Markers.ValueStartMaximal | trade_surveillance_mcp/metadata_index.py:138 | the group starts at the largest split of the whitespace run that lets `[^\n]+` match (greedy backtracking); there is none iff no split works |
| Markers.CaptureExists | trade_surveillance_mcp/metadata_index.py:132 | after the tag, the group is captured iff some split of the run lets `([^\n]+)` match |
| Markers.TagPositionUnique | trade_surveillance_mcp/metadata_index.py:71 | the tag can only stand right after the maximal whitespace run that follows the lead |
| Markers.MarkerMatch | trade_surveillance_mcp/metadata_index.py:77-79 | at the start of a `<lead> <tag> <value>` line the pattern matches and captures the value |
| Markers.NoMatchBefore | trade_surveillance_mcp/metadata_index.py:143 | with no tag before a lead, no earlier position matches |
| Markers.MarkerLine | trade_surveillance_mcp/metadata_index.py:132-145 | the first marker line of a field is what the search returns, up to the end of its line |
| MethodDecls.DeclAt | trade_surveillance_mcp/metadata_index.py:148 | a match at a position captures a word and ends just after a `(` |
| MethodDecls.TailSpec | trade_surveillance_mcp/metadata_index.py:148 | the tail `[\w<>\[\]]+\s+(\w+)\s*\(` is found from a position iff it can match there (`TailMatch`, runs at any split), and the match found is that one |
| MethodDecls.ModifierSpec | trade_surveillance_mcp/metadata_index.py:148 | the reading with `static\s+` succeeds iff `static`, whitespace and the tail can match, with that match |
| MethodDecls.ReadingSpec | trade_surveillance_mcp/metadata_index.py:148 | trying the modifier first and the tail alone after it gives exactly the matches of `(?:static\s+)?` plus the tail; the two readings never both succeed |
| MethodDecls.DeclSpec | trade_surveillance_mcp/metadata_index.py:148 | the scan's result at a position is `Some((n, e))` iff the whole pattern can match there capturing `n` and ending at `e` (`DeclMatch`, defined on the pattern's parts) |
| MethodDecls.DeclMatchUnique | trade_surveillance_mcp/metadata_index.py:148 | at a given start position the pattern has at most one match |
| MethodDecls.PlainDeclMatched | trade_surveillance_mcp/metadata_index.py:148 | `public <Type> <name>(` is matched and yields `name`, even when the type is called `static` |
| MethodDecls.StaticDeclMatched | trade_surveillance_mcp/metadata_index.py:148 | `public static <Type> <name>(` is matched through the optional modifier |
| MethodDecls.ConstructorNotMatched | trade_surveillance_mcp/metadata_index.py:148 | a constructor `public <Name>(` yields no name |
| MethodDecls.CommaInTypeNotMatched | trade_surveillance_mcp/metadata_index.py:148 | a return type with a comma, such as `List<Map<String, Object>>`, yields no name |
| MethodDecls.ClassNotMatched | trade_surveillance_mcp/metadata_index.py:148 | a class declaration `public class X {` yields no name |
| MethodDecls.GapSkipped | trade_surveillance_mcp/metadata_index.py:149 | `findall` finds nothing across text without `public` |
| MethodDecls.LayoutScan | trade_surveillance_mcp/metadata_index.py:148-150 | over a text made of declarations, `findall` returns exactly the method names, in order |
| MethodDecls.SettlementReportGeneratorMethods | examples/src/SettlementReportGenerator.java:15-58 | the class line and the constructor are skipped, and the three methods are listed in order |
| MethodDecls.TransactionAuditProcessorMethods | examples/src/main/java/com/trade/surveillance/TransactionAuditProcessor.java:14-57 | the two `List<Map<String, Object>>` methods are missed; only `generateComplianceReport` is listed |
| Text.StripSpec | trade_surveillance_mcp/metadata_index.py:79 | `strip()` keeps a slice that neither begins nor ends with whitespace, and removes only whitespace |
| Text.SplitCount | trade_surveillance_mcp/metadata_index.py:73 | `split(',')` yields one piece more than there are commas |
| Text.SplitJoin | trade_surveillance_mcp/metadata_index.py:134 | `split` undoes `join` when no piece holds the separator |
| Text.SubstringAt | trade_surveillance_mcp/metadata_index.py:203 | `term in text` holds iff the term occurs at some position of the text |
| Text.LowerIdempotent | trade_surveillance_mcp/metadata_index.py:200 | lower-casing twice is lower-casing once |
| Extract.FileName | trade_surveillance_mcp/metadata_index.py:60 | `Path.name` is the slash-free suffix of the path that follows its last slash |
| Extract.JavaFileName | trade_surveillance_mcp/metadata_index.py:119-120 | the name and the stem of `<dir>/<X>.java` are `X.java` and `X` |
| Extract.KeywordList | trade_surveillance_mcp/metadata_index.py:73 | one keyword per comma-separated piece, each stripped |
| Extract.KeywordCount | trade_surveillance_mcp/metadata_index.py:73-74 | the keyword list has one entry more than the value has commas, so it is never empty |
| Extract.SpacedKeywords | trade_surveillance_mcp/metadata_index.py:134 | keywords written `a, b, c` read back as exactly those keywords |
| Extract.RecordIffMarker | trade_surveillance_mcp/metadata_index.py:86-88 | a file yields a record iff it is readable and has a keywords marker or a non-empty type value |
| Extract.RecordFields | trade_surveillance_mcp/metadata_index.py:58-84 | a record holds the path, the file name, and the stripped first type and description values; only Java records carry the Java keys |
| Extract.MarkedKeywords | trade_surveillance_mcp/metadata_index.py:71-74 | a keywords marker makes a record whose keywords are the pieces of its value |
| Extract.DescriptionOnly | trade_surveillance_mcp/metadata_index.py:152 | a description marker alone makes no record |
| Extract.UnreadableNone | trade_surveillance_mcp/metadata_index.py:87-88 | a file that cannot be read makes no record and raises no error |
| Extract.JavaFactsOf | trade_surveillance_mcp/metadata_index.py:117-150 | a Java record is named after the stem of its file and lists the public methods of its text |
| Extract.SettlementReportGeneratorRecord | examples/src/SettlementReportGenerator.java:11-13 | that file's marker lines give a record with its five keywords and the type `report_generator` |
| AssocList.Get | trade_surveillance_mcp/metadata_index.py:109 | the lookup in which the contract of `d[k] = v` is stated: it fails iff the key is absent, and otherwise returns a value stored under the key |
| AssocList.PutGet | trade_surveillance_mcp/metadata_index.py:50 | after `d[k] = v`, the key maps to `v` |
| AssocList.PutOther | trade_surveillance_mcp/metadata_index.py:50 | `d[k] = v` leaves every other key's value unchanged |
| AssocList.PutKeys | trade_surveillance_mcp/metadata_index.py:109 | `d[k] = v` keeps the key order and appends a new key at the end |
| AssocList.PutDistinct | trade_surveillance_mcp/metadata_index.py:109 | `d[k] = v` keeps the keys distinct |
| Query.SplitRuns | trade_surveillance_mcp/metadata_index.py:167 | `re.split(r'[,\s]+')` yields at least one piece, and no piece holds a separator |
| Query.SplitRunsKept | trade_surveillance_mcp/metadata_index.py:167 | the pieces put together are the query without its separators |
| Query.SplitRunsInner | trade_surveillance_mcp/metadata_index.py:167 | only the first and the last piece can be empty |
| Query.SplitRunsLast | trade_surveillance_mcp/metadata_index.py:167 | the last piece is empty iff the query is empty or ends with a separator |
| Query.SplitRunsJoin | trade_surveillance_mcp/metadata_index.py:161-167 | a query typed as space-separated words splits back into those words |
| Query.QueryTerms | trade_surveillance_mcp/metadata_index.py:167 | one lower-cased, stripped term per piece |
| Query.EmptyTerm | trade_surveillance_mcp/metadata_index.py:167 | an empty query, or one that begins or ends with a separator, yields the empty term |
| Query.QueryTermsAreLower | trade_surveillance_mcp/metadata_index.py:167 | every term is lower case |
| Query.QueryCaseInsensitive | trade_surveillance_mcp/metadata_index.py:167 | lower-casing the query first gives the same terms |
| Query.Searchable | trade_surveillance_mcp/metadata_index.py:195-200 | the searchable text fails iff the type or the description is missing, and is lower case |
| Query.SearchableJoin | trade_surveillance_mcp/metadata_index.py:195-200 | the searchable text is the lower-cased join of keywords, type, description and file name |
| Query.AnyTermSpec | trade_surveillance_mcp/metadata_index.py:203 | `any` holds iff one of the terms occurs in the text |
| Query.MatchesQuerySpec | trade_surveillance_mcp/metadata_index.py:192-203 | matching fails iff the type or the description is missing, and otherwise holds iff some term occurs in the searchable text |
| Query.EmptyTermMatches | trade_surveillance_mcp/metadata_index.py:203 | the empty term matches every complete record |
| Query.FileNameHit | trade_surveillance_mcp/metadata_index.py:199 | a lower-case term found in the file name matches |
| Query.TypeHit | trade_surveillance_mcp/metadata_index.py:197 | a lower-case term found in the type matches |
| Query.KeywordHit | trade_surveillance_mcp/metadata_index.py:196 | a lower-case term found in one keyword matches |
| Catalog.CollectDistinct | trade_surveillance_mcp/metadata_index.py:46-50 | a scan's map never holds a key twice |
| Catalog.YieldedMembers | trade_surveillance_mcp/metadata_index.py:47-50 | an entry is in the reference list iff some walked file with that relative path yields that record |
| Catalog.CollectYielded | trade_surveillance_mcp/metadata_index.py:105-109 | when the walk yields distinct paths, the scan's map is one entry per file with a record, in walk order |
| Catalog.CollectFiles | trade_surveillance_mcp/metadata_index.py:46-50 | the scan loop builds the scan's map, with distinct keys |
| Catalog.FilterFailure | trade_surveillance_mcp/metadata_index.py:172-173 | a search loop fails iff some entry lacks a type or a description |
| Catalog.FilterMembers | trade_surveillance_mcp/metadata_index.py:172-178 | a loop's results are exactly the hits of the matching entries |
| Catalog.FilterAppend | trade_surveillance_mcp/metadata_index.py:172-178 | the loop over two maps laid end to end returns the first loop's results followed by the second's |
| Catalog.FilterKept | trade_surveillance_mcp/metadata_index.py:172-178 | a loop that succeeds returns one hit per matching entry, in map order (`Kept`, built front to back) |
| Catalog.FilterLabels | trade_surveillance_mcp/metadata_index.py:174-177 | a result's `type` is the record's own type, which is never missing |
| Catalog.FilterLength | trade_surveillance_mcp/metadata_index.py:172-178 | a loop returns at most one result per entry |
| Catalog.FilterEmptyTerm | trade_surveillance_mcp/metadata_index.py:173 | with the empty term, a loop returns every entry in map order, unless some record is incomplete |
| Catalog.FilterPrefixFailure | trade_surveillance_mcp/metadata_index.py:183 | a failure in a prefix of the map is the failure of the whole loop |
| Catalog.AppendMatches | trade_surveillance_mcp/metadata_index.py:182-188 | the loop appends the matching hits to the results, or fails as the loop does |
| Catalog.SearchOtherType | trade_surveillance_mcp/metadata_index.py:171-190 | a `file_type` other than `sql`, `java` and `all` returns no results |
| Catalog.SearchAll | trade_surveillance_mcp/metadata_index.py:171-190 | `all` gives the SQL results followed by the Java results, and either loop's failure ends it |
| Catalog.SearchSql | trade_surveillance_mcp/metadata_index.py:171-178 | a SQL search succeeds iff every SQL record is complete, and then returns one hit per matching entry, in map order |
| Catalog.SearchJava | trade_surveillance_mcp/metadata_index.py:181-188 | the same for a Java search: success iff every Java record is complete, then one hit per matching entry, in map order |
| Catalog.SearchCaseInsensitive | trade_surveillance_mcp/metadata_index.py:167 | a search ignores the case of its query |
| Catalog.EmptyTermSql | trade_surveillance_mcp/metadata_index.py:167-178 | a query whose terms hold `""` lists every SQL record, in map order |
| Catalog.EmptyQuerySql | trade_surveillance_mcp/metadata_index.py:167-178 | the empty query lists every SQL record, in map order |
| Catalog.MetadataIndex.constructor | trade_surveillance_mcp/metadata_index.py:17-26 | with no index file, both maps start empty |
| Catalog.MetadataIndex.ScanSqlConfigs | trade_surveillance_mcp/metadata_index.py:33-54 | a missing directory returns `{}` and leaves the index alone; otherwise the SQL map is replaced by the scan's map, and the Java map is unchanged |
| Catalog.MetadataIndex.ScanJavaClasses | trade_surveillance_mcp/metadata_index.py:90-113 | the same for the Java map |
| Catalog.MetadataIndex.Search | trade_surveillance_mcp/metadata_index.py:156-190 | the result is the search of the current maps, SQL then Java |
| Server.LazyScan | trade_surveillance_mcp/server.py:95-98 | a non-empty map is used as it is; an empty one is replaced by a fresh scan, or stays empty if the directory is missing |
| Server.ScanRepeats | trade_surveillance_mcp/server.py:141-143 | a scan that finds nothing leaves the map empty, so the next search scans again |
| Server.Respond | trade_surveillance_mcp/server.py:103-108 | a response fails iff the search fails; otherwise it holds the keywords, the matches and their count |
| Server.SearchSqlConfigs | trade_surveillance_mcp/server.py:93-111 | the SQL map follows the lazy-scan rule, the Java map is unchanged, and the response is that of a SQL search |
| Server.SearchJavaCode | trade_surveillance_mcp/server.py:138-156 | the same for the Java map and a Java search |
| Server.Summarize | trade_surveillance_mcp/server.py:225-229 | the total is the sum of the two counts |
| Server.RebuildMetadataIndex | trade_surveillance_mcp/server.py:220-234 | both kinds are rescanned, and the summary counts the maps the scans returned |
| Server.RebuildMissing | trade_surveillance_mcp/server.py:222 | a missing directory counts 0 and keeps what was indexed of that kind |
| Server.RebuildCounts | trade_surveillance_mcp/server.py:222-229 | the total is the number of files that yield a record |
| Server.Preview | trade_surveillance_mcp/server.py:64 | `email[:200]` is a prefix of the mail, of length `min(len, 200)` |
| Server.ParseEmailInquiry | trade_surveillance_mcp/server.py:53-65 | the answer is fixed except for the preview followed by `...` |
| Server.InquiryDependsOnPreview | trade_surveillance_mcp/server.py:64 | two mails get the same answer iff their first 200 characters agree |
| Server.ShortInquiry | trade_surveillance_mcp/server.py:64 | a mail of at most 200 characters is quoted whole |
| CsvReport.DoubleQuotes | examples/src/test/java/com/trade/surveillance/TransactionAuditProcessorTest.java:187 | doubling quotes adds one character per quote |
| CsvReport.EscapeField | examples/src/test/java/com/trade/surveillance/TransactionAuditProcessorTest.java:187 | an escaped field begins and ends with a quote |
| CsvReport.EscapeRow | examples/src/test/java/com/trade/surveillance/TransactionAuditProcessorTest.java:185-188 | the new array holds every field of the row, escaped |
| CsvReport.WriteReportToCsv | examples/src/test/java/com/trade/surveillance/TransactionAuditProcessorTest.java:181-193 | the text written is the encoding of the data, one line per row |
| CsvReport.EscapedRoundTrip | examples/src/test/java/com/trade/surveillance/TransactionAuditProcessorTest.java:187 | an escaped field reads back as the field when no quote follows its closing quote |
| CsvReport.FieldRoundTrip | examples/src/test/java/com/trade/surveillance/TransactionAuditProcessorTest.java:187-189 | a field before a comma or a line break reads back as the field |
| CsvReport.RecordRoundTrip | examples/src/test/java/com/trade/surveillance/TransactionAuditProcessorTest.java:189-190 | an encoded non-empty row reads back as its fields, whatever follows it |
| CsvReport.ReportRoundTrip | examples/src/test/java/com/trade/surveillance/TransactionAuditProcessorTest.java:181-193 | the written file decodes back to the data when no row is empty, commas, quotes and line breaks in fields included |
| CsvReport.EmptyRowReadsAsOneField | examples/src/test/java/com/trade/surveillance/TransactionAuditProcessorTest.java:189-190 | an empty row is written as a bare line break, which reads back as one empty field |
| CsvReport.EncodeReportAppend | examples/src/test/java/com/trade/surveillance/TransactionAuditProcessorTest.java:183 | the file is the concatenation of the rows' lines |
| Audit.DetectSuspicious | examples/src/test/java/com/trade/surveillance/TransactionAuditProcessorTest.java:128-135 | the loop computes the suspicious ids, or the first row too short to have a risk level |
| Audit.ShortRowStops | examples/src/test/java/com/trade/surveillance/TransactionAuditProcessorTest.java:130 | once a row is too short, the outcome no longer changes |
| Audit.SuspiciousFails | examples/src/test/java/com/trade/surveillance/TransactionAuditProcessorTest.java:130 | the check fails iff some data row has fewer than eight columns |
| Audit.SuspiciousMembers | examples/src/test/java/com/trade/surveillance/TransactionAuditProcessorTest.java:132-133 | for well-formed data, an id is collected iff some data row with that id is HIGH or CRITICAL |
| Audit.HeaderIgnored | examples/src/test/java/com/trade/surveillance/TransactionAuditProcessorTest.java:128 | the header row never affects the outcome |
| Audit.SuspiciousLength | examples/src/test/java/com/trade/surveillance/TransactionAuditProcessorTest.java:128-135 | at most one id is collected per data row |
| Audit.SuspiciousStep | examples/src/test/java/com/trade/surveillance/TransactionAuditProcessorTest.java:129-134 | a well-formed row adds its id iff it is flagged |
| Audit.MockAuditData | examples/src/test/java/com/trade/surveillance/TransactionAuditProcessorTest.java:160-176 | the mock data has a header and ten rows |
| Audit.MockColumns | examples/src/test/java/com/trade/surveillance/TransactionAuditProcessorTest.java:102-111 | the header and every row have nine columns, and the header is the one listed |
| Audit.MockSuspicious | examples/src/test/java/com/trade/surveillance/TransactionAuditProcessorTest.java:137 | the check finds TXN-200003, -200004, -200005, -200007 and -200010, so the list is not empty |

## Left out

- The index file: `_load_index` reading an existing JSON file, `_save_index`, and the `index_file` path in the rebuild summary. These are file I/O. The model starts from the no-file default and does not model persistence.
- The directory walk (`Path.exists`, `rglob`) and reading files (`open`, `read`, decoding). These are I/O. A directory is a value `Directory`, either `Missing` or `Present(files)`. A file is its path, its relative path, and its text or `None` when reading raises.
- Unicode: `\s`, `\w`, `str.isspace`, `str.lower` and IGNORECASE are modelled on ASCII only.
- The MCP framework, `async`, logging, and the tools `execute_java_report` and `generate_response_summary`. These lie outside the index logic.
- The module-level `metadata_index` singleton: it is a `MetadataIndex` object passed to each tool.
- The server tools' default directory arguments: the caller passes the directory.
- `MethodDecls.LayoutScan`: the layouts cover plain methods, constructors, class declarations and comma-typed returns. `public static` methods are proved separately (`MethodDecls.StaticDeclMatched`) and are not part of the layout fixtures. Text between declarations must hold no `public`.
- The fixture lemmas (`Extract.SettlementReportGeneratorRecord`, `MethodDecls.SettlementReportGeneratorMethods`, `MethodDecls.TransactionAuditProcessorMethods`) describe the files by their marker lines and declaration layout rather than by their full text.
- CsvReport.ReportRoundTrip: holds only for data whose rows are all non-empty. An empty row becomes an empty line, which reads back as one empty field (`CsvReport.EmptyRowReadsAsOneField`).
- The CSV file itself: `FileWriter` and the report path. The writer produces a string. The decoder takes LF as the line break, because the writer emits LF, not the CRLF of RFC 4180.
- Java `null` fields (which `replace` would throw on): the model's strings are never null.
- `LocalDateTime.now()` and the timestamp formatting in the mock data: the ten timestamps are parameters of `Audit.MockAuditData`.
- The test methods' assertions and console output beyond the facts stated in the Audit lemmas.
