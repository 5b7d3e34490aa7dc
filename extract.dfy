/**
 * The two extractors of trade_surveillance_mcp/metadata_index.py,
 * `_extract_sql_metadata` and `_extract_java_metadata`: from one file's text
 * they build a metadata record out of its first `@keywords`, `@type` and
 * `@description` markers (and, for Java, the public method names), or report
 * that the file carries no record.
 */
module Extract {
  import opened Options
  import opened Text
  import opened Markers
  import opened MethodDecls

  /** One file the directory walk yields: `str(path)`, the path relative to
      the scan root, and the text, or `None` when opening or decoding it
      raises. */
  datatype SourceFile = SourceFile(path: string, relative: string, content: Option<string>)

  /** The two keys only Java records carry: `class_name` and `methods`. */
  datatype JavaFacts = JavaFacts(className: string, methods: seq<string>)

  /** A metadata record; `kind` is the `type` key, `None` where no marker
      was found. */
  datatype Record = Record(
    filePath: string,
    fileName: string,
    keywords: seq<string>,
    kind: Option<string>,
    description: Option<string>,
    java: Option<JavaFacts>)

  /** `Path.name`: the text after the last `/`. */
  function FileName(p: string): (n: string)
    ensures '/' !in n
    ensures |n| <= |p| && n == p[|p| - |n|..]
    ensures |n| == |p| || p[|p| - |n| - 1] == '/'
    decreases |p|
  {
    if '/' in p then FileName(p[1..]) else p
  }

  /** The name of a file in a directory is what follows the directory. */
  lemma {:induction false} FileNameOfJoin(dir: string, name: string)
    requires '/' !in name
    ensures FileName(dir + "/" + name) == name
    decreases |dir|
  {
    var p := dir + "/" + name;
    if dir == [] {
      assert p[1..] == name;
    } else {
      FileNameOfJoin(dir[1..], name);
      assert p[1..] == dir[1..] + "/" + name;
    }
  }

  /** `str.rfind('.')`: the position of the last dot. */
  function LastDot(name: string): (i: Option<nat>)
    ensures i.Some? ==> i.value < |name| && name[i.value] == '.'
    ensures i.Some? ==> forall t :: i.value < t < |name| ==> name[t] != '.'
    ensures i.None? ==> '.' !in name
  {
    if name == [] then None
    else if name[|name| - 1] == '.' then Some(|name| - 1)
    else LastDot(name[..|name| - 1])
  }

  /** `Path.stem`: the name without its last suffix; a leading dot or a
      trailing dot does not start a suffix. */
  function Stem(name: string): string {
    match LastDot(name)
    case Some(i) => if 0 < i < |name| - 1 then name[..i] else name
    case None => name
  }

  /** The class name of `X.java` is `X`. */
  lemma StemOfJava(x: string)
    requires x != []
    ensures Stem(x + ".java") == x
  {
    var name := x + ".java";
    var i := LastDot(name);
    assert name[|x|] == '.';
    assert forall t :: |x| < t < |name| ==> name[t] != '.';
    assert i.Some?;
    assert i.value == |x|;
    assert name[..|x|] == x;
  }

  /** `[k.strip() for k in g.split(',')]`. */
  function KeywordList(g: string): (ks: seq<string>)
    ensures |ks| == |Split(g, ',')|
    ensures forall i :: 0 <= i < |ks| ==> ks[i] == Strip(Split(g, ',')[i])
  {
    var parts := Split(g, ',');
    seq(|parts|, i requires 0 <= i < |parts| => Strip(parts[i]))
  }

  /** One keyword per comma-separated piece, empty pieces included: never an
      empty list. */
  lemma KeywordCount(g: string)
    ensures |KeywordList(g)| == Occurrences(g, ',') + 1
  {
    SplitCount(g, ',');
  }

  /** Joining comma-free pieces with commas and reading them back strips each
      piece. */
  lemma KeywordsOfJoin(ps: seq<string>)
    requires |ps| >= 1
    requires forall i :: 0 <= i < |ps| ==> ',' !in ps[i]
    ensures |KeywordList(Join(ps, ","))| == |ps|
    ensures forall i :: 0 <= i < |ps| ==> KeywordList(Join(ps, ","))[i] == Strip(ps[i])
  {
    SplitJoin(ps, ',');
  }

  /** Keywords written as `a, b, c` (trimmed, comma-free) read back exactly. */
  lemma KeywordsRoundTrip(ws: seq<string>)
    requires |ws| >= 1
    requires forall i :: 0 <= i < |ws| ==> ',' !in ws[i] && Strip(ws[i]) == ws[i]
    ensures KeywordList(Join(ws, ",")) == ws
  {
    KeywordsOfJoin(ws);
  }

  /** The `keywords` key: the pieces of the first keywords marker, or `[]`. */
  function KeywordsOf(c: string, style: Style): seq<string> {
    match Search(c, style, Keywords)
    case Some(g) => KeywordList(g)
    case None => []
  }

  /** The `type` and `description` keys: the stripped first marker value. */
  function FieldValue(c: string, style: Style, f: Field): Option<string> {
    match Search(c, style, f)
    case Some(g) => Some(Strip(g))
    case None => None
  }

  /** Python truthiness of the `type` value. */
  predicate Truthy(v: Option<string>) {
    v.Some? && v.value != ""
  }

  /** The record built from readable text, before the final truthiness test. */
  function Annotated(f: SourceFile, c: string, style: Style, java: Option<JavaFacts>): Record {
    Record(f.path, FileName(f.path), KeywordsOf(c, style), FieldValue(c, style, Type),
      FieldValue(c, style, Description), java)
  }

  /** `_extract_sql_metadata`. */
  function ExtractSql(f: SourceFile): Option<Record> {
    match f.content
    case None => None
    case Some(c) =>
      var r := Annotated(f, c, SqlComment, None);
      if r.keywords != [] || Truthy(r.kind) then Some(r) else None
  }

  /** `_extract_java_metadata`. */
  function ExtractJava(f: SourceFile): Option<Record> {
    match f.content
    case None => None
    case Some(c) =>
      var facts := JavaFacts(Stem(FileName(f.path)), PublicMethods(c));
      var r := Annotated(f, c, Javadoc, Some(facts));
      if r.keywords != [] || Truthy(r.kind) then Some(r) else None
  }

  /** The extractor of a style. */
  function ExtractAs(style: Style, f: SourceFile): Option<Record> {
    if style == SqlComment then ExtractSql(f) else ExtractJava(f)
  }

  /** A file yields a record iff it is readable and has a keywords marker or a
      type marker whose value is not blank. */
  lemma RecordIffMarker(style: Style, f: SourceFile)
    ensures ExtractAs(style, f).Some? <==>
      f.content.Some? &&
      (Search(f.content.value, style, Keywords).Some? || Truthy(FieldValue(f.content.value, style, Type)))
  {
    if f.content.Some? {
      match Search(f.content.value, style, Keywords)
      case Some(g) => KeywordCount(g);
      case None =>
    }
  }

  /** A record holds the file's path and name and the stripped values of the
      first type and description markers; only Java records carry the Java
      keys. */
  lemma RecordFields(style: Style, f: SourceFile)
    requires ExtractAs(style, f).Some?
    ensures f.content.Some?
    ensures var r := ExtractAs(style, f).value;
      r.filePath == f.path && r.fileName == FileName(f.path) &&
      r.kind == FieldValue(f.content.value, style, Type) &&
      r.description == FieldValue(f.content.value, style, Description) &&
      (style == SqlComment <==> r.java.None?)
  {
  }

  /** Once the keywords marker matches, the keyword list has one entry per
      comma-separated piece of its value, hence at least one. */
  lemma MarkedKeywords(style: Style, f: SourceFile)
    requires f.content.Some? && Search(f.content.value, style, Keywords).Some?
    ensures ExtractAs(style, f).Some?
    ensures ExtractAs(style, f).value.keywords == KeywordList(Search(f.content.value, style, Keywords).value)
    ensures |ExtractAs(style, f).value.keywords| == Occurrences(Search(f.content.value, style, Keywords).value, ',') + 1
  {
    var c := f.content.value;
    var g := Search(c, style, Keywords).value;
    KeywordCount(g);
    assert KeywordsOf(c, style) == KeywordList(g) != [];
    if style == SqlComment {
      assert ExtractSql(f) == Some(Annotated(f, c, SqlComment, None));
    } else {
      var facts := JavaFacts(Stem(FileName(f.path)), PublicMethods(c));
      assert ExtractJava(f) == Some(Annotated(f, c, Javadoc, Some(facts)));
    }
  }

  /** A description marker alone makes no record. */
  lemma DescriptionOnly(style: Style, f: SourceFile)
    requires f.content.Some?
    requires Search(f.content.value, style, Keywords).None? && Search(f.content.value, style, Type).None?
    ensures ExtractAs(style, f).None?
  {
  }

  /** An unreadable file makes no record, and no error. */
  lemma UnreadableNone(style: Style, f: SourceFile)
    requires f.content.None?
    ensures ExtractAs(style, f).None?
  {
  }

  /** The name and the stem of `<dir>/<x>.java`. */
  lemma JavaFileName(dir: string, x: string)
    requires x != [] && '/' !in x
    ensures FileName(dir + "/" + x + ".java") == x + ".java"
    ensures Stem(FileName(dir + "/" + x + ".java")) == x
  {
    assert dir + "/" + x + ".java" == dir + "/" + (x + ".java");
    FileNameOfJoin(dir, x + ".java");
    StemOfJava(x);
  }

  /** A Java record is named after its file and always lists its methods. */
  lemma JavaFactsOf(f: SourceFile, dir: string, x: string)
    requires f.path == dir + "/" + x + ".java" && x != [] && '/' !in x
    requires ExtractJava(f).Some?
    ensures ExtractJava(f).value.java == Some(JavaFacts(x, PublicMethods(f.content.value)))
    ensures ExtractJava(f).value.fileName == x + ".java"
  {
    JavaFileName(dir, x);
  }

  /** A keyword as people write it: not empty, no comma, no whitespace at
      either end. */
  predicate Trimmed(w: string) {
    w != [] && ',' !in w && !IsSpace(w[0]) && !IsSpace(w[|w| - 1])
  }

  /** Every piece after the first, as `, `-joining leaves it: behind a space. */
  function Prefixed(xs: seq<string>): (ps: seq<string>)
    ensures |ps| == |xs|
    ensures forall i :: 0 <= i < |xs| ==> ps[i] == " " + xs[i]
  {
    seq(|xs|, i requires 0 <= i < |xs| => " " + xs[i])
  }

  /** Joining with `, ` is joining the space-prefixed pieces with `,`. */
  lemma {:induction false} JoinPrefixed(xs: seq<string>)
    requires |xs| >= 1
    ensures Join(Prefixed(xs), ",") == " " + Join(xs, ", ")
    decreases |xs|
  {
    if |xs| > 1 {
      var ps := Prefixed(xs);
      assert ps[1..] == Prefixed(xs[1..]);
      JoinPrefixed(xs[1..]);
      ConcatAssoc(" " + xs[0], ",", " " + Join(xs[1..], ", "));
    }
  }

  /** A space after a piece's comma is stripped away. */
  lemma StripOneSpace(w: string)
    requires Trimmed(w)
    ensures Strip(" " + w) == w
  {
    assert (" " + w)[1..] == w;
    StripTrimmed(w);
  }

  /** The pieces `split(',')` sees in `Join(ws, ", ")`. */
  function SpacedPieces(ws: seq<string>): (ps: seq<string>)
    requires |ws| >= 1
    ensures |ps| == |ws| && ps[0] == ws[0]
    ensures forall i :: 1 <= i < |ws| ==> ps[i] == " " + ws[i]
  {
    [ws[0]] + Prefixed(ws[1..])
  }

  lemma SpacedJoin(ws: seq<string>)
    requires |ws| >= 1
    ensures Join(ws, ", ") == Join(SpacedPieces(ws), ",")
  {
    var ps := SpacedPieces(ws);
    if |ws| > 1 {
      var rest := Join(ws[1..], ", ");
      JoinPrefixed(ws[1..]);
      assert ps[1..] == Prefixed(ws[1..]);
      assert Join(ps, ",") == ws[0] + "," + (" " + rest);
      CommaSpace(ws[0], rest);
    }
  }

  lemma CommaSpace(a: string, b: string)
    ensures a + "," + (" " + b) == a + ", " + b
  {
    assert "," + " " == ", ";
  }

  lemma SpacedPiecesStrip(ws: seq<string>)
    requires |ws| >= 1 && forall i :: 0 <= i < |ws| ==> Trimmed(ws[i])
    ensures forall i :: 0 <= i < |ws| ==> ',' !in SpacedPieces(ws)[i] && Strip(SpacedPieces(ws)[i]) == ws[i]
  {
    var ps := SpacedPieces(ws);
    forall i | 0 <= i < |ws| ensures ',' !in ps[i] && Strip(ps[i]) == ws[i] {
      if i == 0 {
        StripTrimmed(ws[0]);
      } else {
        StripOneSpace(ws[i]);
      }
    }
  }

  /** Keywords written in the `a, b, c` style read back as exactly those
      keywords: the round trip of the keywords marker. */
  lemma SpacedKeywords(ws: seq<string>)
    requires |ws| >= 1 && forall i :: 0 <= i < |ws| ==> Trimmed(ws[i])
    ensures KeywordList(Join(ws, ", ")) == ws
  {
    var ps := SpacedPieces(ws);
    SpacedJoin(ws);
    SpacedPiecesStrip(ws);
    KeywordsOfJoin(ps);
  }

  /** The five keywords of examples/src/SettlementReportGenerator.java:11. */
  lemma SettlementKeywordList()
    ensures KeywordList(Join(["settlement", "trade", "report", "daily", "reconciliation"], ", ")) ==
      ["settlement", "trade", "report", "daily", "reconciliation"]
  {
    SpacedKeywords(["settlement", "trade", "report", "daily", "reconciliation"]);
  }

  /** With a keywords marker, a Java record exists and holds its pieces and the
      stripped type. */
  lemma MarkedJavaRecord(f: SourceFile, g: string, t: string)
    requires f.content.Some?
    requires Search(f.content.value, Javadoc, Keywords) == Some(g)
    requires Search(f.content.value, Javadoc, Type) == Some(t)
    ensures ExtractJava(f).Some?
    ensures ExtractJava(f).value.keywords == KeywordList(g)
    ensures ExtractJava(f).value.kind == Some(Strip(t))
  {
    MarkedKeywords(Javadoc, f);
    RecordFields(Javadoc, f);
  }

  /** The two marker lines, each the first of its kind, are what the searches
      find. */
  lemma TwoMarkerLines(c: string, p: nat, g: string, q: nat, t: string)
    requires MarkerLineAt(c, p, Javadoc, Keywords, g)
    requires forall j :: 0 <= j < p ==> !TagAt(c, j, Tag(Javadoc, Keywords))
    requires MarkerLineAt(c, q, Javadoc, Type, t)
    requires forall j :: 0 <= j < q ==> !TagAt(c, j, Tag(Javadoc, Type))
    ensures Search(c, Javadoc, Keywords) == Some(g) && Search(c, Javadoc, Type) == Some(t)
  {
    MarkerLine(c, p, Javadoc, Keywords, g);
    MarkerLine(c, q, Javadoc, Type, t);
  }

  /** examples/src/SettlementReportGenerator.java:11-13: a Java file whose
      first keywords marker line is ` * @keywords settlement, trade, report,
      daily, reconciliation` and whose first type marker line is
      ` * @type report_generator` yields a record with those five keywords and
      that type. */
  lemma SettlementReportGeneratorRecord(f: SourceFile, p: nat, q: nat)
    requires f.content.Some?
    requires MarkerLineAt(f.content.value, p, Javadoc, Keywords,
      Join(["settlement", "trade", "report", "daily", "reconciliation"], ", "))
    requires forall j :: 0 <= j < p ==> !TagAt(f.content.value, j, Tag(Javadoc, Keywords))
    requires MarkerLineAt(f.content.value, q, Javadoc, Type, "report_generator")
    requires forall j :: 0 <= j < q ==> !TagAt(f.content.value, j, Tag(Javadoc, Type))
    ensures ExtractJava(f).Some?
    ensures ExtractJava(f).value.keywords == ["settlement", "trade", "report", "daily", "reconciliation"]
    ensures ExtractJava(f).value.kind == Some("report_generator")
  {
    var g := Join(["settlement", "trade", "report", "daily", "reconciliation"], ", ");
    TwoMarkerLines(f.content.value, p, g, q, "report_generator");
    MarkedJavaRecord(f, g, "report_generator");
    SettlementKeywordList();
    SettlementType();
  }

  /** The type of examples/src/SettlementReportGenerator.java:12 is already
      stripped. */
  lemma SettlementType()
    ensures Strip("report_generator") == "report_generator"
  {
    assert Trimmed("report_generator");
    StripTrimmed("report_generator");
  }
}
