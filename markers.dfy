/**
 * The annotation markers of trade_surveillance_mcp/metadata_index.py, as the
 * regular expressions there match them (re.search, re.IGNORECASE):
 *
 *   configuration files   --\s*@<field>:\s*([^\n]+)
 *   Java classes          \*\s*@<field>[:\s]+([^\n]+)
 *
 * `re.search` reports the leftmost start position at which the pattern
 * matches; at that position the greedy quantifiers take as much as they can
 * while the rest of the pattern still matches.  Both quantifier runs may
 * cross line breaks, exactly as `\s` does in Python.
 */
module Markers {
  import opened Options
  import opened Text

  /** The two comment grammars: `-- @tag: value` lines of configuration files
      and ` * @tag value` lines of Javadoc comments. */
  datatype Style = SqlComment | Javadoc

  /** The three annotated fields. */
  datatype Field = Keywords | Type | Description

  function FieldName(f: Field): string {
    match f
    case Keywords => "keywords"
    case Type => "type"
    case Description => "description"
  }

  /** The literal that opens a marker: `--` or `\*`. */
  function Lead(style: Style): string {
    if style == SqlComment then "--" else "*"
  }

  /** The tag, matched ignoring case: `@keywords:` (the colon is part of the
      configuration grammar) or `@keywords`. */
  function Tag(style: Style, f: Field): string {
    if style == SqlComment then "@" + FieldName(f) + ":" else "@" + FieldName(f)
  }

  /** The characters of the run between tag and value: `\s` for configuration
      files, `[:\s]` for Java. */
  predicate InRun(style: Style, c: char) {
    IsSpace(c) || (style == Javadoc && c == ':')
  }

  /** `\s*` may be empty, `[:\s]+` may not. */
  function MinRun(style: Style): nat {
    if style == SqlComment then 0 else 1
  }

  /** End of the maximal run of `InRun` characters that starts at `k`. */
  function RunEnd(s: string, k: nat, style: Style): (e: nat)
    requires k <= |s|
    ensures k <= e <= |s|
    ensures forall t :: k <= t < e ==> InRun(style, s[t])
    ensures e == |s| || !InRun(style, s[e])
    decreases |s| - k
  {
    if k < |s| && InRun(style, s[k]) then RunEnd(s, k + 1, style) else k
  }

  /** The last position in `[lo, hi)` that does not hold a newline. */
  function LastNonNewline(s: string, lo: nat, hi: nat): (p: Option<nat>)
    requires lo <= hi <= |s|
    ensures p.Some? ==> lo <= p.value < hi && s[p.value] != '\n'
    ensures p.Some? ==> forall t :: p.value < t < hi ==> s[t] == '\n'
    ensures p.None? ==> forall t :: lo <= t < hi ==> s[t] == '\n'
    decreases hi - lo
  {
    if lo == hi then None
    else if s[hi - 1] != '\n' then Some(hi - 1)
    else LastNonNewline(s, lo, hi - 1)
  }

  /** Position `b` is a way to split the text after the tag (which ends at
      `k`): `s[k..b]` is the run, of at least the minimal length, and
      `([^\n]+)` can start at `b`. */
  ghost predicate IsValueStart(s: string, k: nat, style: Style, b: nat) {
    k + MinRun(style) <= b < |s| && s[b] != '\n' &&
    forall t :: k <= t < b ==> InRun(style, s[t])
  }

  /** Where the regex engine starts the captured value: the greedy run quantifier
      backs off from its longest run until `[^\n]` can match, so the value starts
      at the LARGEST admissible split (`ValueStartMaximal`); there is none exactly
      when the pattern fails after the tag. */
  function ValueStart(s: string, k: nat, style: Style): (b: Option<nat>)
    requires k <= |s|
    ensures b.Some? ==> k <= b.value < |s| && s[b.value] != '\n'
  {
    var e := RunEnd(s, k, style);
    if e - k < MinRun(style) then None
    else if e < |s| then Some(e)
    else LastNonNewline(s, k + MinRun(style), e)
  }

  /** `ValueStart` is the largest admissible split, and there is none when it
      reports none. */
  lemma ValueStartMaximal(s: string, k: nat, style: Style)
    requires k <= |s|
    ensures var b := ValueStart(s, k, style);
      (b.Some? ==> IsValueStart(s, k, style, b.value)) &&
      forall b': nat :: IsValueStart(s, k, style, b') ==> b.Some? && b' <= b.value
  {
  }

  /** The group `([^\n]+)` after the tag: as many non-newline characters as
      follow the start; never empty and never holding a newline. */
  function Capture(s: string, k: nat, style: Style): (g: Option<string>)
    requires k <= |s|
    ensures g.Some? ==> |g.value| >= 1 && '\n' !in g.value
  {
    match ValueStart(s, k, style)
    case Some(b) => Some(s[b..LineEnd(s, b)])
    case None => None
  }

  /** The group is captured exactly when some split of the text after the tag
      lets `([^\n]+)` match. */
  lemma CaptureExists(s: string, k: nat, style: Style)
    requires k <= |s|
    ensures Capture(s, k, style).Some? <==> exists b :: IsValueStart(s, k, style, b)
  {
    ValueStartMaximal(s, k, style);
  }

  /** Whether `s[j..]` begins with `tag`, ignoring ASCII case. */
  predicate TagAt(s: string, j: nat, tag: string) {
    j + |tag| <= |s| && Lower(s[j..j + |tag|]) == tag
  }

  /** The group captured when the pattern is tried at start position `i`.  The
      whitespace run after the lead is maximal: the tag begins with `@`, so no
      shorter run can be followed by it (`TagPositionUnique`). */
  function MatchAt(s: string, i: nat, style: Style, f: Field): Option<string>
    requires i <= |s|
  {
    var lead := Lead(style);
    if i + |lead| <= |s| && s[i..i + |lead|] == lead then
      MatchAfterLead(s, SpaceEnd(s, i + |lead|), style, f)
    else None
  }

  /** The rest of the pattern, tried where the whitespace after the lead ends. */
  function MatchAfterLead(s: string, j: nat, style: Style, f: Field): Option<string>
    requires j <= |s|
  {
    var tag := Tag(style, f);
    if TagAt(s, j, tag) then Capture(s, j + |tag|, style) else None
  }

  /** The tag can stand only right after the maximal whitespace run. */
  lemma TagPositionUnique(s: string, i: nat, style: Style, f: Field, j: nat)
    requires i + |Lead(style)| <= j <= |s|
    requires forall t :: i + |Lead(style)| <= t < j ==> IsSpace(s[t])
    requires TagAt(s, j, Tag(style, f))
    ensures j == SpaceEnd(s, i + |Lead(style)|)
  {
    var tag := Tag(style, f);
    assert Lower(s[j..j + |tag|])[0] == tag[0] == '@';
    assert LowerChar(s[j]) == '@';
    assert !IsSpace(s[j]);
  }

  /** The leftmost start position at or after `i` where the pattern matches. */
  function FirstMatch(s: string, i: nat, style: Style, f: Field): (p: Option<nat>)
    requires i <= |s|
    ensures p.Some? ==> i <= p.value <= |s| && MatchAt(s, p.value, style, f).Some?
    ensures p.Some? ==> forall q :: i <= q < p.value ==> MatchAt(s, q, style, f).None?
    ensures p.None? ==> forall q :: i <= q <= |s| ==> MatchAt(s, q, style, f).None?
    decreases |s| - i
  {
    if MatchAt(s, i, style, f).Some? then Some(i)
    else if i == |s| then None
    else FirstMatch(s, i + 1, style, f)
  }

  /** `re.search(pattern, s, re.IGNORECASE).group(1)`, or `None` without a match. */
  function Search(s: string, style: Style, f: Field): (g: Option<string>)
    ensures g.Some? ==> |g.value| >= 1 && '\n' !in g.value
  {
    match FirstMatch(s, 0, style, f)
    case Some(p) => MatchAt(s, p, style, f)
    case None => None
  }

  /** `Search` fails exactly when the pattern matches at no position. */
  lemma SearchNone(s: string, style: Style, f: Field)
    ensures Search(s, style, f).None? <==> forall p :: 0 <= p <= |s| ==> MatchAt(s, p, style, f).None?
  {
  }

  /** When `p` is the leftmost position where the pattern matches, `Search`
      returns the value captured there. */
  lemma SearchLeftmost(s: string, style: Style, f: Field, p: nat)
    requires p <= |s| && MatchAt(s, p, style, f).Some?
    requires forall q :: 0 <= q < p ==> MatchAt(s, q, style, f).None?
    ensures Search(s, style, f) == MatchAt(s, p, style, f)
  {
    var first := FirstMatch(s, 0, style, f);
    assert first.Some?;
    assert !(first.value < p);
    assert !(first.value > p);
  }

  /** The tags are written in lower case, so a tag that stands in the text
      verbatim is found. */
  lemma TagLower(style: Style, f: Field)
    ensures Lower(Tag(style, f)) == Tag(style, f)
  {
  }

  /** Only an `@` can begin a tag. */
  lemma TagNeedsAt(s: string, j: nat, style: Style, f: Field)
    requires j < |s| && s[j] != '@'
    ensures !TagAt(s, j, Tag(style, f))
  {
    var tag := Tag(style, f);
    if j + |tag| <= |s| {
      assert Lower(s[j..j + |tag|])[0] == LowerChar(s[j]);
    }
  }

  /** A whitespace run stops at the first non-whitespace character. */
  lemma SpaceEndBound(s: string, k: nat, m: nat)
    requires k <= m < |s| && !IsSpace(s[m])
    ensures SpaceEnd(s, k) <= m
  {
  }

  /** What follows the tag of a marker line: one space, then a value that
      cannot extend the run and that runs to the end of its line. */
  predicate ValueAfter(s: string, k: nat, style: Style, v: string) {
    k < |s| && s[k] == ' ' && LiteralAt(s, k + 1, v) &&
    v != [] && !InRun(style, v[0]) && '\n' !in v &&
    (k + 1 + |v| == |s| || s[k + 1 + |v|] == '\n')
  }

  /** A marker line `<lead> <tag> <value>` stands at `p`, one space between the
      parts. */
  predicate MarkerLineAt(s: string, p: nat, style: Style, f: Field, v: string) {
    var j := p + |Lead(style)| + 1;
    LiteralAt(s, p, Lead(style)) && j <= |s| && s[j - 1] == ' ' &&
    LiteralAt(s, j, Tag(style, f)) && ValueAfter(s, j + |Tag(style, f)|, style, v)
  }

  /** The value after the tag is captured up to the end of its line. */
  lemma CaptureValue(s: string, k: nat, style: Style, v: string)
    requires ValueAfter(s, k, style, v)
    ensures Capture(s, k, style) == Some(v)
  {
    LiteralChars(s, k + 1, v);
    assert RunEnd(s, k + 1, style) == k + 1;
    assert RunEnd(s, k, style) == k + 1;
    LineEndOver(s, k + 1, v);
  }

  /** A newline-free text standing at `k` and followed by a newline or the end
      of the text is a whole line. */
  lemma LineEndOver(s: string, k: nat, v: string)
    requires LiteralAt(s, k, v) && '\n' !in v
    requires k + |v| == |s| || s[k + |v|] == '\n'
    ensures LineEnd(s, k) == k + |v|
  {
    LiteralChars(s, k, v);
    assert forall t :: k <= t < k + |v| ==> s[t] == v[t - k];
  }

  /** The tag standing verbatim at `j`: it begins with `@` and is found. */
  lemma TagVerbatim(s: string, j: nat, style: Style, f: Field)
    requires LiteralAt(s, j, Tag(style, f))
    ensures j < |s| && s[j] == '@' && TagAt(s, j, Tag(style, f))
  {
    assert s[j..j + |Tag(style, f)|][0] == s[j];
    TagLower(style, f);
  }

  /** With the lead at `q`, the match is decided where its whitespace ends. */
  lemma LeadMatch(s: string, q: nat, j: nat, style: Style, f: Field)
    requires LiteralAt(s, q, Lead(style)) && j == SpaceEnd(s, q + |Lead(style)|)
    ensures MatchAt(s, q, style, f) == MatchAfterLead(s, j, style, f)
  {
  }

  /** With the tag at `j`, the match is decided by the value after it. */
  lemma TagMatch(s: string, j: nat, k: nat, style: Style, f: Field)
    requires j <= |s| && TagAt(s, j, Tag(style, f)) && k == j + |Tag(style, f)|
    ensures MatchAfterLead(s, j, style, f) == Capture(s, k, style)
  {
  }

  /** The pattern matches at the start of a marker line and captures its
      value. */
  lemma MarkerMatch(s: string, p: nat, style: Style, f: Field, v: string)
    requires MarkerLineAt(s, p, style, f, v)
    ensures MatchAt(s, p, style, f) == Some(v)
  {
    var lead, tag := Lead(style), Tag(style, f);
    var q := p + |lead|;
    var j := q + 1;
    var k := j + |tag|;
    assert ValueAfter(s, k, style, v);
    TagVerbatim(s, j, style, f);
    assert SpaceEnd(s, j) == j;
    assert SpaceEnd(s, q) == j;
    LeadMatch(s, p, j, style, f);
    TagMatch(s, j, k, style, f);
    CaptureValue(s, k, style, v);
  }

  /** Without the tag after the lead and its whitespace, there is no match. */
  lemma NoTagNoMatch(s: string, q: nat, style: Style, f: Field)
    requires LiteralAt(s, q, Lead(style))
    requires !TagAt(s, SpaceEnd(s, q + |Lead(style)|), Tag(style, f))
    ensures MatchAt(s, q, style, f).None?
  {
  }

  /** The lead holds neither whitespace nor `@`. */
  lemma LeadChars(s: string, p: nat, style: Style)
    requires LiteralAt(s, p, Lead(style))
    ensures forall t :: p <= t < p + |Lead(style)| ==> s[t] != '@' && !IsSpace(s[t])
  {
    LiteralChars(s, p, Lead(style));
    assert forall t :: p <= t < p + |Lead(style)| ==> s[t] == Lead(style)[t - p];
  }

  /** Before a lead standing at `p`, with no tag anywhere before `p`, the
      pattern cannot match: the tag of an earlier match would have to stand
      after a whitespace run crossing the lead. */
  lemma NoMatchBefore(s: string, style: Style, f: Field, p: nat, q: nat)
    requires LiteralAt(s, p, Lead(style))
    requires forall j :: 0 <= j < p ==> !TagAt(s, j, Tag(style, f))
    requires q < p
    ensures MatchAt(s, q, style, f).None?
  {
    var lead := Lead(style);
    if LiteralAt(s, q, lead) {
      LeadChars(s, p, style);
      SpaceEndBound(s, q + |lead|, p + |lead| - 1);
      var jq := SpaceEnd(s, q + |lead|);
      if jq >= p {
        TagNeedsAt(s, jq, style, f);
      }
      NoTagNoMatch(s, q, style, f);
    }
  }

  /** A marker line at position `p`, with no tag before `p`, is the one
      `Search` finds, and its value is the rest of the line. */
  lemma MarkerLine(s: string, p: nat, style: Style, f: Field, v: string)
    requires MarkerLineAt(s, p, style, f, v)
    requires forall j :: 0 <= j < p ==> !TagAt(s, j, Tag(style, f))
    ensures Search(s, style, f) == Some(v)
  {
    MarkerMatch(s, p, style, f, v);
    forall q | 0 <= q < p
      ensures MatchAt(s, q, style, f).None?
    {
      NoMatchBefore(s, style, f, p, q);
    }
    SearchLeftmost(s, style, f, p);
  }
}
