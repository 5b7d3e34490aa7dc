/**
 * The search side of the catalog: how a query string becomes terms
 * (`re.split(r'[,\s]+', query)`, then `strip().lower()` on each piece) and
 * when a record matches them (`_matches_query`: some term is a substring of
 * the lower-cased join of keywords, type, description and file name).
 */
module Query {
  import opened Options
  import opened Text
  import opened Extract

  /** The character class `[,\s]`. */
  predicate IsSep(c: char) {
    c == ',' || IsSpace(c)
  }

  /** End of the maximal run of separators that starts at `k`. */
  function SepEnd(s: string, k: nat): (e: nat)
    requires k < |s| && IsSep(s[k])
    ensures k < e <= |s|
    ensures forall t :: k <= t < e ==> IsSep(s[t])
    ensures e == |s| || !IsSep(s[e])
    decreases |s| - k
  {
    if k + 1 < |s| && IsSep(s[k + 1]) then SepEnd(s, k + 1) else k + 1
  }

  /** `re.split(r'[,\s]+', s)`: the pieces between maximal runs of
      separators, with an empty first (last) piece when `s` begins (ends)
      with a separator. */
  function SplitRuns(s: string): (parts: seq<string>)
    ensures |parts| >= 1
    ensures forall i :: 0 <= i < |parts| ==> forall t :: 0 <= t < |parts[i]| ==> !IsSep(parts[i][t])
    decreases |s|
  {
    if s == [] then [""]
    else if IsSep(s[0]) then [""] + SplitRuns(s[SepEnd(s, 0)..])
    else
      var rest := SplitRuns(s[1..]);
      [[s[0]] + rest[0]] + rest[1..]
  }

  /** The characters of `s` that are not separators, in order. */
  function Kept(s: string): string {
    if s == [] then "" else (if IsSep(s[0]) then "" else [s[0]]) + Kept(s[1..])
  }

  /** A run of separators contributes nothing. */
  lemma {:induction false} KeptRun(s: string, k: nat)
    requires k < |s| && IsSep(s[k])
    ensures Kept(s[k..]) == Kept(s[SepEnd(s, k)..])
    decreases |s| - k
  {
    assert s[k..][1..] == s[k + 1..];
    if k + 1 < |s| && IsSep(s[k + 1]) {
      KeptRun(s, k + 1);
    }
  }

  /** Splitting loses exactly the separators: the pieces put back together
      are the text without them. */
  lemma {:induction false} SplitRunsKept(s: string)
    ensures Concat(SplitRuns(s)) == Kept(s)
    decreases |s|
  {
    if s != [] {
      if IsSep(s[0]) {
        var e := SepEnd(s, 0);
        SplitRunsKept(s[e..]);
        KeptRun(s, 0);
        assert s[0..] == s;
        assert SplitRuns(s)[1..] == SplitRuns(s[e..]);
      } else {
        var rest := SplitRuns(s[1..]);
        SplitRunsKept(s[1..]);
        var parts := SplitRuns(s);
        assert parts[1..] == rest[1..];
        assert Concat(rest) == rest[0] + Concat(rest[1..]);
        assert Concat(parts) == [s[0]] + rest[0] + Concat(rest[1..]);
      }
    }
  }

  /** Only the first and the last piece can be empty. */
  lemma {:induction false} SplitRunsInner(s: string)
    ensures forall i :: 0 < i < |SplitRuns(s)| - 1 ==> SplitRuns(s)[i] != ""
    decreases |s|
  {
    if s != [] {
      if IsSep(s[0]) {
        var e := SepEnd(s, 0);
        SplitRunsInner(s[e..]);
        SplitRunsHead(s[e..]);
        var rest := SplitRuns(s[e..]);
        var parts := SplitRuns(s);
        forall i | 0 < i < |parts| - 1 ensures parts[i] != "" {
          assert parts[i] == rest[i - 1];
          if i == 1 {
            assert s[e..][0] == s[e];
          }
        }
      } else {
        SplitRunsInner(s[1..]);
        var rest := SplitRuns(s[1..]);
        var parts := SplitRuns(s);
        forall i | 0 < i < |parts| - 1 ensures parts[i] != "" {
          assert parts[i] == rest[i];
        }
      }
    }
  }

  /** The first piece is empty only when the text is empty or begins with a
      separator. */
  lemma SplitRunsHead(s: string)
    ensures SplitRuns(s)[0] == "" <==> s == [] || IsSep(s[0])
  {
  }

  /** The last piece is empty exactly when the text is empty or ends with a
      separator. */
  lemma {:induction false} SplitRunsLast(s: string)
    ensures var parts := SplitRuns(s); parts[|parts| - 1] == "" <==> s == [] || IsSep(s[|s| - 1])
    decreases |s|
  {
    if s != [] {
      if IsSep(s[0]) {
        var e := SepEnd(s, 0);
        SplitRunsLast(s[e..]);
        if e < |s| {
          assert s[e..][|s[e..]| - 1] == s[|s| - 1];
        }
      } else {
        SplitRunsLast(s[1..]);
        if |s| > 1 {
          assert s[1..][|s[1..]| - 1] == s[|s| - 1];
        }
      }
    }
  }

  /** `sep.join` with a single space: the way a query is usually typed. */
  lemma {:induction false} SplitRunsJoin(ws: seq<string>)
    requires |ws| >= 1
    requires forall i :: 0 <= i < |ws| ==> ws[i] != "" && forall t :: 0 <= t < |ws[i]| ==> !IsSep(ws[i][t])
    ensures SplitRuns(Join(ws, " ")) == ws
    decreases |ws|
  {
    if |ws| == 1 {
      SplitRunsWord(ws[0], "");
      assert ws[0] + "" == ws[0];
    } else {
      SplitRunsJoin(ws[1..]);
      var rest := Join(ws[1..], " ");
      assert rest != [] && !IsSep(rest[0]) by { JoinHead(ws[1..]); }
      SplitRunsSpace(rest);
      SplitRunsWord(ws[0], " " + rest);
      var t := SplitRuns(" " + rest);
      assert t[0] == "" && t[1..] == ws[1..];
      assert ws[0] + "" == ws[0];
      assert Join(ws, " ") == ws[0] + (" " + rest);
      assert [ws[0]] + ws[1..] == ws;
    }
  }

  /** A joined text begins with its first word. */
  lemma JoinHead(ws: seq<string>)
    requires |ws| >= 1 && ws[0] != ""
    ensures Join(ws, " ") != [] && Join(ws, " ")[0] == ws[0][0]
  {
  }

  /** A single space before a word is one separator run. */
  lemma SplitRunsSpace(rest: string)
    requires rest != [] && !IsSep(rest[0])
    ensures SplitRuns(" " + rest) == [""] + SplitRuns(rest)
  {
    var s := " " + rest;
    assert SepEnd(s, 0) == 1;
    assert s[1..] == rest;
  }

  /** A word in front of a separator-led (or empty) text joins the first piece. */
  lemma {:induction false} SplitRunsWord(w: string, rest: string)
    requires forall t :: 0 <= t < |w| ==> !IsSep(w[t])
    requires rest == [] || IsSep(rest[0])
    ensures SplitRuns(w + rest) == [w + SplitRuns(rest)[0]] + SplitRuns(rest)[1..]
    decreases |w|
  {
    if w == [] {
      assert w + rest == rest;
      assert SplitRuns(rest) == [SplitRuns(rest)[0]] + SplitRuns(rest)[1..];
    } else {
      SplitRunsWord(w[1..], rest);
      assert (w + rest)[1..] == w[1..] + rest;
      assert [w[0]] + (w[1..] + SplitRuns(rest)[0]) == w + SplitRuns(rest)[0];
    }
  }

  /** `[term.strip().lower() for term in re.split(r'[,\s]+', query)]`. */
  function QueryTerms(q: string): (terms: seq<string>)
    ensures |terms| == |SplitRuns(q)|
    ensures forall i :: 0 <= i < |terms| ==> terms[i] == Lower(Strip(SplitRuns(q)[i]))
  {
    var parts := SplitRuns(q);
    seq(|parts|, i requires 0 <= i < |parts| => Lower(Strip(parts[i])))
  }

  /** The `strip()` is idle: a piece holds no whitespace. */
  lemma QueryTermsLower(q: string)
    ensures forall i :: 0 <= i < |QueryTerms(q)| ==> QueryTerms(q)[i] == Lower(SplitRuns(q)[i])
  {
    var parts := SplitRuns(q);
    forall i | 0 <= i < |parts| ensures Strip(parts[i]) == parts[i] {
      StripTrimmed(parts[i]);
    }
  }

  /** An empty or separator-bounded query yields the empty term, which is a
      substring of everything. */
  lemma EmptyTerm(q: string)
    requires q == [] || IsSep(q[0]) || IsSep(q[|q| - 1])
    ensures "" in QueryTerms(q)
  {
    var parts := SplitRuns(q);
    var terms := QueryTerms(q);
    if q == [] || IsSep(q[0]) {
      SplitRunsHead(q);
      assert terms[0] == Lower(Strip(parts[0])) == "";
    } else {
      SplitRunsLast(q);
      assert terms[|parts| - 1] == Lower(Strip(parts[|parts| - 1])) == "";
    }
  }

  /** Terms are lower case. */
  lemma QueryTermsAreLower(q: string)
    ensures forall i :: 0 <= i < |QueryTerms(q)| ==> Lower(QueryTerms(q)[i]) == QueryTerms(q)[i]
  {
    forall i | 0 <= i < |QueryTerms(q)| ensures Lower(QueryTerms(q)[i]) == QueryTerms(q)[i] {
      LowerIdempotent(Strip(SplitRuns(q)[i]));
    }
  }

  /** The error `_matches_query` raises: `" ".join` meets `None` at the
      given position of its list (1 for `type`, 2 for `description`). */
  datatype QueryError = NoneField(item: nat)

  /** The lower-cased searchable text of a record, or the TypeError that
      joining a missing `type` or `description` raises. */
  function Searchable(r: Record): (t: Result<string, QueryError>)
    ensures t.Failure? <==> r.kind.None? || r.description.None?
    ensures t.Failure? ==> t.error == NoneField(if r.kind.None? then 1 else 2)
    ensures t.Success? ==> Lower(t.value) == t.value
  {
    match (r.kind, r.description)
    case (None, _) => Failure(NoneField(1))
    case (Some(_), None) => Failure(NoneField(2))
    case (Some(k), Some(d)) =>
      var text := Lower(Join([Join(r.keywords, " "), k, d, r.fileName], " "));
      LowerIdempotent(Join([Join(r.keywords, " "), k, d, r.fileName], " "));
      Success(text)
  }

  /** `any(term in text for term in terms)`. */
  function AnyTerm(terms: seq<string>, text: string): bool {
    if terms == [] then false
    else IsSubstring(terms[0], text) || AnyTerm(terms[1..], text)
  }

  /** `any` holds iff one of the terms is a substring. */
  lemma {:induction false} AnyTermSpec(terms: seq<string>, text: string)
    ensures AnyTerm(terms, text) <==> exists i :: 0 <= i < |terms| && IsSubstring(terms[i], text)
    decreases |terms|
  {
    if terms != [] {
      AnyTermSpec(terms[1..], text);
      if exists i :: 0 <= i < |terms| && IsSubstring(terms[i], text) {
        var i :| 0 <= i < |terms| && IsSubstring(terms[i], text);
        if i > 0 {
          assert terms[1..][i - 1] == terms[i];
        }
      }
    }
  }

  /** `_matches_query`. */
  function MatchesQuery(r: Record, terms: seq<string>): Result<bool, QueryError> {
    match Searchable(r)
    case Failure(e) => Failure(e)
    case Success(text) => Success(AnyTerm(terms, text))
  }

  /** Matching fails exactly when `type` or `description` is missing, and
      otherwise says whether some term occurs in the searchable text. */
  lemma MatchesQuerySpec(r: Record, terms: seq<string>)
    ensures MatchesQuery(r, terms).Failure? <==> r.kind.None? || r.description.None?
    ensures MatchesQuery(r, terms).Success? ==>
      (MatchesQuery(r, terms).value <==>
        exists i :: 0 <= i < |terms| && IsSubstring(terms[i], Searchable(r).value))
  {
    if Searchable(r).Success? {
      AnyTermSpec(terms, Searchable(r).value);
    }
  }

  /** A term in the terms list that occurs in the searchable text matches. */
  lemma TermHit(r: Record, terms: seq<string>, i: nat)
    requires r.kind.Some? && r.description.Some?
    requires i < |terms| && IsSubstring(terms[i], Searchable(r).value)
    ensures MatchesQuery(r, terms) == Success(true)
  {
    MatchesQuerySpec(r, terms);
  }

  /** The empty term matches every record that has a type and a description. */
  lemma EmptyTermMatches(r: Record, terms: seq<string>)
    requires r.kind.Some? && r.description.Some? && "" in terms
    ensures MatchesQuery(r, terms) == Success(true)
  {
    var i :| 0 <= i < |terms| && terms[i] == "";
    TermHit(r, terms, i);
  }

  /** `sep.join` of four pieces. */
  lemma Join4(a: string, b: string, c: string, d: string, sep: string)
    ensures Join([a, b, c, d], sep) == a + sep + b + sep + c + sep + d
  {
    var parts := [a, b, c, d];
    assert parts[1..] == [b, c, d];
    assert parts[1..][1..] == [c, d];
    assert parts[1..][1..][1..] == [d];
    assert Join([c, d], sep) == c + sep + d;
    assert Join([b, c, d], sep) == b + sep + (c + sep + d);
  }

  /** The searchable text before lower-casing. */
  lemma SearchableJoin(r: Record)
    requires r.kind.Some? && r.description.Some?
    ensures Searchable(r).value ==
      Lower(Join(r.keywords, " ") + " " + r.kind.value + " " + r.description.value + " " + r.fileName)
  {
    Join4(Join(r.keywords, " "), r.kind.value, r.description.value, r.fileName, " ");
  }

  /** A lower-case needle found in a lower-cased piece is found in the whole,
      lower-cased. */
  lemma PieceHit(needle: string, a: string, b: string, c: string)
    requires IsSubstring(needle, Lower(b))
    ensures IsSubstring(needle, Lower(a + b + c))
  {
    LowerConcat(a + b, c);
    LowerConcat(a, b);
    SubstringWithin(needle, Lower(a), Lower(b), Lower(c));
  }

  /** A lower-case term found in the file name matches. */
  lemma FileNameHit(r: Record, terms: seq<string>, i: nat)
    requires r.kind.Some? && r.description.Some?
    requires i < |terms| && IsSubstring(terms[i], Lower(r.fileName))
    ensures MatchesQuery(r, terms) == Success(true)
  {
    SearchableJoin(r);
    var a := Join(r.keywords, " ") + " " + r.kind.value + " " + r.description.value + " ";
    PieceHit(terms[i], a, r.fileName, "");
    assert a + r.fileName + "" == a + r.fileName;
    TermHit(r, terms, i);
  }

  /** A lower-case term found in the type matches. */
  lemma TypeHit(r: Record, terms: seq<string>, i: nat)
    requires r.kind.Some? && r.description.Some?
    requires i < |terms| && IsSubstring(terms[i], Lower(r.kind.value))
    ensures MatchesQuery(r, terms) == Success(true)
  {
    SearchableJoin(r);
    var a := Join(r.keywords, " ") + " ";
    var c := " " + r.description.value + " " + r.fileName;
    PieceHit(terms[i], a, r.kind.value, c);
    assert a + r.kind.value + c == a + r.kind.value + " " + r.description.value + " " + r.fileName;
    TermHit(r, terms, i);
  }

  /** A lower-case term found in one keyword matches. */
  lemma KeywordHit(r: Record, terms: seq<string>, i: nat, k: nat)
    requires r.kind.Some? && r.description.Some?
    requires k < |r.keywords|
    requires i < |terms| && IsSubstring(terms[i], Lower(r.keywords[k]))
    ensures MatchesQuery(r, terms) == Success(true)
  {
    SearchableJoin(r);
    JoinContains(r.keywords, k);
    var pre, post :| Join(r.keywords, " ") == pre + r.keywords[k] + post;
    var c := post + " " + r.kind.value + " " + r.description.value + " " + r.fileName;
    PieceHit(terms[i], pre, r.keywords[k], c);
    assert pre + r.keywords[k] + c ==
      pre + r.keywords[k] + post + " " + r.kind.value + " " + r.description.value + " " + r.fileName;
    TermHit(r, terms, i);
  }

  /** Every word of a joined text stands in it. */
  lemma {:induction false} JoinContains(ws: seq<string>, k: nat)
    requires k < |ws|
    ensures exists pre, post :: Join(ws, " ") == pre + ws[k] + post
    decreases |ws|
  {
    if |ws| == 1 {
      assert Join(ws, " ") == "" + ws[0] + "";
    } else if k == 0 {
      assert Join(ws, " ") == "" + ws[0] + (" " + Join(ws[1..], " "));
    } else {
      JoinContains(ws[1..], k - 1);
      var pre, post :| Join(ws[1..], " ") == pre + ws[1..][k - 1] + post;
      assert Join(ws, " ") == (ws[0] + " " + pre) + ws[k] + post;
    }
  }

  /** Case does not matter in a query: lower-casing it first yields the
      same terms. */
  lemma QueryCaseInsensitive(q: string)
    ensures QueryTerms(Lower(q)) == QueryTerms(q)
  {
    SplitRunsLower(q);
    QueryTermsLower(q);
    QueryTermsLower(Lower(q));
    var a := QueryTerms(Lower(q));
    var b := QueryTerms(q);
    forall i | 0 <= i < |a| ensures a[i] == b[i] {
      LowerIdempotent(SplitRuns(q)[i]);
    }
  }

  /** Lower-casing commutes with splitting: case never turns a character into
      a separator or back. */
  lemma {:induction false} SplitRunsLower(s: string)
    ensures |SplitRuns(Lower(s))| == |SplitRuns(s)|
    ensures forall i :: 0 <= i < |SplitRuns(s)| ==> SplitRuns(Lower(s))[i] == Lower(SplitRuns(s)[i])
    decreases |s|
  {
    if s != [] {
      if IsSep(s[0]) {
        var e := SepEnd(s, 0);
        SplitRunsLower(s[e..]);
        SplitRunsLowerSep(s, e);
      } else {
        SplitRunsLower(s[1..]);
        SplitRunsLowerChar(s);
      }
    }
  }

  /** The step of `SplitRunsLower` over a leading separator run. */
  lemma SplitRunsLowerSep(s: string, e: nat)
    requires s != [] && IsSep(s[0]) && e == SepEnd(s, 0)
    requires |SplitRuns(Lower(s[e..]))| == |SplitRuns(s[e..])|
    requires forall i :: 0 <= i < |SplitRuns(s[e..])| ==> SplitRuns(Lower(s[e..]))[i] == Lower(SplitRuns(s[e..])[i])
    ensures |SplitRuns(Lower(s))| == |SplitRuns(s)|
    ensures forall i :: 0 <= i < |SplitRuns(s)| ==> SplitRuns(Lower(s))[i] == Lower(SplitRuns(s)[i])
  {
    var l := Lower(s);
    SepEndLower(s, 0);
    assert l[e..] == Lower(s[e..]);
    var a := SplitRuns(l);
    var b := SplitRuns(s);
    assert a == [""] + SplitRuns(Lower(s[e..]));
    assert b == [""] + SplitRuns(s[e..]);
    forall i | 0 <= i < |b| ensures a[i] == Lower(b[i]) {
      if i > 0 {
        assert a[i] == SplitRuns(Lower(s[e..]))[i - 1];
        assert b[i] == SplitRuns(s[e..])[i - 1];
      }
    }
  }

  /** The step of `SplitRunsLower` over a leading character. */
  lemma SplitRunsLowerChar(s: string)
    requires s != [] && !IsSep(s[0])
    requires |SplitRuns(Lower(s[1..]))| == |SplitRuns(s[1..])|
    requires forall i :: 0 <= i < |SplitRuns(s[1..])| ==> SplitRuns(Lower(s[1..]))[i] == Lower(SplitRuns(s[1..])[i])
    ensures |SplitRuns(Lower(s))| == |SplitRuns(s)|
    ensures forall i :: 0 <= i < |SplitRuns(s)| ==> SplitRuns(Lower(s))[i] == Lower(SplitRuns(s)[i])
  {
    var l := Lower(s);
    assert l[1..] == Lower(s[1..]);
    var ra := SplitRuns(Lower(s[1..]));
    var rb := SplitRuns(s[1..]);
    var a := SplitRuns(l);
    var b := SplitRuns(s);
    assert a == [[l[0]] + ra[0]] + ra[1..];
    assert b == [[s[0]] + rb[0]] + rb[1..];
    LowerConcat([s[0]], rb[0]);
    assert Lower([s[0]]) == [l[0]];
    forall i | 0 <= i < |b| ensures a[i] == Lower(b[i]) {
      if i > 0 {
        assert a[i] == ra[i] && b[i] == rb[i];
      }
    }
  }

  /** A run of separators ends at the same place once lower-cased. */
  lemma {:induction false} SepEndLower(s: string, k: nat)
    requires k < |s| && IsSep(s[k])
    ensures IsSep(Lower(s)[k]) && SepEnd(Lower(s), k) == SepEnd(s, k)
    decreases |s| - k
  {
    if k + 1 < |s| && IsSep(s[k + 1]) {
      SepEndLower(s, k + 1);
    }
  }
}
