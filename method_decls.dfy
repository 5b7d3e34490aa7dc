/**
 * The scan for public method names in trade_surveillance_mcp/metadata_index.py:
 *
 *   re.findall(r'public\s+(?:static\s+)?[\w<>\[\]]+\s+(\w+)\s*\(', content)
 *
 * Every quantifier in this pattern is followed by something its own class
 * cannot contain, so at a given start position each run is taken maximally;
 * the only choice the engine makes is whether to read `static` as the
 * optional modifier (tried first) or as the return type, and the two
 * readings never both succeed (`DeclSpec`, against the relational reading
 * `DeclMatch` of the pattern).  `findall` reports
 * the names of all non-overlapping matches from left to right.  `\w` is
 * ASCII here; there is no IGNORECASE flag on this pattern.
 */
module MethodDecls {
  import opened Options
  import opened Text

  /** `\w` on ASCII. */
  predicate IsWordChar(c: char) {
    'a' <= c <= 'z' || 'A' <= c <= 'Z' || '0' <= c <= '9' || c == '_'
  }

  /** `[\w<>\[\]]`, the characters of a return type. */
  predicate IsTypeChar(c: char) {
    IsWordChar(c) || c == '<' || c == '>' || c == '[' || c == ']'
  }

  predicate IsWord(w: string) {
    |w| >= 1 && forall k :: 0 <= k < |w| ==> IsWordChar(w[k])
  }

  predicate IsTypeText(w: string) {
    |w| >= 1 && forall k :: 0 <= k < |w| ==> IsTypeChar(w[k])
  }

  /** End of the maximal run of word characters from `k`. */
  function WordEnd(s: string, k: nat): (e: nat)
    requires k <= |s|
    ensures k <= e <= |s|
    ensures forall t :: k <= t < e ==> IsWordChar(s[t])
    ensures e == |s| || !IsWordChar(s[e])
    decreases |s| - k
  {
    if k < |s| && IsWordChar(s[k]) then WordEnd(s, k + 1) else k
  }

  /** End of the maximal run of type characters from `k`. */
  function TypeEnd(s: string, k: nat): (e: nat)
    requires k <= |s|
    ensures k <= e <= |s|
    ensures forall t :: k <= t < e ==> IsTypeChar(s[t])
    ensures e == |s| || !IsTypeChar(s[e])
    decreases |s| - k
  {
    if k < |s| && IsTypeChar(s[k]) then TypeEnd(s, k + 1) else k
  }

  /** The tail `[\w<>\[\]]+\s+(\w+)\s*\(` of the pattern from position `c`:
      the captured name and the position just after the parenthesis. */
  function TypeNameParen(s: string, c: nat): (r: Option<(string, nat)>)
    requires c <= |s|
    ensures r.Some? ==> c < r.value.1 <= |s| && s[r.value.1 - 1] == '(' && IsWord(r.value.0)
  {
    var d := TypeEnd(s, c);
    if d == c then None
    else
      var e := SpaceEnd(s, d);
      if e == d then None
      else
        var g := WordEnd(s, e);
        if g == e then None
        else
          var h := SpaceEnd(s, g);
          if h < |s| && s[h] == '(' then Some((s[e..g], h + 1)) else None
  }

  /** The optional group `(?:static\s+)` followed by the tail, tried first. */
  function StaticReading(s: string, b: nat): (r: Option<(string, nat)>)
    requires b <= |s|
    ensures r.Some? ==> b < r.value.1 <= |s| && s[r.value.1 - 1] == '(' && IsWord(r.value.0)
  {
    if LiteralAt(s, b, "static") then
      var c := SpaceEnd(s, b + 6);
      if c > b + 6 then TypeNameParen(s, c) else None
    else None
  }

  /** The match of the whole pattern at start position `i`, if any: `public`,
      whitespace, then the modifier reading or, failing that, the tail alone. */
  function DeclAt(s: string, i: nat): (r: Option<(string, nat)>)
    requires i <= |s|
    ensures r.Some? ==> i < r.value.1 <= |s| && s[r.value.1 - 1] == '(' && IsWord(r.value.0)
  {
    if !LiteralAt(s, i, "public") then None
    else
      var b := SpaceEnd(s, i + 6);
      if b == i + 6 then None
      else if StaticReading(s, b).Some? then StaticReading(s, b)
      else TypeNameParen(s, b)
  }

  /** `re.findall` from position `i`: after a match the search resumes where
      the match ended, after a failure at the next position. */
  function FindAllFrom(s: string, i: nat): (names: seq<string>)
    requires i <= |s|
    decreases |s| - i
  {
    if i == |s| then []
    else
      match DeclAt(s, i)
      case Some(m) => [m.0] + FindAllFrom(s, m.1)
      case None => FindAllFrom(s, i + 1)
  }

  /** The `methods` list of a Java record. */
  function PublicMethods(content: string): seq<string> {
    FindAllFrom(content, 0)
  }

  // ---- The pattern as a relation ----

  /** `s[a..b]` is a non-empty run of whitespace. */
  predicate SpaceRun(s: string, a: nat, b: nat) {
    a < b <= |s| && forall t :: a <= t < b ==> IsSpace(s[t])
  }

  /** One way for the tail `[\w<>\[\]]+\s+(\w+)\s*\(` to match from `c`: type
      characters up to `d`, whitespace up to `m`, the name up to `g`,
      optional whitespace up to `h`, and the parenthesis at `h`. */
  predicate TailSplit(s: string, c: nat, d: nat, m: nat, g: nat, h: nat) {
    c < d && SpaceRun(s, d, m) && m < g <= h < |s| &&
    (forall t :: c <= t < d ==> IsTypeChar(s[t])) &&
    (forall t :: m <= t < g ==> IsWordChar(s[t])) &&
    (forall t :: g <= t < h ==> IsSpace(s[t])) &&
    s[h] == '('
  }

  /** The tail can match from `c`, capturing `n` and ending at `e`. */
  ghost predicate TailMatch(s: string, c: nat, n: string, e: nat) {
    exists d: nat, m: nat, g: nat, h: nat :: TailSplit(s, c, d, m, g, h) && n == s[m..g] && e == h + 1
  }

  /** The optional group and the tail can match from `b`: `static`,
      whitespace and the tail. */
  ghost predicate ModifierMatch(s: string, b: nat, n: string, e: nat) {
    LiteralAt(s, b, "static") && exists c: nat :: SpaceRun(s, b + 6, c) && TailMatch(s, c, n, e)
  }

  /** What follows `public\s+` can match from `b`, with or without the
      modifier. */
  ghost predicate ReadingMatch(s: string, b: nat, n: string, e: nat) {
    TailMatch(s, b, n, e) || ModifierMatch(s, b, n, e)
  }

  /** The whole pattern can match at `i`, capturing `n` and ending at `e`. */
  ghost predicate DeclMatch(s: string, i: nat, n: string, e: nat) {
    LiteralAt(s, i, "public") && exists b: nat :: SpaceRun(s, i + 6, b) && ReadingMatch(s, b, n, e)
  }

  /** A run of type characters that stops before a non-type character is the
      maximal run. */
  lemma {:induction false} TypeEndAt(s: string, c: nat, d: nat)
    requires c <= d <= |s| && forall t :: c <= t < d ==> IsTypeChar(s[t])
    requires d == |s| || !IsTypeChar(s[d])
    ensures TypeEnd(s, c) == d
    decreases d - c
  {
    if c < d {
      TypeEndAt(s, c + 1, d);
    }
  }

  lemma {:induction false} WordEndAt(s: string, m: nat, g: nat)
    requires m <= g <= |s| && forall t :: m <= t < g ==> IsWordChar(s[t])
    requires g == |s| || !IsWordChar(s[g])
    ensures WordEnd(s, m) == g
    decreases g - m
  {
    if m < g {
      WordEndAt(s, m + 1, g);
    }
  }

  lemma {:induction false} SpaceEndAt(s: string, a: nat, b: nat)
    requires a <= b <= |s| && forall t :: a <= t < b ==> IsSpace(s[t])
    requires b == |s| || !IsSpace(s[b])
    ensures SpaceEnd(s, a) == b
    decreases b - a
  {
    if a < b {
      SpaceEndAt(s, a + 1, b);
    }
  }

  /** What the tail function computes is a match of the tail. */
  lemma TailSound(s: string, c: nat)
    requires c <= |s| && TypeNameParen(s, c).Some?
    ensures TailMatch(s, c, TypeNameParen(s, c).value.0, TypeNameParen(s, c).value.1)
  {
    var d := TypeEnd(s, c);
    var m := SpaceEnd(s, d);
    var g := WordEnd(s, m);
    var h := SpaceEnd(s, g);
    assert TailSplit(s, c, d, m, g, h);
  }

  /** Every way for the tail to match is the one the function computes: each
      run stops where the next part begins. */
  lemma TailComplete(s: string, c: nat, d: nat, m: nat, g: nat, h: nat)
    requires TailSplit(s, c, d, m, g, h)
    ensures TypeNameParen(s, c) == Some((s[m..g], h + 1))
  {
    assert IsSpace(s[d]) && IsWordChar(s[m]);
    TypeEndAt(s, c, d);
    SpaceEndAt(s, d, m);
    assert g < h ==> IsSpace(s[g]);
    WordEndAt(s, m, g);
    SpaceEndAt(s, g, h);
  }

  /** The tail function finds a match iff the tail can match, and then the
      one it finds. */
  lemma TailSpec(s: string, c: nat, n: string, e: nat)
    requires c <= |s|
    ensures TypeNameParen(s, c) == Some((n, e)) <==> TailMatch(s, c, n, e)
  {
    if TypeNameParen(s, c) == Some((n, e)) {
      TailSound(s, c);
    }
    if TailMatch(s, c, n, e) {
      var d: nat, m: nat, g: nat, h: nat :| TailSplit(s, c, d, m, g, h) && n == s[m..g] && e == h + 1;
      TailComplete(s, c, d, m, g, h);
    }
  }

  /** A tail match starts with a type character, so never with whitespace. */
  lemma TailStart(s: string, c: nat)
    requires c <= |s| && TypeNameParen(s, c).Some?
    ensures c < |s| && IsTypeChar(s[c]) && !IsSpace(s[c])
  {
  }

  /** When `static` itself can be the return type of a tail match, the reading
      with the modifier fails: its name would have to be followed by `(`. */
  lemma TailDefeatsModifier(s: string, b: nat)
    requires b <= |s| && TypeNameParen(s, b).Some?
    ensures StaticReading(s, b).None?
  {
    if LiteralAt(s, b, "static") && SpaceEnd(s, b + 6) > b + 6 {
      var c := SpaceEnd(s, b + 6);
      LiteralChars(s, b, "static");
      assert forall t :: b <= t < b + 6 ==> IsTypeChar(s[t]) by {
        forall t | b <= t < b + 6 ensures IsTypeChar(s[t]) {
          assert s[t] == "static"[t - b];
        }
      }
      assert IsSpace(s[b + 6]);
      TypeEndAt(s, b, b + 6);
      var g := WordEnd(s, c);
      var h := SpaceEnd(s, g);
      assert h < |s| && s[h] == '(';
      assert g < h ==> IsSpace(s[g]);
      TypeEndAt(s, c, g);
      assert WordEnd(s, h) == h;
    }
  }

  /** The modifier reading finds a match iff `static`, whitespace and the
      tail can match, and then the one it finds. */
  lemma ModifierSpec(s: string, b: nat, n: string, e: nat)
    requires b <= |s|
    ensures StaticReading(s, b) == Some((n, e)) <==> ModifierMatch(s, b, n, e)
  {
    if LiteralAt(s, b, "static") {
      var c := SpaceEnd(s, b + 6);
      TailSpec(s, c, n, e);
      if ModifierMatch(s, b, n, e) {
        var c': nat :| SpaceRun(s, b + 6, c') && TailMatch(s, c', n, e);
        TailSpec(s, c', n, e);
        TailStart(s, c');
        SpaceEndAt(s, b + 6, c');
      }
      if StaticReading(s, b) == Some((n, e)) {
        assert SpaceRun(s, b + 6, c);
      }
    }
  }

  /** The modifier reading is tried first and the tail alone after it; the
      result is a match of what may follow `public\s+`, and every such match
      is the result. */
  lemma ReadingSpec(s: string, b: nat, n: string, e: nat)
    requires b <= |s|
    ensures (if StaticReading(s, b).Some? then StaticReading(s, b) else TypeNameParen(s, b)) == Some((n, e))
      <==> ReadingMatch(s, b, n, e)
  {
    ModifierSpec(s, b, n, e);
    TailSpec(s, b, n, e);
    if TypeNameParen(s, b).Some? {
      TailDefeatsModifier(s, b);
    }
  }

  /** A match of what may follow `public\s+` does not start with whitespace. */
  lemma ReadingStart(s: string, b: nat, n: string, e: nat)
    requires b <= |s| && ReadingMatch(s, b, n, e)
    ensures b < |s| && !IsSpace(s[b])
  {
    ReadingSpec(s, b, n, e);
    if StaticReading(s, b).Some? {
      LiteralChars(s, b, "static");
      assert s[b] == 's';
    } else {
      TailStart(s, b);
    }
  }

  /** What the function computes at `i` is a match of the pattern there. */
  lemma DeclSound(s: string, i: nat)
    requires i <= |s| && DeclAt(s, i).Some?
    ensures DeclMatch(s, i, DeclAt(s, i).value.0, DeclAt(s, i).value.1)
  {
    var b := SpaceEnd(s, i + 6);
    assert SpaceRun(s, i + 6, b);
    ReadingSpec(s, b, DeclAt(s, i).value.0, DeclAt(s, i).value.1);
  }

  /** Every match of the pattern at `i` is the one the function computes. */
  lemma DeclComplete(s: string, i: nat, n: string, e: nat)
    requires i <= |s| && DeclMatch(s, i, n, e)
    ensures DeclAt(s, i) == Some((n, e))
  {
    var b: nat :| SpaceRun(s, i + 6, b) && ReadingMatch(s, b, n, e);
    ReadingStart(s, b, n, e);
    SpaceEndAt(s, i + 6, b);
    ReadingSpec(s, b, n, e);
  }

  /** The function's result at `i` is the match of the pattern there, and it
      finds none exactly when the pattern cannot match at `i`. */
  lemma DeclSpec(s: string, i: nat, n: string, e: nat)
    requires i <= |s|
    ensures DeclAt(s, i) == Some((n, e)) <==> DeclMatch(s, i, n, e)
  {
    if DeclAt(s, i) == Some((n, e)) {
      DeclSound(s, i);
    }
    if DeclMatch(s, i, n, e) {
      DeclComplete(s, i, n, e);
    }
  }

  /** At a given start position the pattern has at most one match: the two
      readings of `static` never both succeed. */
  lemma DeclMatchUnique(s: string, i: nat, n: string, e: nat, n': string, e': nat)
    requires i <= |s| && DeclMatch(s, i, n, e) && DeclMatch(s, i, n', e')
    ensures n == n' && e == e'
  {
    DeclComplete(s, i, n, e);
    DeclComplete(s, i, n', e');
  }

  /** Where a word stands in `s` and is not followed by a word character, the
      word run ends where the word does. */
  lemma WordEndOver(s: string, k: nat, w: string)
    requires LiteralAt(s, k, w)
    requires forall t :: 0 <= t < |w| ==> IsWordChar(w[t])
    requires k + |w| == |s| || !IsWordChar(s[k + |w|])
    ensures WordEnd(s, k) == k + |w|
  {
    LiteralChars(s, k, w);
    assert forall t :: k <= t < k + |w| ==> s[t] == w[t - k];
  }

  lemma TypeEndOver(s: string, k: nat, w: string)
    requires LiteralAt(s, k, w)
    requires forall t :: 0 <= t < |w| ==> IsTypeChar(w[t])
    requires k + |w| == |s| || !IsTypeChar(s[k + |w|])
    ensures TypeEnd(s, k) == k + |w|
  {
    LiteralChars(s, k, w);
    assert forall t :: k <= t < k + |w| ==> s[t] == w[t - k];
  }

  /** `public` and one space stand at `i`. */
  predicate PublicAt(s: string, i: nat) {
    LiteralAt(s, i, "public") && i + 6 < |s| && s[i + 6] == ' '
  }

  /** The text `<t> <n>(` stands at `c`, one space between type and name. */
  predicate SignatureAt(s: string, c: nat, t: string, n: string) {
    LiteralAt(s, c, t) && c + |t| < |s| && s[c + |t|] == ' ' &&
    LiteralAt(s, c + |t| + 1, n) && c + |t| + |n| + 1 < |s| && s[c + |t| + |n| + 1] == '('
  }

  /** The tail reads `<Type> <name>(`. */
  lemma TailMatched(s: string, c: nat, t: string, n: string)
    requires IsTypeText(t) && IsWord(n) && SignatureAt(s, c, t, n)
    ensures TypeNameParen(s, c) == Some((n, c + |t| + |n| + 2))
  {
    var d := c + |t|;
    var e := d + 1;
    var g := e + |n|;
    TypeEndOver(s, c, t);
    LiteralChars(s, e, n);
    assert SpaceEnd(s, d) == e;
    WordEndOver(s, e, n);
    assert SpaceEnd(s, g) == g;
  }

  /** The tail fails when the type run is followed by neither whitespace nor a
      type character (a parenthesis, a comma). */
  lemma TailFails(s: string, c: nat, w: string)
    requires IsTypeText(w) && LiteralAt(s, c, w)
    requires c + |w| < |s| && !IsTypeChar(s[c + |w|]) && !IsSpace(s[c + |w|])
    ensures TypeNameParen(s, c) == None
  {
    TypeEndOver(s, c, w);
  }

  /** The tail fails when the name is followed, after optional whitespace, by
      something other than a parenthesis (the brace of a class declaration). */
  lemma TailNoParen(s: string, c: nat, t: string, d: nat, m: nat, n: string, k: nat)
    requires IsTypeText(t) && IsWord(n)
    requires LiteralAt(s, c, t) && d == c + |t| && d < |s| && s[d] == ' '
    requires m == d + 1 && LiteralAt(s, m, n)
    requires k == m + |n| && k < |s| && !IsWordChar(s[k])
    requires SpaceEnd(s, k) == |s| || s[SpaceEnd(s, k)] != '('
    ensures TypeNameParen(s, c) == None
  {
    TypeEndOver(s, c, t);
    SpaceBeforeWord(s, d, m, n);
    WordEndOver(s, m, n);
    TailShape(s, c, d, m, k);
  }

  /** One space before a word is the whole whitespace run. */
  lemma SpaceBeforeWord(s: string, d: nat, m: nat, n: string)
    requires IsWord(n) && d < |s| && s[d] == ' ' && m == d + 1 && LiteralAt(s, m, n)
    ensures SpaceEnd(s, d) == m
  {
    LiteralChars(s, m, n);
    assert IsWordChar(s[m]);
  }

  /** The tail once its three runs are known: the parenthesis decides. */
  lemma TailShape(s: string, c: nat, d: nat, e: nat, g: nat)
    requires c < d <= |s| && TypeEnd(s, c) == d
    requires d < e <= |s| && SpaceEnd(s, d) == e
    requires e < g <= |s| && WordEnd(s, e) == g
    ensures SpaceEnd(s, g) == |s| || s[SpaceEnd(s, g)] != '(' ==> TypeNameParen(s, c) == None
  {
  }

  /** A type run `w` other than `static`, or one not followed by whitespace,
      defeats the modifier reading. */
  lemma StaticReadingFails(s: string, b: nat, w: string)
    requires IsTypeText(w) && LiteralAt(s, b, w)
    requires b + |w| < |s| && !IsTypeChar(s[b + |w|])
    requires w != "static" || !IsSpace(s[b + |w|])
    ensures StaticReading(s, b) == None
  {
    if LiteralAt(s, b, "static") {
      LiteralChars(s, b, "static");
      LiteralChars(s, b, w);
      assert |w| >= 6;
      if |w| == 6 {
        assert w == s[b..b + 6];
      } else {
        assert s[b + 6] == w[6];
      }
      assert !IsSpace(s[b + 6]);
    }
  }

  /** After `public` and one space, a successful modifier reading is the match. */
  lemma DeclViaModifier(s: string, i: nat, r: (string, nat))
    requires PublicAt(s, i) && SpaceEnd(s, i + 6) == i + 7
    requires StaticReading(s, i + 7) == Some(r)
    ensures DeclAt(s, i) == Some(r)
  {
  }

  /** After `public` and one space, the tail alone is tried when the modifier
      reading fails. */
  lemma DeclViaTail(s: string, i: nat)
    requires PublicAt(s, i) && SpaceEnd(s, i + 6) == i + 7
    requires StaticReading(s, i + 7) == None
    ensures DeclAt(s, i) == TypeNameParen(s, i + 7)
  {
  }

  /** The whitespace after `public` is the one space when a type run follows. */
  lemma PublicSpace(s: string, i: nat, w: string)
    requires PublicAt(s, i) && IsTypeText(w) && LiteralAt(s, i + 7, w)
    ensures SpaceEnd(s, i + 6) == i + 7
  {
    LiteralChars(s, i + 7, w);
    assert !IsSpace(s[i + 7]);
  }

  /** A return type called `static`: the modifier reading takes the name for
      the type and then fails at the parenthesis. */
  lemma StaticAsType(s: string, b: nat, n: string)
    requires IsWord(n) && SignatureAt(s, b, "static", n)
    ensures StaticReading(s, b) == None
  {
    LiteralChars(s, b + 7, n);
    assert SpaceEnd(s, b + 6) == b + 7;
    TailFails(s, b + 7, n);
  }

  /** Without the modifier, `<Type> <name>(` defeats the modifier reading. */
  lemma PlainNoModifier(s: string, b: nat, t: string, n: string)
    requires IsTypeText(t) && IsWord(n) && SignatureAt(s, b, t, n)
    ensures StaticReading(s, b) == None
  {
    if t == "static" {
      StaticAsType(s, b, n);
    } else {
      StaticReadingFails(s, b, t);
    }
  }

  /** `public <Type> <name>(` is matched, whatever the type is called (a type
      named `static` included: the modifier reading then fails and the engine
      falls back to reading it as the type). */
  lemma PlainDeclMatched(s: string, i: nat, t: string, n: string)
    requires IsTypeText(t) && IsWord(n)
    requires PublicAt(s, i) && SignatureAt(s, i + 7, t, n)
    ensures DeclAt(s, i) == Some((n, i + |t| + |n| + 9))
  {
    PublicSpace(s, i, t);
    PlainNoModifier(s, i + 7, t, n);
    DeclViaTail(s, i);
    TailMatched(s, i + 7, t, n);
  }

  /** The modifier reading of `static <Type> <name>(`. */
  lemma ModifierMatched(s: string, b: nat, t: string, n: string)
    requires IsTypeText(t) && IsWord(n)
    requires LiteralAt(s, b, "static") && b + 6 < |s| && s[b + 6] == ' ' && SignatureAt(s, b + 7, t, n)
    ensures StaticReading(s, b) == Some((n, b + |t| + |n| + 9))
  {
    LiteralChars(s, b + 7, t);
    assert SpaceEnd(s, b + 6) == b + 7;
    TailMatched(s, b + 7, t, n);
  }

  /** `public static <Type> <name>(` is matched through the modifier. */
  lemma StaticDeclMatched(s: string, i: nat, t: string, n: string)
    requires IsTypeText(t) && IsWord(n)
    requires PublicAt(s, i) && LiteralAt(s, i + 7, "static") && i + 13 < |s| && s[i + 13] == ' '
    requires SignatureAt(s, i + 14, t, n)
    ensures DeclAt(s, i) == Some((n, i + |t| + |n| + 16))
  {
    PublicSpace(s, i, "static");
    ModifierMatched(s, i + 7, t, n);
    DeclViaModifier(s, i, (n, i + |t| + |n| + 16));
  }

  /** After `public` and one space, a type run other than the modifier
      leaves the match to the tail alone. */
  lemma TypeRunTail(s: string, i: nat, w: string)
    requires IsTypeText(w) && PublicAt(s, i) && LiteralAt(s, i + 7, w)
    requires i + 7 + |w| < |s| && !IsTypeChar(s[i + 7 + |w|])
    requires w != "static" || !IsSpace(s[i + 7 + |w|])
    ensures DeclAt(s, i) == TypeNameParen(s, i + 7)
  {
    PublicSpace(s, i, w);
    StaticReadingFails(s, i + 7, w);
    DeclViaTail(s, i);
  }

  /** A constructor `public <Name>(` is not a match. */
  lemma ConstructorNotMatched(s: string, i: nat, n: string)
    requires IsWord(n)
    requires PublicAt(s, i) && LiteralAt(s, i + 7, n) && i + 7 + |n| < |s| && s[i + 7 + |n|] == '('
    ensures DeclAt(s, i) == None
  {
    assert IsTypeText(n);
    TailFails(s, i + 7, n);
    TypeRunTail(s, i, n);
  }

  /** A return type that runs into a comma, such as `List<Map<String, Object>>`,
      is not a match. */
  lemma CommaInTypeNotMatched(s: string, i: nat, t: string)
    requires IsTypeText(t)
    requires PublicAt(s, i) && LiteralAt(s, i + 7, t) && i + 7 + |t| < |s| && s[i + 7 + |t|] == ','
    ensures DeclAt(s, i) == None
  {
    TypeRunTail(s, i, t);
    TailFails(s, i + 7, t);
  }

  /** A declaration `public <kind> <Name> {` of a class is not a match. */
  lemma ClassNotMatched(s: string, i: nat, t: string, n: string)
    requires IsTypeText(t) && IsWord(n) && t != "static"
    requires PublicAt(s, i) && LiteralAt(s, i + 7, t) && i + 7 + |t| < |s| && s[i + 7 + |t|] == ' '
    requires LiteralAt(s, i + 8 + |t|, n)
    requires i + 9 + |t| + |n| < |s| && s[i + 8 + |t| + |n|] == ' ' && s[i + 9 + |t| + |n|] == '{'
    ensures DeclAt(s, i) == None
  {
    var d, m, k, b := i + 7 + |t|, i + 8 + |t|, i + 8 + |t| + |n|, i + 9 + |t| + |n|;
    assert s[d] == ' ' && LiteralAt(s, m, n) && s[k] == ' ' && s[b] == '{';
    TypeRunTail(s, i, t);
    SpaceThenBrace(s, k, b);
    TailNoParen(s, i + 7, t, d, m, n, k);
  }

  /** The ` {` after a class name: one space, then no parenthesis. */
  lemma SpaceThenBrace(s: string, k: nat, b: nat)
    requires b == k + 1 && b < |s| && s[k] == ' ' && s[b] == '{'
    ensures SpaceEnd(s, k) == b
  {
    assert SpaceEnd(s, b) == b;
  }

  /** No `public` starts anywhere in `[a, b)`. */
  predicate Gap(s: string, a: nat, b: nat) {
    a <= b <= |s| && forall q :: a <= q < b ==> !LiteralAt(s, q, "public")
  }

  /** Across a gap `findall` finds nothing. */
  lemma {:induction false} GapSkipped(s: string, a: nat, b: nat)
    requires Gap(s, a, b)
    ensures FindAllFrom(s, a) == FindAllFrom(s, b)
    decreases b - a
  {
    if a < b {
      assert DeclAt(s, a).None?;
      GapSkipped(s, a + 1, b);
    }
  }

  /** A position that does not match is passed over. */
  lemma StepMiss(s: string, i: nat)
    requires i < |s| && DeclAt(s, i) == None
    ensures FindAllFrom(s, i) == FindAllFrom(s, i + 1)
  {
  }

  /** A match contributes its name and the search resumes after it. */
  lemma StepHit(s: string, i: nat, n: string, e: nat)
    requires i < |s| && DeclAt(s, i) == Some((n, e))
    ensures FindAllFrom(s, i) == [n] + FindAllFrom(s, e)
  {
  }

  /** The declarations a Java text may hold, as the scan sees them. */
  datatype Decl =
    | Method(ret: string, name: string)        // public <ret> <name>(
    | Constructor(name: string)                    // public <name>(
    | ClassOf(kind: string, name: string)          // public <kind> <name> {
    | CommaReturn(prefix: string)                  // public <prefix>, ... where the type holds a comma

  /** Declaration `d` is written at `p`, one space between its words. */
  predicate DeclLaidAt(s: string, p: nat, d: Decl) {
    match d
    case Method(t, n) =>
      IsTypeText(t) && IsWord(n) && PublicAt(s, p) && SignatureAt(s, p + 7, t, n)
    case Constructor(n) =>
      IsWord(n) && PublicAt(s, p) && LiteralAt(s, p + 7, n) && p + 7 + |n| < |s| && s[p + 7 + |n|] == '('
    case ClassOf(k, n) =>
      IsTypeText(k) && k != "static" && IsWord(n) && PublicAt(s, p) && LiteralAt(s, p + 7, k) &&
      p + 7 + |k| < |s| && s[p + 7 + |k|] == ' ' && LiteralAt(s, p + 8 + |k|, n) &&
      p + 9 + |k| + |n| < |s| && s[p + 8 + |k| + |n|] == ' ' && s[p + 9 + |k| + |n|] == '{'
    case CommaReturn(t) =>
      IsTypeText(t) && PublicAt(s, p) && LiteralAt(s, p + 7, t) && p + 7 + |t| < |s| && s[p + 7 + |t|] == ','
  }

  /** The names a declaration contributes to `findall`. */
  function Found(d: Decl): seq<string> {
    match d
    case Method(_, n) => [n]
    case _ => []
  }

  /** Where the search resumes after the declaration at `p`: after the
      parenthesis of a match, at the next position otherwise. */
  function Resume(p: nat, d: Decl): nat {
    match d
    case Method(t, n) => p + |t| + |n| + 9
    case _ => p + 1
  }

  /** A method declaration contributes its name. */
  lemma HitStep(s: string, p: nat, d: Decl)
    requires p < |s| && d.Method? && DeclLaidAt(s, p, d)
    ensures Resume(p, d) <= |s|
    ensures FindAllFrom(s, p) == Found(d) + FindAllFrom(s, Resume(p, d))
  {
    var e := p + |d.ret| + |d.name| + 9;
    PlainDeclMatched(s, p, d.ret, d.name);
    StepHit(s, p, d.name, e);
    assert Resume(p, d) == e && Found(d) == [d.name];
  }

  /** A declaration that is not matched is passed over. */
  lemma MissStep(s: string, p: nat, d: Decl)
    requires p < |s| && DeclLaidAt(s, p, d) && !d.Method?
    ensures FindAllFrom(s, p) == FindAllFrom(s, p + 1)
  {
    match d
    case Constructor(n) => ConstructorNotMatched(s, p, n);
    case ClassOf(k, n) => ClassNotMatched(s, p, k, n);
    case CommaReturn(t) => CommaInTypeNotMatched(s, p, t);
  }

  lemma ConcatNil(x: seq<string>)
    ensures [] + x == x
  {
  }

  /** One declaration's effect on `findall`. */
  lemma DeclStep(s: string, p: nat, d: Decl)
    requires p < |s| && DeclLaidAt(s, p, d)
    ensures Resume(p, d) <= |s|
    ensures FindAllFrom(s, p) == Found(d) + FindAllFrom(s, Resume(p, d))
  {
    if d.Method? {
      HitStep(s, p, d);
    } else {
      MissStep(s, p, d);
      MissFound(s, p, d);
    }
  }

  lemma MissFound(s: string, p: nat, d: Decl)
    requires p < |s| && !d.Method? && FindAllFrom(s, p) == FindAllFrom(s, p + 1)
    ensures Resume(p, d) <= |s|
    ensures FindAllFrom(s, p) == Found(d) + FindAllFrom(s, Resume(p, d))
  {
    ConcatNil(FindAllFrom(s, p + 1));
  }

  /** From `a` to `b` the text holds the declarations `ds` at the positions
      `ps`, in order, and no other `public`. */
  predicate Layout(s: string, a: nat, ps: seq<nat>, ds: seq<Decl>, b: nat)
    decreases |ds|
  {
    |ps| == |ds| &&
    if ds == [] then Gap(s, a, b)
    else
      Gap(s, a, ps[0]) && ps[0] < |s| && DeclLaidAt(s, ps[0], ds[0]) &&
      Layout(s, Resume(ps[0], ds[0]), ps[1..], ds[1..], b)
  }

  /** All names the declarations contribute, in order. */
  function FoundAll(ds: seq<Decl>): seq<string> {
    if ds == [] then [] else Found(ds[0]) + FoundAll(ds[1..])
  }

  /** Over a layout, `findall` reports exactly the methods among the
      declarations, in order of appearance. */
  lemma {:induction false} LayoutScan(s: string, a: nat, ps: seq<nat>, ds: seq<Decl>, b: nat)
    requires a <= b <= |s| && Layout(s, a, ps, ds, b)
    ensures FindAllFrom(s, a) == FoundAll(ds) + FindAllFrom(s, b)
    decreases |ds|
  {
    if ds == [] {
      GapSkipped(s, a, b);
      ConcatNil(FindAllFrom(s, b));
    } else {
      var r := Resume(ps[0], ds[0]);
      GapSkipped(s, a, ps[0]);
      DeclStep(s, ps[0], ds[0]);
      LayoutBound(s, r, ps[1..], ds[1..], b);
      LayoutScan(s, r, ps[1..], ds[1..], b);
      ConcatAssoc(Found(ds[0]), FoundAll(ds[1..]), FindAllFrom(s, b));
    }
  }

  /** A layout runs forward. */
  lemma {:induction false} LayoutBound(s: string, a: nat, ps: seq<nat>, ds: seq<Decl>, b: nat)
    requires Layout(s, a, ps, ds, b)
    ensures a <= b <= |s|
    decreases |ds|
  {
    if ds != [] {
      DeclStep(s, ps[0], ds[0]);
      LayoutBound(s, Resume(ps[0], ds[0]), ps[1..], ds[1..], b);
    }
  }

  /** examples/src/SettlementReportGenerator.java: the class declaration
      (line 15) and the constructor (line 26) are passed over, and the three
      methods of lines 37-58 are reported in order. */
  lemma SettlementReportGeneratorMethods(s: string, ps: seq<nat>)
    requires Layout(s, 0, ps, [
      ClassOf("class", "SettlementReportGenerator"),
      Constructor("SettlementReportGenerator"),
      Method("String", "generateReport"),
      Method("ResultSet", "executeQuery"),
      Method("void", "saveReport")], |s|)
    ensures PublicMethods(s) == ["generateReport", "executeQuery", "saveReport"]
  {
    var ds := [
      ClassOf("class", "SettlementReportGenerator"),
      Constructor("SettlementReportGenerator"),
      Method("String", "generateReport"),
      Method("ResultSet", "executeQuery"),
      Method("void", "saveReport")];
    LayoutScan(s, 0, ps, ds, |s|);
    assert FoundAll(ds[4..]) == ["saveReport"];
    assert FoundAll(ds[3..]) == ["executeQuery", "saveReport"];
    assert FoundAll(ds[2..]) == ["generateReport", "executeQuery", "saveReport"];
  }

  /** examples/src/main/java/com/trade/surveillance/TransactionAuditProcessor.java:
      the two methods returning `List<Map<String, Object>>` (lines 33 and 46)
      are not matched, so only the method of line 57 is reported. */
  lemma TransactionAuditProcessorMethods(s: string, ps: seq<nat>)
    requires Layout(s, 0, ps, [
      ClassOf("class", "TransactionAuditProcessor"),
      Constructor("TransactionAuditProcessor"),
      CommaReturn("List<Map<String"),
      CommaReturn("List<Map<String"),
      Method("void", "generateComplianceReport")], |s|)
    ensures PublicMethods(s) == ["generateComplianceReport"]
  {
    var ds := [
      ClassOf("class", "TransactionAuditProcessor"),
      Constructor("TransactionAuditProcessor"),
      CommaReturn("List<Map<String"),
      CommaReturn("List<Map<String"),
      Method("void", "generateComplianceReport")];
    LayoutScan(s, 0, ps, ds, |s|);
    assert FoundAll(ds[4..]) == ["generateComplianceReport"];
    assert FoundAll(ds[2..]) == ["generateComplianceReport"];
  }
}
