/**
 * The few Python `str` operations the catalog relies on: whitespace, ASCII
 * lower-casing, `strip()`, `split(sep)`, `sep.join(...)` and the substring
 * test `needle in hay`.  Characters are Unicode scalar values, as Python's
 * code points are; whitespace and case are restricted to ASCII.
 */
module Text {

  /** `str.isspace()` (and the regex class `\s`) on ASCII: tab, newline,
      vertical tab, form feed, carriage return, the separators 0x1c-0x1f
      and space. */
  predicate IsSpace(c: char) {
    9 <= c as int <= 13 || 28 <= c as int <= 32
  }

  /** ASCII `str.lower()` of one character. */
  function LowerChar(c: char): char {
    if 'A' <= c <= 'Z' then (c as int + 32) as char else c
  }

  function Lower(s: string): (r: string)
    ensures |r| == |s|
    ensures forall i :: 0 <= i < |s| ==> r[i] == LowerChar(s[i])
  {
    seq(|s|, i requires 0 <= i < |s| => LowerChar(s[i]))
  }

  lemma LowerConcat(a: string, b: string)
    ensures Lower(a + b) == Lower(a) + Lower(b)
  {
  }

  lemma LowerIdempotent(s: string)
    ensures Lower(Lower(s)) == Lower(s)
  {
  }

  /** End of the maximal run of whitespace that starts at `k`. */
  function SpaceEnd(s: string, k: nat): (e: nat)
    requires k <= |s|
    ensures k <= e <= |s|
    ensures forall t :: k <= t < e ==> IsSpace(s[t])
    ensures e == |s| || !IsSpace(s[e])
    decreases |s| - k
  {
    if k < |s| && IsSpace(s[k]) then SpaceEnd(s, k + 1) else k
  }

  /** Index of the first newline at or after `k`, or `|s|`: where `[^\n]+` stops. */
  function LineEnd(s: string, k: nat): (e: nat)
    requires k <= |s|
    ensures k <= e <= |s|
    ensures forall t :: k <= t < e ==> s[t] != '\n'
    ensures e == |s| || s[e] == '\n'
    decreases |s| - k
  {
    if k < |s| && s[k] != '\n' then LineEnd(s, k + 1) else k
  }

  /** `str.lstrip()`: drops the leading whitespace. */
  function LStrip(s: string): (r: string)
    ensures |r| <= |s| && r == s[|s| - |r|..]
    ensures r == [] || !IsSpace(r[0])
    ensures forall t :: 0 <= t < |s| - |r| ==> IsSpace(s[t])
  {
    if s != [] && IsSpace(s[0]) then LStrip(s[1..]) else s
  }

  /** `str.rstrip()`: drops the trailing whitespace. */
  function RStrip(s: string): (r: string)
    ensures |r| <= |s| && r == s[..|r|]
    ensures r == [] || !IsSpace(r[|r| - 1])
    ensures forall t :: |r| <= t < |s| ==> IsSpace(s[t])
  {
    if s != [] && IsSpace(s[|s| - 1]) then RStrip(s[..|s| - 1]) else s
  }

  /** `str.strip()`. */
  function Strip(s: string): string {
    RStrip(LStrip(s))
  }

  /** `str.strip()` keeps a slice `s[a..b]` that neither begins nor ends with
      whitespace, and everything it removes is whitespace. */
  lemma StripSpec(s: string)
    ensures var r := Strip(s);
      exists a: nat, b: nat {:trigger s[a..b]} :: a <= b <= |s| && r == s[a..b] &&
        (forall t :: 0 <= t < a ==> IsSpace(s[t])) &&
        (forall t :: b <= t < |s| ==> IsSpace(s[t]))
    ensures var r := Strip(s); r == [] || (!IsSpace(r[0]) && !IsSpace(r[|r| - 1]))
  {
    var l := LStrip(s);
    var r := RStrip(l);
    TrimmedSlice(s, l, r);
    assert r == s[|s| - |l|..|s| - |l| + |r|];
  }

  /** A prefix `r` of a suffix `l` of `s`, each cut at whitespace only. */
  lemma TrimmedSlice(s: string, l: string, r: string)
    requires |l| <= |s| && l == s[|s| - |l|..] && (l == [] || !IsSpace(l[0]))
    requires forall t :: 0 <= t < |s| - |l| ==> IsSpace(s[t])
    requires |r| <= |l| && r == l[..|r|] && (r == [] || !IsSpace(r[|r| - 1]))
    requires forall t :: |r| <= t < |l| ==> IsSpace(l[t])
    ensures r == s[|s| - |l|..|s| - |l| + |r|]
    ensures forall t :: |s| - |l| + |r| <= t < |s| ==> IsSpace(s[t])
    ensures r == [] || (!IsSpace(r[0]) && !IsSpace(r[|r| - 1]))
  {
    var a := |s| - |l|;
    var b := a + |r|;
    assert s[a..][..|r|] == s[a..b];
    forall t | b <= t < |s| ensures IsSpace(s[t]) {
      assert s[t] == l[t - a];
    }
    if r != [] {
      assert r[0] == l[0];
    }
  }

  /** A string without leading or trailing whitespace is its own `strip()`. */
  lemma StripTrimmed(s: string)
    requires s == [] || (!IsSpace(s[0]) && !IsSpace(s[|s| - 1]))
    ensures Strip(s) == s
  {
  }

  /** `strip()` only removes characters. */
  lemma StripInfix(s: string, c: char)
    requires c !in s
    ensures c !in Strip(s)
  {
    StripSpec(s);
  }

  /** `sep.join(parts)`. */
  function Join(parts: seq<string>, sep: string): string
    decreases |parts|
  {
    if |parts| == 0 then ""
    else if |parts| == 1 then parts[0]
    else parts[0] + sep + Join(parts[1..], sep)
  }

  /** `str.split(sep)` for a one-character separator: every piece between two
      separators, empty ones included; `"".split(",") == [""]`. */
  function Split(s: string, sep: char): (parts: seq<string>)
    ensures |parts| >= 1
    ensures forall i :: 0 <= i < |parts| ==> sep !in parts[i]
    ensures Join(parts, [sep]) == s
    decreases |s|
  {
    if s == [] then [""]
    else
      var rest := Split(s[1..], sep);
      if s[0] == sep then
        [""] + rest
      else
        var parts := [[s[0]] + rest[0]] + rest[1..];
        assert parts[1..] == rest[1..];
        parts
  }

  /** Number of occurrences of `c` in `s`. */
  function Occurrences(s: string, c: char): nat {
    if s == [] then 0 else (if s[0] == c then 1 else 0) + Occurrences(s[1..], c)
  }

  /** `split` yields one piece more than there are separators. */
  lemma {:induction false} SplitCount(s: string, sep: char)
    ensures |Split(s, sep)| == Occurrences(s, sep) + 1
    decreases |s|
  {
    if s != [] {
      SplitCount(s[1..], sep);
    }
  }

  /** One step of `split` on a leading separator. */
  lemma SplitSep(t: string, sep: char)
    ensures Split([sep] + t, sep) == [""] + Split(t, sep)
  {
    assert ([sep] + t)[1..] == t;
  }

  /** One step of `split` on a leading character other than the separator. */
  lemma SplitChar(c: char, t: string, sep: char)
    requires c != sep
    ensures var rest := Split(t, sep); Split([c] + t, sep) == [[c] + rest[0]] + rest[1..]
  {
    assert ([c] + t)[1..] == t;
  }

  /** A separator-free text is a single piece. */
  lemma {:induction false} SplitSingle(p: string, sep: char)
    requires sep !in p
    ensures Split(p, sep) == [p]
    decreases |p|
  {
    if p != [] {
      SplitSingle(p[1..], sep);
      assert [p[0]] + p[1..] == p;
      SplitChar(p[0], p[1..], sep);
    }
  }

  /** A separator-free first piece is split off whole. */
  lemma {:induction false} SplitPrefix(p: string, sep: char, rest: string)
    requires sep !in p
    ensures Split(p + [sep] + rest, sep) == [p] + Split(rest, sep)
    decreases |p|
  {
    if p == [] {
      assert p + [sep] + rest == [sep] + rest;
      SplitSep(rest, sep);
    } else {
      var tail := p[1..] + [sep] + rest;
      SplitPrefix(p[1..], sep, rest);
      assert p + [sep] + rest == [p[0]] + tail;
      assert [p[0]] + p[1..] == p;
      SplitChar(p[0], tail, sep);
    }
  }

  /** `split` undoes `join` when no piece contains the separator. */
  lemma {:induction false} SplitJoin(parts: seq<string>, sep: char)
    requires |parts| >= 1
    requires forall i :: 0 <= i < |parts| ==> sep !in parts[i]
    ensures Split(Join(parts, [sep]), sep) == parts
    decreases |parts|
  {
    if |parts| == 1 {
      SplitSingle(parts[0], sep);
    } else {
      SplitJoin(parts[1..], sep);
      SplitPrefix(parts[0], sep, Join(parts[1..], [sep]));
      assert [parts[0]] + parts[1..] == parts;
    }
  }

  /** Concatenation regroups. */
  lemma ConcatAssoc<T>(a: seq<T>, b: seq<T>, c: seq<T>)
    ensures a + b + c == a + (b + c)
  {
  }

  /** The substring test `needle in hay`. */
  predicate IsSubstring(needle: string, hay: string)
    decreases |hay|
  {
    needle <= hay || (hay != [] && IsSubstring(needle, hay[1..]))
  }

  /** What `needle in hay` means: `needle` occurs at some position of `hay`. */
  lemma {:induction false} SubstringAt(needle: string, hay: string)
    ensures IsSubstring(needle, hay) <==>
      exists i {:trigger hay[i..]} :: 0 <= i <= |hay| && needle <= hay[i..]
    decreases |hay|
  {
    assert hay[0..] == hay;
    if hay != [] {
      SubstringAt(needle, hay[1..]);
      if !(needle <= hay) && IsSubstring(needle, hay[1..]) {
        var i :| 0 <= i <= |hay[1..]| && needle <= hay[1..][i..];
        assert hay[1..][i..] == hay[i + 1..];
      }
      if exists i {:trigger hay[i..]} :: 0 <= i <= |hay| && needle <= hay[i..] {
        var i :| 0 <= i <= |hay| && needle <= hay[i..];
        if i > 0 {
          assert hay[1..][i - 1..] == hay[i..];
        }
      }
    }
  }

  /** A substring of a part is a substring of the whole. */
  lemma {:induction false} SubstringWithin(needle: string, a: string, b: string, c: string)
    requires IsSubstring(needle, b)
    ensures IsSubstring(needle, a + b + c)
  {
    SubstringAt(needle, b);
    var i :| 0 <= i <= |b| && needle <= b[i..];
    var whole := a + b + c;
    assert b[i..] + c == whole[|a| + i..];
    SubstringAt(needle, whole);
  }

  /** `s[i..]` begins with `lit`. */
  predicate LiteralAt(s: string, i: nat, lit: string) {
    i + |lit| <= |s| && s[i..i + |lit|] == lit
  }

  /** Whether `s[i..]` begins with `a + b`, piece by piece. */
  lemma LiteralAtConcat(s: string, i: nat, a: string, b: string)
    ensures LiteralAt(s, i, a + b) <==> LiteralAt(s, i, a) && LiteralAt(s, i + |a|, b)
  {
    if i + |a| + |b| <= |s| {
      assert s[i..i + |a| + |b|] == s[i..i + |a|] + s[i + |a|..i + |a| + |b|];
      if s[i..i + |a| + |b|] == a + b {
        assert s[i..i + |a|] == (a + b)[..|a|];
        assert s[i + |a|..i + |a| + |b|] == (a + b)[|a|..];
      }
    }
  }

  /** The characters of a literal standing at `k`. */
  lemma LiteralChars(s: string, k: nat, w: string)
    requires LiteralAt(s, k, w)
    ensures forall t :: 0 <= t < |w| ==> s[k + t] == w[t]
  {
    forall t | 0 <= t < |w| ensures s[k + t] == w[t] {
      assert s[k..k + |w|][t] == s[k + t];
    }
  }

  /** The concatenation of a sequence of pieces. */
  function Concat(pieces: seq<string>): string {
    if pieces == [] then "" else pieces[0] + Concat(pieces[1..])
  }

  /** A text made of pieces begins with its first piece, and the rest follows. */
  lemma LiteralAtPieces(s: string, i: nat, pieces: seq<string>)
    requires pieces != [] && LiteralAt(s, i, Concat(pieces))
    ensures LiteralAt(s, i, pieces[0]) && LiteralAt(s, i + |pieces[0]|, Concat(pieces[1..]))
  {
    LiteralAtConcat(s, i, pieces[0], Concat(pieces[1..]));
  }
}
