/** The JavaScript string built-ins the application relies on, stated character by
    character: `trim`, `split` on one character, `Array.prototype.join`, `indexOf`,
    `lastIndexOf`, `substring`, `includes`, a global replace of a literal pattern and
    ASCII case mapping. A JavaScript string is modelled as a sequence of Dafny chars. */
module JsString {

  /** The characters that `String.prototype.trim` removes and that the regular
      expression class `\s` matches: ECMAScript WhiteSpace and LineTerminator. */
  predicate IsWhitespace(c: char) {
    || c == '\t' || c == '\n' || c == '\U{000B}' || c == '\U{000C}' || c == '\r'
    || c == ' ' || c == '\U{00A0}' || c == '\U{1680}' || ('\U{2000}' <= c <= '\U{200A}')
    || c == '\U{2028}' || c == '\U{2029}' || c == '\U{202F}' || c == '\U{205F}'
    || c == '\U{3000}' || c == '\U{FEFF}'
  }

  /** The regular expression class `\w`. */
  predicate IsWordChar(c: char) {
    ('a' <= c <= 'z') || ('A' <= c <= 'Z') || ('0' <= c <= '9') || c == '_'
  }

  lemma WhitespaceIsNotWordChar(c: char)
    requires IsWhitespace(c)
    ensures !IsWordChar(c)
  {
  }

  predicate AllWhitespace(s: string) {
    forall i :: 0 <= i < |s| ==> IsWhitespace(s[i])
  }

  predicate AllWordChars(s: string) {
    forall i :: 0 <= i < |s| ==> IsWordChar(s[i])
  }

  // ---------------------------------------------------------------------------
  // trim

  /** `trimStart`: the longest suffix of `s` that does not begin with whitespace. */
  function TrimStart(s: string): (r: string)
    ensures |r| <= |s| && r == s[|s| - |r|..]
    ensures AllWhitespace(s[..|s| - |r|])
    ensures r == [] || !IsWhitespace(r[0])
  {
    if |s| > 0 && IsWhitespace(s[0]) then TrimStart(s[1..]) else s
  }

  /** `trimEnd`: the longest prefix of `s` that does not end with whitespace. */
  function TrimEnd(s: string): (r: string)
    ensures |r| <= |s| && r == s[..|r|]
    ensures AllWhitespace(s[|r|..])
    ensures r == [] || !IsWhitespace(r[|r| - 1])
  {
    if |s| > 0 && IsWhitespace(s[|s| - 1]) then
      var r := TrimEnd(s[..|s| - 1]);
      assert s[|r|..] == s[..|s| - 1][|r|..] + [s[|s| - 1]];
      r
    else s
  }

  /** `String.prototype.trim`. */
  function Trim(s: string): (r: string)
    ensures r == [] || (!IsWhitespace(r[0]) && !IsWhitespace(r[|r| - 1]))
  {
    TrimEnd(TrimStart(s))
  }

  /** A character absent from `s` is absent from what `trimStart` keeps. */
  lemma TrimStartSuffix(s: string, c: char)
    requires c !in s
    ensures c !in TrimStart(s)
  {
    var r := TrimStart(s);
    forall i | 0 <= i < |r| ensures r[i] != c { assert r[i] == s[|s| - |r| + i]; }
  }

  /** A character absent from `s` is absent from what `trimEnd` keeps. */
  lemma TrimEndPrefix(s: string, c: char)
    requires c !in s
    ensures c !in TrimEnd(s)
  {
    var r := TrimEnd(s);
    forall i | 0 <= i < |r| ensures r[i] != c { assert r[i] == s[i]; }
  }

  /** A string of whitespace in front of `s` does not change `trimStart`. */
  lemma {:induction false} TrimStartWhitespacePrefix(p: string, s: string)
    requires AllWhitespace(p)
    ensures TrimStart(p + s) == TrimStart(s)
  {
    if p != [] {
      assert (p + s)[0] == p[0] && IsWhitespace(p[0]);
      assert (p + s)[1..] == p[1..] + s;
      assert AllWhitespace(p[1..]) by {
        forall i | 0 <= i < |p[1..]| ensures IsWhitespace(p[1..][i]) { assert p[1..][i] == p[i + 1]; }
      }
      TrimStartWhitespacePrefix(p[1..], s);
    } else {
      assert p + s == s;
    }
  }

  /** A string of whitespace after `s` does not change `trimEnd`. */
  lemma {:induction false} TrimEndWhitespaceSuffix(s: string, p: string)
    requires AllWhitespace(p)
    ensures TrimEnd(s + p) == TrimEnd(s)
  {
    if p != [] {
      assert (s + p)[|s + p| - 1] == p[|p| - 1] && IsWhitespace(p[|p| - 1]);
      assert (s + p)[..|s + p| - 1] == s + p[..|p| - 1];
      var init := p[..|p| - 1];
      assert AllWhitespace(init) by {
        forall i | 0 <= i < |init| ensures IsWhitespace(init[i]) { assert init[i] == p[i]; }
      }
      TrimEndWhitespaceSuffix(s, init);
    } else {
      assert s + p == s;
    }
  }

  /** `trimStart` stops at the first non-whitespace character. */
  lemma {:induction false} TrimStartConcat(a: string, b: string)
    requires b != [] && !IsWhitespace(b[0])
    ensures TrimStart(a + b) == TrimStart(a) + b
  {
    if a != [] {
      assert (a + b)[1..] == a[1..] + b;
      TrimStartConcat(a[1..], b);
    } else {
      assert a + b == b;
    }
  }

  /** `trimEnd` stops at the last non-whitespace character. */
  lemma {:induction false} TrimEndConcat(a: string, b: string)
    requires a != [] && !IsWhitespace(a[|a| - 1])
    ensures TrimEnd(a + b) == a + TrimEnd(b)
  {
    if b != [] {
      assert (a + b)[..|a + b| - 1] == a + b[..|b| - 1];
      TrimEndConcat(a, b[..|b| - 1]);
    } else {
      assert a + b == a;
    }
  }

  /** Trimming a text made of a core that begins and ends with a non-whitespace
      character trims only the two sides. */
  lemma TrimAround(pre: string, core: string, post: string)
    requires core != [] && !IsWhitespace(core[0]) && !IsWhitespace(core[|core| - 1])
    ensures Trim(pre + core + post) == TrimStart(pre) + core + TrimEnd(post)
  {
    assert pre + core + post == pre + (core + post);
    TrimStartConcat(pre, core + post);
    assert TrimStart(pre) + (core + post) == (TrimStart(pre) + core) + post;
    TrimEndConcat(TrimStart(pre) + core, post);
  }

  /** Whitespace around a trimmed string is exactly what `trim` removes. */
  lemma TrimPadded(p: string, s: string, q: string)
    requires AllWhitespace(p) && AllWhitespace(q)
    requires s == [] || (!IsWhitespace(s[0]) && !IsWhitespace(s[|s| - 1]))
    ensures Trim(p + s + q) == s
  {
    TrimStartWhitespacePrefix(p, []);
    assert p + [] == p;
    assert TrimStart(p) == [];
    TrimEndWhitespaceSuffix([], q);
    assert [] + q == q;
    assert TrimEnd(q) == [];
    if s == [] {
      assert p + s + q == p + q;
      TrimStartWhitespacePrefix(p, q);
      TrimStartWhitespacePrefix(q, []);
      assert q + [] == q;
      assert TrimStart(q) == [];
    } else {
      TrimAround(p, s, q);
      assert [] + s + [] == s;
    }
  }

  /** A string without whitespace at either end is its own trim. */
  lemma TrimOfTrimmed(s: string)
    requires s == [] || (!IsWhitespace(s[0]) && !IsWhitespace(s[|s| - 1]))
    ensures Trim(s) == s
  {
    TrimPadded([], s, []);
    assert [] + s + [] == s;
  }

  /** `trim` is idempotent. */
  lemma TrimIdempotent(s: string)
    ensures Trim(Trim(s)) == Trim(s)
  {
    TrimPadded([], Trim(s), []);
    assert [] + Trim(s) + [] == Trim(s);
  }

  // ---------------------------------------------------------------------------
  // join and split

  /** `Array.prototype.join(sep)` on an array of strings. */
  function Join(xs: seq<string>, sep: string): string {
    if |xs| == 0 then ""
    else if |xs| == 1 then xs[0]
    else xs[0] + sep + Join(xs[1..], sep)
  }

  /** `String.prototype.split(sep)` with a one-character separator: the maximal
      separator-free pieces, in order; there is always at least one piece. */
  function Split(s: string, sep: char): (r: seq<string>)
    ensures |r| > 0
    ensures forall i :: 0 <= i < |r| ==> sep !in r[i]
  {
    if |s| == 0 then [""]
    else if s[0] == sep then [""] + Split(s[1..], sep)
    else
      var rest := Split(s[1..], sep);
      [[s[0]] + rest[0]] + rest[1..]
  }

  lemma JoinConsHead(a: string, x: string, ys: seq<string>, sep: string)
    ensures Join([a + x] + ys, sep) == a + Join([x] + ys, sep)
  {
    if ys != [] {
      assert ([a + x] + ys)[1..] == ys;
      assert ([x] + ys)[1..] == ys;
    }
  }

  /** Joining the pieces of a split with the separator gives back the string. */
  lemma {:induction false} JoinSplit(s: string, sep: char)
    ensures Join(Split(s, sep), [sep]) == s
  {
    if |s| > 0 {
      var rest := Split(s[1..], sep);
      JoinSplit(s[1..], sep);
      if s[0] == sep {
        assert ([""] + rest)[1..] == rest;
        assert Join([""] + rest, [sep]) == "" + [sep] + Join(rest, [sep]);
        assert s == [s[0]] + s[1..];
      } else {
        assert rest == [rest[0]] + rest[1..];
        JoinConsHead([s[0]], rest[0], rest[1..], [sep]);
        assert s == [s[0]] + s[1..];
      }
    }
  }

  lemma {:induction false} SplitNoSeparator(a: string, sep: char)
    requires sep !in a
    ensures Split(a, sep) == [a]
  {
    if |a| > 0 {
      assert sep !in a[1..] by {
        forall i | 0 <= i < |a[1..]| ensures a[1..][i] != sep { assert a[1..][i] == a[i + 1]; }
      }
      SplitNoSeparator(a[1..], sep);
      assert [a[0]] + a[1..] == a;
    }
  }

  lemma {:induction false} SplitAtSeparator(a: string, sep: char, t: string)
    requires sep !in a
    ensures Split(a + [sep] + t, sep) == [a] + Split(t, sep)
  {
    var s := a + [sep] + t;
    if |a| == 0 {
      assert s[1..] == t;
    } else {
      assert s[1..] == a[1..] + [sep] + t;
      assert sep !in a[1..] by {
        forall i | 0 <= i < |a[1..]| ensures a[1..][i] != sep { assert a[1..][i] == a[i + 1]; }
      }
      SplitAtSeparator(a[1..], sep, t);
      assert [a[0]] + a[1..] == a;
    }
  }

  /** Splitting a join of separator-free pieces gives back the pieces. */
  lemma {:induction false} SplitJoin(xs: seq<string>, sep: char)
    requires |xs| > 0
    requires forall i :: 0 <= i < |xs| ==> sep !in xs[i]
    ensures Split(Join(xs, [sep]), sep) == xs
  {
    if |xs| == 1 {
      SplitNoSeparator(xs[0], sep);
    } else {
      SplitJoin(xs[1..], sep);
      SplitAtSeparator(xs[0], sep, Join(xs[1..], [sep]));
      assert [xs[0]] + xs[1..] == xs;
    }
  }

  /** A join is empty exactly when there is nothing to join or a single empty string. */
  lemma JoinEmpty(xs: seq<string>, sep: string)
    requires sep != ""
    ensures Join(xs, sep) == "" <==> xs == [] || xs == [""]
  {
    if |xs| >= 2 {
      assert |Join(xs, sep)| >= |sep|;
    }
  }

  // ---------------------------------------------------------------------------
  // searching

  /** `indexOf(c)`: the first position of `c`, or -1. */
  function IndexOf(s: string, c: char): (r: int)
    ensures -1 <= r < |s|
    ensures r == -1 <==> c !in s
    ensures r >= 0 ==> s[r] == c && c !in s[..r]
  {
    if |s| == 0 then -1
    else if s[0] == c then 0
    else
      var k := IndexOf(s[1..], c);
      if k == -1 then -1 else k + 1
  }

  /** `lastIndexOf(c)`: the last position of `c`, or -1. */
  function LastIndexOf(s: string, c: char): (r: int)
    ensures -1 <= r < |s|
    ensures r == -1 <==> c !in s
    ensures r >= 0 ==> s[r] == c && c !in s[r + 1..]
  {
    if |s| == 0 then -1
    else if s[|s| - 1] == c then |s| - 1
    else LastIndexOf(s[..|s| - 1], c)
  }

  /** The first occurrence is the position `k` that holds `c` with none before it. */
  lemma IndexOfAt(s: string, c: char, k: nat)
    requires k < |s| && s[k] == c && c !in s[..k]
    ensures IndexOf(s, c) == k
  {
  }

  /** The last occurrence is the position `k` that holds `c` with none after it. */
  lemma LastIndexOfAt(s: string, c: char, k: nat)
    requires k < |s| && s[k] == c && c !in s[k + 1..]
    ensures LastIndexOf(s, c) == k
  {
  }

  /** The clamping `substring` applies to each index. */
  function Clamp(i: int, n: nat): (r: nat)
    ensures r <= n
    ensures 0 <= i <= n ==> r == i
  {
    if i < 0 then 0 else if i > n then n else i
  }

  /** `substring(start, end)`: indices are clamped to the string, and swapped when
      `end` is before `start`. */
  function Substring(s: string, start: int, end: int): (r: string)
    ensures 0 <= start <= end <= |s| ==> r == s[start..end]
    ensures 0 <= end <= start <= |s| ==> r == s[end..start]
  {
    var a := Clamp(start, |s|);
    var b := Clamp(end, |s|);
    if a <= b then s[a..b] else s[b..a]
  }

  /** `sub` occurs in `s` at position `i`. */
  predicate OccursAt(s: string, sub: string, i: int) {
    0 <= i && i + |sub| <= |s| && s[i..i + |sub|] == sub
  }

  /** `String.prototype.includes(sub)`. */
  predicate Includes(s: string, sub: string) {
    exists i :: 0 <= i <= |s| - |sub| && OccursAt(s, sub, i)
  }

  // ---------------------------------------------------------------------------
  // global replace of a literal pattern

  /** A string occurs in any text built around it. */
  lemma IncludesMiddle(a: string, sub: string, b: string)
    ensures Includes(a + sub + b, sub)
  {
    var s := a + sub + b;
    assert s[|a|..|a| + |sub|] == sub;
    assert OccursAt(s, sub, |a|);
  }

  /** `s.replace(new RegExp(pat, 'g'), rep)` for a pattern with no regular-expression
      metacharacters and a replacement with no `$` sequences: every occurrence of `pat`,
      found left to right without overlap, becomes `rep`. */
  function ReplaceAll(s: string, pat: string, rep: string): string
    requires |pat| > 0
    decreases |s|
  {
    if |s| < |pat| then s
    else if s[..|pat|] == pat then rep + ReplaceAll(s[|pat|..], pat, rep)
    else [s[0]] + ReplaceAll(s[1..], pat, rep)
  }

  lemma NotIncludesTail(s: string, pat: string)
    requires |s| > 0 && !Includes(s, pat)
    ensures !Includes(s[1..], pat)
  {
    forall i | OccursAt(s[1..], pat, i) ensures false {
      assert s[1..][i..i + |pat|] == s[i + 1..i + 1 + |pat|];
      assert OccursAt(s, pat, i + 1);
    }
  }

  /** A string in which the pattern does not occur is left unchanged. */
  lemma {:induction false} ReplaceAllAbsent(s: string, pat: string, rep: string)
    requires |pat| > 0 && !Includes(s, pat)
    ensures ReplaceAll(s, pat, rep) == s
  {
    if |s| >= |pat| {
      assert !OccursAt(s, pat, 0);
      NotIncludesTail(s, pat);
      ReplaceAllAbsent(s[1..], pat, rep);
      assert [s[0]] + s[1..] == s;
    }
  }

  /** A pattern whose first character does not recur in it cannot overlap itself. */
  predicate Unbordered(pat: string) {
    |pat| > 0 && pat[0] !in pat[1..]
  }

  /** After a non-empty pattern-free prefix, an unbordered pattern cannot start at 0. */
  lemma NoMatchAtStart(a: string, pat: string, b: string)
    requires Unbordered(pat) && !Includes(a, pat) && a != []
    ensures (a + pat + b)[..|pat|] != pat
  {
    var s := a + pat + b;
    if |a| >= |pat| {
      assert s[..|pat|] == a[..|pat|];
      assert !OccursAt(a, pat, 0);
    } else {
      assert s[..|pat|][|a|] == pat[0];
      assert pat[|a|] == pat[1..][|a| - 1];
      assert pat[|a|] != pat[0];
    }
  }

  /** The first occurrence of an unbordered pattern after a pattern-free prefix is
      the one that is replaced. */
  lemma {:induction false} ReplaceAllStep(a: string, pat: string, b: string, rep: string)
    requires Unbordered(pat) && !Includes(a, pat)
    ensures ReplaceAll(a + pat + b, pat, rep) == a + rep + ReplaceAll(b, pat, rep)
  {
    var s := a + pat + b;
    if a == [] {
      assert s[..|pat|] == pat;
      assert s[|pat|..] == b;
    } else {
      NoMatchAtStart(a, pat, b);
      assert ReplaceAll(s, pat, rep) == [s[0]] + ReplaceAll(s[1..], pat, rep);
      assert s[1..] == a[1..] + pat + b;
      NotIncludesTail(a, pat);
      ReplaceAllStep(a[1..], pat, b, rep);
      assert s[0] == a[0];
      assert [a[0]] + (a[1..] + rep + ReplaceAll(b, pat, rep)) == a + rep + ReplaceAll(b, pat, rep);
    }
  }

  /** Replacing an unbordered pattern in a join of pattern-free chunks joins the
      chunks with the replacement instead. */
  lemma {:induction false} ReplaceAllJoin(chunks: seq<string>, pat: string, rep: string)
    requires Unbordered(pat)
    requires forall i :: 0 <= i < |chunks| ==> !Includes(chunks[i], pat)
    ensures ReplaceAll(Join(chunks, pat), pat, rep) == Join(chunks, rep)
  {
    if |chunks| == 1 {
      ReplaceAllAbsent(chunks[0], pat, rep);
    } else if |chunks| >= 2 {
      ReplaceAllJoin(chunks[1..], pat, rep);
      ReplaceAllStep(chunks[0], pat, Join(chunks[1..], pat), rep);
    }
  }

  // ---------------------------------------------------------------------------
  // case mapping (ASCII letters only)

  predicate IsUpper(c: char) { 'A' <= c <= 'Z' }

  function ToLowerChar(c: char): (r: char)
    ensures !IsUpper(r)
  {
    if IsUpper(c) then (c as int + 32) as char else c
  }

  function ToUpperChar(c: char): (r: char)
    ensures !('a' <= r <= 'z')
  {
    if 'a' <= c <= 'z' then (c as int - 32) as char else c
  }

  /** `toLowerCase` on ASCII letters. */
  function ToLower(s: string): (r: string)
    ensures |r| == |s|
    ensures forall i :: 0 <= i < |s| ==> r[i] == ToLowerChar(s[i])
  {
    if s == [] then [] else [ToLowerChar(s[0])] + ToLower(s[1..])
  }
}
