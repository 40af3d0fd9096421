/**
 * The few JavaScript string primitives the extension relies on, written out
 * over `seq<char>`: the `\s` character class, line terminators (what `.` in a
 * regular expression refuses to match), `toLowerCase` (ASCII letters only),
 * `includes`, `trim`, `indexOf`/`lastIndexOf`, and the "a, then b later on
 * the same line" test that a pattern of the form `/a.*b/` performs.
 */
module JsText {

  /** The characters matched by `\s` (and removed by `trim`). */
  predicate IsJsWhitespace(c: char) {
    c == '\t' || c == '\n' || c == '\U{B}' || c == '\U{C}' || c == '\r' || c == ' '
    || c == '\U{A0}' || c == '\U{1680}' || ('\U{2000}' <= c <= '\U{200A}')
    || c == '\U{2028}' || c == '\U{2029}' || c == '\U{202F}' || c == '\U{205F}'
    || c == '\U{3000}' || c == '\U{FEFF}'
  }

  /** The characters `.` does not match in a regular expression without the `s` flag. */
  predicate IsLineTerminator(c: char) {
    c == '\n' || c == '\r' || c == '\U{2028}' || c == '\U{2029}'
  }

  function LowerChar(c: char): char {
    if 'A' <= c <= 'Z' then (c as int + 32) as char else c
  }

  /** `toLowerCase`, restricted to the ASCII letters. */
  function Lower(s: string): (r: string)
    ensures |r| == |s|
    ensures forall i :: 0 <= i < |s| ==> r[i] == LowerChar(s[i])
  {
    seq(|s|, i requires 0 <= i < |s| => LowerChar(s[i]))
  }

  /**
   * What lowercasing leaves: no capital `A`–`Z` remains, every character
   * outside `A`–`Z` is kept, each capital becomes its small letter, and a
   * second lowercasing changes nothing.
   */
  lemma LowerLeavesNoCapitals(s: string)
    ensures forall i :: 0 <= i < |s| ==> !('A' <= Lower(s)[i] <= 'Z')
    ensures forall i :: 0 <= i < |s| && !('A' <= s[i] <= 'Z') ==> Lower(s)[i] == s[i]
    ensures forall i :: 0 <= i < |s| && 'A' <= s[i] <= 'Z' ==> 'a' <= Lower(s)[i] <= 'z' && Lower(s)[i] as int == s[i] as int + 32
    ensures Lower(Lower(s)) == Lower(s)
  {
    var r := Lower(s);
    assert forall i :: 0 <= i < |r| ==> Lower(r)[i] == r[i];
  }

  /** `sub` occurs in `s` starting at position `i`. */
  predicate OccursAt(s: string, sub: string, i: nat) {
    i + |sub| <= |s| && s[i..i + |sub|] == sub
  }

  /** `s.includes(sub)`. */
  predicate Contains(s: string, sub: string)
    decreases |s|
  {
    sub <= s || (|s| > 0 && Contains(s[1..], sub))
  }

  lemma {:induction false} ContainsAt(s: string, sub: string)
    ensures Contains(s, sub) <==> exists i: nat :: OccursAt(s, sub, i)
    decreases |s|
  {
    if sub <= s {
      assert OccursAt(s, sub, 0);
    } else if |s| > 0 {
      ContainsAt(s[1..], sub);
      if Contains(s[1..], sub) {
        var i: nat :| OccursAt(s[1..], sub, i);
        OccursAtShift(s, sub, i);
      }
      if i: nat :| OccursAt(s, sub, i) {
        assert i != 0;
        OccursAtUnshift(s, sub, i);
      }
    }
  }

  lemma OccursAtShift(s: string, sub: string, i: nat)
    requires |s| > 0 && OccursAt(s[1..], sub, i)
    ensures OccursAt(s, sub, i + 1)
  {
    assert s[i + 1..i + 1 + |sub|] == s[1..][i..i + |sub|];
  }

  lemma OccursAtUnshift(s: string, sub: string, i: nat)
    requires i > 0 && OccursAt(s, sub, i)
    ensures OccursAt(s[1..], sub, i - 1)
  {
    assert s[1..][i - 1..i - 1 + |sub|] == s[i..i + |sub|];
  }

  /** `s` cannot contain `w` when no place where `w` could start agrees with its `d`-th character. */
  lemma NotContainsByMismatch(s: string, w: string, d: nat)
    requires d < |w|
    requires forall j :: d <= j && j - d + |w| <= |s| ==> s[j] != w[d]
    ensures !Contains(s, w)
  {
    ContainsAt(s, w);
    forall i: nat ensures !OccursAt(s, w, i) {
      if i + |w| <= |s| {
        assert s[i..i + |w|][d] == s[i + d];
      }
    }
  }

  /** Some word of `words` occurs in `s` (a regular expression `w1|w2|...`). */
  predicate ContainsAny(s: string, words: seq<string>) {
    exists k :: 0 <= k < |words| && Contains(s, words[k])
  }

  /** `sub` starts before the first line terminator of `s` is reached. */
  predicate ContainsBeforeBreak(s: string, sub: string)
    decreases |s|
  {
    sub <= s || (|s| > 0 && !IsLineTerminator(s[0]) && ContainsBeforeBreak(s[1..], sub))
  }

  /**
   * The regular expression `/a.*b/` matches `s`: an occurrence of `a` is
   * followed, later on the same line, by an occurrence of `b`.
   */
  predicate OrderedOnLine(s: string, a: string, b: string)
    decreases |s|
  {
    (a <= s && ContainsBeforeBreak(s[|a|..], b)) || (|s| > 0 && OrderedOnLine(s[1..], a, b))
  }

  lemma {:induction false} BeforeBreakIsContained(s: string, sub: string)
    requires ContainsBeforeBreak(s, sub)
    ensures Contains(s, sub)
    decreases |s|
  {
    if !(sub <= s) {
      BeforeBreakIsContained(s[1..], sub);
    }
  }

  /** A pattern `/a.*b/` only matches text in which both words occur. */
  lemma {:induction false} OrderedOnLineContainsBoth(s: string, a: string, b: string)
    requires OrderedOnLine(s, a, b)
    ensures Contains(s, a) && Contains(s, b)
    decreases |s|
  {
    if a <= s && ContainsBeforeBreak(s[|a|..], b) {
      BeforeBreakIsContained(s[|a|..], b);
      ContainsSuffix(s, |a|, b);
    } else {
      OrderedOnLineContainsBoth(s[1..], a, b);
    }
  }

  lemma {:induction false} ContainsSuffix(s: string, k: nat, sub: string)
    requires k <= |s| && Contains(s[k..], sub)
    ensures Contains(s, sub)
    decreases k
  {
    if k > 0 {
      assert s[1..][k - 1..] == s[k..];
      ContainsSuffix(s[1..], k - 1, sub);
    }
  }

  /** No line terminator among `s[lo..hi]`, so `.*` can cover it. */
  predicate LineFree(s: string, lo: nat, hi: nat) {
    forall k :: lo <= k < hi && k < |s| ==> !IsLineTerminator(s[k])
  }

  /** `/a.*b/` matches with `a` at `i` and `b` at `j`. */
  predicate MatchAt(s: string, a: string, b: string, i: nat, j: nat) {
    OccursAt(s, a, i) && i + |a| <= j && OccursAt(s, b, j) && LineFree(s, i + |a|, j)
  }

  /** An occurrence in a suffix is an occurrence in the whole text, further on. */
  lemma OccursInSuffix(s: string, n: nat, sub: string, j: nat)
    requires n <= |s|
    ensures OccursAt(s[n..], sub, j) <==> OccursAt(s, sub, n + j)
  {
    if n + j + |sub| <= |s| {
      assert s[n..][j..j + |sub|] == s[n + j..n + j + |sub|];
    }
  }

  /** `sub` is found before the first line terminator exactly when it occurs at a place no terminator precedes. */
  lemma {:induction false} ContainsBeforeBreakAt(s: string, sub: string)
    ensures ContainsBeforeBreak(s, sub) <==> exists j: nat :: OccursAt(s, sub, j) && LineFree(s, 0, j)
    decreases |s|
  {
    if sub <= s {
      assert OccursAt(s, sub, 0) && LineFree(s, 0, 0);
    } else if |s| > 0 {
      ContainsBeforeBreakAt(s[1..], sub);
      if ContainsBeforeBreak(s, sub) {
        var j: nat :| OccursAt(s[1..], sub, j) && LineFree(s[1..], 0, j);
        OccursAtShift(s, sub, j);
        assert LineFree(s, 0, j + 1) by {
          assert forall k :: 0 < k < j + 1 && k < |s| ==> s[k] == s[1..][k - 1];
        }
      }
      if j: nat :| OccursAt(s, sub, j) && LineFree(s, 0, j) {
        assert j != 0 && !IsLineTerminator(s[0]);
        OccursAtUnshift(s, sub, j);
        assert LineFree(s[1..], 0, j - 1) by {
          assert forall k :: 0 <= k < j - 1 && k < |s| - 1 ==> s[1..][k] == s[k + 1];
        }
      }
    } else {
      assert forall j: nat :: !OccursAt(s, sub, j);
    }
  }

  /** `/a.*b/` matches exactly when `a` occurs and `b` occurs after it with no line terminator between them. */
  lemma {:induction false} OrderedOnLineAt(s: string, a: string, b: string)
    ensures OrderedOnLine(s, a, b) <==> exists i: nat, j: nat :: MatchAt(s, a, b, i, j)
    decreases |s|
  {
    if |s| > 0 {
      OrderedOnLineAt(s[1..], a, b);
    }
    if OrderedOnLine(s, a, b) {
      if a <= s && ContainsBeforeBreak(s[|a|..], b) {
        MatchFromFront(s, a, b);
      } else {
        var i: nat, j: nat :| MatchAt(s[1..], a, b, i, j);
        MatchShift(s, a, b, i, j);
      }
    }
    if i: nat, j: nat :| MatchAt(s, a, b, i, j) {
      if i == 0 {
        MatchToFront(s, a, b, j);
      } else {
        MatchUnshift(s, a, b, i, j);
      }
    }
  }

  lemma MatchFromFront(s: string, a: string, b: string)
    requires a <= s && ContainsBeforeBreak(s[|a|..], b)
    ensures exists i: nat, j: nat :: MatchAt(s, a, b, i, j)
  {
    var t := s[|a|..];
    ContainsBeforeBreakAt(t, b);
    var j: nat :| OccursAt(t, b, j) && LineFree(t, 0, j);
    OccursInSuffix(s, |a|, b, j);
    assert OccursAt(s, a, 0);
    assert LineFree(s, |a|, |a| + j) by {
      assert forall k :: |a| <= k < |a| + j && k < |s| ==> s[k] == t[k - |a|];
    }
    assert MatchAt(s, a, b, 0, |a| + j);
  }

  lemma MatchToFront(s: string, a: string, b: string, j: nat)
    requires MatchAt(s, a, b, 0, j)
    ensures a <= s && ContainsBeforeBreak(s[|a|..], b)
  {
    var t := s[|a|..];
    assert s[0..|a|] == a;
    OccursInSuffix(s, |a|, b, j - |a|);
    assert LineFree(t, 0, j - |a|) by {
      assert forall k :: 0 <= k < j - |a| && k < |t| ==> t[k] == s[k + |a|];
    }
    ContainsBeforeBreakAt(t, b);
  }

  lemma MatchShift(s: string, a: string, b: string, i: nat, j: nat)
    requires |s| > 0 && MatchAt(s[1..], a, b, i, j)
    ensures MatchAt(s, a, b, i + 1, j + 1)
  {
    OccursAtShift(s, a, i);
    OccursAtShift(s, b, j);
    assert forall k :: i + |a| < k < j + 1 && k < |s| ==> s[k] == s[1..][k - 1];
  }

  lemma MatchUnshift(s: string, a: string, b: string, i: nat, j: nat)
    requires i > 0 && MatchAt(s, a, b, i, j)
    ensures exists i': nat, j': nat :: MatchAt(s[1..], a, b, i', j')
  {
    OccursAtUnshift(s, a, i);
    OccursAtUnshift(s, b, j);
    assert forall k :: i - 1 + |a| <= k < j - 1 && k < |s| - 1 ==> s[1..][k] == s[k + 1];
    assert MatchAt(s[1..], a, b, i - 1, j - 1);
  }

  /** Length of the run of `\s` characters at the start of `s`. */
  function WsRun(s: string): (n: nat)
    ensures n <= |s|
    ensures forall k :: 0 <= k < n ==> IsJsWhitespace(s[k])
    ensures n < |s| ==> !IsJsWhitespace(s[n])
  {
    if s != [] && IsJsWhitespace(s[0]) then 1 + WsRun(s[1..]) else 0
  }

  /**
   * Where the run of `\s` characters that ends at position `j` starts,
   * looking no further back than `lo`.
   */
  function WsRunEndingAt(s: string, lo: nat, j: nat): (e: nat)
    requires lo <= j <= |s|
    ensures lo <= e <= j
    ensures forall k :: e <= k < j ==> IsJsWhitespace(s[k])
    ensures e > lo ==> !IsJsWhitespace(s[e - 1])
    decreases j
  {
    if j > lo && IsJsWhitespace(s[j - 1]) then WsRunEndingAt(s, lo, j - 1) else j
  }

  /** `s` is `r` placed at position `i` with only `\s` characters before and after it. */
  predicate Surrounds(s: string, i: nat, r: string) {
    OccursAt(s, r, i)
    && (forall k :: 0 <= k < i ==> IsJsWhitespace(s[k]))
    && (forall k :: i + |r| <= k < |s| ==> IsJsWhitespace(s[k]))
  }

  /**
   * `trim`: the text without the `\s` characters at both ends. What is
   * dropped is whitespace only, and what is kept neither starts nor ends
   * with whitespace, which pins the result down.
   */
  function Trim(s: string): (r: string)
    ensures exists i: nat :: Surrounds(s, i, r)
    ensures r != [] ==> !IsJsWhitespace(r[0]) && !IsJsWhitespace(r[|r| - 1])
    ensures (forall k :: 0 <= k < |s| ==> IsJsWhitespace(s[k])) <==> r == []
  {
    var i := WsRun(s);
    var j := WsRunEndingAt(s, i, |s|);
    assert Surrounds(s, i, s[i..j]);
    s[i..j]
  }

  /** Whitespace on both sides of a text that neither starts nor ends with it is exactly what `trim` removes. */
  lemma TrimOf(a: string, m: string, b: string)
    requires forall k :: 0 <= k < |a| ==> IsJsWhitespace(a[k])
    requires forall k :: 0 <= k < |b| ==> IsJsWhitespace(b[k])
    requires m != [] && !IsJsWhitespace(m[0]) && !IsJsWhitespace(m[|m| - 1])
    ensures Trim(a + m + b) == m
  {
    var s := a + m + b;
    ThreePieces(a, m, b);
    TrimNonEmpty(s, |a|);
    var r := Trim(s);
    var i: nat :| Surrounds(s, i, r);
    TrimStartsAt(s, r, i, a, m + b);
    TrimEndsAt(s, r, i, a + m, b);
  }

  /** A text with a character other than whitespace does not trim to nothing. */
  lemma TrimNonEmpty(s: string, p: nat)
    requires p < |s| && !IsJsWhitespace(s[p])
    ensures Trim(s) != []
  {
  }

  /** The ways of cutting `a + m + b` that the proof above needs. */
  lemma ThreePieces(a: string, m: string, b: string)
    requires m != []
    ensures a + m + b == a + (m + b) && (m + b)[0] == m[0]
    ensures (a + m)[|a + m| - 1] == m[|m| - 1]
    ensures (a + m + b)[|a|..|a| + |m|] == m
    ensures (a + m + b)[|a|] == m[0]
  {
  }

  /** The kept part starts at the first character that is not whitespace. */
  lemma TrimStartsAt(s: string, r: string, i: nat, a: string, q: string)
    requires Surrounds(s, i, r) && r != [] && !IsJsWhitespace(r[0])
    requires s == a + q && q != [] && !IsJsWhitespace(q[0])
    requires forall k :: 0 <= k < |a| ==> IsJsWhitespace(a[k])
    ensures i == |a|
  {
    assert s[i] == r[0];
    assert s[|a|] == q[0];
  }

  /** The kept part ends after the last character that is not whitespace. */
  lemma TrimEndsAt(s: string, r: string, i: nat, p: string, b: string)
    requires Surrounds(s, i, r) && r != [] && !IsJsWhitespace(r[|r| - 1])
    requires s == p + b && p != [] && !IsJsWhitespace(p[|p| - 1])
    requires forall k :: 0 <= k < |b| ==> IsJsWhitespace(b[k])
    ensures i + |r| == |p|
  {
    assert s[i + |r| - 1] == r[|r| - 1];
    assert s[|p| - 1] == p[|p| - 1];
  }

  /** `s.indexOf(c)` for a single character: the first position of `c`, or -1. */
  function IndexOfChar(s: string, c: char): (i: int)
    ensures -1 <= i < |s|
    ensures i == -1 <==> c !in s
    ensures i >= 0 ==> s[i] == c && c !in s[..i]
  {
    if s == [] then -1
    else if s[0] == c then 0
    else
      var k := IndexOfChar(s[1..], c);
      if k == -1 then -1
      else
        assert s[..k + 1] == [s[0]] + s[1..][..k];
        k + 1
  }

  /** `s.lastIndexOf(sub)`: the last position where `sub` occurs, or -1. */
  function LastIndexOf(s: string, sub: string): (i: int)
    ensures -1 <= i
    ensures i >= 0 ==> OccursAt(s, sub, i)
    ensures forall j: nat :: i < j ==> !OccursAt(s, sub, j)
  {
    LastIndexFrom(s, sub, |s| - |sub|)
  }

  /** The last position at or before `p` where `sub` occurs, or -1. */
  function LastIndexFrom(s: string, sub: string, p: int): (i: int)
    requires p <= |s| - |sub|
    ensures -1 <= i <= if p < -1 then -1 else p
    ensures i >= 0 ==> OccursAt(s, sub, i)
    ensures forall j: nat :: i < j <= p ==> !OccursAt(s, sub, j)
    decreases p + 1
  {
    if p < 0 then -1
    else if s[p..p + |sub|] == sub then p
    else LastIndexFrom(s, sub, p - 1)
  }

  /** Length of the run of non-`\s` characters at the start of `s`. */
  function WordRun(s: string): (n: nat)
    ensures n <= |s|
    ensures forall k :: 0 <= k < n ==> !IsJsWhitespace(s[k])
    ensures n < |s| ==> IsJsWhitespace(s[n])
  {
    if s != [] && !IsJsWhitespace(s[0]) then 1 + WordRun(s[1..]) else 0
  }

  /**
   * `s.split(/\s+/)`: the pieces between maximal runs of `\s`. None of them
   * holds whitespace, and only the first and the last can be empty (when
   * `s` starts or ends with whitespace).
   */
  function SplitOnWhitespace(s: string): (parts: seq<string>)
    ensures |parts| >= 1
    ensures forall k, c :: 0 <= k < |parts| && c in parts[k] ==> !IsJsWhitespace(c)
    ensures forall k :: 0 < k < |parts| - 1 ==> parts[k] != []
    ensures s != [] && !IsJsWhitespace(s[0]) ==> parts[0] != []
    decreases |s|
  {
    var w := WordRun(s);
    if w == |s| then [s]
    else
      var rest := s[w..];
      var next := rest[WsRun(rest)..];
      var tail := SplitOnWhitespace(next);
      assert next != [] ==> !IsJsWhitespace(next[0]);
      [s[..w]] + tail
  }

  /** A non-empty run of `\s` characters. */
  predicate IsWhitespaceRun(t: string) {
    t != [] && forall k :: 0 <= k < |t| ==> IsJsWhitespace(t[k])
  }

  /** `parts[0] + seps[0] + parts[1] + ... + seps[|seps| - 1] + parts[|seps|]`. */
  function Interleave(parts: seq<string>, seps: seq<string>): string
    requires |parts| == |seps| + 1
  {
    if seps == [] then parts[0] else parts[0] + seps[0] + Interleave(parts[1..], seps[1..])
  }

  /**
   * `split(/\s+/)` loses only its separators: the text is the pieces with a
   * non-empty run of `\s` characters between each two.
   */
  lemma {:induction false} SplitOnWhitespaceRoundTrip(s: string) returns (seps: seq<string>)
    ensures |seps| + 1 == |SplitOnWhitespace(s)|
    ensures forall k :: 0 <= k < |seps| ==> IsWhitespaceRun(seps[k])
    ensures s == Interleave(SplitOnWhitespace(s), seps)
    decreases |s|
  {
    var w := WordRun(s);
    if w == |s| {
      seps := [];
    } else {
      var rest := s[w..];
      var n := WsRun(rest);
      var more := SplitOnWhitespaceRoundTrip(rest[n..]);
      assert rest[0] == s[w];
      var sep := rest[..n];
      seps := [sep] + more;
      RunsCons(sep, more, seps);
      assert s == s[..w] + sep + rest[n..];
      InterleaveCons(s[..w], sep, SplitOnWhitespace(rest[n..]), more);
    }
  }

  lemma RunsCons(sep: string, more: seq<string>, seps: seq<string>)
    requires seps == [sep] + more && IsWhitespaceRun(sep)
    requires forall k :: 0 <= k < |more| ==> IsWhitespaceRun(more[k])
    ensures forall k :: 0 <= k < |seps| ==> IsWhitespaceRun(seps[k])
  {
    assert forall k :: 0 < k < |seps| ==> seps[k] == more[k - 1];
  }

  lemma InterleaveCons(p: string, sep: string, parts: seq<string>, seps: seq<string>)
    requires |parts| == |seps| + 1
    ensures Interleave([p] + parts, [sep] + seps) == p + sep + Interleave(parts, seps)
  {
    assert ([p] + parts)[1..] == parts && ([sep] + seps)[1..] == seps;
  }
}
