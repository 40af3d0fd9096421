/**
 * The whitespace normalisation `summarizeTerms` applies to every text:
 * `text.replace(/\n{3,}/g, '\n\n').replace(/\s{2,}/g, ' ')`. Both passes
 * replace, left to right, each maximal run that is long enough.
 */
module Whitespace {
  import opened JsText
  import opened Seqs

  /** Length of the run of `'\n'` at the start of `s`. */
  function NlRun(s: string): (n: nat)
    ensures n <= |s|
    ensures forall k :: 0 <= k < n ==> s[k] == '\n'
    ensures n < |s| ==> s[n] != '\n'
  {
    if s != [] && s[0] == '\n' then 1 + NlRun(s[1..]) else 0
  }

  /**
   * `replace(/\n{3,}/g, '\n\n')`: every run of three or more newlines
   * becomes a paragraph break of exactly two; shorter runs stay.
   */
  function CollapseNewlines(s: string): (r: string)
    ensures |r| <= |s|
    ensures s != [] && s[0] != '\n' ==> r != [] && r[0] == s[0]
    decreases |s|
  {
    if s == [] then []
    else if s[0] == '\n' then
      var n := NlRun(s);
      (if n >= 3 then "\n\n" else s[..n]) + CollapseNewlines(s[n..])
    else
      [s[0]] + CollapseNewlines(s[1..])
  }

  /** No two neighbouring characters of `s` are both `\s`. */
  predicate NoAdjacentWhitespace(s: string) {
    forall i :: 0 <= i < |s| - 1 ==> !(IsJsWhitespace(s[i]) && IsJsWhitespace(s[i + 1]))
  }

  /**
   * `replace(/\s{2,}/g, ' ')`: every run of two or more `\s` characters
   * becomes one space; a lone `\s` character stays as it is.
   */
  function CollapseWhitespace(s: string): (r: string)
    ensures |r| <= |s|
    ensures s != [] ==> r != [] && (IsJsWhitespace(r[0]) <==> IsJsWhitespace(s[0]))
    ensures NoAdjacentWhitespace(r)
    decreases |s|
  {
    if s == [] then []
    else if IsJsWhitespace(s[0]) then
      var n := WsRun(s);
      var rest := CollapseWhitespace(s[n..]);
      assert rest != [] ==> !IsJsWhitespace(rest[0]);
      (if n >= 2 then " " else s[..1]) + rest
    else
      var rest := CollapseWhitespace(s[1..]);
      [s[0]] + rest
  }

  /** No three neighbouring characters of `s` are all `'\n'`. */
  predicate NoTripleNewline(s: string) {
    forall i :: 0 <= i < |s| - 2 ==> !(s[i] == '\n' && s[i + 1] == '\n' && s[i + 2] == '\n')
  }

  /** After the first pass no run of three newlines is left. */
  lemma {:induction false} CollapseNewlinesLeavesPairs(s: string)
    ensures NoTripleNewline(CollapseNewlines(s))
    decreases |s|
  {
    if s == [] {
    } else if s[0] == '\n' {
      var n := NlRun(s);
      var head: string := if n >= 3 then "\n\n" else s[..n];
      var rest := CollapseNewlines(s[n..]);
      CollapseNewlinesLeavesPairs(s[n..]);
      NoTripleAppend(head, rest);
    } else {
      var rest := CollapseNewlines(s[1..]);
      CollapseNewlinesLeavesPairs(s[1..]);
      NoTripleAppend([s[0]], rest);
    }
  }

  /** A short head that does not end a newline run into `t` keeps `t` free of triples. */
  lemma NoTripleAppend(h: string, t: string)
    requires |h| <= 2 && NoTripleNewline(t)
    requires h != [] && t != [] && h[0] == '\n' ==> t[0] != '\n'
    requires (|h| == 1 && h[0] != '\n') || (forall k :: 0 <= k < |h| ==> h[k] == '\n')
    ensures NoTripleNewline(h + t)
  {
    var r := h + t;
    forall i | 0 <= i < |r| - 2
      ensures !(r[i] == '\n' && r[i + 1] == '\n' && r[i + 2] == '\n')
    {
      if i >= |h| {
        assert r[i] == t[i - |h|] && r[i + 1] == t[i - |h| + 1] && r[i + 2] == t[i - |h| + 2];
      } else if |h| == 1 && h[0] != '\n' {
        assert r[0] == h[0];
      } else {
        assert r[|h|] == t[0];
      }
    }
  }

  /** The normalisation at the end of `summarizeTerms`: never longer than its input. */
  function Normalize(s: string): (r: string)
    ensures |r| <= |s|
  {
    CollapseWhitespace(CollapseNewlines(s))
  }

  /** The characters of `s` other than `\s`, in order. */
  function NonWhitespace(s: string): string {
    if s == [] then []
    else (if IsJsWhitespace(s[0]) then [] else [s[0]]) + NonWhitespace(s[1..])
  }

  lemma {:induction false} NonWhitespaceAppend(a: string, b: string)
    ensures NonWhitespace(a + b) == NonWhitespace(a) + NonWhitespace(b)
  {
    if a == [] {
      assert a + b == b;
    } else {
      assert (a + b)[0] == a[0] && (a + b)[1..] == a[1..] + b;
      NonWhitespaceAppend(a[1..], b);
    }
  }

  lemma {:induction false} NonWhitespaceOfBlank(w: string)
    requires forall k :: 0 <= k < |w| ==> IsJsWhitespace(w[k])
    ensures NonWhitespace(w) == []
  {
    if w != [] {
      NonWhitespaceOfBlank(w[1..]);
    }
  }

  /** Collapsing a whitespace run at the front, as the function's first branch does. */
  lemma WsRunOfBlock(w: string, t: string)
    requires forall k :: 0 <= k < |w| ==> IsJsWhitespace(w[k])
    requires t == [] || !IsJsWhitespace(t[0])
    ensures WsRun(w + t) == |w|
  {
    assert forall k :: 0 <= k < |w| ==> (w + t)[k] == w[k];
    assert t != [] ==> (w + t)[|w|] == t[0];
  }

  /** A block of whitespace followed by a non-whitespace character collapses on its own. */
  lemma CollapseBlock(w: string, t: string)
    requires w != [] && forall k :: 0 <= k < |w| ==> IsJsWhitespace(w[k])
    requires t == [] || !IsJsWhitespace(t[0])
    ensures CollapseWhitespace(w + t) == (if |w| >= 2 then " " else w) + CollapseWhitespace(t)
  {
    WsRunOfBlock(w, t);
    assert (w + t)[0] == w[0];
    assert (w + t)[|w|..] == t;
    if |w| == 1 {
      assert (w + t)[..1] == w;
    }
  }

  /**
   * The second replacement keeps every visible character: only whitespace
   * is changed.
   */
  lemma {:induction false} CollapseKeepsContent(s: string)
    ensures NonWhitespace(CollapseWhitespace(s)) == NonWhitespace(s)
    decreases |s|
  {
    if s == [] {
    } else if IsJsWhitespace(s[0]) {
      var n := WsRun(s);
      assert s == s[..n] + s[n..];
      NonWhitespaceAppend(s[..n], s[n..]);
      NonWhitespaceOfBlank(s[..n]);
      var head: string := if n >= 2 then " " else s[..1];
      NonWhitespaceAppend(head, CollapseWhitespace(s[n..]));
      NonWhitespaceOfBlank(head);
      CollapseKeepsContent(s[n..]);
    } else {
      NonWhitespaceAppend([s[0]], CollapseWhitespace(s[1..]));
      CollapseKeepsContent(s[1..]);
    }
  }

  /** Text with no whitespace runs left is not changed by the second replacement. */
  lemma {:induction false} CollapseFixesSingleSpaced(s: string)
    requires NoAdjacentWhitespace(s)
    ensures CollapseWhitespace(s) == s
    decreases |s|
  {
    if s != [] {
      assert NoAdjacentWhitespace(s[1..]) by {
        forall i | 0 <= i < |s[1..]| - 1
          ensures !(IsJsWhitespace(s[1..][i]) && IsJsWhitespace(s[1..][i + 1]))
        {
          assert s[1..][i] == s[i + 1] && s[1..][i + 1] == s[i + 2];
        }
      }
      if IsJsWhitespace(s[0]) {
        assert WsRun(s) == 1 by {
          if |s| > 1 {
            assert !IsJsWhitespace(s[1]);
          }
        }
      }
      CollapseFixesSingleSpaced(s[1..]);
    }
  }

  /** Collapsing whitespace twice is the same as once. */
  lemma CollapseIdempotent(s: string)
    ensures CollapseWhitespace(CollapseWhitespace(s)) == CollapseWhitespace(s)
  {
    CollapseFixesSingleSpaced(CollapseWhitespace(s));
  }

  /** Splitting at a point where no newline run is cut, the first pass works piecewise. */
  lemma {:induction false} CollapseNewlinesAppend(a: string, b: string)
    requires b == [] || b[0] != '\n'
    ensures CollapseNewlines(a + b) == CollapseNewlines(a) + CollapseNewlines(b)
    decreases |a|
  {
    if a == [] {
      assert a + b == b;
    } else if a[0] == '\n' {
      var n := NlRun(a);
      NlRunOfPrefix(a, b);
      var head: string := if n >= 3 then "\n\n" else a[..n];
      assert (a + b)[..n] == a[..n];
      assert (a + b)[n..] == a[n..] + b;
      assert CollapseNewlines(a + b) == head + CollapseNewlines(a[n..] + b);
      CollapseNewlinesAppend(a[n..], b);
      assert CollapseNewlines(a) == head + CollapseNewlines(a[n..]);
      ConcatAssoc(head, CollapseNewlines(a[n..]), CollapseNewlines(b));
    } else {
      assert (a + b)[0] == a[0] && (a + b)[1..] == a[1..] + b;
      CollapseNewlinesAppend(a[1..], b);
      ConcatAssoc([a[0]], CollapseNewlines(a[1..]), CollapseNewlines(b));
    }
  }

  lemma NlRunOfPrefix(a: string, b: string)
    requires b == [] || b[0] != '\n'
    ensures NlRun(a + b) == NlRun(a)
  {
    assert forall k :: 0 <= k < |a| ==> (a + b)[k] == a[k];
    assert b != [] ==> (a + b)[|a|] == b[0];
  }

  /**
   * On a run of whitespace the first pass yields whitespace, never more of
   * it, and at least two characters exactly when it was given two or more.
   */
  lemma {:induction false} CollapseNewlinesOfBlank(w: string)
    requires forall k :: 0 <= k < |w| ==> IsJsWhitespace(w[k])
    ensures forall k :: 0 <= k < |CollapseNewlines(w)| ==> IsJsWhitespace(CollapseNewlines(w)[k])
    ensures |CollapseNewlines(w)| >= 2 <==> |w| >= 2
    ensures |w| == 1 ==> CollapseNewlines(w) == w
    decreases |w|
  {
    if w != [] {
      if w[0] == '\n' {
        var n := NlRun(w);
        CollapseNewlinesOfBlank(w[n..]);
        var head: string := if n >= 3 then "\n\n" else w[..n];
        assert CollapseNewlines(w) == head + CollapseNewlines(w[n..]);
      } else {
        CollapseNewlinesOfBlank(w[1..]);
        assert CollapseNewlines(w) == [w[0]] + CollapseNewlines(w[1..]);
      }
    }
  }

  /**
   * The `\n{3,}` pass changes nothing the `\s{2,}` pass would not change
   * anyway: every paragraph break it keeps is itself a run of two `\s`
   * characters and becomes a space.
   */
  lemma {:induction false} NewlinePassRedundant(s: string)
    ensures Normalize(s) == CollapseWhitespace(s)
    decreases |s|
  {
    if s == [] {
    } else if !IsJsWhitespace(s[0]) {
      var rest := CollapseNewlines(s[1..]);
      assert CollapseNewlines(s) == [s[0]] + rest;
      assert ([s[0]] + rest)[0] == s[0] && ([s[0]] + rest)[1..] == rest;
      NewlinePassRedundant(s[1..]);
    } else {
      var n := WsRun(s);
      var w, rest := s[..n], s[n..];
      assert s == w + rest;
      CollapseNewlinesAppend(w, rest);
      CollapseNewlinesOfBlank(w);
      var cw, crest := CollapseNewlines(w), CollapseNewlines(rest);
      assert crest == [] || !IsJsWhitespace(crest[0]) by {
        if rest != [] {
          assert crest == [rest[0]] + CollapseNewlines(rest[1..]);
        }
      }
      CollapseBlock(cw, crest);
      CollapseBlock(w, rest);
      NewlinePassRedundant(rest);
    }
  }

  /**
   * The normalisation leaves no two neighbouring `\s` characters, so in
   * particular no `"\n\n"` paragraph break survives it.
   */
  lemma NormalizeSingleSpaced(s: string)
    ensures NoAdjacentWhitespace(Normalize(s))
    ensures !Contains(Normalize(s), "\n\n")
  {
    var r := Normalize(s);
    ContainsAt(r, "\n\n");
    forall i: nat ensures !OccursAt(r, "\n\n", i) {
      if i + 2 <= |r| {
        assert r[i..i + 2][0] == r[i] && r[i..i + 2][1] == r[i + 1];
      }
    }
  }

  /** Normalising twice is the same as once. */
  lemma NormalizeIdempotent(s: string)
    ensures Normalize(Normalize(s)) == Normalize(s)
  {
    NewlinePassRedundant(s);
    NewlinePassRedundant(Normalize(s));
    CollapseIdempotent(s);
  }

  /** The normalisation keeps every character other than whitespace, in order. */
  lemma NormalizeKeepsContent(s: string)
    ensures NonWhitespace(Normalize(s)) == NonWhitespace(s)
  {
    NewlinePassRedundant(s);
    CollapseKeepsContent(s);
  }
}
