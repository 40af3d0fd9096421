/**
 * `summarizeTerms`: shortens each clause text before it is sent for
 * analysis. A text longer than `MaxLength` is cut down to its paragraphs that
 * carry a section keyword and are longer than `MinParagraphLength`, or, when
 * there are none, to its first `MaxLength` characters and an omission
 * marker; every text is then normalised (`Whitespace.Normalize`).
 */
module Summary {
  import opened Wrappers
  import opened JsText
  import opened Whitespace
  import opened Seqs

  const MaxLength: nat := 3000
  const MinParagraphLength: nat := 50
  const OmissionMarker: string := "... (이하 생략)"
  const ParagraphBreak: string := "\n\n"

  /** The section keywords; matched case-sensitively with `includes`. */
  const SectionKeywords: seq<string> := [
    "개인정보", "수집", "제3자", "마케팅", "광고",
    "비용", "요금", "결제", "환불", "해지",
    "책임", "면책", "손해배상", "위험", "주의"
  ]

  /** `s` holds no `"\n\n"`. */
  predicate NoBlankLine(s: string) {
    forall j :: 0 <= j < |s| - 1 ==> !(s[j] == '\n' && s[j + 1] == '\n')
  }

  /** Where the first `"\n\n"` of `s` starts, or `|s|` when there is none. */
  function BreakAt(s: string): (i: nat)
    ensures i <= |s|
    ensures i < |s| ==> i + 1 < |s| && s[i] == '\n' && s[i + 1] == '\n'
    ensures 0 < i < |s| ==> s[i - 1] != '\n'
    ensures NoBlankLine(s[..i])
    ensures i == |s| ==> NoBlankLine(s)
    decreases |s|
  {
    if |s| < 2 then |s|
    else if s[0] == '\n' && s[1] == '\n' then 0
    else
      var j := BreakAt(s[1..]);
      assert s[..j + 1] == [s[0]] + s[1..][..j];
      1 + j
  }

  /**
   * `s.split(/\n\n+/)`: the pieces between the runs of two or more
   * newlines. There is always at least one piece, and none holds a blank line.
   */
  function Paragraphs(s: string): (ps: seq<string>)
    ensures |ps| >= 1
    ensures forall k :: 0 <= k < |ps| ==> NoBlankLine(ps[k])
    decreases |s|
  {
    var i := BreakAt(s);
    if i == |s| then [s]
    else
      var rest := s[i..];
      [s[..i]] + Paragraphs(rest[NlRun(rest)..])
  }

  /** A run of two or more newlines. */
  predicate IsParagraphBreak(t: string) {
    |t| >= 2 && forall k :: 0 <= k < |t| ==> t[k] == '\n'
  }

  /**
   * `ps` and `seps` are what `s.split(/\n\n+/)` cuts `s` into: `s` is the
   * pieces with a separator between each two, every separator is a run of
   * two or more newlines, no piece holds a blank line, no piece leans a
   * newline against a separator, and no piece between two separators is
   * empty, so each separator is a whole run of newlines.
   */
  ghost predicate SplitAtBreaks(s: string, ps: seq<string>, seps: seq<string>) {
    |ps| == |seps| + 1 && s == Interleave(ps, seps)
    && (forall k :: 0 <= k < |seps| ==> IsParagraphBreak(seps[k]))
    && (forall k :: 0 <= k < |ps| ==> NoBlankLine(ps[k]))
    && (forall k :: 0 <= k < |seps| ==> ps[k] == [] || ps[k][|ps[k]| - 1] != '\n')
    && (forall k :: 0 < k < |ps| ==> ps[k] == [] || ps[k][0] != '\n')
    && (forall k :: 0 < k < |seps| ==> ps[k] != [])
  }

  /** `split(/\n\n+/)` loses only the breaks between the paragraphs. */
  lemma {:induction false} ParagraphsRoundTrip(s: string) returns (seps: seq<string>)
    ensures SplitAtBreaks(s, Paragraphs(s), seps)
    ensures Paragraphs(s)[0] <= s
    decreases |s|
  {
    var i := BreakAt(s);
    if i == |s| {
      seps := [];
    } else {
      var rest := s[i..];
      var n := NlRun(rest);
      var more := ParagraphsRoundTrip(rest[n..]);
      seps := [rest[..n]] + more;
      BreakPieces(s, i, n);
      BreakEdges(s, i, n);
      assert Paragraphs(s) == [s[..i]] + Paragraphs(rest[n..]);
      BreakStep(s[..i], rest[..n], rest[n..], Paragraphs(rest[n..]), more, Paragraphs(s), seps);
    }
  }

  /** The first break of `s` cuts it into a paragraph, a whole run of newlines and the rest. */
  lemma BreakPieces(s: string, i: nat, n: nat)
    requires i == BreakAt(s) && i < |s| && n == NlRun(s[i..])
    ensures s == s[..i] + s[i..][..n] + s[i..][n..]
    ensures IsParagraphBreak(s[i..][..n])
  {
    var rest := s[i..];
    assert rest[0] == s[i] && rest[1] == s[i + 1];
    SplitThree(s, i, n);
  }

  /** Neither the paragraph before the first break nor the rest after it touches the break with a newline. */
  lemma BreakEdges(s: string, i: nat, n: nat)
    requires i == BreakAt(s) && i < |s| && n == NlRun(s[i..])
    ensures s[..i] == [] || s[..i][i - 1] != '\n'
    ensures s[i..][n..] == [] || s[i..][n..][0] != '\n'
  {
  }

  /** A paragraph, a break, and the rest already split. */
  lemma BreakStep(p: string, sep: string, next: string, tail: seq<string>, more: seq<string>, ps: seq<string>, seps: seq<string>)
    requires SplitAtBreaks(next, tail, more)
    requires ps == [p] + tail && seps == [sep] + more
    requires IsParagraphBreak(sep) && NoBlankLine(p)
    requires p == [] || p[|p| - 1] != '\n'
    requires next == [] || next[0] != '\n'
    requires tail[0] <= next
    ensures SplitAtBreaks(p + sep + next, ps, seps)
  {
    InterleaveCons(p, sep, tail, more);
    FirstPieceFilled(next, tail, more);
    assert forall k :: 0 < k < |ps| ==> ps[k] == tail[k - 1];
    assert forall k :: 0 < k < |seps| ==> seps[k] == more[k - 1];
  }

  /** A text that does not start with a newline but has a break starts with a non-empty piece. */
  lemma FirstPieceFilled(next: string, tail: seq<string>, more: seq<string>)
    requires SplitAtBreaks(next, tail, more)
    requires next == [] || next[0] != '\n'
    ensures more != [] ==> tail[0] != []
  {
    if more != [] {
      var rest := Interleave(tail[1..], more[1..]);
      assert next == tail[0] + more[0] + rest;
      assert (tail[0] + more[0] + rest)[|tail[0]|] == more[0][0];
    }
  }

  /** The test applied to each paragraph. */
  predicate IsImportant(para: string) {
    ContainsAny(para, SectionKeywords) && |para| > MinParagraphLength
  }

  /** The important paragraphs, in their original order: never more than were given. */
  function Important(ps: seq<string>): (r: seq<string>)
    ensures |r| <= |ps|
  {
    if ps == [] then []
    else (if IsImportant(ps[0]) then [ps[0]] else []) + Important(ps[1..])
  }

  /** `parts.join(sep)`. */
  function Join(parts: seq<string>, sep: string): string {
    if parts == [] then ""
    else if |parts| == 1 then parts[0]
    else parts[0] + sep + Join(parts[1..], sep)
  }

  /** `join` puts exactly one `sep` between neighbouring parts and nothing else. */
  lemma {:induction false} JoinInterleaves(parts: seq<string>, sep: string)
    requires parts != []
    ensures Join(parts, sep) == Interleave(parts, seq(|parts| - 1, _ => sep))
  {
    var seps := seq(|parts| - 1, _ => sep);
    if |parts| > 1 {
      JoinInterleaves(parts[1..], sep);
      assert seps[1..] == seq(|parts| - 2, _ => sep);
    }
  }

  /** The reduction before normalisation: a short text is left as it is. */
  function Reduced(text: string): (r: string)
    ensures |text| <= MaxLength ==> r == text
  {
    if |text| <= MaxLength then text
    else
      var sections := Important(Paragraphs(text));
      if |sections| > 0 then Join(sections, ParagraphBreak)
      else text[..MaxLength] + OmissionMarker
  }

  /** The text `summarizeTerms` produces for one clause. */
  function Summarized(text: string): string {
    Normalize(Reduced(text))
  }

  /** A paragraph is important exactly when it is kept, and nothing else is kept. */
  lemma {:induction false} ImportantIsFilter(ps: seq<string>)
    ensures forall p :: p in Important(ps) <==> p in ps && IsImportant(p)
  {
    if ps != [] {
      ImportantIsFilter(ps[1..]);
      assert ps == [ps[0]] + ps[1..];
    }
  }

  /** The filter extends one paragraph at a time, as the loop pushes. */
  lemma {:induction false} ImportantSnoc(ps: seq<string>, p: string)
    ensures Important(ps + [p]) == Important(ps) + (if IsImportant(p) then [p] else [])
  {
    if ps == [] {
      assert ps + [p] == [p];
    } else {
      assert (ps + [p])[0] == ps[0] && (ps + [p])[1..] == ps[1..] + [p];
      ImportantSnoc(ps[1..], p);
      ConcatAssoc(if IsImportant(ps[0]) then [ps[0]] else [], Important(ps[1..]), if IsImportant(p) then [p] else []);
    }
  }

  /** Joining the split paragraphs again never gives more than the text: each break shrinks to two newlines. */
  lemma {:induction false} ParagraphsJoinShorter(s: string)
    ensures |Join(Paragraphs(s), ParagraphBreak)| <= |s|
    decreases |s|
  {
    var i := BreakAt(s);
    if i < |s| {
      var rest := s[i..];
      var next := rest[NlRun(rest)..];
      var n := NlRun(rest);
      assert n >= 2 by { assert rest[0] == '\n' && rest[1] == '\n'; }
      ParagraphsJoinShorter(next);
      var tail := Paragraphs(next);
      assert Paragraphs(s) == [s[..i]] + tail;
      assert ([s[..i]] + tail)[1..] == tail;
      assert Join(Paragraphs(s), ParagraphBreak) == s[..i] + ParagraphBreak + Join(tail, ParagraphBreak);
      assert |next| == |s| - i - n;
    }
  }

  /** Dropping paragraphs never lengthens the join. */
  lemma {:induction false} ImportantJoinShorter(ps: seq<string>)
    ensures |Join(Important(ps), ParagraphBreak)| <= |Join(ps, ParagraphBreak)|
  {
    if ps != [] {
      ImportantJoinShorter(ps[1..]);
      var rest := Important(ps[1..]);
      if |ps| >= 2 {
        assert Join(ps, ParagraphBreak) == ps[0] + ParagraphBreak + Join(ps[1..], ParagraphBreak);
      }
      if IsImportant(ps[0]) {
        assert Important(ps) == [ps[0]] + rest;
        if rest != [] {
          assert ([ps[0]] + rest)[1..] == rest;
          assert Join(Important(ps), ParagraphBreak) == ps[0] + ParagraphBreak + Join(rest, ParagraphBreak);
        }
      } else {
        assert Important(ps) == rest;
      }
    }
  }

  /**
   * Reduction never lengthens a text, except that the fallback prefix gets
   * the marker appended. In particular the extracted paragraphs are bounded
   * by the length of the text, not by `MaxLength`.
   */
  lemma ReducedLength(text: string)
    ensures |Reduced(text)| <= |text| || |Reduced(text)| == MaxLength + |OmissionMarker|
  {
    if |text| > MaxLength {
      ParagraphsJoinShorter(text);
      ImportantJoinShorter(Paragraphs(text));
    }
  }

  /**
   * A long text becomes its important paragraphs (all of them, nothing
   * else, in their order) joined by blank lines or, when it has none, its
   * first `MaxLength` characters followed by the marker.
   */
  lemma ReducedLongText(text: string)
    requires |text| > MaxLength
    ensures Important(Paragraphs(text)) != [] ==>
      Reduced(text) == Join(Important(Paragraphs(text)), ParagraphBreak) &&
      (forall p :: p in Important(Paragraphs(text)) <==> p in Paragraphs(text) && IsImportant(p))
    ensures Important(Paragraphs(text)) == [] ==>
      (forall p :: p in Paragraphs(text) ==> !IsImportant(p)) &&
      Reduced(text)[..MaxLength] == text[..MaxLength] &&
      Reduced(text)[MaxLength..] == OmissionMarker
  {
    ImportantIsFilter(Paragraphs(text));
  }

  /**
   * The summarised text is never longer than the original or than the
   * fallback prefix with its marker, and it is single-spaced: no two
   * neighbouring whitespace characters, hence no paragraph breaks.
   */
  lemma SummarizedShape(text: string)
    ensures |Summarized(text)| <= |text| || |Summarized(text)| <= MaxLength + |OmissionMarker|
    ensures NoAdjacentWhitespace(Summarized(text))
    ensures !Contains(Summarized(text), ParagraphBreak)
  {
    ReducedLength(text);
    NormalizeSingleSpaced(Reduced(text));
  }

  /** A text of at most `MaxLength` characters keeps all its content; only whitespace changes. */
  lemma ShortTextOnlyNormalized(text: string)
    requires |text| <= MaxLength
    ensures Summarized(text) == Normalize(text)
    ensures NonWhitespace(Summarized(text)) == NonWhitespace(text)
  {
    NormalizeKeepsContent(text);
  }

  /** Summarising a short text a second time changes nothing. */
  lemma SummarizedStable(text: string)
    requires |text| <= MaxLength
    ensures Summarized(Summarized(text)) == Summarized(text)
  {
    NormalizeIdempotent(text);
  }

  /**
   * The text-reduction part of the `summarizeTerms` callback: the keyword
   * paragraphs are pushed one by one into `importantSections`.
   */
  method ReduceText(termText: string) returns (text: string)
    ensures text == Summarized(termText)
  {
    text := termText;
    if |text| > MaxLength {
      var importantSections: seq<string> := [];
      var paragraphs := Paragraphs(text);
      for i := 0 to |paragraphs|
        invariant importantSections == Important(paragraphs[..i])
      {
        var para := paragraphs[i];
        ImportantSnoc(paragraphs[..i], para);
        assert paragraphs[..i + 1] == paragraphs[..i] + [para];
        if ContainsAny(para, SectionKeywords) && |para| > MinParagraphLength {
          importantSections := importantSections + [para];
        }
      }
      assert paragraphs[..|paragraphs|] == paragraphs;
      if |importantSections| > 0 {
        text := Join(importantSections, ParagraphBreak);
      } else {
        text := text[..MaxLength] + OmissionMarker;
      }
    }
    text := Normalize(text);
  }

  /** One input clause: its text, `features?.type` (absent as `None`) and `isRequired`. */
  datatype Term = Term(text: string, featureType: Option<string>, isRequired: bool)

  /** One element of the array `summarizeTerms` returns. */
  datatype SummaryBlock = SummaryBlock(index: nat, kind: string, isRequired: bool, text: string)

  /** `term.features?.type || 'unknown'`: an absent or empty type reads as `"unknown"`. */
  function KindOf(featureType: Option<string>): (kind: string)
    ensures kind != ""
    ensures featureType.Some? && featureType.value != "" ==> kind == featureType.value
    ensures featureType.None? || featureType.value == "" ==> kind == "unknown"
  {
    match featureType
    case Some(t) => if t != "" then t else "unknown"
    case None => "unknown"
  }

  /** The block `summarizeTerms` builds for `term` at 1-based `position`. */
  function BlockOf(term: Term, position: nat): SummaryBlock {
    SummaryBlock(position, KindOf(term.featureType), term.isRequired, Summarized(term.text))
  }

  /**
   * `summarizeTerms(terms)`: one block per clause, in order, numbered from
   * one, with its kind, its `isRequired` flag and its summarised text.
   */
  method SummarizeTerms(terms: seq<Term>) returns (blocks: seq<SummaryBlock>)
    ensures |blocks| == |terms|
    ensures forall i :: 0 <= i < |terms| ==>
      blocks[i] == SummaryBlock(i + 1, KindOf(terms[i].featureType), terms[i].isRequired, Summarized(terms[i].text))
  {
    blocks := [];
    for idx := 0 to |terms|
      invariant |blocks| == idx
      invariant forall i :: 0 <= i < idx ==> blocks[i] == BlockOf(terms[i], i + 1)
    {
      var term := terms[idx];
      var text := ReduceText(term.text);
      BlocksSnoc(terms, blocks, idx);
      blocks := blocks + [SummaryBlock(idx + 1, KindOf(term.featureType), term.isRequired, text)];
    }
  }

  /** The block of one more clause extends the blocks of the clauses before it. */
  lemma BlocksSnoc(terms: seq<Term>, blocks: seq<SummaryBlock>, idx: nat)
    requires idx < |terms| && |blocks| == idx
    requires forall i :: 0 <= i < idx ==> blocks[i] == BlockOf(terms[i], i + 1)
    ensures forall i :: 0 <= i < idx + 1 ==> (blocks + [BlockOf(terms[idx], idx + 1)])[i] == BlockOf(terms[i], i + 1)
  {
    SnocIndex(blocks, BlockOf(terms[idx], idx + 1));
  }

}
