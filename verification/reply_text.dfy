/**
 * The clean-up of the model's reply before it is handed to `JSON.parse`:
 * trim, strip a Markdown code fence (its first line and everything from the
 * last three backticks on), trim again, and when the text does not start
 * with `[` or `{`, drop everything before the first of them.
 */
module ReplyText {
  import opened JsText

  const Fence: string := "```"

  /** `t.startsWith(p)`. */
  predicate StartsWith(t: string, p: string) {
    p <= t
  }

  /**
   * The fence removal, applied to the trimmed reply: a text that does not
   * open with a fence is left as it is, and what is kept is always one
   * stretch of the text.
   */
  function StripFence(t: string): (r: string)
    ensures !StartsWith(t, Fence) ==> r == t
    ensures exists i: nat :: OccursAt(t, r, i)
  {
    if StartsWith(t, Fence) then
      var firstNewline := IndexOfChar(t, '\n');
      var from := if firstNewline != -1 then firstNewline + 1 else 0;
      var body := t[from..];
      var lastBackticks := LastIndexOf(body, Fence);
      var r := if lastBackticks != -1 then body[..lastBackticks] else body;
      assert OccursAt(t, r, from);
      r
    else
      assert OccursAt(t, t, 0);
      t
  }

  /** Where the JSON text starts: the first `[` or `{`, or -1 when there is neither. */
  function JsonStartPos(t: string): (p: int)
    ensures -1 <= p < |t|
    ensures p == -1 <==> '[' !in t && '{' !in t
    ensures p >= 0 ==> (t[p] == '[' || t[p] == '{') && '[' !in t[..p] && '{' !in t[..p]
  {
    var arrayStart := IndexOfChar(t, '[');
    var objectStart := IndexOfChar(t, '{');
    if arrayStart != -1 && objectStart != -1 then
      if arrayStart <= objectStart then arrayStart else objectStart
    else if arrayStart != -1 then arrayStart
    else objectStart
  }

  /**
   * Drops the text before the first `[` or `{` unless it already starts
   * with one: what is kept is always an ending of the text.
   */
  function SkipToJson(t: string): (r: string)
    ensures |r| <= |t| && r == t[|t| - |r|..]
  {
    if StartsWith(t, "[") || StartsWith(t, "{") then t
    else
      var startPos := JsonStartPos(t);
      if startPos != -1 then t[startPos..] else t
  }

  /** The text given to `JSON.parse`. */
  function ExtractJsonText(analysisText: string): string {
    SkipToJson(Trim(StripFence(Trim(analysisText))))
  }

  /**
   * A JSON text wrapped in a code fence, with whitespace around the fence,
   * comes out of the clean-up exactly as it was.
   */
  lemma ExtractFromFencedReply(pre: string, lang: string, json: string, post: string)
    requires forall k :: 0 <= k < |pre| ==> IsJsWhitespace(pre[k])
    requires forall k :: 0 <= k < |post| ==> IsJsWhitespace(post[k])
    requires '\n' !in lang
    requires json != [] && (json[0] == '[' || json[0] == '{') && !IsJsWhitespace(json[|json| - 1])
    ensures ExtractJsonText(pre + Fence + lang + "\n" + json + Fence + post) == json
  {
    var fenced := Fence + lang + "\n" + json + Fence;
    assert pre + Fence + lang + "\n" + json + Fence + post == pre + fenced + post;
    assert fenced[0] == '`' && fenced[|fenced| - 1] == '`';
    TrimOf(pre, fenced, post);
    StripFenceRoundTrip(lang, json);
    BareJsonUntouched(json);
  }

  /** A JSON text with only whitespace around it comes out exactly as it was. */
  lemma ExtractFromBareReply(pre: string, json: string, post: string)
    requires forall k :: 0 <= k < |pre| ==> IsJsWhitespace(pre[k])
    requires forall k :: 0 <= k < |post| ==> IsJsWhitespace(post[k])
    requires json != [] && (json[0] == '[' || json[0] == '{') && !IsJsWhitespace(json[|json| - 1])
    ensures ExtractJsonText(pre + json + post) == json
  {
    TrimOf(pre, json, post);
    assert !StartsWith(json, Fence) by {
      assert json[0] != Fence[0];
    }
    BareJsonUntouched(json);
  }

  /** A text that opens with a bracket is passed on by the skip as it is. */
  lemma JsonOpensWithBracket(json: string)
    requires json != [] && (json[0] == '[' || json[0] == '{')
    ensures SkipToJson(json) == json
  {
    assert StartsWith(json, "[") || StartsWith(json, "{") by {
      assert json[..1] == [json[0]];
    }
  }

  /** Trimming and skipping leave a JSON text with no whitespace at its ends as it is. */
  lemma BareJsonUntouched(json: string)
    requires json != [] && (json[0] == '[' || json[0] == '{') && !IsJsWhitespace(json[|json| - 1])
    ensures SkipToJson(Trim(json)) == json
  {
    assert [] + json + [] == json;
    TrimOf([], json, []);
    JsonOpensWithBracket(json);
  }

  /**
   * The result is the part of `t` from its first `[` or `{` on, so it starts
   * with one of them exactly when `t` holds one; a text with neither is
   * passed on unchanged.
   */
  lemma SkipToJsonFindsStart(t: string)
    ensures ('[' in t || '{' in t) ==>
      (exists p: nat :: p < |t| && SkipToJson(t) == t[p..] && '[' !in t[..p] && '{' !in t[..p]) &&
      SkipToJson(t) != [] && (SkipToJson(t)[0] == '[' || SkipToJson(t)[0] == '{')
    ensures '[' !in t && '{' !in t ==> SkipToJson(t) == t
  {
    if '[' in t || '{' in t {
      if StartsWith(t, "[") || StartsWith(t, "{") {
        assert t[0] == "["[0] || t[0] == "{"[0];
        assert t[..0] == [];
        assert SkipToJson(t) == t[0..];
      } else {
        var p := JsonStartPos(t);
        assert SkipToJson(t) == t[p..];
      }
    }
  }

  /**
   * A fenced reply loses exactly its fence: an opening line of three
   * backticks and a language tag, and the closing backticks.
   */
  lemma StripFenceRoundTrip(lang: string, body: string)
    requires '\n' !in lang
    ensures StripFence(Fence + lang + "\n" + body + Fence) == body
  {
    var t := Fence + lang + "\n" + body + Fence;
    assert StartsWith(t, Fence) by {
      assert t[..3] == Fence;
    }
    FirstNewlineEndsOpening(lang, body);
    assert t[|Fence| + |lang| + 1..] == body + Fence;
    ClosingFenceIsLast(body);
    assert (body + Fence)[..|body|] == body;
  }

  /** The first newline of a fenced reply ends its opening line. */
  lemma FirstNewlineEndsOpening(lang: string, body: string)
    requires '\n' !in lang
    ensures IndexOfChar(Fence + lang + "\n" + body + Fence, '\n') == |Fence| + |lang|
  {
    var t := Fence + lang + "\n" + body + Fence;
    assert t[..|Fence| + |lang|] == Fence + lang;
    assert t[|Fence| + |lang|] == '\n';
  }

  /** The closing backticks are the last three backticks. */
  lemma ClosingFenceIsLast(body: string)
    ensures LastIndexOf(body + Fence, Fence) == |body|
  {
    assert (body + Fence)[|body|..|body| + |Fence|] == Fence;
  }
}
