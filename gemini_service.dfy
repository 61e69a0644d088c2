/** The generation gateway (services/geminiService.ts): the tolerant JSON extractor, the
    prompt builders and the four operations around the hosted model. `JSON.parse` is the
    partial function `parse`, already typed for the shape an operation expects; the SDK
    calls are the functions `generate` (text) and `generateImages` (image), whose
    rejection is a `Failure`. */
module GeminiService {
  import opened Wrappers
  import opened JsString
  import opened Types
  import opened Constants
  import opened I18n
  import opened PromptText

  // ===========================================================================
  // The tolerant JSON extractor

  const Fence: string := "```"

  /** Drops the longest prefix of word characters: the optional language tag that
      `(\w*)?` takes greedily. */
  function DropWordChars(s: string): (r: string)
    ensures |r| <= |s| && r == s[|s| - |r|..]
    ensures AllWordChars(s[..|s| - |r|])
    ensures r == [] || !IsWordChar(r[0])
  {
    if |s| > 0 && IsWordChar(s[0]) then DropWordChars(s[1..]) else s
  }

  /** Group 2 of /^```(\w*)?\s*\n?(.*?)\n?\s*```$/s, or `None` when the text does not
      match. The text must open and close with a fence (six characters at least, as
      the two fences cannot overlap); the tag and the whitespace after it are taken
      greedily, and the lazy body leaves the trailing whitespace to `\n?\s*`. */
  function FenceBody(s: string): (r: Option<string>)
    ensures r.Some? <==> |s| >= 6 && s[..3] == Fence && s[|s| - 3..] == Fence
    ensures s == [] || s[0] != '`' ==> r.None?
    ensures r.Some? ==> r.value == [] || (!IsWhitespace(r.value[0]) && !IsWhitespace(r.value[|r.value| - 1]))
  {
    if |s| >= 6 && s[..3] == Fence && s[|s| - 3..] == Fence
    then assert s[0] == s[..3][0]; Some(Trim(DropWordChars(s[3..|s| - 3])))
    else None
  }

  /** Lines 18-20: a trimmed text is replaced by its trimmed fence body when the fence
      matches with a non-empty body. */
  function StripFence(trimmed: string): (r: string)
    ensures r != trimmed ==> FenceBody(trimmed).Some? && FenceBody(trimmed).value != ""
    ensures (trimmed == [] || (!IsWhitespace(trimmed[0]) && !IsWhitespace(trimmed[|trimmed| - 1]))) ==>
      (r == [] || (!IsWhitespace(r[0]) && !IsWhitespace(r[|r| - 1])))
  {
    var m := FenceBody(trimmed);
    if m.Some? && m.value != "" then Trim(m.value) else trimmed
  }

  /** Lines 15-20: the text every later attempt works on. */
  function Unwrap(responseText: string): (r: string)
    ensures r == [] || (!IsWhitespace(r[0]) && !IsWhitespace(r[|r| - 1]))
    ensures Trim(responseText) == [] || Trim(responseText)[0] != '`' ==> r == Trim(responseText)
  {
    var t := Trim(responseText);
    assert t == [] || t[0] != '`' ==> StripFence(t) == t;
    StripFence(t)
  }

  /** `u.substring(u.indexOf(open), u.lastIndexOf(close) + 1)` when both characters
      occur. When the last `close` comes before the first `open`, `substring` swaps
      its arguments and the span is the text between them. */
  function Span(u: string, open: char, close: char): (r: Option<string>)
    ensures r.Some? <==> open in u && close in u
    ensures r.Some? && IndexOf(u, open) <= LastIndexOf(u, close) ==>
      && r.value == u[IndexOf(u, open)..LastIndexOf(u, close) + 1]
      && r.value[0] == open && r.value[|r.value| - 1] == close
    ensures r.Some? && IndexOf(u, open) > LastIndexOf(u, close) ==>
      r.value == u[LastIndexOf(u, close) + 1..IndexOf(u, open)]
  {
    var start := IndexOf(u, open);
    var end := LastIndexOf(u, close);
    if start != -1 && end != -1 then Some(Substring(u, start, end + 1)) else None
  }

  function ArraySpan(u: string): Option<string> { Span(u, '[', ']') }
  function ObjectSpan(u: string): Option<string> { Span(u, '{', '}') }

  function AsSeq(o: Option<string>): seq<string> {
    if o.Some? then [o.value] else []
  }

  /** The texts handed to `JSON.parse`, in the order they are tried: the unwrapped text,
      its array span, its object span. */
  function Candidates(u: string): (r: seq<string>)
    ensures |r| == 1 + |AsSeq(ArraySpan(u))| + |AsSeq(ObjectSpan(u))| && r[0] == u
    ensures ArraySpan(u).Some? ==> r[1] == ArraySpan(u).value
    ensures ObjectSpan(u).Some? ==> r[|r| - 1] == ObjectSpan(u).value
  {
    [u] + AsSeq(ArraySpan(u)) + AsSeq(ObjectSpan(u))
  }

  /** The result of the first candidate that parses; `None` when none does. */
  function FirstSuccess<J>(parse: string -> Option<J>, cs: seq<string>): (r: Option<J>)
    ensures r.Some? ==> exists i :: 0 <= i < |cs| && parse(cs[i]) == r
  {
    if cs == [] then None
    else if parse(cs[0]).Some? then parse(cs[0])
    else FirstSuccess(parse, cs[1..])
  }

  /** `parseJsonFromGeminiResponse(responseText)`, as a value (`None` is `null`). */
  function ExtractJson<J>(responseText: string, parse: string -> Option<J>): Option<J> {
    FirstSuccess(parse, Candidates(Unwrap(responseText)))
  }

  /** One recovery attempt (lines 25-33 and 34-42): parse the span between the first
      `open` and the last `close` when both occur. */
  method TrySpan<J>(jsonStr: string, open: char, close: char, parse: string -> Option<J>)
    returns (result: Option<J>)
    ensures result == if Span(jsonStr, open, close).Some? then parse(Span(jsonStr, open, close).value) else None
  {
    var start := IndexOf(jsonStr, open);
    var end := LastIndexOf(jsonStr, close);
    if start != -1 && end != -1 {
      result := parse(Substring(jsonStr, start, end + 1));
    } else {
      result := None;
    }
  }

  /** `parseJsonFromGeminiResponse`, following the try/catch chain of the source. */
  method ParseJsonFromGeminiResponse<J>(responseText: string, parse: string -> Option<J>)
    returns (result: Option<J>)
    ensures result == ExtractJson(responseText, parse)
  {
    var jsonStr := Trim(responseText);
    var m := FenceBody(jsonStr);
    if m.Some? && m.value != "" {
      jsonStr := Trim(m.value);
    }
    assert jsonStr == Unwrap(responseText);
    CandidatesChain(jsonStr, parse);
    result := parse(jsonStr);
    if result.Some? {
      return;
    }
    result := TrySpan(jsonStr, '[', ']', parse);
    if result.Some? {
      return;
    }
    result := TrySpan(jsonStr, '{', '}', parse);
  }

  // ---------------------------------------------------------------------------
  // Properties of the extractor

  /** Searching a concatenation searches the first part, then the second. */
  lemma {:induction false} FirstSuccessAppend<J>(parse: string -> Option<J>, a: seq<string>, b: seq<string>)
    ensures FirstSuccess(parse, a + b) ==
      if FirstSuccess(parse, a).Some? then FirstSuccess(parse, a) else FirstSuccess(parse, b)
  {
    if a == [] {
      assert a + b == b;
    } else {
      assert (a + b)[0] == a[0] && (a + b)[1..] == a[1..] + b;
      FirstSuccessAppend(parse, a[1..], b);
    }
  }

  /** The search fails exactly when every candidate fails. */
  lemma {:induction false} FirstSuccessNone<J>(parse: string -> Option<J>, cs: seq<string>)
    ensures FirstSuccess(parse, cs) == None <==> forall i :: 0 <= i < |cs| ==> parse(cs[i]) == None
  {
    if cs != [] {
      FirstSuccessNone(parse, cs[1..]);
      if parse(cs[0]) == None {
        forall i | 0 <= i < |cs| && (forall j :: 0 <= j < |cs[1..]| ==> parse(cs[1..][j]) == None)
          ensures parse(cs[i]) == None
        {
          if i > 0 { assert cs[i] == cs[1..][i - 1]; }
        }
      }
    }
  }

  lemma FirstSuccessOfOption<J>(parse: string -> Option<J>, o: Option<string>)
    ensures FirstSuccess(parse, AsSeq(o)) == if o.Some? then parse(o.value) else None
  {
    if o.Some? { assert AsSeq(o)[1..] == []; }
  }

  /** The candidates are tried as the try/catch chain tries them: the text itself, then
      its array span, then its object span. */
  lemma CandidatesChain<J>(u: string, parse: string -> Option<J>)
    ensures FirstSuccess(parse, Candidates(u)) ==
      if parse(u).Some? then parse(u)
      else if ArraySpan(u).Some? && parse(ArraySpan(u).value).Some? then parse(ArraySpan(u).value)
      else if ObjectSpan(u).Some? then parse(ObjectSpan(u).value)
      else None
  {
    FirstSuccessAppend(parse, [u] + AsSeq(ArraySpan(u)), AsSeq(ObjectSpan(u)));
    FirstSuccessAppend(parse, [u], AsSeq(ArraySpan(u)));
    FirstSuccessOfOption(parse, ArraySpan(u));
    FirstSuccessOfOption(parse, ObjectSpan(u));
    assert FirstSuccess(parse, [u]) == parse(u) by { assert [u][1..] == []; }
  }

  /** Lines 21-22: when the unwrapped text parses, its value is returned and no span
      is tried. */
  lemma ExtractStrictFirst<J>(responseText: string, parse: string -> Option<J>)
    requires parse(Unwrap(responseText)).Some?
    ensures ExtractJson(responseText, parse) == parse(Unwrap(responseText))
  {
    CandidatesChain(Unwrap(responseText), parse);
  }

  /** Lines 25-43: after a failed strict parse, the array span is tried first, and the
      object span only when the array span is absent or fails. */
  lemma ExtractRecoveryOrder<J>(responseText: string, parse: string -> Option<J>)
    requires parse(Unwrap(responseText)).None?
    ensures var u := Unwrap(responseText);
      ExtractJson(responseText, parse) ==
        if ArraySpan(u).Some? && parse(ArraySpan(u).value).Some? then parse(ArraySpan(u).value)
        else if ObjectSpan(u).Some? then parse(ObjectSpan(u).value)
        else None
  {
    CandidatesChain(Unwrap(responseText), parse);
  }

  /** Line 43: the extractor never fails outright; it yields `null` exactly when the
      strict parse and both spans fail (or the spans are absent). */
  lemma ExtractNullIff<J>(responseText: string, parse: string -> Option<J>)
    ensures var u := Unwrap(responseText);
      ExtractJson(responseText, parse) == None <==>
        && parse(u) == None
        && (ArraySpan(u).None? || parse(ArraySpan(u).value) == None)
        && (ObjectSpan(u).None? || parse(ObjectSpan(u).value) == None)
  {
    CandidatesChain(Unwrap(responseText), parse);
  }

  /** Whatever the extractor returns is the parse of a substring of the unwrapped text. */
  lemma ExtractParsesSubstring<J>(responseText: string, parse: string -> Option<J>)
    requires ExtractJson(responseText, parse).Some?
    ensures var u := Unwrap(responseText);
      exists i, j :: 0 <= i <= j <= |u| && parse(u[i..j]) == ExtractJson(responseText, parse)
  {
    var u := Unwrap(responseText);
    CandidatesChain(u, parse);
    SpanIsSubstring(u, '[', ']');
    SpanIsSubstring(u, '{', '}');
    if parse(u).Some? {
      assert u[0..|u|] == u;
    }
  }

  lemma SpanIsSubstring(u: string, open: char, close: char)
    ensures Span(u, open, close).Some? ==>
      exists i, j :: 0 <= i <= j <= |u| && Span(u, open, close).value == u[i..j]
  {
    if Span(u, open, close).Some? {
      var s, e := IndexOf(u, open), LastIndexOf(u, close);
      if s <= e {
        assert Span(u, open, close).value == u[s..e + 1];
      } else {
        assert Span(u, open, close).value == u[e + 1..s];
      }
    }
  }

  // ---------------------------------------------------------------------------
  // The fence

  lemma {:induction false} DropWordCharsPrefix(tag: string, rest: string)
    requires AllWordChars(tag)
    requires rest == [] || !IsWordChar(rest[0])
    ensures DropWordChars(tag + rest) == rest
  {
    if tag != [] {
      assert (tag + rest)[0] == tag[0];
      assert (tag + rest)[1..] == tag[1..] + rest;
      assert AllWordChars(tag[1..]) by {
        var t := tag[1..];
        forall i | 0 <= i < |t| ensures IsWordChar(t[i]) { assert t[i] == tag[i + 1]; }
      }
      DropWordCharsPrefix(tag[1..], rest);
    } else {
      assert tag + rest == rest;
    }
  }

  /** The tag stops at whitespace, or at the first character that is not a word
      character. */
  lemma DropTag(tag: string, gap: string, rest: string)
    requires AllWordChars(tag) && AllWhitespace(gap)
    requires rest != [] && (gap != [] || !IsWordChar(rest[0]))
    ensures DropWordChars(tag + (gap + rest)) == gap + rest
  {
    if gap != [] {
      assert (gap + rest)[0] == gap[0];
      WhitespaceIsNotWordChar(gap[0]);
    } else {
      assert (gap + rest)[0] == rest[0];
    }
    DropWordCharsPrefix(tag, gap + rest);
  }

  /** Whatever lies between two fences is what the match sees between them. */
  lemma FenceBodyBetweenFences(inner: string)
    ensures FenceBody(Fence + inner + Fence) == Some(TrimEnd(TrimStart(DropWordChars(inner))))
  {
    var s := Fence + inner + Fence;
    assert s[..3] == Fence;
    assert s[|s| - 3..] == Fence;
    assert s[3..|s| - 3] == inner;
  }

  lemma TaggedBody(tag: string, gap: string, body: string, tail: string)
    requires AllWordChars(tag) && AllWhitespace(gap) && AllWhitespace(tail)
    requires body != [] && !IsWhitespace(body[0]) && !IsWhitespace(body[|body| - 1])
    requires gap != [] || !IsWordChar(body[0])
    ensures Trim(DropWordChars(tag + (gap + (body + tail)))) == body
  {
    DropTag(tag, gap, body + tail);
    TrimPadded(gap, body, tail);
    assert gap + (body + tail) == gap + body + tail;
  }

  lemma Regroup(f: string, tag: string, gap: string, body: string, tail: string)
    ensures f + tag + gap + body + tail + f == f + (tag + (gap + (body + tail))) + f
  {
  }

  /** A fenced block: an optional word tag, whitespace (needed when the body begins with a
      word character, since the tag would take it), the body, trailing whitespace. The
      regular expression's group 2 is exactly the body. */
  lemma FenceBodyOfBlock(tag: string, gap: string, body: string, tail: string)
    requires AllWordChars(tag) && AllWhitespace(gap) && AllWhitespace(tail)
    requires body != [] && !IsWhitespace(body[0]) && !IsWhitespace(body[|body| - 1])
    requires gap != [] || !IsWordChar(body[0])
    ensures FenceBody(Fence + tag + gap + body + tail + Fence) == Some(body)
  {
    Regroup(Fence, tag, gap, body, tail);
    FenceBodyBetweenFences(tag + (gap + (body + tail)));
    TaggedBody(tag, gap, body, tail);
  }

  /** Whitespace around a text that opens and closes with a backtick is trimmed away
      before the fence is matched. */
  lemma UnwrapPadded(pre: string, s: string, post: string)
    requires AllWhitespace(pre) && AllWhitespace(post)
    requires s != [] && s[0] == '`' && s[|s| - 1] == '`'
    ensures Unwrap(pre + s + post) == Unwrap(s)
  {
    TrimPadded(pre, s, post);
    TrimPadded([], s, []);
    assert [] + s + [] == s;
    assert Trim(pre + s + post) == Trim(s);
  }

  /** A text that opens and closes with a backtick is its own trim. */
  lemma UnwrapBacktickDelimited(s: string)
    requires s != [] && s[0] == '`' && s[|s| - 1] == '`'
    ensures Unwrap(s) == StripFence(s)
  {
    TrimOfTrimmed(s);
  }

  /** A matched fence with a non-empty body is replaced by its trimmed body. */
  lemma StripMatchedFence(t: string, body: string)
    requires FenceBody(t) == Some(body) && body != []
    ensures StripFence(t) == Trim(body)
  {
  }

  /** A text whose fence matches with a non-empty trimmed body unwraps to that body. */
  lemma UnwrapMatchedFence(s: string, body: string)
    requires s != [] && s[0] == '`' && s[|s| - 1] == '`'
    requires FenceBody(s) == Some(body)
    requires body != [] && !IsWhitespace(body[0]) && !IsWhitespace(body[|body| - 1])
    ensures Unwrap(s) == body
  {
    UnwrapBacktickDelimited(s);
    StripMatchedFence(s, body);
    TrimOfTrimmed(body);
  }

  /** Whitespace around a fenced block with a non-empty body: the unwrapped text is the
      body. */
  lemma UnwrapFencedBlock(pre: string, tag: string, gap: string, body: string, tail: string, post: string)
    requires AllWhitespace(pre) && AllWhitespace(post)
    requires AllWordChars(tag) && AllWhitespace(gap) && AllWhitespace(tail)
    requires body != [] && !IsWhitespace(body[0]) && !IsWhitespace(body[|body| - 1])
    requires gap != [] || !IsWordChar(body[0])
    ensures Unwrap(pre + (Fence + tag + gap + body + tail + Fence) + post) == body
  {
    var block := Fence + tag + gap + body + tail + Fence;
    assert block[0] == '`' && block[|block| - 1] == '`';
    UnwrapPadded(pre, block, post);
    FenceBodyOfBlock(tag, gap, body, tail);
    UnwrapMatchedFence(block, body);
  }

  /** Valid JSON wrapped in a fenced block parses to the same value as the JSON alone. */
  lemma FencedJsonParsed<J>(pre: string, tag: string, gap: string, body: string, tail: string, post: string,
                            parse: string -> Option<J>)
    requires AllWhitespace(pre) && AllWhitespace(post)
    requires AllWordChars(tag) && AllWhitespace(gap) && AllWhitespace(tail)
    requires body != [] && !IsWhitespace(body[0]) && !IsWhitespace(body[|body| - 1])
    requires gap != [] || !IsWordChar(body[0])
    requires parse(body).Some?
    ensures ExtractJson(pre + (Fence + tag + gap + body + tail + Fence) + post, parse) == parse(body)
  {
    UnwrapFencedBlock(pre, tag, gap, body, tail, post);
    CandidatesChain(body, parse);
  }

  /** A fence around word characters only is not stripped: the tag takes all of them and
      the body is empty, so the whole trimmed text is what is parsed. */
  lemma WordOnlyFenceKept(tag: string)
    requires AllWordChars(tag)
    ensures Unwrap(Fence + tag + Fence) == Fence + tag + Fence
  {
    var s := Fence + tag + Fence;
    assert s[0] == '`' && s[|s| - 1] == '`';
    TrimPadded([], s, []);
    assert [] + s + [] == s;
    FenceBodyBetweenFences(tag);
    DropWordCharsPrefix(tag, []);
    assert tag + [] == tag;
  }

  // ---------------------------------------------------------------------------
  // JSON embedded in prose

  /** The span of a core that opens with `open` and closes with `close`, set in text
      with no `open` before it and no `close` after it, is that core. */
  lemma SpanOfEmbedded(pre: string, core: string, post: string, open: char, close: char)
    requires open !in pre && close !in post
    requires core != [] && core[0] == open && core[|core| - 1] == close
    ensures Span(pre + core + post, open, close) == Some(core)
  {
    var u := pre + core + post;
    var e := |pre| + |core| - 1;
    assert u[..|pre|] == pre && u[|pre|] == open;
    assert u[e + 1..] == post && u[e] == close;
    IndexOfAt(u, open, |pre|);
    LastIndexOfAt(u, close, e);
    assert u[|pre|..e + 1] == core;
  }

  /** Text that does not open with a backtick is only trimmed. */
  lemma EmbeddedUnwrap(pre: string, core: string, post: string)
    requires '`' !in pre
    requires core != [] && core[0] != '`' && !IsWhitespace(core[0]) && !IsWhitespace(core[|core| - 1])
    ensures Unwrap(pre + core + post) == TrimStart(pre) + core + TrimEnd(post)
  {
    TrimAround(pre, core, post);
    var t := TrimStart(pre) + core + TrimEnd(post);
    assert t[0] != '`' by {
      if TrimStart(pre) != [] {
        assert TrimStart(pre)[0] == pre[|pre| - |TrimStart(pre)|];
      }
    }
    assert FenceBody(t).None? by {
      if |t| >= 6 { assert t[..3][0] == t[0]; }
    }
  }

  /** Lines 25-33: an array in prose (no backtick before it, no `[` before it, no `]`
      after it) is recovered when the whole text does not parse. */
  lemma ProseArrayRecovered<J>(pre: string, core: string, post: string, parse: string -> Option<J>)
    requires '`' !in pre && '[' !in pre && ']' !in post
    requires |core| >= 2 && core[0] == '[' && core[|core| - 1] == ']'
    requires parse(Unwrap(pre + core + post)).None? && parse(core).Some?
    ensures ExtractJson(pre + core + post, parse) == parse(core)
  {
    EmbeddedUnwrap(pre, core, post);
    TrimStartSuffix(pre, '[');
    TrimEndPrefix(post, ']');
    SpanOfEmbedded(TrimStart(pre), core, TrimEnd(post), '[', ']');
    CandidatesChain(Unwrap(pre + core + post), parse);
  }

  /** Lines 34-42: an object in prose is recovered when neither the whole text nor its
      array span parses. */
  lemma ProseObjectRecovered<J>(pre: string, core: string, post: string, parse: string -> Option<J>)
    requires '`' !in pre && '{' !in pre && '}' !in post
    requires |core| >= 2 && core[0] == '{' && core[|core| - 1] == '}'
    requires parse(Unwrap(pre + core + post)).None? && parse(core).Some?
    requires ArraySpan(Unwrap(pre + core + post)).None? || parse(ArraySpan(Unwrap(pre + core + post)).value).None?
    ensures ExtractJson(pre + core + post, parse) == parse(core)
  {
    EmbeddedUnwrap(pre, core, post);
    TrimStartSuffix(pre, '{');
    TrimEndPrefix(post, '}');
    SpanOfEmbedded(TrimStart(pre), core, TrimEnd(post), '{', '}');
    CandidatesChain(Unwrap(pre + core + post), parse);
  }

  // ===========================================================================
  // Prompt construction

  /** `list.join(', ') || fallback` */
  function RenderList(xs: seq<string>, fallback: string): string {
    var joined := Join(xs, ", ");
    if joined == "" then fallback else joined
  }

  /** The fallback replaces the enumeration exactly when there is nothing to show (no
      element, or a single empty one), and the slot is never empty. */
  lemma RenderListFallback(xs: seq<string>, fallback: string)
    requires fallback != ""
    ensures RenderList(xs, fallback) == if xs == [] || xs == [""] then fallback else Join(xs, ", ")
    ensures RenderList(xs, fallback) != ""
  {
    JoinEmpty(xs, ", ");
  }

  const FocusOptionPrefix: string := "nutritionalFocusOptions_"

  /** Lines 85-87: each focus key through the English table, whatever the locale. */
  function FocusTerms(english: Table, keys: seq<string>): (r: seq<string>)
    ensures |r| == |keys|
    ensures forall i :: 0 <= i < |keys| ==> r[i] == EnglishTranslation(english, FocusOptionPrefix + keys[i], None)
  {
    if keys == [] then []
    else [EnglishTranslation(english, FocusOptionPrefix + keys[0], None)] + FocusTerms(english, keys[1..])
  }

  function AnalyzeLanguageInstruction(language: Locale): (r: string)
    ensures r == "" <==> language != "th"
    ensures language == "th" ==> r == AnalyzeThaiDirective
  {
    if language == "th" then AnalyzeThaiDirective else ""
  }

  function MenuLanguageInstruction(language: Locale): (r: string)
    ensures r == "" <==> language != "th"
    ensures language == "th" ==> r == MenuThaiDirective
  {
    if language == "th" then MenuThaiDirective else ""
  }

  function RecipeLanguageInstruction(language: Locale): (r: string)
    ensures r == "" <==> language != "th"
    ensures language == "th" ==> r == RecipeThaiDirective
  {
    if language == "th" then RecipeThaiDirective else ""
  }

  /** The text part of the ingredient-recognition request. */
  function AnalyzePrompt(language: Locale): string {
    AnalyzeTemplate0 + AnalyzeLanguageInstruction(language) + AnalyzeTemplate1
  }

  /** Everything of the menu prompt before its language directive. */
  function MenuPromptHead(ingredients: seq<string>, preferences: UserPreferences, english: Table): string {
    MenuTemplate0 + RenderList(ingredients, "Assorted common pantry items")
    + MenuTemplate1 + RenderList(preferences.healthConditions, "None specified")
    + MenuTemplate2 + RenderList(preferences.allergies, "None specified")
    + MenuTemplate3 + RenderList(FocusTerms(english, preferences.nutritionalFocus), "general well-being")
    + MenuTemplate4 + RenderList(preferences.likedFoods, "None specified")
    + MenuTemplate5 + RenderList(preferences.dislikedFoods, "None specified")
    + MenuTemplate6
  }

  function MenuPrompt(ingredients: seq<string>, preferences: UserPreferences, language: Locale, english: Table): string {
    MenuPromptHead(ingredients, preferences, english) + MenuLanguageInstruction(language) + MenuTemplate7
  }

  /** Everything of the recipe prompt before its language directive. */
  function RecipePromptHead(mealName: string, ingredientsUsed: seq<string>): string {
    RecipeTemplate0 + mealName + RecipeTemplate1 + RenderList(ingredientsUsed, "common pantry items") + RecipeTemplate2
  }

  function RecipePrompt(mealName: string, ingredientsUsed: seq<string>, language: Locale): string {
    RecipePromptHead(mealName, ingredientsUsed) + RecipeLanguageInstruction(language) + RecipeTemplate3
  }

  /** The image prompt takes no locale: it is English whatever the interface language. */
  function ImagePrompt(mealName: string): string {
    "A clear, appetizing, well-lit photo of \"" + mealName + "\". Healthy home-cooked style. Focus on the food."
  }

  /** `s` with `insert` placed before its last `n` characters. */
  function InsertBeforeLast(s: string, n: nat, insert: string): string
    requires n <= |s|
  {
    s[..|s| - n] + insert + s[|s| - n..]
  }

  /** Placing `d` before the last `|tail|` characters of `head + tail`. */
  lemma SpliceDirective(head: string, d: string, tail: string)
    ensures InsertBeforeLast(head + tail, |tail|, d) == head + d + tail
    ensures head + "" + tail == head + tail
  {
    var s := head + tail;
    assert s[..|s| - |tail|] == head && s[|s| - |tail|..] == tail;
  }

  /** Any locale but 'th' gives the English analysis prompt; 'th' gives it with the Thai
      directive placed before the closing sentence. */
  lemma AnalyzePromptLocale(language: Locale)
    ensures AnalyzePrompt(language) ==
      if language == "th" then InsertBeforeLast(AnalyzePrompt("en"), |AnalyzeTemplate1|, AnalyzeThaiDirective)
      else AnalyzePrompt("en")
  {
    SpliceDirective(AnalyzeTemplate0, AnalyzeThaiDirective, AnalyzeTemplate1);
  }

  /** Any locale but 'th' gives the English menu prompt; 'th' gives it with the Thai
      directive placed before the example. */
  lemma MenuPromptLocale(ingredients: seq<string>, preferences: UserPreferences, english: Table, language: Locale)
    ensures MenuPrompt(ingredients, preferences, language, english) ==
      if language == "th"
      then InsertBeforeLast(MenuPrompt(ingredients, preferences, "en", english), |MenuTemplate7|, MenuThaiDirective)
      else MenuPrompt(ingredients, preferences, "en", english)
  {
    SpliceDirective(MenuPromptHead(ingredients, preferences, english), MenuThaiDirective, MenuTemplate7);
  }

  /** Any locale but 'th' gives the English recipe prompt; 'th' gives it with the Thai
      directive placed before the output format. */
  lemma RecipePromptLocale(mealName: string, ingredientsUsed: seq<string>, language: Locale)
    ensures RecipePrompt(mealName, ingredientsUsed, language) ==
      if language == "th"
      then InsertBeforeLast(RecipePrompt(mealName, ingredientsUsed, "en"), |RecipeTemplate3|, RecipeThaiDirective)
      else RecipePrompt(mealName, ingredientsUsed, "en")
  {
    SpliceDirective(RecipePromptHead(mealName, ingredientsUsed), RecipeThaiDirective, RecipeTemplate3);
  }

  /** With the default preferences the focus slot holds the English names of the two
      default keys, in order, and every other preference slot its fallback phrase. */
  lemma DefaultPreferenceSlots(english: Table)
    ensures RenderList(FocusTerms(english, DefaultUserPreferences.nutritionalFocus), "general well-being") ==
      EnglishTranslation(english, FocusOptionPrefix + "easyToChew", None) + ", "
      + EnglishTranslation(english, FocusOptionPrefix + "highProtein", None)
    ensures RenderList(DefaultUserPreferences.healthConditions, "None specified") == "None specified"
    ensures RenderList(DefaultUserPreferences.allergies, "None specified") == "None specified"
    ensures RenderList(DefaultUserPreferences.likedFoods, "None specified") == "None specified"
    ensures RenderList(DefaultUserPreferences.dislikedFoods, "None specified") == "None specified"
  {
    var terms := FocusTerms(english, DefaultUserPreferences.nutritionalFocus);
    assert DefaultUserPreferences.nutritionalFocus == ["easyToChew", "highProtein"];
    assert |terms| == 2 && terms[1..] == [terms[1]];
    assert terms[0] == EnglishTranslation(english, FocusOptionPrefix + "easyToChew", None);
    assert terms[1] == EnglishTranslation(english, FocusOptionPrefix + "highProtein", None);
    assert Join(terms, ", ") == terms[0] + ", " + terms[1];
  }

  // ===========================================================================
  // The gateway

  datatype Part = InlineData(mimeType: string, data: string) | TextPart(text: string)

  /** A `generateContent` request; a string `contents` is a single text part. */
  datatype TextRequest = TextRequest(model: string, contents: seq<Part>, responseMimeType: string)

  /** A `generateImages` request. */
  datatype ImageRequest = ImageRequest(model: string, prompt: string, numberOfImages: nat, outputMimeType: string)

  datatype ImageBytes = ImageBytes(imageBytes: Option<string>)
  datatype GeneratedImage = GeneratedImage(image: Option<ImageBytes>)

  const AnalyzeFailureMessage: string :=
    "Failed to analyze refrigerator image. Please ensure the " + "API key"
    + " is correctly configured and the image is valid."
  const MenuFailureMessage: string := "Failed to generate personalized menu."
  const RecipeFailureMessage: string := "Failed to generate recipe."

  function ImageFailureMessage(mealName: string): string {
    "Failed to generate image for " + mealName + "."
  }

  const DataUriPrefix: string := "data:image/jpeg;base64,"

  function AnalyzeRequest(base64ImageData: string, language: Locale): TextRequest {
    TextRequest(GeminiTextModel, [InlineData("image/jpeg", base64ImageData), TextPart(AnalyzePrompt(language))],
                "application/json")
  }

  function MenuRequest(ingredients: seq<string>, preferences: UserPreferences, language: Locale, english: Table): TextRequest {
    TextRequest(GeminiTextModel, [TextPart(MenuPrompt(ingredients, preferences, language, english))], "application/json")
  }

  function RecipeRequest(mealName: string, ingredientsUsed: seq<string>, language: Locale): TextRequest {
    TextRequest(GeminiTextModel, [TextPart(RecipePrompt(mealName, ingredientsUsed, language))], "application/json")
  }

  function MealImageRequest(mealName: string): ImageRequest {
    ImageRequest(GeminiImageGenModel, ImagePrompt(mealName), 1, "image/jpeg")
  }

  /** `analyzeRefrigeratorImage`. `generate` answers `Success(Some(text))` with the
      response text, `Success(None)` when the response has no text (which makes the
      extractor's `trim` throw inside the try block), `Failure` when the SDK rejects. */
  function AnalyzeRefrigeratorImage(
    base64ImageData: string, language: Locale,
    generate: TextRequest -> Result<Option<string>>, parse: string -> Option<seq<string>>): (r: Result<seq<string>>)
    ensures var reply := generate(AnalyzeRequest(base64ImageData, language));
      && (r.Failure? <==> !(reply.Success? && reply.value.Some?))
      && (r.Failure? ==> r.message == AnalyzeFailureMessage)
      && (r.Success? ==> r.value == ExtractJson(reply.value.value, parse).GetOr([]))
  {
    match generate(AnalyzeRequest(base64ImageData, language))
    case Success(Some(text)) => Success(ExtractJson(text, parse).GetOr([]))
    case _ => Failure(AnalyzeFailureMessage)
  }

  /** `generatePersonalizedMenu`. */
  function GeneratePersonalizedMenu(
    ingredients: seq<string>, preferences: UserPreferences, language: Locale, english: Table,
    generate: TextRequest -> Result<Option<string>>, parse: string -> Option<seq<Meal>>): (r: Result<seq<Meal>>)
    ensures var reply := generate(MenuRequest(ingredients, preferences, language, english));
      && (r.Failure? <==> !(reply.Success? && reply.value.Some?))
      && (r.Failure? ==> r.message == MenuFailureMessage)
      && (r.Success? ==> r.value == ExtractJson(reply.value.value, parse).GetOr([]))
  {
    match generate(MenuRequest(ingredients, preferences, language, english))
    case Success(Some(text)) => Success(ExtractJson(text, parse).GetOr([]))
    case _ => Failure(MenuFailureMessage)
  }

  /** `generateRecipe`: an unparseable reply is an absent recipe, not an error. */
  function GenerateRecipe(
    mealName: string, ingredientsUsed: seq<string>, language: Locale,
    generate: TextRequest -> Result<Option<string>>, parse: string -> Option<Recipe>): (r: Result<Option<Recipe>>)
    ensures var reply := generate(RecipeRequest(mealName, ingredientsUsed, language));
      && (r.Failure? <==> !(reply.Success? && reply.value.Some?))
      && (r.Failure? ==> r.message == RecipeFailureMessage)
      && (r.Success? ==> r.value == ExtractJson(reply.value.value, parse))
  {
    match generate(RecipeRequest(mealName, ingredientsUsed, language))
    case Success(Some(text)) => Success(ExtractJson(text, parse))
    case _ => Failure(RecipeFailureMessage)
  }

  /** The bytes of the first generated image, when present and non-empty. */
  function FirstImageBytes(images: Option<seq<GeneratedImage>>): (r: Option<string>)
    ensures r.Some? <==> images.Some? && |images.value| > 0 && images.value[0].image.Some?
                         && Truthy(images.value[0].image.value.imageBytes)
    ensures r.Some? ==> r == images.value[0].image.value.imageBytes
  {
    if images.Some? && |images.value| > 0 && images.value[0].image.Some?
       && Truthy(images.value[0].image.value.imageBytes)
    then images.value[0].image.value.imageBytes
    else None
  }

  /** `generateMealImage`: a JPEG data URI of the first image, or one failure message
      for both a rejected call and a reply without image bytes. */
  function GenerateMealImage(mealName: string, generateImages: ImageRequest -> Result<Option<seq<GeneratedImage>>>)
    : (r: Result<string>)
    ensures var reply := generateImages(MealImageRequest(mealName));
      && (r.Success? <==> reply.Success? && FirstImageBytes(reply.value).Some?)
      && (r.Success? ==> r.value == DataUriPrefix + FirstImageBytes(reply.value).value)
      && (r.Failure? ==> r.message == ImageFailureMessage(mealName))
  {
    match generateImages(MealImageRequest(mealName))
    case Success(images) =>
      var bytes := FirstImageBytes(images);
      if bytes.Some? then Success(DataUriPrefix + bytes.value) else Failure(ImageFailureMessage(mealName))
    case Failure(_) => Failure(ImageFailureMessage(mealName))
  }

  /** Lines 74-75, 129-130 and 189: a reply the extractor cannot read yields an empty
      ingredient list, an empty menu and no recipe, none of them an error. */
  lemma UnreadableReplyIsEmpty(
    text: string, base64ImageData: string, ingredients: seq<string>, preferences: UserPreferences,
    mealName: string, language: Locale, english: Table,
    generate: TextRequest -> Result<Option<string>>,
    parseList: string -> Option<seq<string>>, parseMeals: string -> Option<seq<Meal>>, parseRecipe: string -> Option<Recipe>)
    requires generate(AnalyzeRequest(base64ImageData, language)) == Success(Some(text))
    requires generate(MenuRequest(ingredients, preferences, language, english)) == Success(Some(text))
    requires generate(RecipeRequest(mealName, ingredients, language)) == Success(Some(text))
    requires ExtractJson(text, parseList).None? && ExtractJson(text, parseMeals).None?
    requires ExtractJson(text, parseRecipe).None?
    ensures AnalyzeRefrigeratorImage(base64ImageData, language, generate, parseList) == Success([])
    ensures GeneratePersonalizedMenu(ingredients, preferences, language, english, generate, parseMeals) == Success([])
    ensures GenerateRecipe(mealName, ingredients, language, generate, parseRecipe) == Success(None)
  {
  }

  /** Every operation names its model: the text model for the three text tasks, the
      image model (a different one) for the picture, which asks for one JPEG. */
  lemma RequestsUseFixedModels(
    base64ImageData: string, ingredients: seq<string>, preferences: UserPreferences,
    mealName: string, language: Locale, english: Table)
    ensures AnalyzeRequest(base64ImageData, language).model == GeminiTextModel
    ensures MenuRequest(ingredients, preferences, language, english).model == GeminiTextModel
    ensures RecipeRequest(mealName, ingredients, language).model == GeminiTextModel
    ensures MealImageRequest(mealName).model == GeminiImageGenModel != GeminiTextModel
    ensures MealImageRequest(mealName).numberOfImages == 1
  {
    ModelsDiffer();
  }

  /** The analysis failure message mentions the API key. */
  lemma AnalyzeFailureMentionsApiKey()
    ensures Includes(AnalyzeFailureMessage, "API key")
  {
    IncludesMiddle("Failed to analyze refrigerator image. Please ensure the ", "API key",
                   " is correctly configured and the image is valid.");
  }
}
