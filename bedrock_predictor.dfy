/**
 * `bedrock_cpt_predictor.py`: the prompt sent to the model, the text taken
 * out of the model's reply and the JSON located inside that text.
 *
 * The Bedrock client is a parameter `invoke` (the decoded response body, or
 * `None` when the call raised), and `json.loads` is a parameter `decode`
 * (the decoded value, or `None` for a `JSONDecodeError`).
 */
module BedrockPredictor {
  import opened Wrappers
  import opened Strings
  import opened JsonValues

  // ---------------------------------------------------------------------------
  // The prompt

  /** The placeholder the template carries for the clinical notes. */
  const Placeholder: string := "{notes}"

  /** The default template up to the placeholder. */
  const PromptHead: string :=
    "\nYou are a medical coding expert. Analyze the following clinical notes and predict appropriate CPT codes with modifiers.\n\n"
    + "Rules:\n"
    + "1. Return only valid CPT codes that match the documented services\n"
    + "2. Include appropriate modifiers (25 for E/M with procedure, 59 for distinct procedures, etc.)\n"
    + "3. Return JSON format with the structure below\n"
    + "4. Limit to maximum 6 CPT codes\n"
    + "5. Focus on procedures, evaluations, and treatments documented\n\n"
    + "Return JSON in this exact format:\n"
    + "[\n  {\n    \"code\": \"99213\",\n    \"modifier1\": \"25\",\n    \"modifier2\": \"\",\n"
    + "    \"description\": \"Office visit, established patient, level 3\"\n  }\n]\n\n"
    + "Clinical Notes:\n"

  /** The default template after the placeholder. */
  const PromptTail: string := "\n\nJSON Response:\n"

  /** `get_default_prompt()`. */
  const DefaultPrompt: string := PromptHead + Placeholder + PromptTail

  /** `prompt_template.replace('{notes}', notes)`. */
  function FormatPrompt(template: string, notes: string): string
  {
    Replace(template, Placeholder, notes)
  }

  /** A template without the placeholder is sent unchanged. */
  lemma FormatPromptWithoutPlaceholder(template: string, notes: string)
    requires !Contains(template, Placeholder)
    ensures FormatPrompt(template, notes) == template
  {
    ReplaceAbsent(template, Placeholder, notes);
  }

  /**
   * The first placeholder of the template is replaced by the notes, the text
   * before it is kept, and substitution goes on after it.
   */
  lemma FormatPromptAtFirstPlaceholder(before: string, after: string, notes: string)
    requires NoMatchBefore(before + Placeholder + after, Placeholder, |before|)
    ensures FormatPrompt(before + Placeholder + after, notes) == before + notes + FormatPrompt(after, notes)
  {
    var t := before + Placeholder + after;
    ReplaceSkips(t, |before|, Placeholder, notes);
    assert t[..|before|] == before;
    assert t[|before|..] == Placeholder + after;
    ReplaceAtFront(Placeholder, after, notes);
  }

  /** The text of a template holds no placeholder when it holds no `{`. */
  lemma NoPlaceholderWithoutBrace(s: string)
    requires '{' !in s
    ensures !Contains(s, Placeholder)
  {
    NotContainsWithoutHead(s, Placeholder);
  }

  /** The default template carries the placeholder, and none after it. */
  lemma DefaultPromptHasPlaceholder()
    ensures Contains(DefaultPrompt, Placeholder)
    ensures !Contains(PromptTail, Placeholder)
  {
    var h := |PromptHead|;
    assert DefaultPrompt[h..h + |Placeholder|] == Placeholder;
    ContainsAt(DefaultPrompt, Placeholder, h);
    assert '{' !in PromptTail;
    NoPlaceholderWithoutBrace(PromptTail);
  }

  // ---------------------------------------------------------------------------
  // The request and the reply

  /** The region a caller falls back to when the configuration names none. */
  const DefaultRegion: string := "us-east-1"

  /**
   * What `get_cpt_codes_from_bedrock` sends: the fixed model, version and
   * token limit, and one user message, to the endpoint of `region`.
   */
  datatype Request = Request(region: string, modelId: string, anthropicVersion: string, maxTokens: nat, role: string, content: string)

  function BuildRequest(notes: string, template: string, region: string): (r: Request)
    ensures r.region == region
    ensures r.content == FormatPrompt(template, notes)
    ensures r.modelId == "anthropic.claude-3-sonnet-20240229-v1:0"
    ensures r.anthropicVersion == "bedrock-2023-05-31" && r.maxTokens == 2000 && r.role == "user"
  {
    Request(region, "anthropic.claude-3-sonnet-20240229-v1:0", "bedrock-2023-05-31", 2000, "user", FormatPrompt(template, notes))
  }

  /**
   * `response_body['content'][0]['text']` when `content` is present and
   * non-empty and its first block has a string `text`. A missing `content`,
   * an empty list or a first block without `text` gives `None`. A `text`
   * that is not a string is returned unchanged by the Python code, and the
   * model gives `None` for it: callers skip a falsy value as no reply, and
   * `parse_json_response` fails on any other non-string, so it yields no
   * codes either way.
   */
  function SelectResponseText(body: Json): (r: Option<string>)
    ensures r.Some? ==>
      body.JObj? && "content" in body.fields && body.fields["content"].JArr?
      && |body.fields["content"].items| > 0
      && body.fields["content"].items[0].JObj?
      && "text" in body.fields["content"].items[0].fields
      && body.fields["content"].items[0].fields["text"] == JStr(r.value)
  {
    if body.JObj? && "content" in body.fields then
      var content := body.fields["content"];
      if content.JArr? && |content.items| > 0 && content.items[0].JObj?
        && "text" in content.items[0].fields && content.items[0].fields["text"].JStr?
      then Some(content.items[0].fields["text"].s)
      else None
    else None
  }

  /** A reply without `content`, or with an empty `content` list, gives no text. */
  lemma NoContentNoText(body: Json)
    requires body.JObj?
    requires "content" !in body.fields || body.fields["content"] == JArr([])
    ensures SelectResponseText(body) == None
  {
  }

  /** The text of the first content block is what the call returns. */
  lemma FirstBlockText(fields: map<string, Json>, block: map<string, Json>, rest: seq<Json>, t: string)
    requires "content" in fields && fields["content"] == JArr([JObj(block)] + rest)
    requires "text" in block && block["text"] == JStr(t)
    ensures SelectResponseText(JObj(fields)) == Some(t)
  {
  }

  /** `get_cpt_codes_from_bedrock`: the call with the formatted prompt, then the text of its reply. */
  function GetCptCodesFromBedrock(notes: string, template: string, region: string, invoke: Request -> Option<Json>): (r: Option<string>)
    ensures invoke(BuildRequest(notes, template, region)).None? ==> r.None?
    ensures r.Some? ==> SelectResponseText(invoke(BuildRequest(notes, template, region)).value) == r
  {
    match invoke(BuildRequest(notes, template, region))
    case None => None
    case Some(body) => SelectResponseText(body)
  }

  // ---------------------------------------------------------------------------
  // Locating the JSON in the reply

  /** The first index at or after `from` holding `c`. */
  function FirstFrom(s: string, c: char, from: nat): (r: Option<nat>)
    requires from <= |s|
    ensures r.Some? ==> from <= r.value < |s| && s[r.value] == c
    ensures r.Some? ==> forall x :: from <= x < r.value ==> s[x] != c
    ensures r.None? ==> forall x :: from <= x < |s| ==> s[x] != c
    decreases |s| - from
  {
    if from == |s| then None
    else if s[from] == c then Some(from)
    else FirstFrom(s, c, from + 1)
  }

  /** `s[i..j]` is the first opener up to the first closer after it. */
  predicate IsSpan(s: string, open: char, close: char, i: nat, j: nat)
  {
    i < j < |s| && s[i] == open && s[j] == close
    && (forall x :: 0 <= x < i ==> s[x] != open)
    && (forall x :: i < x < j ==> s[x] != close)
  }

  /**
   * The span the non-greedy `\[.*?\]` (or `\{.*?\}`) matches: from the first
   * opener to the first closer after it. The leftmost opener is the right one,
   * since any closer after a later opener also follows the first.
   */
  function BracketSpan(s: string, open: char, close: char): (r: Option<(nat, nat)>)
    ensures r.Some? ==> IsSpan(s, open, close, r.value.0, r.value.1)
  {
    match FirstFrom(s, open, 0)
    case None => None
    case Some(i) =>
      match FirstFrom(s, close, i + 1)
      case None => None
      case Some(j) => Some((i, j))
  }

  /** `json_match.group()`. */
  function Bracketed(s: string, open: char, close: char): (r: Option<string>)
    ensures r.Some? ==> |r.value| >= 2 && r.value[0] == open && r.value[|r.value| - 1] == close
    ensures r.Some? ==> close !in r.value[1..|r.value| - 1]
  {
    match BracketSpan(s, open, close)
    case None => None
    case Some((i, j)) =>
      assert s[i..j + 1][1..j - i] == s[i + 1..j];
      Some(s[i..j + 1])
  }

  /** A span is found exactly when some opener is followed, anywhere later, by a closer. */
  lemma BracketSpanIff(s: string, open: char, close: char)
    ensures BracketSpan(s, open, close).Some?
      <==> exists i, j :: 0 <= i < j < |s| && s[i] == open && s[j] == close
  {
    var a := FirstFrom(s, open, 0);
    if a.Some? {
      var b := FirstFrom(s, close, a.value + 1);
      if b.Some? {
        assert s[a.value] == open && s[b.value] == close;
      }
    }
  }

  /** Any span of `s` is the span `BracketSpan` reports: the description picks one span only. */
  lemma SpanUnique(s: string, open: char, close: char, i: nat, j: nat)
    requires IsSpan(s, open, close, i, j)
    ensures BracketSpan(s, open, close) == Some((i, j))
  {
    assert FirstFrom(s, open, 0) == Some(i);
    assert FirstFrom(s, close, i + 1) == Some(j);
  }

  lemma SpanOfSlice(s: string, k: nat, m: nat, open: char, close: char, i: nat, j: nat)
    requires k <= m <= |s|
    requires forall x :: 0 <= x < k ==> s[x] != open
    requires forall x :: m <= x < |s| ==> s[x] != close
    requires IsSpan(s, open, close, i, j)
    ensures k <= i && j < m
    ensures IsSpan(s[k..m], open, close, i - k, j - k)
  {
    assert k <= i && j < m;
  }

  lemma NoSpanOfSlice(s: string, k: nat, m: nat, open: char, close: char)
    requires k <= m <= |s|
    requires BracketSpan(s, open, close).None?
    ensures BracketSpan(s[k..m], open, close).None?
  {
    var t := s[k..m];
    BracketSpanIff(s, open, close);
    forall i, j | 0 <= i < j < |t| && t[i] == open
      ensures t[j] != close
    {
      assert s[k + i] == t[i] && s[k + j] == t[j];
    }
    BracketSpanIff(t, open, close);
  }

  lemma BracketedOfSpan(s: string, open: char, close: char)
    ensures BracketSpan(s, open, close).None? ==> Bracketed(s, open, close).None?
    ensures BracketSpan(s, open, close).Some? ==>
      var (i, j) := BracketSpan(s, open, close).value;
      Bracketed(s, open, close) == Some(s[i..j + 1])
  {
  }

  /**
   * Cutting off a prefix without openers and a suffix without closers does
   * not move the match: surrounding whitespace or prose is ignored.
   */
  lemma BracketedOfSlice(s: string, k: nat, m: nat, open: char, close: char)
    requires k <= m <= |s|
    requires forall x :: 0 <= x < k ==> s[x] != open
    requires forall x :: m <= x < |s| ==> s[x] != close
    ensures Bracketed(s[k..m], open, close) == Bracketed(s, open, close)
  {
    var span := BracketSpan(s, open, close);
    BracketedOfSpan(s, open, close);
    if span.Some? {
      SpanBracketedOfSlice(s, k, m, open, close, span.value.0, span.value.1);
    } else {
      NoSpanOfSlice(s, k, m, open, close);
      BracketedOfSpan(s[k..m], open, close);
    }
  }

  /** The slice's match is the text of the span of `s`. */
  lemma SpanBracketedOfSlice(s: string, k: nat, m: nat, open: char, close: char, i: nat, j: nat)
    requires k <= m <= |s|
    requires forall x :: 0 <= x < k ==> s[x] != open
    requires forall x :: m <= x < |s| ==> s[x] != close
    requires IsSpan(s, open, close, i, j)
    ensures Bracketed(s[k..m], open, close) == Some(s[i..j + 1])
  {
    var t := s[k..m];
    SpanOfSlice(s, k, m, open, close, i, j);
    SpanUnique(t, open, close, i - k, j - k);
    BracketedOfSpan(t, open, close);
    SliceOfSlice(s, k, m, i - k, j - k + 1);
  }

  /**
   * `parse_json_response`: nothing for a missing or empty reply; otherwise the
   * first `[`...`]` of the stripped text, or failing that its first
   * `{`...`}`, decoded; nothing when neither is there or decoding fails.
   */
  function ParseJsonResponse(text: Option<string>, decode: string -> Option<Json>): (r: Option<Json>)
    ensures text.None? || text.value == [] ==> r.None?
    ensures r.Some? ==> exists c :: decode(c) == r && |c| >= 2 && (c[0] == '[' || c[0] == '{')
  {
    if text.None? || text.value == [] then None
    else
      var cleaned := Strip(text.value);
      match Bracketed(cleaned, '[', ']')
      case Some(c) => decode(c)
      case None =>
        match Bracketed(cleaned, '{', '}')
        case Some(c) => decode(c)
        case None => None
  }

  /** The `{`...`}` search runs only when no `[`...`]` pair exists: an object around an array yields what the array decodes to. */
  lemma ArrayFirst(t: string, decode: string -> Option<Json>)
    requires t != [] && Bracketed(Strip(t), '[', ']').Some?
    ensures ParseJsonResponse(Some(t), decode) == decode(Bracketed(Strip(t), '[', ']').value)
  {
  }

  /** With neither pair present the result is `None`. */
  lemma NoBracketsNoJson(t: string, decode: string -> Option<Json>)
    requires '[' !in t && '{' !in t
    ensures ParseJsonResponse(Some(t), decode) == None
  {
    if t != [] {
      var c := Strip(t);
      assert forall x :: x in c ==> x in t;
      assert IndexOf(c, '[') == None && IndexOf(c, '{') == None;
    }
  }

  /** Stripping keeps the bracket search where it was, since brackets are not whitespace. */
  lemma BracketedOfStrip(s: string, open: char, close: char)
    requires !IsSpace(open) && !IsSpace(close)
    ensures Bracketed(Strip(s), open, close) == Bracketed(s, open, close)
  {
    var k := |s| - |StripLeft(s)|;
    var m := k + |Strip(s)|;
    assert Strip(s) == s[k..m] by {
      StripIsSlice(s);
    }
    assert Bracketed(s[k..m], open, close) == Bracketed(s, open, close) by {
      LeftStrippedAreSpaces(s);
      RightOfStripAreSpaces(s);
      BracketedOfSlice(s, k, m, open, close);
    }
  }

  /** The pair of a text with no opener before it and no closer inside it is found whole. */
  lemma BracketedEnclosed(before: string, inner: string, after: string, open: char, close: char)
    requires open !in before && close !in inner
    ensures Bracketed(before + [open] + inner + [close] + after, open, close) == Some([open] + inner + [close])
  {
    var t := before + [open] + inner + [close] + after;
    var i := |before|;
    var j := |before| + 1 + |inner|;
    forall x | 0 <= x < i
      ensures t[x] != open
    {
      assert t[x] == before[x];
    }
    forall x | i < x < j
      ensures t[x] != close
    {
      assert t[x] == inner[x - i - 1];
    }
    assert IsSpan(t, open, close, i, j);
    SpanUnique(t, open, close, i, j);
    BracketedOfSpan(t, open, close);
    assert t[i..j + 1] == [open] + inner + [close];
  }

  /** The array of a text with no `[` before it and no `]` inside it is found whole. */
  lemma BracketedAround(before: string, items: string, after: string)
    requires '[' !in before && ']' !in items
    ensures Bracketed(before + "[" + items + "]" + after, '[', ']') == Some("[" + items + "]")
  {
    BracketedEnclosed(before, items, after, '[', ']');
    assert "[" == ['['] && "]" == [']'];
  }

  /**
   * Prose around a flat array is ignored: the reply text decodes as the array
   * alone, whatever follows it.
   */
  lemma ProseAroundArray(before: string, items: string, after: string, decode: string -> Option<Json>)
    requires '[' !in before && ']' !in items
    ensures ParseJsonResponse(Some(before + "[" + items + "]" + after), decode) == decode("[" + items + "]")
  {
    var t := before + "[" + items + "]" + after;
    BracketedAround(before, items, after);
    BracketedOfStrip(t, '[', ']');
    ArrayFirst(t, decode);
  }

  /** A text without `[` has no array match. */
  lemma NoOpenerNoMatch(s: string, open: char, close: char)
    requires open !in s
    ensures Bracketed(s, open, close).None?
  {
    BracketedOfSpan(s, open, close);
  }

  /**
   * A reply whose only JSON is a flat object, with prose around it and no
   * `[` anywhere, decodes as that object alone: the `{`...`}` fallback runs.
   */
  lemma ProseAroundObject(before: string, fields: string, after: string, decode: string -> Option<Json>)
    requires '{' !in before && '}' !in fields && '[' !in before + "{" + fields + "}" + after
    ensures ParseJsonResponse(Some(before + "{" + fields + "}" + after), decode) == decode("{" + fields + "}")
  {
    var t := before + "{" + fields + "}" + after;
    assert "{" == ['{'] && "}" == ['}'];
    assert t[|before|] == '{';
    BracketedEnclosed(before, fields, after, '{', '}');
    BracketedOfStrip(t, '{', '}');
    NoOpenerNoMatch(t, '[', ']');
    BracketedOfStrip(t, '[', ']');
  }

  lemma NestedConcat(a: string, b: string, c: string)
    ensures "" + "[" + (a + "[" + b) + "]" + (c + "]") == "[" + a + "[" + b + "]" + c + "]"
    ensures "[" + (a + "[" + b) + "]" == "[" + a + "[" + b + "]"
  {
  }

  /**
   * A nested array is cut at its first `]`: for `[{"a":[1]}]` the decoder
   * is given `[{"a":[1]`, which is not a JSON document.
   */
  lemma NestedArrayTruncated(a: string, b: string, c: string, decode: string -> Option<Json>)
    requires ']' !in a && ']' !in b
    ensures ParseJsonResponse(Some("[" + a + "[" + b + "]" + c + "]"), decode) == decode("[" + a + "[" + b + "]")
  {
    ProseAroundArray("", a + "[" + b, c + "]", decode);
    NestedConcat(a, b, c);
  }
}
