/** `ModelWrapper` (model_wrapper.py): construction from the secrets store, the prompt
    template, the whitespace token estimate, and the handling of the generation
    service's reply. The service call itself is a parameter: the model sees only its
    outcome for the prompt it is given. */
module Gemini {
  import opened Wrappers
  import opened Strings

  const ApiKeyName: string := "GEMINI_API_KEY"
  const ModelName: string := "gemini-pro"

  /** A configured client: the API key it was given and the model it talks to. */
  datatype ModelWrapper = ModelWrapper(apiKey: string, model: string)

  /** Why construction fails: the secrets store has no key (the lookup raises), or the
      key is empty (the constructor raises `ValueError`). */
  datatype ConfigError = KeyMissing | KeyEmpty

  /** `ModelWrapper()`: succeeds exactly when the key is configured and non-empty, and
      then holds that key. */
  function NewModelWrapper(secrets: map<string, string>): (r: Result<ModelWrapper, ConfigError>)
    ensures r.Success? <==> ApiKeyName in secrets && secrets[ApiKeyName] != ""
    ensures r.Success? ==> r.value.apiKey == secrets[ApiKeyName] && r.value.model == ModelName
    ensures ApiKeyName !in secrets ==> r == Failure(KeyMissing)
  {
    if ApiKeyName !in secrets then Failure(KeyMissing)
    else if secrets[ApiKeyName] == "" then Failure(KeyEmpty)
    else Success(ModelWrapper(secrets[ApiKeyName], ModelName))
  }

  // ---------------------------------------------------------------------------
  // format_prompt

  /** `format_prompt(system_prompt, content_prompt)`: the system prompt and the content
      prompt placed, verbatim, into the fixed instruction template. */
  function FormatPrompt(systemPrompt: string, contentPrompt: string): (r: string)
    ensures |r| == |systemPrompt| + |contentPrompt| + 39
    ensures r[..8] == "\n[INST]\n"
    ensures r[8..8 + |systemPrompt|] == systemPrompt
    ensures r[8 + |systemPrompt|..30 + |systemPrompt|] == "\n\nContent to process:\n"
    ensures r[30 + |systemPrompt|..30 + |systemPrompt| + |contentPrompt|] == contentPrompt
    ensures r[|r| - 9..] == "\n[/INST]\n"
  {
    "\n[INST]\n" + systemPrompt + "\n\nContent to process:\n" + contentPrompt + "\n[/INST]\n"
  }

  /** Reads a formatted prompt back, given the length of its system prompt: `None`
      unless the text around the two parts is the template's. */
  function ParsePrompt(prompt: string, systemLength: nat): Option<(string, string)>
  {
    if |prompt| < systemLength + 39 then None
    else
      var s := prompt[8..8 + systemLength];
      var c := prompt[30 + systemLength..|prompt| - 9];
      if prompt[..8] == "\n[INST]\n"
         && prompt[8 + systemLength..30 + systemLength] == "\n\nContent to process:\n"
         && prompt[|prompt| - 9..] == "\n[/INST]\n"
      then Some((s, c))
      else None
  }

  /** The template loses nothing: the formatted prompt gives back both parts. */
  lemma ParseFormatPrompt(systemPrompt: string, contentPrompt: string)
    ensures ParsePrompt(FormatPrompt(systemPrompt, contentPrompt), |systemPrompt|) == Some((systemPrompt, contentPrompt))
  {
  }

  /** And every prompt that reads back is the template applied to its parts. */
  lemma FormatParsedPrompt(prompt: string, systemLength: nat)
    requires ParsePrompt(prompt, systemLength).Some?
    ensures var (s, c) := ParsePrompt(prompt, systemLength).value;
      |s| == systemLength && FormatPrompt(s, c) == prompt
  {
  }

  /** The template adds exactly five whitespace-separated words ("[INST]", "Content",
      "to", "process:" and "[/INST]") to those of the two parts. */
  lemma FormatPromptWords(systemPrompt: string, contentPrompt: string)
    ensures |Words(FormatPrompt(systemPrompt, contentPrompt))| == |Words(systemPrompt)| + |Words(contentPrompt)| + 5
  {
    var s, c := systemPrompt, contentPrompt;
    var tail := c + "\n[/INST]\n";
    var middle := s + "\n\nContent to process:\n" + tail;
    assert FormatPrompt(s, c) == "\n[INST]\n" + middle;
    HeadWords(middle);
    MiddleWords(s, tail);
    TailWords(c);
  }

  /** A word followed by whitespace contributes itself and ends there. */
  lemma WordThenGap(w: string, gap: string, rest: string)
    requires w != [] && NoSpace(w)
    requires gap != [] && AllSpace(gap)
    ensures Words(w + gap + rest) == [w] + Words(rest)
  {
    WordsSeparated(w, gap, rest);
    WordsOfRun(w);
  }

  /** The template's own words contain no whitespace. */
  lemma TemplateWordsVisible()
    ensures NoSpace("[INST]") && NoSpace("Content") && NoSpace("to")
    ensures NoSpace("process:") && NoSpace("[/INST]")
  {
  }

  lemma HeadWords(rest: string)
    ensures |Words("\n[INST]\n" + rest)| == 1 + |Words(rest)|
  {
    TemplateWordsVisible();
    var nl, w := "\n", "[INST]";
    assert "\n[INST]\n" + rest == nl + (w + nl + rest);
    WordsLeadingSpace(nl, w + nl + rest);
    WordThenGap(w, nl, rest);
  }

  lemma MiddleWords(s: string, rest: string)
    ensures |Words(s + "\n\nContent to process:\n" + rest)| == |Words(s)| + 3 + |Words(rest)|
  {
    TemplateWordsVisible();
    var nl, sp := "\n", " ";
    var w1, w2, w3 := "Content", "to", "process:";
    var r3 := w3 + nl + rest;
    var r2 := w2 + sp + r3;
    var r1 := w1 + sp + r2;
    assert s + "\n\nContent to process:\n" + rest == s + (nl + nl) + r1;
    WordsSeparated(s, nl + nl, r1);
    WordThenGap(w1, sp, r2);
    WordThenGap(w2, sp, r3);
    WordThenGap(w3, nl, rest);
  }

  lemma TailWords(c: string)
    ensures |Words(c + "\n[/INST]\n")| == |Words(c)| + 1
  {
    TemplateWordsVisible();
    var nl, w := "\n", "[/INST]";
    assert c + "\n[/INST]\n" == c + nl + (w + nl);
    WordsSeparated(c, nl, w + nl);
    WordsTrailingSpace(w, nl);
    WordsOfRun(w);
  }

  // ---------------------------------------------------------------------------
  // count_tokens

  /** `count_tokens(text)`: `len(text.split())`, computed by counting the positions
      where a run of non-whitespace starts. */
  method CountTokens(text: string) returns (n: nat)
    ensures n == |Words(text)|
  {
    n := 0;
    var i := 0;
    while i < |text|
      invariant 0 <= i <= |text|
      invariant n == |Words(text[..i])|
    {
      WordsSnoc(text[..i], text[i]);
      assert text[..i + 1] == text[..i] + [text[i]];
      if !IsSpace(text[i]) && (i == 0 || IsSpace(text[i - 1])) {
        n := n + 1;
      }
      i := i + 1;
    }
    assert text[..i] == text;
  }

  /** The token estimate ignores how much whitespace there is: text around and between
      two pieces, whitespace only, adds no token and joins none. */
  lemma TokenCountIgnoresSpacing(before: string, a: string, gap: string, b: string, after: string)
    requires AllSpace(before) && AllSpace(after)
    requires gap != [] && AllSpace(gap)
    ensures |Words(before + a + gap + b + after)| == |Words(a)| + |Words(b)|
  {
    assert before + a + gap + b + after == before + (a + gap + (b + after));
    WordsLeadingSpace(before, a + gap + (b + after));
    WordsSeparated(a, gap, b + after);
    WordsTrailingSpace(b, after);
  }

  // ---------------------------------------------------------------------------
  // single_shot_completion / analyze_html_content

  /** What `generate_content` gave back for a prompt: a response whose `text` may be
      absent, or a raised error. */
  datatype Generation = Responded(text: Option<string>) | ApiError(message: string)

  /** The error `single_shot_completion` re-raises. */
  datatype AnalysisError = RequestFailed(message: string)

  /** `single_shot_completion(system_prompt, content_prompt)`: sends the formatted
      prompt; a reply with text is returned verbatim, a reply with no or empty text
      becomes "", and a failed request is passed on as an error, never as text. */
  function SingleShotCompletion(systemPrompt: string, contentPrompt: string, generate: string -> Generation)
    : (r: Result<string, AnalysisError>)
    ensures var g := generate(FormatPrompt(systemPrompt, contentPrompt));
      && (r.Failure? <==> g.ApiError?)
      && (r.Failure? ==> r.error == RequestFailed(g.message))
      && (r.Success? ==> (r.value == "" <==> g.text.None? || g.text.value == ""))
      && (r.Success? && r.value != "" ==> g.text == Some(r.value))
  {
    match generate(FormatPrompt(systemPrompt, contentPrompt))
    case ApiError(msg) => Failure(RequestFailed(msg))
    case Responded(text) =>
      if text.Some? && text.value != "" then Success(text.value) else Success("")
  }

  const SystemPrompt: string :=
    "You are an expert web developer and technical analyst with extensive knowledge in website design, "
    + "web frameworks, and modern web tools. Your task is to generate an extremely detailed, sentence-like "
    + "analysis of the website's HTML structure and design. Include details on design elements such as the "
    + "location and styling of the brand logo, menu items (and their names if discernible), interactive effects "
    + "(e.g., spinning image effects, carousels, sliding sections), layout details (e.g., divisions with two "
    + "columns, grid structures), and any web frameworks or tools in use (e.g., Bootstrap, React, Angular, etc.). "
    + "Focus on clarity and precision in your descriptions."

  const ContentPreamble: string :=
    "Examine the following website's HTML content and provide a detailed sentence-like analysis. Your analysis "
    + "should mention specific design elements such as:\n"
    + "- The presence and location of a brand logo (for example, top left).\n"
    + "- Menu items and their names (for example, top right navigation).\n"
    + "- Any interactive visual effects (for example, a spinning image effect, carousels, sliding sections).\n"
    + "- Layout details (for example, a division with two columns, grid layout, etc.).\n"
    + "- Identification of any web frameworks, tools, or libraries in use.\n\n"
    + "Here is the website's HTML:\n"

  /** The content prompt of `analyze_html_content`: the fixed preamble followed by the
      HTML verbatim. */
  function ContentPrompt(html: string): (r: string)
    ensures StartsWith(r, ContentPreamble)
    ensures EndsWith(r, html)
    ensures |r| == |ContentPreamble| + |html|
  {
    var r := ContentPreamble + html;
    assert r[|r| - |html|..] == html;
    r
  }

  /** The whole prompt `analyze_html_content` sends. */
  function AnalysisPrompt(html: string): string
  {
    FormatPrompt(SystemPrompt, ContentPrompt(html))
  }

  /** The HTML carried by a prompt `analyze_html_content` sent: what lies between the
      fixed text before it and the closing of the template. */
  function HtmlOfPrompt(prompt: string): Option<string>
  {
    var before := 30 + |SystemPrompt| + |ContentPreamble|;
    if |prompt| < before + 9 then None else Some(prompt[before..|prompt| - 9])
  }

  /** The content part of a formatted prompt sits between the fixed text before it
      and the template's closing, whatever the system prompt and preamble are. */
  lemma FormattedContentAt(systemPrompt: string, preamble: string, html: string)
    ensures var p := FormatPrompt(systemPrompt, preamble + html);
      && p[30 + |systemPrompt| + |preamble|..|p| - 9] == html
      && p[|p| - |html| - 9..] == html + "\n[/INST]\n"
  {
    var p := FormatPrompt(systemPrompt, preamble + html);
    var a := "\n[INST]\n" + systemPrompt + "\n\nContent to process:\n" + preamble;
    assert p == a + html + "\n[/INST]\n";
    assert |a| == 30 + |systemPrompt| + |preamble|;
  }

  /** The HTML reaches the service verbatim and can be read back from the prompt, so two
      different pages never produce the same prompt. */
  lemma AnalysisPromptCarriesHtml(html: string)
    ensures HtmlOfPrompt(AnalysisPrompt(html)) == Some(html)
    ensures EndsWith(AnalysisPrompt(html), html + "\n[/INST]\n")
  {
    FormattedContentAt(SystemPrompt, ContentPreamble, html);
  }

  /** `analyze_html_content(html_content)`: one completion over the fixed system prompt
      and the content prompt built around the HTML. */
  function AnalyzeHtmlContent(html: string, generate: string -> Generation): (r: Result<string, AnalysisError>)
    ensures var g := generate(AnalysisPrompt(html));
      && (r.Failure? <==> g.ApiError?)
      && (r.Success? ==> (r.value == "" <==> g.text.None? || g.text.value == ""))
      && (r.Success? && r.value != "" ==> g.text == Some(r.value))
  {
    SingleShotCompletion(SystemPrompt, ContentPrompt(html), generate)
  }
}
