# crawl — a Dafny model of the scraper's cleaning, link selection and prompt handling

`crawl` is a small Streamlit tool. It loads a page in a headless browser, cleans its
HTML, optionally follows some of its links, and asks a Gemini model to describe the
page. This project models the deterministic core of that tool and proves what it
promises:

- `clean_html`: blacklist removal, attribute cleaning and line normalisation.
- `extract_links`.
- The link cap, excerpt and per-link-failure handling of `scrape_url`.
- In `ModelWrapper`: construction, `format_prompt`, `count_tokens`, the reply handling
  of `single_shot_completion`, and the prompt assembly of `analyze_html_content`.

Modules:

- `Wrappers`: `Option` and `Result`.
- `Strings`: the Python `str` behaviour the code relies on.
  - `isspace`, `strip`, `rstrip(ch)` and `startswith`.
  - `splitlines`, with "\r\n" as one boundary.
  - `"\n".join`.
  - The argument-less `split`.
- `Html`: the parsed document.
  - An abstract element tree (name, attribute map, children; text).
  - Its document-order token stream, which properties about "everything inside an
    element" are stated over.
- `Sanitizer`: `clean_html`.
  - The removal loop runs tag by tag, as the code does.
  - It is proved equal to a single pass over the whole blacklist.
  - It is also proved equal to a streaming filter that drops each blacklisted element
    from its opening tag to its matching close.
- `Links`: `extract_links`. The order of `list(set(links))` is left open, so the
  contracts hold for every order.
- `Scraper`: `scrape_url` after the page has loaded.
  - Page loads and link fetches are abstract outcomes.
  - The per-link loop is a fold over those outcomes.
- `Gemini`: `ModelWrapper`. The generation service is a function from prompt to
  outcome: a reply whose text may be missing, or an error.

The HTML serialiser (`str(soup)`) is a function parameter of `CleanHtml`. Every
property of the output lines holds for any serialiser.

## Model

| member | source | states |
|---|---|---|
| Sanitizer.Prune | app.py:71-73 | no element with a removed name is left anywhere in the result |
| Sanitizer.DecomposeAllIsPrune | app.py:71-73 | decomposing the tags one after another, in any order, removes exactly what one pass over the whole set removes |
| Sanitizer.PruneIsDrop | app.py:71-73 | the pruned document's token stream is the original stream with each removed element's opening tag, everything inside it and its closing tag deleted |
| Sanitizer.PruneTwice | app.py:71-73 | removing one set of names and then another equals removing their union |
| Sanitizer.PruneNothing | app.py:71-73 | a document with none of the names is left unchanged |
| Sanitizer.RemoveUnwanted | app.py:64-73 | after the blacklist pass, no script/style/meta/footer/header/nav/aside/form/iframe/noscript element remains at any depth, and neither does anything inside one |
| Sanitizer.CleanedAttrs | app.py:76-86 | the branches as written leave an anchor's or image's attributes as they were and give every other element an empty map; the inner anchor and image branches are never taken |
| Sanitizer.CleanAttributes | app.py:75-86 | every element keeps its name, place and text; anchors and images keep all their attributes; every other element ends with an empty attribute map |
| Sanitizer.CleanAttributesTwice | app.py:75-86 | a second attribute pass changes nothing |
| Sanitizer.CleanTree | app.py:64-86 | with attribute cleaning on, the result is the pruned stream with the attribute rule applied element by element; with it off, every remaining element keeps its attributes exactly |
| Sanitizer.CleanTreeIdempotent | app.py:64-86 | cleaning an already cleaned tree changes nothing |
| Sanitizer.NonBlank | app.py:89-91 | the stripped, non-blank lines are all non-empty, have no whitespace at either end and are no more numerous than the input lines |
| Sanitizer.NonBlankConcat | app.py:89-91 | the generator handles lines one at a time and keeps their order: the result for two runs of lines is the two results concatenated |
| Sanitizer.NonBlankOne | app.py:89-91 | a blank line contributes nothing, and any other line contributes itself stripped |
| Sanitizer.NonBlankNormalised | app.py:89-91 | lines that are already normalised pass through unchanged |
| Sanitizer.NormaliseLines | app.py:88-91 | splitting the output gives back exactly the stripped non-blank input lines, in their original order |
| Sanitizer.NormaliseLinesIdempotent | app.py:89-91 | normalising twice is normalising once |
| Sanitizer.CleanHtml | app.py:53-93 | the output's lines are exactly the stripped non-blank lines of the serialised cleaned tree, in order; none is empty or has whitespace at either end, whatever the serialiser produced; and normalising the output again changes nothing |
| Strings.Strip | app.py:90 | the result is the slice of the input left after its leading and trailing whitespace; it is empty exactly for whitespace-only input, and otherwise starts and ends with a non-space character |
| Strings.SplitLines | app.py:90 | the pieces contain no line boundary, and there are none exactly for empty text |
| Strings.SplitLinesOne | app.py:90 | text with no line boundary is a single line |
| Strings.SplitLinesBreak | app.py:90 | a one-character boundary ('\n', '\r' not followed by '\n', and the others `splitlines` accepts) ends the first line, and the rest is split on its own |
| Strings.SplitLinesCrLf | app.py:90 | "\r\n" is one boundary: it ends the first line, and the rest is split on its own |
| Strings.SplitJoinLines | app.py:89-91 | joining non-empty, boundary-free lines with "\n" and splitting again gives the same lines |
| Strings.TrimEnd | app.py:103 | `rstrip('/')`: the result is a prefix of the input, everything after it is the stripped character, and it does not end with that character |
| Strings.Words | model_wrapper.py:56 | every word is non-empty and contains no whitespace |
| Strings.WordsSeparated | model_wrapper.py:56 | whitespace of any length between two texts separates their words and adds none |
| Links.ResolveHref | app.py:99-103 | an href starting with "http" is kept verbatim; one starting with "/" becomes the page URL without trailing slashes, followed by the href; any other href gives nothing |
| Links.ResolvedLinksMembers | app.py:97-103 | a URL is among the collected links exactly when some anchor href resolves to it |
| Links.AnchorHrefs | app.py:98 | the hrefs of `find_all('a', href=True)` at any depth, in the same order as a walk over the document's token stream meets the anchors' opening tags |
| Links.NoDupCardinality | app.py:104 | a duplicate-free list has as many elements as its set |
| Links.CollectLinks | app.py:97-103 | the loop appends, in order, the link each href resolves to and skips the others |
| Links.Deduplicate | app.py:104 | each collected link appears exactly once, and nothing else appears |
| Links.ExtractLinks | app.py:95-104 | the result has no duplicates, and its members are exactly the resolved hrefs of the page's anchors |
| Scraper.Take | app.py:126 | Python's `s[:n]` for every integer n, including negative ones: always a prefix of the list |
| Scraper.Excerpt | app.py:133 | content over 500 characters becomes its first 500 characters followed by "..." (503 in all); shorter content is kept unchanged |
| Scraper.OutcomesConcat | app.py:126-136 | links succeed or fail independently: the outcomes of a concatenation are the concatenated outcomes |
| Scraper.OutcomesPartition | app.py:126-136 | every attempted link either succeeds or fails |
| Scraper.NoneFail | app.py:126-136 | when no fetch fails, every attempted link is kept, in order |
| Scraper.OneFailureKeepsTheRest | app.py:126-136 | one failing link is dropped and reported, and the links before and after it are still kept |
| Scraper.ScrapeLinks | app.py:126-136 | the kept pages are the links whose fetch succeeded, in attempt order, each with the excerpt of its cleaned page; the failed links are exactly the rest |
| Scraper.ScrapeUrl | app.py:106-143 | a failed page load gives (None, []); otherwise the main content is the cleaned page, each kept linked page holds the excerpt of that page cleaned with `clean_html`'s default (attribute cleaning on), at most `max_links` links are tried and they are a prefix of the de-duplicated link list, and failed links are left out while the rest keep their order |
| Gemini.NewModelWrapper | model_wrapper.py:17-36 | construction succeeds exactly when GEMINI_API_KEY is configured and non-empty, and then holds that key |
| Gemini.FormatPrompt | model_wrapper.py:38-48 | the prompt is "\n[INST]\n", the system prompt, "\n\nContent to process:\n", the content prompt and "\n[/INST]\n", each at its fixed position |
| Gemini.ParseFormatPrompt | model_wrapper.py:40-47 | both parts can be read back from a formatted prompt |
| Gemini.FormatParsedPrompt | model_wrapper.py:40-47 | every text that reads back as a prompt is the template applied to its parts |
| Gemini.FormatPromptWords | model_wrapper.py:40-47 | the template adds exactly five whitespace-separated tokens to those of its parts |
| Gemini.CountTokens | model_wrapper.py:50-56 | the count is the number of maximal runs of non-whitespace characters |
| Gemini.TokenCountIgnoresSpacing | model_wrapper.py:56 | adding or removing whitespace before, between or after words leaves the count unchanged |
| Strings.WordsEmpty | model_wrapper.py:56 | no token is found exactly in empty or whitespace-only text, so the count is 0 there |
| Gemini.SingleShotCompletion | model_wrapper.py:113-147 | the formatted prompt is sent; a reply with text is returned verbatim; a reply with no or empty text gives ""; a failed request is an error, never a returned string |
| Gemini.ContentPrompt | model_wrapper.py:78-87 | the content prompt is the fixed preamble followed by the HTML verbatim, so it ends with the HTML |
| Gemini.FormattedContentAt | model_wrapper.py:40-47 | the content part sits between the template's fixed text and its closing, so it can be read back |
| Gemini.AnalysisPromptCarriesHtml | model_wrapper.py:68-93 | the HTML can be read back unchanged from the prompt sent, which ends with the HTML and the template's closing |
| Gemini.AnalyzeHtmlContent | model_wrapper.py:58-93 | the result is the reply to the analysis prompt under the same rules: verbatim text, "" for no text, or an error |

## Code and design

The branches at app.py:78-84 show the intent of attribute cleaning: anchors would keep
only `href`, and images only `src` and `alt`. The code does not do this. The guard at app.py:77
only lets through elements that are neither `a` nor `img`, so the branches at
app.py:78-84 are dead. `Sanitizer.CleanedAttrs` keeps those branches as written. The
contracts state what actually happens: anchors and images keep every attribute, and
all other elements lose all of theirs.

Root-relative hrefs are resolved against the full page URL with trailing slashes
removed (app.py:103), not against its origin. `Links.ResolveHref` states this
behaviour, so `https://x.org/docs/` with `/a` gives `https://x.org/docs/a`.

## Left out

- Browser I/O is not modelled: `setup_selenium`, `scroll_page`, `WebDriverWait`, `driver.get`/`quit` and `time.sleep`. A page load and a link fetch are abstract outcomes, either a parsed document or a failure.
- HTML parsing and `str(soup)` are not modelled. The document is an abstract tree. The serialiser is a parameter, so no claim depends on its text.
- `CleanHtml` has no end-to-end idempotence property. Cleaning its own output twice would need the parser to round-trip the serialiser's output. Idempotence is proved for the tree stage (`Sanitizer.CleanTreeIdempotent`) and the line stage (`Sanitizer.NormaliseLinesIdempotent`) instead.
- Attributes are a map from names to single string values, so BeautifulSoup's multi-valued attributes (such as `class`) are flattened into one string. Non-element nodes such as comments and the doctype are modelled as `Text` nodes.
- `Links.ExtractLinks` returns one order, first occurrence. Its contract fixes only the members and that there are no duplicates, because `list(set(...))` has no defined order.
- `Scraper.ScrapeUrl` models failures before the link loop only as a failed page load. Other exceptions in that block are not modelled, nor is the `finally` clause's second `driver.quit()`.
- The per-link error messages (`st.error`, app.py:136) are the returned list of failed links. The whole-scrape message (app.py:142) is the `None` main content. Their text is left out.
- `Gemini.SingleShotCompletion` does not model the 0.7 temperature, which is a float passed to the service. The logging of prompts, replies and token counts is also left out. Only the outcome of the call is modelled.
- `Gemini.NewModelWrapper` models only the key lookup and the empty-key check. Failures inside `genai.configure` and `GenerativeModel` come from the service library and are not modelled.
- `init_model_wrapper`, `main`, the CSV and JSON exports and the 1000-character preview are user interface and are not modelled.
- logger.py is logging plumbing and is not part of this model.
