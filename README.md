# Agent ATS scoring core, modelled in Dafny

Agent ATS scores how well a CV matches a job advert. It returns a match
percentage from 0 to 100, up to five keywords of the advert that the CV
lacks, and a one-sentence summary. This project models the deterministic
part of `app.py`:

- getting the two texts in: the file-name dispatch for uploads, the page
  loop of the PDF reader, and the markup removal applied to a fetched
  advert;
- bounding a text to 12 000 characters;
- tokenizing;
- ranking keywords by frequency;
- the heuristic scorer;
- the handling of the language model's reply: the JSON recovery and the
  coercion into a result;
- the click handler that picks the inputs, validates them and selects the
  scorer.

Modules, one per component:

| file | module | models |
|---|---|---|
| `basics.dfy` | `Basics` | `Option`, `Result`, Python's `xs[:n]` |
| `strings.dfy` | `Strings` | ASCII `isspace`, `lower`, `strip`, `in`, `endswith`, string `<` |
| `normalizer.dfy` | `Normalizer` | `trim_text`, `tokenize` |
| `keywords.dfy` | `Keywords` | `STOPWORDS`, `top_keywords` |
| `results.dfy` | `Results` | the `(score, missing, summary)` triple and its invariant |
| `heuristic.dfy` | `Heuristic` | `heuristic_analysis`, Python's `round` |
| `llm.dfy` | `LlmAdapter` | `parse_json`, the coercions of `gemini_analysis` |
| `ingestion.dfy` | `Ingestion` | `fetch_job_text` after the request, `extract_text_from_upload`, `extract_text_from_pdf` |
| `orchestration.dfy` | `Orchestration` | `resolve_gemini_settings`, the click handler (`app.py` lines 486-523) |

The model covers ASCII text only. A single whitespace predicate
(`Strings.IsSpace`: characters 9-13 and 28-32, Python's `str.isspace` on
ASCII) serves both `str.strip` and the regular expression `\s`.

Each regular expression is written out as a scanner:

- `tokenize`'s `findall` is `Normalizer.Scan`.
- `re.sub` with the markup patterns is `Ingestion.Sub`.
- `parse_json`'s `re.search(r"\{.*\}")` is `LlmAdapter.BraceSpan`.

The outside world is passed in as parameters:

- the uploaded file's reading outcome (`Orchestration.Attempt`);
- the HTTP request (`get`);
- the model's reply (`respond`);
- the JSON decoder (`decode`);
- the environment variables (`ResolveSettings`);
- the PDF reader's page texts (`pages`).

Three points of the code's behaviour that are easy to misread:

- **`trim_text` is not idempotent.** When the cut falls inside whitespace,
  the first result ends in whitespace and a second call strips it. `Normalizer.TrimNotIdempotent` shows `"ab cd"` with
  budget 3. `Normalizer.TrimTwice` and `Normalizer.TrimIdempotent` state
  exactly what does hold.
- **The JSON fallback is greedy, not balanced.** It does not look for a
  balanced `{...}`: it takes everything from the first `{` to the last `}`.
- **A PDF page that raises aborts the whole upload.** Such a page does not
  degrade to an empty string: only a page whose `extract_text()` returns
  `None` or `""` counts as empty. An exception
  propagates, and the click handler reports the upload as unreadable.
  `Orchestration.Attempt`'s `Failure` case models this.

## Model

| member | source | states |
|---|---|---|
| `Basics.Take` | app.py:103 | Python's `xs[:n]`: the first `min(n, len(xs))` elements, a prefix of `xs` |
| `Strings.IsSpace` | app.py:79 | `\s` and `str.isspace` on ASCII: only characters 9-13 and 28-32, none of them an upper-case letter |
| `Strings.Lower` | app.py:84 | `str.lower()`: same length, each letter A-Z mapped to a-z, every other character unchanged, no upper-case letter left |
| `Strings.Strip` | app.py:47 | `str.strip()`: result no longer than the input, with no whitespace at either end |
| `Strings.StripStart` | app.py:47 | the left end `strip` keeps: every character before it is whitespace, and the character at it (if any) is not |
| `Strings.StripEnd` | app.py:47 | the right end `strip` keeps: every character after it is whitespace, and the character before it is not unless nothing is kept |
| `Strings.StripSpec` | app.py:47 | what `strip` removes is whitespace at the two ends and nothing else |
| `Strings.StripUnique` | app.py:47 | any trimmed slice of `s` surrounded only by whitespace equals `strip(s)` |
| `Strings.StripIdempotent` | app.py:47 | stripping twice is stripping once |
| `Strings.ContainsIffOccurs` | app.py:102 | the substring test `kw in cv_lower` holds iff the keyword occurs at some index |
| `Strings.Contains` | app.py:102-103 | `needle in hay` only when the needle is no longer than the text (meaning: `ContainsIffOccurs`) |
| `Strings.EndsWith` | app.py:62-64 | `str.endswith`: the suffix fits and matches the text's last characters one by one |
| `Strings.LexLess` | app.py:93 | string `<` never holds between equal strings |
| `Strings.LexLessTransitive` | app.py:93 | Python's string `<` (the tie-break of the sort) is transitive |
| `Strings.LexLessTotal` | app.py:93 | any two distinct strings are ordered one way or the other |
| `Strings.LexLessAsymmetric` | app.py:93 | string `<` is asymmetric |
| `Strings.LexLessIrreflexive` | app.py:93 | string `<` is irreflexive |
| `Normalizer.TrimText` | app.py:46-50 | `trim_text`: a prefix of `text.strip()` of length `min(len(strip), max_chars)`, equal to the stripped text when that fits |
| `Normalizer.TrimTwice` | app.py:46-50 | trimming the result again only strips it (the cut never leaves leading whitespace) |
| `Normalizer.TrimIdempotent` | app.py:46-50 | trimming is idempotent when the stripped text fits the budget or the cut does not end in whitespace |
| `Normalizer.TrimNotIdempotent` | app.py:46-50 | counterexample to general idempotence: `"ab cd"` with budget 3 trims to `"ab "`, then to `"ab"` |
| `Normalizer.RunLength` | app.py:84 | the greedy `[a-zA-Z0-9+.#-]{2,}` takes the maximal run of word characters: all inside are word characters, the next one is not |
| `Normalizer.Scan` | app.py:84 | every match of the scan starts with a letter, has length at least 3, holds only `[a-zA-Z0-9+.#-]`, and has no upper-case letter when the text has none (completeness: `ScanFinds`) |
| `Normalizer.Tokenize` | app.py:83-84 | every token is lower-case, starts with a-z, has length at least 3 and holds only word characters (completeness: `TokenizeFinds`) |
| `Normalizer.ScanPositions` | app.py:84 | the matches lie in text order without overlapping, each ending where its run of word characters ends |
| `Normalizer.TokensAreMaximalRuns` | app.py:83-84 | each token occurs in the lower-cased text followed by a non-word character or the end of the text |
| `Normalizer.ScanFinds` | app.py:84 | no match is skipped: in every maximal run of word characters, the part from its first letter (after any leading digits or `+.#-`) is, whenever it has three or more characters, among the matches and is exactly the match at the index whose start is that first letter; as starts strictly increase (`ScanPositions`), every occurrence gives its own match, repeats included |
| `Normalizer.StartsFinds` | app.py:84 | under the same conditions a match starts at that first letter itself |
| `Normalizer.TokenIsRun` | app.py:84 | a match that ends where its run ends is the whole run from its start |
| `Normalizer.PositionedFinds` | app.py:84 | in matches placed in text order from some index on, the match at a given start is the run from that start |
| `Normalizer.TokenizeFinds` | app.py:83-84 | every such match in the lower-cased text, including one after leading digits or symbols, is the token of `tokenize` at the index whose start is its first letter |
| `Normalizer.TokenAfterDigit` | app.py:84 | a token may begin inside a run: `"3abc"` gives `["abc"]` |
| `Normalizer.RepeatedWord` | app.py:84 | a repeated word gives one match per occurrence: `"abc abc"` gives `["abc", "abc"]` |
| `Keywords.FirstSeen` | app.py:88-92 | the dict's key order: no duplicates, exactly the non-stopword tokens |
| `Keywords.CountsSpec` | app.py:88-92 | the frequency table `counts` has exactly the non-stopword tokens as keys, each counted at least once (its value is the token's multiplicity) |
| `Keywords.CountsSnoc` | app.py:89-92 | one loop step: a stopword leaves the counts alone, any other token increments its count (from 0 when new) |
| `Keywords.FirstSeenSnoc` | app.py:89-92 | one loop step on the dictionary's key order: a new non-stopword token is appended, anything else leaves the order alone |
| `Keywords.CountsHas` | app.py:88-92 | a token is a key of the counts exactly when it occurs in the key order |
| `Keywords.CountTokens` | app.py:88-92 | the counting loop over the tokens leaves the frequency table `Counts(tokens)` and its insertion order `FirstSeen(tokens)` |
| `Keywords.RankIsStrictTotalOrder` | app.py:93 | the sort key `(-count, word)` orders the distinct words strictly and totally |
| `Keywords.Insert` | app.py:93 | inserting into the ranked list adds exactly one occurrence of the word |
| `Keywords.SortByRank` | app.py:93 | the sort permutes the dict's keys |
| `Keywords.InsertRanked` | app.py:93 | insertion keeps a ranked list ranked |
| `Keywords.SortRanked` | app.py:93 | the sorted keys are strictly ordered by `(-count, word)` |
| `Keywords.RankedSpec` | app.py:87-94 | `Ranked`, the sorted keys of `counts`, is a strictly ordered permutation of the distinct non-stopword tokens |
| `Keywords.TopKeywords` | app.py:87-94 | `top_keywords(text, limit)`: at most `limit` words, a prefix of the ranking of the text's tokens |
| `Keywords.TopKeywordsMembers` | app.py:87-94 | `top_keywords` returns at most `limit` distinct words, each a non-stopword token of the text |
| `Keywords.TopKeywordsOrdered` | app.py:93-94 | the words come by descending count, ties in ascending string order |
| `Keywords.TopKeywordsComplete` | app.py:93-94 | every omitted non-stopword token ranks after every returned word, and a list shorter than `limit` holds them all |
| `Keywords.ComputeTopKeywords` | app.py:87-94 | counting (`CountTokens`), then sorting by descending count with ties in ascending string order, then cutting to `limit`, yields exactly `TopKeywords(text, limit)` |
| `Heuristic.RoundHalfEvenNearest` | app.py:104 | Python's `round`: a nearest integer to `n/d`, with an exact tie going to the even neighbour |
| `Heuristic.RoundingTies` | app.py:104 | the ties that occur with at most 20 keywords: 1/8 gives 12, 3/8 gives 38, 2/16 gives 12 |
| `Heuristic.RoundHalfEven` | app.py:104 | the rounded quotient is `n // d` or `n // d + 1` |
| `Heuristic.Present` | app.py:102 | the keywords kept are exactly those occurring in the lower-cased CV |
| `Heuristic.Absent` | app.py:103 | the keywords kept are exactly those not occurring, and present plus absent count all keywords |
| `Heuristic.AbsentAppend` | app.py:103 | the comprehension keeps ranked order: filtering a concatenation filters each part |
| `Heuristic.PresentCount` | app.py:102 | all keywords are present iff every one occurs, and none is iff none occurs |
| `Heuristic.ScoreAgainst` | app.py:101-106 | at most five missing words, each a keyword that does not occur in the lower-cased CV; the fixed advice summary (the score: `HeuristicScore`) |
| `Heuristic.HeuristicAnalysis` | app.py:97-106 | the result keeps the result invariant, and with no keywords it is `(0, [], <fixed message>)` |
| `Heuristic.ScoreAgainstWellFormed` | app.py:101-106 | with non-empty keywords the score is in 0..100 and at most 5 non-empty words are missing |
| `Heuristic.ScoreBounds` | app.py:104 | `round(100*p/k)` lies in 0..100 for `p <= k`, and is 100 when `p == k` |
| `Heuristic.ScoreExtremes` | app.py:104 | with fewer than 200 keywords, the score is 100 iff all are present and 0 iff none is |
| `Heuristic.HeuristicScore` | app.py:98-106 | the score is `round(100*present/keywords)`; `missing` is the first five absent keywords in ranked order; the fixed advice summary |
| `Heuristic.HeuristicExtremes` | app.py:98-106 | score 100 iff nothing is missing iff every keyword occurs in the CV; score 0 iff none occurs |
| `LlmAdapter.LastIndexOf` | app.py:127 | the last index holding the character, or none when it is absent |
| `LlmAdapter.BraceSpan` | app.py:127 | `re.search(r"\{.*\}", re.S)`: the span from the first `{` to the last `}`, none iff no `{` has a `}` after it |
| `LlmAdapter.ParseJson` | app.py:122-130 | the text is stripped; a direct success is returned; on failure the greedy brace span is decoded; without one the first error propagates |
| `LlmAdapter.GreedySpanUnique` | app.py:127 | there is only one greedy span |
| `LlmAdapter.Clamp` | app.py:142 | `max(0, min(100, score))` lies in 0..100 and is the identity inside it |
| `LlmAdapter.CleanItems` | app.py:146 | entries are stripped and empty ones dropped: none is empty, all are trimmed, and each is the stripped form of some input entry |
| `LlmAdapter.CleanItemsKeeps` | app.py:146 | no entry with text is dropped |
| `LlmAdapter.CleanItemsAppend` | app.py:146 | cleaning keeps the entries' order |
| `LlmAdapter.Coerce` | app.py:141-148 | score clamped (0 when absent), a non-list `missing_keywords` becomes `[]`, entries cleaned and cut to 5, summary stripped and `""` when absent |
| `LlmAdapter.GeminiAnalysis` | app.py:133-148 | fails before anything else without the SDK; a decode error propagates; a non-object reply fails; an object is coerced into a well-formed result |
| `LlmAdapter.FallbackRecovers` | app.py:124-130 | a reply wrapped in prose is read through its brace span |
| `LlmAdapter.CoerceExample` | app.py:141-148 | score 150 is clamped to 100 and a non-list `missing_keywords` becomes `[]` |
| `LlmAdapter.CleanItemsOfClean` | app.py:146 | cleaning leaves a list of non-empty trimmed entries unchanged |
| `LlmAdapter.CoerceWellFormed` | app.py:141-148 | a reply that already is a well-formed result comes through unchanged |
| `Ingestion.SpaceRun` | app.py:79 | `\s+` takes the maximal whitespace run |
| `Ingestion.HtmlToText` | app.py:73-80 | the page text is no longer than the body and has no whitespace at either end (what the passes do: `ScriptBlockDropped`, `StyleBlockDropped`, `HtmlToTextShape`) |
| `Ingestion.BlockLen` | app.py:76-77 | a script or style block match lies within the text and is non-empty |
| `Ingestion.TagLen` | app.py:78 | a tag match `<[^>]+>` is at least 3 characters long |
| `Ingestion.MatchLen` | app.py:76-79 | no pattern matches the empty string, and every match lies within the text |
| `Ingestion.Sub` | app.py:76-79 | `re.sub(p, " ", s)` never lengthens the text |
| `Ingestion.BlockMatch` | app.py:76-77 | the non-greedy block match ends at the first closing tag after the first `>` that follows the opening text |
| `Ingestion.SubKeepsPrefix` | app.py:76-79 | where no match starts (or only a single space is matched), the substitution copies the text unchanged |
| `Ingestion.SubAtMatch` | app.py:76-79 | a match becomes one space and the scan resumes right after it |
| `Ingestion.BlockAt` | app.py:76-77 | a block from its opening text through the first closing tag after the first `>` becomes one space |
| `Ingestion.BlockDropped` | app.py:76-77 | with no `<` before it, the text before a block is kept and the whole block, contents included, becomes one space; the pass resumes after its closing tag |
| `Ingestion.ScriptBlockDropped` | app.py:76 | the first pass replaces a `<script ...>...</script>` block, contents included, by one space |
| `Ingestion.StyleBlockDropped` | app.py:77 | the second pass replaces a `<style ...>...</style>` block, contents included, by one space |
| `Ingestion.BlockNoMatch` | app.py:76-77 | there is no block match without the opening text, a `>` after it, or a closing tag after that |
| `Ingestion.TagMatchIff` | app.py:78 | the tag pattern fails exactly where `NoTagAt` holds, and a match runs from `<` to the first `>` |
| `Ingestion.SubLacks` | app.py:76-79 | a character other than the space that the input lacks is not in the output |
| `Ingestion.TagSubIsTagFree` | app.py:78 | after the tag substitution no tag is left |
| `Ingestion.SpacesSubCollapses` | app.py:79 | after the whitespace substitution every whitespace character is a single space |
| `Ingestion.SpacesSubKeepsTagFree` | app.py:79 | the whitespace substitution creates no tag |
| `Ingestion.StripKeepsShape` | app.py:80 | stripping a text whose whitespace is already single spaces and which holds no tag keeps both properties and leaves no whitespace at either end |
| `Ingestion.HtmlToTextShape` | app.py:76-80 | the page text has no whitespace at either end, no two adjacent whitespace characters, only spaces as whitespace, and no tag |
| `Ingestion.SubIdentity` | app.py:76-79 | a substitution that finds only single spaces to replace leaves the text as it is |
| `Ingestion.TagFreeHasNoBlock` | app.py:76-77 | no script or style block starts in a tag-free text |
| `Ingestion.HtmlToTextOfClean` | app.py:73-80 | text that is trimmed, has collapsed spaces and contains no tag passes through the transform unchanged |
| `Ingestion.HtmlToTextIdempotent` | app.py:76-80 | the transform applied to its own output changes nothing |
| `Ingestion.KindOf` | app.py:63-66 | the lower-cased name (`""` when absent) ends in `.pdf` iff PDF, in `.txt` iff text |
| `Ingestion.KindIgnoresCase` | app.py:63 | the dispatch ignores the name's case |
| `Ingestion.PageTexts` | app.py:56-58 | one part per page: the page's text, or `""` for a page without text |
| `Ingestion.JoinAppend` | app.py:59 | joining two non-empty lists puts one separator between their joins |
| `Ingestion.JoinEnds` | app.py:59 | `"\n".join` of a non-empty list starts with the first part and ends with the last |
| `Ingestion.PdfText` | app.py:59 | the PDF's text is stripped |
| `Ingestion.PdfWithoutText` | app.py:53-59 | a PDF whose pages have no text yields `""` |
| `Ingestion.ExtractPdfText` | app.py:53-59 | the page loop appends each page's text, joins with line breaks and strips |
| `Ingestion.ExtractUpload` | app.py:62-68 | PDF text for `.pdf`, the stripped decoded bytes for `.txt`, `""` otherwise; always trimmed |
| `Orchestration.ResolveSettings` | app.py:25-29 | key and model stripped, with defaults when unset; the key counts iff non-empty and not the placeholder |
| `Orchestration.UnsetKeyMeansHeuristic` | app.py:21-28 | an unset key, or the placeholder padded with whitespace, leaves no key |
| `Orchestration.FetchJobText` | app.py:71-80 | a failed request raises its error; a body is turned into plain text |
| `Orchestration.FetchUrl` | app.py:497-498 | a fetch is made iff the stripped pasted job text is empty and the stripped address is not, from the stripped address |
| `Orchestration.CvPayload` | app.py:488-495 | an upload's non-empty text wins over the pasted CV, which is stripped |
| `Orchestration.JobPayload` | app.py:497-502 | the stripped pasted text unless a fetch was made, then what the fetch gave |
| `Orchestration.ReportOrder` | app.py:486-507 | at most one error of each kind, in the order upload, fetch, missing CV, missing job |
| `Orchestration.ReportCauses` | app.py:486-507 | an upload error iff reading raised, a fetch error iff fetching raised, missing CV iff the CV text is empty, missing job (last) iff the job text is empty |
| `Orchestration.ReportEmpty` | app.py:486-509 | no error is reported exactly when neither attempt raised and both chosen texts are non-empty |
| `Orchestration.TextOf` | app.py:488-491 | the upload yields text only when reading it succeeded; a failed or absent upload yields `""` |
| `Orchestration.Select` | app.py:486-507 | the job is fetched exactly when the stripped pasted job text is empty and the stripped address is not; with no error both chosen texts are non-empty |
| `Orchestration.ReadCv` | app.py:488-495 | the step-by-step CV branch gives the chosen CV text and the upload error |
| `Orchestration.ReadJob` | app.py:497-502 | the step-by-step job branch fetches only under the rule, and gives the chosen job text and the fetch error |
| `Orchestration.ReportMissing` | app.py:504-507 | the two emptiness checks append missing CV, then missing job |
| `Orchestration.SelectInputs` | app.py:486-507 | the step-by-step block computes the same errors, texts and fetch as the selection function |
| `Orchestration.Score` | app.py:516-523 | when `use_gemini and api_key` holds, the language model's outcome (its analysis, or its error); otherwise the heuristic's analysis; never a rejection; a result is well-formed |
| `Orchestration.Analyze` | app.py:509-523 | rejected iff there are errors, with those errors; otherwise scores the two texts cut by `trim_text` |
| `Orchestration.ScoredOnlyWithoutErrors` | app.py:509-514 | whenever a scorer runs, neither attempt raised and both chosen texts are non-empty |
| `Orchestration.NothingGiven` | app.py:504-511 | blank inputs and no upload give exactly `[missing CV, missing job]` and no scoring |
| `Orchestration.FetchFailureStops` | app.py:497-511 | a failed fetch is reported, the job is reported missing last, and nothing is scored |
| `Orchestration.UploadOverridesPaste` | app.py:494-495 | with an upload that has text, the pasted CV does not matter |
| `Orchestration.PasteOverridesUrl` | app.py:497-498 | with pasted job text, neither the address nor the fetch matters |

## Left out

- Streamlit rendering, the CSS, the session-state toggle, the spinner and
  the colour thresholds of the result (app.py lines 154-585 apart from the
  click handler). They only present things.
- The HTTP request with its `User-Agent` header, 10-second timeout and
  status check (app.py lines 72-74). This is network I/O. It is the `get`
  parameter, which gives the response body or the exception's text.
- `PdfReader` page extraction (app.py lines 54 and 57). This is a foreign
  library. The model takes each page's `extract_text()` result as given.
- UTF-8 decoding with `errors="ignore"` (app.py line 67). This is a foreign
  library. The decoded text is a parameter.
- The Gemini SDK calls (app.py lines 134-139). This is an external
  service. The model keeps only the `genai is None` check (`sdkInstalled`)
  and takes the reply text as the `respond` parameter.
- `build_prompt` (app.py lines 109-119). It is plain string concatenation.
- The internals of `json.loads` (the `decode` parameter). The decoded
  object arrives with `int()` and `str()` already applied to its fields
  (app.py lines 141, 146-147): the score is an integer and the entries and
  summary are strings. An `int()` or `str()` that raises is not modelled.
- The score computed through floating point. The model uses exact integer
  round-half-even, which gives the same value for every quotient that can
  arise (see `Heuristic.RoundHalfEven`).
- `os.getenv` and `load_dotenv` (app.py lines 26-27 and 151-152). These
  are the environment. The two variables are parameters of
  `ResolveSettings`.
- Unicode case folding and Unicode whitespace. The model covers ASCII
  only.
- Exceptions escaping a scorer other than those of `gemini_analysis` that
  the model names (`LlmError`). The catch-all at app.py line 524 is
  modelled only for those.
