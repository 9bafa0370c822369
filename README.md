# Grammar-checking backend, modelled in Dafny

The `nlp-backend` service is a thin FastAPI proxy in front of a hosted chat-completion API (Groq).
Three pieces of its logic are modelled here and proved correct.

1. **Sentence analysis** (`services/grammar_checker.py`). The system prompt asks the model to answer in three
   lines: `**Corrected sentence:** …`, `**Grammar score:** …` and `**Explanation:** …`. The reply
   is then searched three times with `re.search(marker + r"\s*(.+)", …)`. The explanation search
   uses `re.DOTALL`. Each match's group 1, stripped, becomes a field. A missing marker gives `""`.
   - `GrammarChecker.SearchFrom` models the regular-expression engine itself: the leftmost start,
     then the longest `\s*`, then the longest `.+`.
   - Its contract is a declarative description of the same match (`SearchResult`, `MatchSpan`),
     so the engine is checked against an independent definition.
   - Whitespace is Python's `str.isspace` set, which `\s` on `str` and `str.strip` share (`Text.IsSpace`).
2. **Reading a completion reply.** The three `correct_with_groq` helpers (`main.py`, `abc.py`,
   `utils.py`) and the chat endpoint each decide differently what to make of a reply:
   - `Groq.Body` holds the `choices` and `error` keys;
   - `Groq.Upstream` is either a response or an `httpx.RequestError`;
   - `utils.py` cleans the answer: strip, delete every `"Here is the corrected text:"`, strip again,
     keep the first line.
3. **Document correction** (`upload_document` in `main.py`, `abc.py` and `document_uploader.py`).
   - The handler dispatches on the file name's suffix: `.docx` first, then `.txt`.
   - A Word document is an `array<string>` of paragraph texts. `Pipeline.CorrectParagraphs`
     overwrites the paragraphs in place, in order, each with the correction of its stripped text.
   - A ghost trace `sent` records what the corrector received, so call count and order can be stated.
   - The three handlers share that loop. They differ in what a failing correction does:
     - `main.py`'s helper writes the error text into the paragraph but lets a request failure escape the handler;
     - `abc.py`'s helper never raises;
     - `document_uploader.py` turns every exception into a 500. This includes its own 400 for
       an unsupported format, which is raised inside the `try`.

The completion API is a parameter `Service = (nat, string) -> Upstream`: the reply to the `k`-th call a
handler makes, given the user message. A corrector is that service composed with one of the
decisions above.

Behaviour the model keeps as the code has it:
- In `main.py`, a request failure during an upload is not caught at the route boundary.
  `MainApp.UploadDocument` reports it as `Unhandled`.
- In `main.py` and `abc.py`, an upstream error is not a failure. It is returned as text
  (`"[Error] Groq API: …"`), and that text replaces the paragraph.
- `document_uploader.py` answers an unsupported format with status 500 and the detail
  `"400: Unsupported file format. …"`, not with a 400.
- `utils.py` strips the first choice, then deletes the preamble and keeps only the first line.

## Model

| member | source | states |
|---|---|---|
| Text.Strip | nlp-backend/utils.py:24 | `str.strip()`: the result has no whitespace at either end and is no longer than the input |
| Text.StripParts | nlp-backend/utils.py:24 | what `strip()` keeps is one contiguous piece of the input, with only whitespace before and after it |
| Text.StripSurrounded | nlp-backend/utils.py:28 | whitespace + text with no whitespace at either end + whitespace strips to exactly that text |
| Text.StripLeadingSpace | nlp-backend/services/grammar_checker.py:51-53 | leading whitespace never changes what `strip()` returns |
| Text.StripAllSpace | nlp-backend/services/grammar_checker.py:51-53 | a blank text strips to `""` |
| Text.StripKeepsOut | nlp-backend/services/grammar_checker.py:51-52 | `strip()` cannot introduce a character (in particular a newline) |
| Text.StripIdempotent | nlp-backend/utils.py:28 | stripping an already stripped text changes nothing |
| Text.FindFrom | nlp-backend/services/grammar_checker.py:46-48 | the first occurrence at or after a position: it is an occurrence and none comes earlier |
| Text.LineEnd | nlp-backend/utils.py:31 | the first newline at or after a position, or the end of the text |
| Text.LineEndAt | nlp-backend/utils.py:31 | a line ends at the first newline after its start, whatever follows it |
| Text.SpaceEnd | nlp-backend/services/grammar_checker.py:46-48 | the run of whitespace from a position, and the first character after it is not whitespace |
| Text.SpaceEndStops | nlp-backend/services/grammar_checker.py:46-48 | the whitespace run stops at or before any non-whitespace character |
| Text.FirstLine | nlp-backend/utils.py:31 | `split("\n")[0]`: a prefix without a newline, followed by a newline or the end |
| Text.FirstLineBeforeNewline | nlp-backend/utils.py:31 | the first line of `a + "\n" + b` is `a` when `a` has no newline |
| Text.FirstLineOfStripped | nlp-backend/utils.py:28-31 | the first line of a stripped text does not start with whitespace |
| Text.ReplaceAbsent | nlp-backend/utils.py:28 | `replace` leaves text without the pattern unchanged |
| Text.ReplaceFirst | nlp-backend/utils.py:28 | `replace` keeps the text before the first occurrence, substitutes that occurrence and carries on after it |
| Text.Replace | nlp-backend/utils.py:28 | `str.replace`: an equally long replacement keeps the length, and replacing a pattern by itself changes nothing |
| Text.EndsWith | nlp-backend/main.py:103 | `str.endswith`: true exactly when the text is some text followed by the suffix |
| Groq.ErrorMessage | nlp-backend/main.py:158 | `error.message` when the body carries one, otherwise `"Unexpected response"` |
| Groq.HasChoice | nlp-backend/main.py:155 | `"choices" in data and len(data["choices"]) > 0`: the list is present and not empty; the handlers' contracts state what each branch does |
| Groq.FirstChoice | nlp-backend/main.py:156 | `data["choices"][0]["message"]["content"]`, defined only when there is a choice; its use is stated by the handlers' contracts |
| Groq.CorrectionPrompt | nlp-backend/utils.py:11 | the user message starts with "Correct the grammar of this text: " and ends with the text, and is exactly as long as the two (the same message at main.py:146 and abc.py:65) |
| Groq.TextOfPrompt | nlp-backend/utils.py:11 | a user message has a text exactly when it starts with the instruction, and re-prompting that text gives the message back |
| Groq.PromptRoundTrip | nlp-backend/utils.py:11 | the text a correction is about is read back unchanged from the message sent |
| GrammarChecker.DotEnd | nlp-backend/services/grammar_checker.py:46-48 | greedy `.+`: every character of the run is accepted by `.` (a newline only under `re.DOTALL`) and the next is not |
| GrammarChecker.Backtrack | nlp-backend/services/grammar_checker.py:46-48 | `\s*` giving back characters: the largest position at which `.` can match, if any |
| GrammarChecker.MatchAt | nlp-backend/services/grammar_checker.py:46-48 | at an occurrence of the marker, the engine's match is a match with the longest `\s*` and then the longest `.+`, or there is no match |
| GrammarChecker.SearchFrom | nlp-backend/services/grammar_checker.py:46-48 | `re.search`: the leftmost match, greedy in both parts; no result exactly when no match starts anywhere |
| GrammarChecker.NoMatchThrough | nlp-backend/services/grammar_checker.py:46-48 | when the first occurrence fails to match, no match starts up to it |
| GrammarChecker.Field | nlp-backend/services/grammar_checker.py:51-53 | a field is stripped, has no newline unless it is the `DOTALL` one, and is `""` when the marker is missing |
| GrammarChecker.Parse | nlp-backend/services/grammar_checker.py:46-54 | missing markers give `""` without raising; `corrected` and `score` are single-line; all three fields are stripped |
| GrammarChecker.FirstMarkerDecides | nlp-backend/services/grammar_checker.py:46-53 | a field is fixed by its marker's first occurrence: `""` if only whitespace follows, else the stripped text from the first non-whitespace character to the end of that line (of the message under `DOTALL`) |
| GrammarChecker.DotAllFieldIsRest | nlp-backend/services/grammar_checker.py:48-53 | under `DOTALL` the field is the stripped rest of the message after the first marker |
| GrammarChecker.ExplanationIsRest | nlp-backend/services/grammar_checker.py:48-53 | `explanation` is the stripped suffix after the first `**Explanation:**`, newlines and later sections included |
| GrammarChecker.LineFieldIsLine | nlp-backend/services/grammar_checker.py:46-52 | a single-line field is the stripped line after the marker's first occurrence, whatever surrounds that line |
| GrammarChecker.LineAfterSpace | nlp-backend/services/grammar_checker.py:46-52 | on a non-blank line, `\s*` stops inside the line, `.+` runs to its end, and stripping the group gives the stripped line |
| GrammarChecker.NoneBeforeNewline | nlp-backend/services/grammar_checker.py:29-32 | a newline-free marker missing from a line does not start in it, even across the newline |
| GrammarChecker.NoneAcrossNewline | nlp-backend/services/grammar_checker.py:29-32 | two lines without a newline-free marker do not carry it when joined by a newline |
| GrammarChecker.NoneAfterHeader | nlp-backend/services/grammar_checker.py:29-32 | a `**`-marker cannot start inside a section header that ends in a space |
| GrammarChecker.Section | nlp-backend/services/grammar_checker.py:30-32 | one line of the requested format: the marker, a space, the value; read back by `FirstLineField`, `SecondLineField` and `ThirdSection` |
| GrammarChecker.Render | nlp-backend/services/grammar_checker.py:29-32 | a reply in the requested format: the three sections, in order, one per line; `ParseRender` reads it back |
| GrammarChecker.RenderCorrected | nlp-backend/services/grammar_checker.py:30-51 | in a reply in the requested format, `corrected` is the stripped first value |
| GrammarChecker.RenderScore | nlp-backend/services/grammar_checker.py:31-52 | in a reply in the requested format, `score` is the stripped second value |
| GrammarChecker.RenderExplanation | nlp-backend/services/grammar_checker.py:32-53 | in a reply in the requested format, `explanation` is the stripped third value |
| GrammarChecker.ParseRender | nlp-backend/services/grammar_checker.py:29-54 | round trip: parsing a reply in the requested format gives back its three values, stripped |
| GrammarChecker.SectionOrderFree | nlp-backend/services/grammar_checker.py:46-48 | each field is searched for over the whole reply, so swapping the corrected and score lines changes nothing |
| GrammarChecker.Analyze | nlp-backend/services/grammar_checker.py:39-54 | a result only for a 2xx response with a choice, and then the parse of its first content; request failure, error status, missing `choices` and an empty list each raise |
| Utils.CleanCorrection | nlp-backend/utils.py:24-31 | the result is the prefix of `strip(strip(content).replace(preamble, ""))` up to its first newline: it has no newline and no leading whitespace |
| Utils.Correct | nlp-backend/utils.py:18-39 | a result exactly for a response with a choice, and then the cleaned first content; otherwise it raises "Unexpected response from Groq API" or `"[Request Error] " + detail` |
| Utils.PreambleDeletedAnywhere | nlp-backend/utils.py:28 | a preamble anywhere is deleted: the text before it is kept and the rest is cleaned the same way |
| Utils.CleanCorrectionExample | nlp-backend/utils.py:24-31 | `"Here is the corrected text:\nShe goes to school.\nExplanation: ..."` is cleaned to `"She goes to school."` |
| Pipeline.FormatOf | nlp-backend/main.py:103-133 | `.docx` is tested first, then `.txt`; anything else is unsupported (each case as an if-and-only-if) |
| Pipeline.Correction | nlp-backend/main.py:107 | the `i`-th call of the helper, on paragraph `i` stripped; `FirstFailure` and `DocumentResult` state what the loop makes of it |
| Pipeline.TextCorrection | nlp-backend/main.py:120-122 | the `.txt` branch: one call, the first, on the whole decoded text, unstripped; the handlers' contracts state the response built from it |
| Pipeline.FirstFailure | nlp-backend/document_uploader.py:13-15 | the first paragraph whose correction raises: all before it return, it raises, or it is the paragraph count |
| Pipeline.FirstFailureIs | nlp-backend/document_uploader.py:13-15 | the first failure is the unique index with successes before it and a failure (or the end) at it |
| Pipeline.Sent | nlp-backend/main.py:106-107 | the corrector receives the stripped paragraphs in document order, one call each, up to and including the first that raises |
| Pipeline.CorrectParagraphs | nlp-backend/main.py:106-108 | the in-place loop: paragraphs before the first failure hold their corrections, the rest are untouched, the count is kept, the failure's message is reported, and the calls made are `Sent` |
| Pipeline.CorrectedAll | nlp-backend/main.py:106-108 | with no failure, paragraph `i` becomes the correction of stripped paragraph `i`, and the count is unchanged |
| Pipeline.CompletedDocument | nlp-backend/main.py:106-108 | a loop that ends without failure has corrected every paragraph |
| Pipeline.DocumentResult | nlp-backend/document_uploader.py:12-15 | the document comes back exactly when every correction returns, with paragraph `i` the correction of stripped paragraph `i`; otherwise the first failure's message |
| Pipeline.CorrectDocument | nlp-backend/main.py:104-108 | the loop run on a fresh document yields `DocumentResult`, and the corrector receives `Sent` |
| MainApp.Correct | nlp-backend/main.py:151-158 | the stripped first content when there is a choice, `"[Error] Groq API: "` + error message otherwise; only a request failure raises |
| MainApp.GroqCorrector | nlp-backend/main.py:136-158 | the helper as the upload handler calls it: call `k` sends the prompt for the text to the service and returns `MainApp.Correct` of the answer; `ErrorTextIsWrittenIn` states its error case |
| MainApp.ErrorTextIsWrittenIn | nlp-backend/main.py:106-108 | an upstream error is a successful correction whose text replaces the paragraph |
| MainApp.ChatReply | nlp-backend/main.py:86-96 | the first content, unstripped, when `choices` is present; a 500 with "Invalid response from Groq API" when it is missing, with the `IndexError` text when it is empty, with the request failure's text otherwise |
| MainApp.UploadDocument | nlp-backend/main.py:99-133 | unsupported: 400 "Unsupported file format." and no call; `.txt`: one call on the unstripped text; `.docx`: the corrected document, or the escaping request failure |
| AbcApp.Correct | nlp-backend/abc.py:71-82 | the stripped first content, or `"[Error] Groq API: "` + error message, or `"[Request Error] "` + detail; never raises |
| AbcApp.GroqCorrector | nlp-backend/abc.py:55-82 | the helper as the upload handler calls it: it never raises, which `CorrectionsReturn` states for every paragraph |
| AbcApp.CorrectionsReturn | nlp-backend/abc.py:93-95 | every paragraph's correction returns, whatever the service does |
| AbcApp.UploadDocument | nlp-backend/abc.py:86-116 | unsupported: 400 and no call; `.txt`: one call; `.docx`: always the whole document, with paragraph `i` replaced by the correction of stripped paragraph `i`, one call per paragraph in order |
| DocumentUploader.GroqCorrector | nlp-backend/document_uploader.py:14 | the shared helper of `utils.py` as this handler calls it: call `k` sends the prompt for the text and returns `Utils.Correct` of the answer |
| DocumentUploader.UploadDocument | nlp-backend/document_uploader.py:7-39 | unsupported: 500 with `"400: Unsupported …"` and no call; `.txt`: one call, a raise becomes 500; `.docx`: the document only if every correction returned, else 500 with the first exception's text |

## Left out

- The network layer is a parameter: `httpx` clients, headers, timeouts and the API key. The service is assumed to answer the `k`-th call deterministically.
- `response.json()` on a body that is not JSON is left out. So are a `content` that is not a string, and an `error` value that is not an object.
- JSON `null` values are left out. `"choices": null` makes `len(...)` raise a `TypeError` in the helpers, and gives a 500 with "'NoneType' object is not subscriptable" in chat. `"error": {"message": null}` gives `"[Error] Groq API: None"`.
- `raise_for_status` is modelled only as "a status outside 2xx raises". The text of the exception it raises is left out.
- Loading and saving with `python-docx` is left out. A document is its list of paragraph texts, so styles, runs and a document that fails to load are not modelled.
- UTF-8 decoding and encoding are identity on strings. A decoding error is not modelled.
- FastAPI routing, CORS, pydantic schemas, environment loading, `print` calls and the `temperature` values are left out.
- The chat endpoint's prompt template (`main.py:70-74`) is left out. Only the decision on the reply is modelled.
- `get_random_words`, the word pool, `main_chat.py`, `models/sentence.py` and `sentence_analyzer.py` are not part of this model.
- `utils.py` uses `httpx` and `GROQ_API_KEY` without importing them. Only its string and reply logic is modelled, not the resulting `NameError`.
- Async execution is treated as sequential, which is what the code's `await` sequence gives.
- GrammarChecker.SectionOrderFree: only the corrected and score lines may trade places. An explanation placed before another section swallows it, as GrammarChecker.ExplanationIsRest states.
