# VERTEX chat page — a Dafny model of its logic

VERTEX is a single Streamlit page (`app.py`) that takes a prompt and an optional uploaded
file, extracts text from the file, sends an augmented prompt to a completion service and
shows the conversation. This project models the three pieces of logic in that page:

- **Enter-to-send trigger** (`app.py:128-132`): a send fires only for a non-empty prompt that
  differs from the last one recorded, and the prompt is then recorded.
- **File-text extraction** (`extract_text_from_file`, `app.py:138-160`): dispatch on the
  lower-cased file-name suffix, the PDF page loop, and the error text that replaces any
  reader failure.
- **Chat submit** (`envoyer_message`, `app.py:234-271`): the blank-prompt guard, the outbound
  prompt (formatting instruction, raw prompt, file excerpt of at most 30,000 characters), the
  user turn, and the assistant turn (stripped answer, "no answer" notice, or API error text).

Files:

- `wrappers.dfy` (module `Wrappers`): `Option` and `Result`. A `Result` is the outcome of a
  foreign call: its value, or the text of the exception it raised.
- `text.dfy` (module `Text`): Python's `strip`, `lower` and `endswith`, as far as the page uses them.
- `extraction.dfy` (module `Extraction`): the extractor. Each foreign reader's output on a
  file is a field of an `Upload` value. `ConcatPages` is the PDF loop, and
  `ExtractTextFromFile` is the whole function.
- `chat.dfy` (module `Chat`): turns, prompt assembly and answer selection. The class
  `Session` holds the page's session state: `history`, `lastPrompt` and `triggerSend`.
  `UpdateTrigger`, `Submit` and `Run` are methods on it. The lemmas about a whole sequence of
  requests (`Transcript`) and of page runs (`Sends`) are also here.

Behaviour of `app.py` that the model keeps exactly:

- The extraction error text is `"[Erreur lors de la lecture du fichier: " + cause + "]"`.
- Each PDF page that has text is followed by a newline, so the text of a PDF with any page
  text ends with one.
- The completion call receives only `final_prompt`: the instruction, the prompt and the file
  excerpt. The turn history is never sent.
- A blank prompt with an uploaded file is accepted. The user turn is the blank prompt as
  typed, and the file section is included only when the extracted text is non-empty.
- `envoyer_message` returns nothing. `Submit` returns the prompt it would send (`None` when
  the guard refuses), so that "no call is made" can be stated.

## Model

| member | source | states |
|---|---|---|
| Text.TrimStart | app.py:235 | the result is a suffix of the input, everything cut is whitespace, and it does not start with whitespace |
| Text.TrimEnd | app.py:235 | the result is a prefix of the input, everything cut is whitespace, and it does not end with whitespace |
| Text.Strip | app.py:235 | `strip()` is empty exactly when the string is whitespace only, and otherwise neither starts nor ends with whitespace |
| Text.StripIsInfix | app.py:265 | what `strip()` keeps is a contiguous piece of the input, and only whitespace lies before and after it |
| Text.IsSpace | app.py:235 | the characters `strip()` removes: exactly those for which Python's `str.isspace()` holds |
| Text.IsBlank | app.py:235 | `not prompt.strip()`: the stripped prompt is empty |
| Text.StripOfStripped | app.py:265 | a string that neither starts nor ends with whitespace is left unchanged by `strip()` |
| Text.Lower | app.py:141 | `lower()` keeps the length, maps every upper-case ASCII letter to the lower-case letter at the same place in the alphabet, and changes no other character |
| Text.LowerKeepsLowerCase | app.py:141 | a string with no upper-case ASCII letter is its own lower-case form |
| Text.EndsWith | app.py:142-150 | `endswith(suffix)`: the suffix fits and the last characters of the string are the suffix |
| Extraction.Classify | app.py:141-157 | the branch taken on a file name: the first of `.txt`, `.csv`, `.xlsx` or `.xls`, `.pdf` that the lower-cased name ends with, otherwise the fallback decode (characterised by `ClassifyBySuffix`) |
| Extraction.SuffixesExclusive | app.py:142-150 | no file name carries the suffixes of two different branches |
| Extraction.ClassifyBySuffix | app.py:141-157 | the first-match dispatch picks the one branch whose suffix the lower-cased name carries, and falls back exactly when the name carries none of `.txt`, `.csv`, `.xlsx`, `.xls`, `.pdf` |
| Extraction.ClassifyIgnoresCase | app.py:141 | a name and its lower-case form are dispatched the same way |
| Extraction.ErrorText | app.py:158-159 | the error text starts with the fixed French prefix, ends with `]`, and has room for exactly the cause |
| Extraction.ErrorCauseRoundTrip | app.py:159 | the cause can be read back from the error text, verbatim |
| Extraction.PageText | app.py:153-155 | what one page adds: its text followed by a newline when `page_text` is truthy, otherwise nothing |
| Extraction.Joined | app.py:151-155 | the text accumulated by the page loop over a document, page by page in order (characterised by `JoinedIsLines`) |
| Extraction.NonEmptyTexts | app.py:153-154 | the kept page texts are all non-empty |
| Extraction.ConcatPages | app.py:151-155 | the page loop accumulates exactly the PDF text `Joined(pages)` |
| Extraction.JoinedIsLines | app.py:151-155 | the PDF text is, in document order, the text of every page that has any, each followed by a newline |
| Extraction.JoinedAppend | app.py:152-155 | the text of a document is the text of its first part followed by the text of the rest |
| Extraction.EmptyPageIgnored | app.py:153-155 | a page with no text (`None` or empty), wherever it stands, changes nothing |
| Extraction.TableText | app.py:144-159 | the `.csv` and `.xlsx`/`.xls` branches: the table reader's rendering, or the error text carrying the cause when that reader raises |
| Extraction.ExtractText | app.py:138-160 | `extract_text_from_file` as a function of the name and the readers' outputs: the decode for `.txt` and unknown suffixes, the table rendering for `.csv` and `.xlsx`/`.xls`, the page text for `.pdf`, and the error text when that reader raises (characterised by `ExtractFailureIsText`) |
| Extraction.ExtractFailureIsText | app.py:138-160 | when the selected reader raises, the result is the error text carrying its cause, and nothing propagates; otherwise the result is that reader's output (the table rendering, the PDF lines, or the lossy decode) |
| Extraction.UnreadablePdfScenario | app.py:150-159 | a `.pdf` whose reader raises yields the error text |
| Extraction.ExtractTextFromFile | app.py:138-160 | the imperative extractor, PDF loop included, returns `ExtractText(u)` |
| Chat.Excerpt | app.py:246 | the excerpt is a prefix of the extracted text, of length min(length, 30000) |
| Chat.FileSection | app.py:245-247 | the file section of the prompt is empty exactly when the extracted text is empty |
| Chat.FinalPrompt | app.py:244-256 | `final_prompt`: the instruction, then the prompt, then the file section (laid out by `FinalPromptLayout`) |
| Chat.FinalPromptLayout | app.py:244-256 | the outbound prompt is the instruction, then the prompt unchanged, then either nothing (empty file text) or the file header and a prefix of the file text of at most 30,000 characters |
| Chat.AssemblePrompt | app.py:244-256 | the step-by-step assembly of `final_prompt` yields `FinalPrompt(prompt, fileText)` |
| Chat.AssistantContent | app.py:265-271 | the assistant turn is never empty |
| Chat.AssistantContentCases | app.py:265-269 | a real answer is shown stripped: a piece of the answer that neither starts nor ends with whitespace, with only whitespace before and after it in the answer; an answer made only of whitespace becomes the "no answer" notice; a failure becomes the API error prefix followed by the cause, verbatim |
| Chat.ReadAnswer | app.py:260-269 | the step-by-step choice of `ai_answer` yields `AssistantContent(reply)` |
| Chat.Accepted | app.py:235-237 | the guard: a request goes through unless its prompt is blank and no file is uploaded |
| Chat.Exchange | app.py:258-271 | the turns one request appends: the raw prompt as a user turn then the assistant turn when the guard lets it through, nothing otherwise |
| Chat.FileText | app.py:240-242 | `file_text`: the text extracted from the uploaded file, or the empty string when no file is uploaded |
| Chat.Outbound | app.py:244-264 | what one request sends to the service: `final_prompt` when the guard lets it through, nothing otherwise |
| Chat.SingleTranscript | app.py:258-271 | a single request from an empty history leaves exactly its own exchange |
| Chat.WellFormedAlternates | app.py:258-271 | in a well-formed history, roles alternate user, assistant, starting with the user; the length is even; every assistant turn has content |
| Chat.ExchangeKeepsWellFormed | app.py:234-271 | one submission, refused or not, keeps the history well formed |
| Chat.TranscriptWellFormed | app.py:234-271 | after any sequence of submissions from an empty history, the history is well formed and holds two turns per accepted request |
| Chat.ExchangeUserContents | app.py:258 | an accepted submission adds one user turn whose content is the raw prompt; a refused one adds none |
| Chat.TranscriptShowsPrompts | app.py:258 | the user turns of the history are the accepted prompts as typed, in order, never the augmented prompt |
| Chat.QuestionAnsweredScenario | app.py:234-271 | a non-blank question with no file, answered with text that has no surrounding whitespace, leaves exactly that question and that answer in the history |
| Chat.BlankPromptUnreadablePdfScenario | app.py:235-271 | an empty prompt with an unreadable PDF is still submitted: it adds an empty user turn and an assistant turn, and the file text sent is the extraction error text |
| Chat.Fires | app.py:128 | the Enter-to-send test: the prompt is non-empty and differs from the last one recorded |
| Chat.Recorded | app.py:128-130 | the recorded prompt after the test: the new prompt when the test fires, the old record otherwise |
| Chat.SamePromptSendsOnce | app.py:128-132 | re-running the page any number of times with the same prompt triggers at most one send, and exactly one when the prompt is non-empty and new |
| Chat.Session.constructor | app.py:124-125 | a new session has an empty history and no recorded prompt |
| Chat.Session.UpdateTrigger | app.py:128-132 | `trigger_send` is set exactly when the prompt is non-empty and differs from the recorded one; the prompt is recorded in that case and only then; the history is untouched |
| Chat.Session.Submit | app.py:234-271 | a blank prompt without a file leaves the history unchanged and sends nothing; otherwise the history gains the raw user turn then the assistant turn, the earlier turns are unchanged, the assembled prompt is sent, and the history stays well formed |
| Chat.Session.Run | app.py:128-276 | one page run updates the trigger; when the button was pressed or the trigger fired it submits, appending the exchange and sending `final_prompt` if the guard lets the request through; otherwise it changes no history and sends nothing |

## Left out

- Page configuration, MathJax scripts, favicon and manifest links, CSS, the header and logo
  (`app.py:12-59`, `app.py:81-107`): these are presentation only.
- `render_message` (`app.py:168-228`) only wraps content in HTML and changes no text.
- Loading the API key from secrets, `.env` or the environment (`app.py:64-76`): this is
  configuration I/O.
- The completion call (`app.py:261-264`) is not modelled. Its outcome is the `reply`
  parameter, either `Ok(output_text)` or `Err(cause)`.
- The file readers are foreign code. `pd.read_csv`/`pd.read_excel` with `to_string`,
  pdfplumber's page extraction, and `read().decode(errors="ignore")` are not modelled. Their
  outputs are fields of `Upload`, and the lossy decode is a plain string because it cannot
  fail.
- Extraction.Upload: a failure to open the PDF and a failure on one of its pages are one
  `Err(cause)`. In both cases the partial text is discarded and the error text replaces it,
  so the output is the same.
- Text.Lower: only ASCII letters are folded. No other character lower-cases to one of the
  letters in `.txt`, `.csv`, `.xlsx`, `.xls` or `.pdf`, so the dispatch is unaffected.
  Lower-cased non-ASCII characters are not modelled.
- Text.IsSpace is the fixed list of characters for which Python's `str.isspace()` is true. It
  is written out, not derived from the Unicode database.
- The cause of an exception is a string. How Python formats an exception with `str(e)` is
  not modelled, and neither are exceptions outside `Exception`.
- These parts of the widget plumbing are not modelled: `st.text_input`, `st.file_uploader`
  (its type filter does not affect the dispatch), `st.button`, `st.spinner`, and the
  `st.warning` text shown when the guard refuses. Whether the button was pressed is the
  `pressed` parameter of `Run`.
- The page re-runs the whole script on every interaction, and that re-run is not
  modelled. `Run` models one run, and `Sends` models the trigger over a
  sequence of runs.
