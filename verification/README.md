# Document translator and chatbot helpers, modelled in Dafny

The repository holds small Streamlit applications built around an
OpenAI-compatible LLM endpoint. This project models their non-interactive core.

- **The document translator (`translate/`).** A batch loop takes the selected
  PDF documents from an S3 bucket. It downloads each one and extracts its
  markdown. Then, for each selected language, it translates the markdown,
  renders it back to PDF and uploads it under a language-suffixed key. It keeps
  a task counter, per-document success and failure tallies, the list of
  converted files, and the values reported to the progress bar. Around the loop
  sit the pieces modelled here:
  - the endpoint clean-up;
  - the `LANGUAGES` setting;
  - the convert button's state;
  - the markdown heading normalisation applied before rendering;
  - the derivation of output keys (`os.path.splitext` plus a suffix);
  - the model list.
- **The chatbot (`chatbot/`).** It expands `{{context:<name>.txt}}` tags in a
  system message into the contents of the named files, as `re.sub` with a lazy
  pattern does. It also builds the table of expanded system messages and uses
  the same model list.
- **The flight assistant (`flight_info/`).** It has a streaming callback
  handler that shows the agent's answer only once `Final Answer:` has appeared,
  and a tool that parses a `DEP,ARR` query and lists the reported flights.

The modules are:
- `Wrappers`: `Option` and `Result`.
- `Text`: the Python `str` operations the code relies on.
- `OutputKeys`, `Headings`, `ModelList`, `TranslateApp` and `Batch`: the translator.
- `ContextTags`: the chatbot's tag expansion.
- `StreamHandler` and `FlightInfo`: the flight assistant.

Each effectful call becomes one of two things:
- a parameter: the HTTP `get` of the model list, the flights reported, the formatted date;
- a recorded outcome: how far each document and each (document, language) task got.

The file system the chatbot reads is a map from file name to contents.

The batch loop tallies `successful_conversions` and `failed_conversions` per
document, not per (document, language) task. A document whose markdown was
extracted counts as one success even if every translation of it then fails.
Per-task outcomes still show in the
converted-file list, which `Batch.ExpectedFilesMembers` characterises exactly.

## Model

| member | source | states |
|---|---|---|
| Text.LStripSpec | translate/tools.py:299 | the left half of `strip()` removes exactly the leading whitespace: what it keeps is a suffix of the input that does not start with whitespace, and everything removed is whitespace |
| Text.RStripSpec | translate/tools.py:299 | the right half of `strip()` removes exactly the trailing whitespace |
| Text.StripSpec | translate/tools.py:292 | `strip()` leaves the input between two runs of whitespace and neither starts nor ends with whitespace |
| Text.StripIdempotent | translate/app.py:347 | stripping an already stripped string changes nothing |
| Text.LStripChar | translate/tools.py:304 | `lstrip('#')` drops exactly the leading run of `#` |
| Text.Upper | flight_info/app.py:61-62 | `upper()` keeps the length, maps each character, and leaves no lower-case ASCII letter |
| Text.Split | flight_info/app.py:60 | `split(c)` yields one more piece than there are separators and no piece holds the separator |
| Text.JoinSplit | translate/tools.py:292-320 | joining the pieces of `split('\n')` with `'\n'` gives the text back |
| Text.SplitJoin | translate/app.py:347 | splitting a join of separator-free pieces gives the pieces back |
| Text.Find | flight_info/app.py:30-32 | `find` returns the first occurrence of the pattern, or reports that none exists |
| Text.FindAppend | flight_info/app.py:27-32 | an occurrence found in a text stays the first one when more text is appended |
| Text.NatToString | flight_info/app.py:79 | `str(counter)` is a non-empty run of decimal digits with no leading zero, except for `0` itself |
| Text.DecimalRoundTrip | flight_info/app.py:79 | `str(counter)` renders decimal digits that read back as the counter |
| OutputKeys.RFind | translate/tools.py:346 | the index of the last occurrence of a character, as `posixpath.splitext` looks it up, or -1 |
| OutputKeys.SkipsToNonDot | translate/tools.py:346 | the leading-dot scan of `splitext` answers whether a non-dot occurs in the range |
| OutputKeys.SplitExt | translate/tools.py:346 | `splitext` splits the path: root followed by extension is the path |
| OutputKeys.SplitExtSpec | translate/tools.py:346 | there is an extension exactly when a dot of the final component follows a non-dot of that component; the extension starts with the last dot and holds no other dot and no `/` |
| OutputKeys.SplitExtParts | translate/tools.py:346 | `dir/stem.ext` splits into `dir/stem` and `.ext` |
| OutputKeys.SplitExtNoDot | translate/tools.py:346 | a file name without a dot has no extension |
| OutputKeys.SplitExtHiddenFile | translate/tools.py:346 | a hidden file name such as `.bashrc` has no extension |
| OutputKeys.DerivedKeyShape | translate/tools.py:342-352 | an output key keeps the original's directory and root, then `_<language>` when a language is given, then the new extension |
| OutputKeys.LanguageRecoverable | translate/tools.py:348-350 | the language can be read back from the output key |
| OutputKeys.DistinctLanguagesDistinctKeys | translate/tools.py:348-350 | two different languages never write the same key for one document |
| OutputKeys.PdfKey | translate/tools.py:342-352 | the key `upload_pdf_to_s3` writes; specified by `OutputKeys.DerivedKeyShape` and `OutputKeys.PdfKeyOf` |
| OutputKeys.MarkdownKey | translate/tools.py:369-379 | the key `upload_markdown_to_s3` writes; specified by `OutputKeys.DerivedKeyShape` |
| OutputKeys.PdfKeyOf | translate/tools.py:342-352 | the PDF key of `dir/stem.ext` for a language is `dir/stem_<language>.pdf` |
| OutputKeys.PdfKeyExampleNoLanguage | translate/tools.py:351-352 | without a language, `notes` becomes `notes.pdf` |
| Headings.FirstHeading | translate/tools.py:298-306 | the index of the first line whose trimmed form starts with `#`, with no heading before it; or none, when no line is a heading |
| Headings.ScanAfterHeading | translate/tools.py:298-309 | once a heading has been seen, the loop copies every further line |
| Headings.ScanSpec | translate/tools.py:295-309 | the loop rewrites exactly the first heading and reports whether one was found |
| Headings.ProcessLinesSpec | translate/tools.py:295-314 | without a heading, `# Document` and an empty line go in front of the unchanged lines; with one, only the first heading changes and the line count stays |
| Headings.Promote | translate/tools.py:302-304 | the rewrite of the first heading; specified by `Headings.PromoteSpec` and `Headings.PromoteDeeper` |
| Headings.PromoteSpec | translate/tools.py:302-304 | a heading already at level 1 is kept; any other heading becomes `# ` plus its text without the leading `#`s, trimmed at both ends; the result is still a heading |
| Headings.PromoteInnerHash | translate/tools.py:304 | only the leading run of `#` is removed: `##` (or deeper), a space and `#x` becomes `# #x` |
| Headings.PromoteDeeper | translate/tools.py:302-304 | `## title`, `### title` and deeper become `# title`, whatever the title starts with |
| Headings.Normalize | translate/tools.py:292-317 | the markdown handed to the renderer; specified by `Headings.ProcessLinesSpec` and `Headings.NormalizeLines` |
| Headings.NormalizeLines | translate/tools.py:292-317 | splitting the joined markdown at newlines gives back the processed lines, with none added or lost |
| ModelList.ModelsUrlSpec | translate/tools.py:30-34 | the models URL extends the endpoint with `/models`, reusing a trailing slash rather than adding a second one |
| ModelList.LessEqTotal | translate/tools.py:42 | any two model ids are ordered one way or the other |
| ModelList.LessEqTransitive | translate/tools.py:42 | the id order is transitive |
| ModelList.LessEqAntisymmetric | translate/tools.py:42 | ids ordered both ways are equal |
| ModelList.Insert | translate/tools.py:42 | insertion into a sorted list keeps it sorted and adds exactly the new id |
| ModelList.Sort | translate/tools.py:42 | `sort()` yields a sorted permutation of the ids |
| ModelList.SortedUnique | translate/tools.py:42 | two sorted permutations of the same ids are equal, so the result is the one `sort()` gives |
| ModelList.FetchModels | translate/tools.py:22-68 | on status 200, the sorted ids of the response; on any other status or a failed request, the empty list |
| TranslateApp.CleanEndpoint | translate/app.py:116-118 | one trailing `/chat/completions` is removed; any other endpoint is kept |
| TranslateApp.CleanItems | translate/app.py:347 | the comprehension never yields more items than it reads |
| TranslateApp.CleanItemsAppend | translate/app.py:347 | the comprehension keeps order and treats items independently |
| TranslateApp.CleanItemsMembers | translate/app.py:347 | a language is kept exactly when some item trims to it and it is non-empty; every kept language is trimmed |
| TranslateApp.ParseLanguages | translate/app.py:344-354 | the offered languages; specified by `TranslateApp.ParseLanguagesSpec` and `TranslateApp.ParseLanguagesRoundTrip` |
| TranslateApp.ParseLanguagesSpec | translate/app.py:344-354 | every offered language is non-empty and trimmed, and a set `LANGUAGES` offers exactly the trimmed non-empty items |
| TranslateApp.ParseLanguagesRoundTrip | translate/app.py:344-347 | a comma-joined list of trimmed languages without commas reads back as the list |
| TranslateApp.ConvertButton | translate/app.py:378-396 | the button is enabled exactly when documents, an output bucket and languages are chosen; the help text names the first missing choice, or the target languages |
| TranslateApp.ConvertButtonHelp | translate/app.py:382-389 | the help text asks the user to select something exactly when the button is disabled |
| Batch.LanguageStep | translate/app.py:447-527 | each language advances the counter by one and reports it, whether it fails at translation, rendering or upload; only a completed upload records a file |
| Batch.LanguagesSpec | translate/app.py:447-527 | the inner loop advances the counter by the number of languages, reports each step, leaves the tallies alone and records the completed uploads in language order |
| Batch.DocumentStepSpec | translate/app.py:413-536 | a failed download or extraction is one failure with one report of the counter advanced by the number of languages; an extracted document is one success, whatever its languages did |
| Batch.DocumentsCounter | translate/app.py:406-408 | the counter ends at documents times languages |
| Batch.DocumentsTallies | translate/app.py:409-410 | every document lands in exactly one tally, in the success tally exactly when it was extracted |
| Batch.DocumentsConverted | translate/app.py:494-501 | the converted files are the expected ones, in document-then-language order |
| Batch.DocumentStepProgress | translate/app.py:413-536 | one document keeps the progress reports monotone, bounded by the counter and ending at it; a failed document adds one report, an extracted one adds one report per language |
| Batch.DocumentsProgress | translate/app.py:413-536 | the progress invariant holds over the whole loop, the reports never shrink, and a non-empty run with languages adds at least one report |
| Batch.RunBatch | translate/app.py:398-537 | the batch loop from a fresh tally; specified by `Batch.RunBatchSpec` and `Batch.ExpectedFilesMembers` |
| Batch.RunBatchSpec | translate/app.py:398-537 | the whole batch: the counter reaches the total task count; the reports are monotone, bounded by the total and end at it; the tallies sum to the number of documents; the files are the expected ones |
| Batch.LanguageFilesMembers | translate/app.py:494-501 | a document's recorded file is one of its languages whose upload completed, and every such language is recorded |
| Batch.ExpectedFilesMembers | translate/app.py:494-501 | a recorded file belongs to an extracted document and a completed language, and every such pair is recorded |
| Batch.LanguageFilesCount | translate/app.py:494-501 | a document records one file per completed upload |
| Batch.ScenarioKeys | translate/tools.py:346-350 | `b.pdf` is uploaded as `b_French.pdf` and `b_German.pdf` |
| Batch.TwoDocumentScenario | translate/app.py:413-536 | two documents and two languages, the first failing to download: one failure, one success, four tasks reported as 2, 3, 4, and two files recorded for the second document |
| ContextTags.NameEnd | chatbot/tools.py:79 | the lazy `(.*?\.txt)\}\}` search ends its name after the position it starts from and before the closing `}}` |
| ContextTags.NameEndSpec | chatbot/tools.py:79 | the lazy search finds the shortest name that ends in `.txt`, has `}}` after it and holds no newline, or reports that none exists |
| ContextTags.MatchAt | chatbot/tools.py:79 | a match at an offset spans `{{context:`, a name of at least `.txt`, and `}}` |
| ContextTags.MatchAtSpec | chatbot/tools.py:79 | a tag matches at an offset exactly when `{{context:` starts there and a valid name end follows |
| ContextTags.ParseRoundTrip | chatbot/tools.py:79-93 | the left-to-right scan loses nothing: its pieces put back together give the text |
| ContextTags.CapturedName | chatbot/tools.py:79 | a captured name ends in `.txt`, has no newline, and closes nowhere earlier |
| ContextTags.ParseNames | chatbot/tools.py:79-93 | every tag the scan finds has such a name |
| ContextTags.ReplacementOfCaptured | chatbot/tools.py:81-90 | for a captured name the replacement is the file's contents, or the empty text for a missing file; the branch that keeps the tag is never taken |
| ContextTags.RenderIsLookup | chatbot/tools.py:81-93 | with captured names, substitution is a plain look-up of each tag |
| ContextTags.Expand | chatbot/tools.py:79-93 | the text with every tag substituted; specified by `ContextTags.ExpandIsLookup` and `ContextTags.ParseRoundTrip` |
| ContextTags.ExpandIsLookup | chatbot/tools.py:79-93 | the expanded text replaces each tag of the scan by its file's contents, or by nothing, and copies every other character |
| ContextTags.SingleTag | chatbot/tools.py:79-93 | a text that is one tag scans as that single tag and expands to the file's contents; inserted contents are not scanned again |
| ContextTags.NoTagRender | chatbot/tools.py:93 | a text without a tag is left unchanged |
| ContextTags.Step | chatbot/tools.py:93 | one step of `re.sub` moves forward and emits the substitution of what starts at the offset |
| ContextTags.ProcessText | chatbot/tools.py:73-95 | the result is the expansion of the text; the empty text and a text without a tag are returned unchanged |
| ContextTags.LoadSystemMessages | chatbot/tools.py:100-108 | the table holds one entry per message name |
| ContextTags.LastMessageWins | chatbot/tools.py:104-106 | a name maps to the expansion of the last message given under it |
| StreamHandler.OnToken | flight_info/app.py:26-38 | `on_llm_new_token`; specified by `StreamHandler.OnTokenInv` and `StreamHandler.ReplaySpec` |
| StreamHandler.OnTokenInv | flight_info/app.py:26-38 | a token keeps the handler's invariant: the answer has started exactly when the marker has arrived, the display is what follows its first occurrence, the container last rendered the current display once started, and every rendered display is a prefix of the current one; a token after the start renders the display it leaves |
| StreamHandler.OnLlmEndRenders | flight_info/app.py:40-43 | the end of a generation renders the display again once the answer has started, and changes nothing before |
| StreamHandler.RunInv | flight_info/app.py:15-55 | every sequence of callbacks keeps that invariant |
| StreamHandler.RunFullText | flight_info/app.py:27 | the full text is the tokens received, in order |
| StreamHandler.RunDebugText | flight_info/app.py:45-55 | the debug text is the agent-action and tool-output entries, in arrival order |
| StreamHandler.ReplaySpec | flight_info/app.py:18-55 | from a fresh handler, the answer starts exactly when the received tokens contain the marker, even one split across tokens; once started, the last rendering is the current display; before that nothing is displayed or rendered |
| StreamHandler.RunKeepsStarted | flight_info/app.py:31-32 | once started, the handler stays started |
| StreamHandler.RunGrows | flight_info/app.py:27-55 | the full and debug texts only grow, and renderings are only added: earlier ones stay as they were |
| StreamHandler.SplitMarkerExample | flight_info/app.py:26-38 | tokens `Final Ans` and `wer: 42` show ` 42` |
| FlightInfo.ParseQuery | flight_info/app.py:59-64 | a query is accepted exactly when it holds one comma; otherwise the fixed error text is returned |
| FlightInfo.ParseQueryAccepts | flight_info/app.py:60-62 | `a,b` yields the trimmed, upper-cased codes of `a` and `b` |
| FlightInfo.ParseQueryShape | flight_info/app.py:60-62 | every accepted query has that shape |
| FlightInfo.FlightInfo | flight_info/app.py:57-64 | a malformed query gets the error text |
| FlightInfo.Listing | flight_info/app.py:76-83 | the listing for an accepted query; specified by `FlightInfo.ListingText` and `FlightInfo.ListingLines` |
| FlightInfo.ListingText | flight_info/app.py:76-83 | for any fields, the listing is the header and then flight `i` rendered as line `i + 1` in the reported order, each followed by a newline |
| FlightInfo.ListingLines | flight_info/app.py:76-83 | when neither the header nor any shown field holds a newline, splitting the listing at newlines gives the header, one line per flight numbered from 1 in the reported order, and the empty text after the final newline |
| FlightInfo.RecordsLines | flight_info/app.py:77-81 | the record loop writes one newline-terminated line per flight, counter values increasing from the start value |
| FlightInfo.LinesFromIndexed | flight_info/app.py:77-81 | the line of the `i`-th flight carries the counter's start value plus `i` |

## Left out

- The Streamlit user interface is not modelled: widgets, session state, sidebar settings, `st.error`/`st.success`/`st.warning` messages and status texts.
- S3 calls are not modelled: client creation, bucket and file listing, download, upload, presigned URLs. Each enters only as its outcome.
- HTTP is not modelled. The model list takes the response as a parameter; the flight request becomes the reported flights.
- The LLM is not modelled: translation, system prompts, the chat pages and the LangChain agent. Translation enters only as its outcome.
- PDF extraction (`markdrop`) and PDF rendering (`markdown_pdf`) are left out, with their temporary files. Only the markdown clean-up before rendering is modelled.
- The progress bar receives `current_task / total_tasks` as a fraction; the model keeps the task count.
- Batch.RunBatch: with no language selected, a failed document would divide by a zero `total_tasks` at translate/app.py:428 and crash. The button guard at translate/app.py:378-389 rules that input out, so the model takes it and returns a tally for it.
- Logging is left out: `print` in the flight handler and `logger.info`/`logger.error` in the chatbot's file loading only write to the console.
- `datetime.now()` is not modelled: the formatted date is a parameter.
- `load_file_text` and the JSON file of system messages are not modelled. Files become a map and the messages a list of (name, message) pairs. `@st.cache_data` caching is left out.
- `KeyError`s from items lacking `name` or `message`, or from flights lacking a field, are not modelled.
- Whitespace and case are ASCII only: `IsSpace` covers Python's ASCII whitespace, and `Upper` maps ASCII letters.
- ModelList.FetchModels: a response whose body fails to decode is one more `RequestFailed` outcome. The error messages are not modelled.
- Batch: an exception from a non-UI call inside the inner `try` is not a separate stage. Raised before the file is recorded (translate/app.py:501), it acts like a failed stage; raised after, it acts like `Uploaded`.
- Batch: UI calls (`st.*`, `status_text`, `progress_bar`) are assumed not to raise, and the model does not cover their failure:
  - a raising progress report at translate/app.py:465, 475 or 491 would be caught at 522 and add one more to the counter at 525-527;
  - one at 429, 440 or 526-527 would reach the handler at 531-536 and add `len(selected_languages)` again;
  - one at 448 would mark an extracted document as failed.
- A missing language (`language=None`) is the empty string; both take the no-suffix branch.
- The markdown-key function `upload_markdown_to_s3` is modelled (`OutputKeys.MarkdownKey`) but has no caller in the batch loop.
