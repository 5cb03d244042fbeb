# Local AI Writer backend, modelled in Dafny

The Local AI Writer backend is a FastAPI service with three endpoints around a
locally loaded Llama-3-8B-Instruct model:

- `POST /generate` takes a prompt, a temperature and a token limit. It wraps
  the prompt in the Llama-3 chat template, generates with the model and cuts
  the assistant's reply out of the decoded text. It answers with the reply and
  appends one entry to `logs/output_log.txt`. The entry spans several lines
  when a logged field contains a line break, and nothing is appended when the
  file cannot be opened.
- `GET /health` reports whether the model is loaded.
- `GET /logs` returns the last lines of the log.

The inference engine is created lazily, on the first request that needs it, and
is stored once loaded. A load that fails leaves nothing stored, so the next
request tries again.

The project has one module per concern:

| file | module | what it holds |
|---|---|---|
| `wrappers.dfy` | `Wrappers` | `Option`, `Result` (a value or the message of the exception raised instead), `Outcome`, `Min`, `Max` |
| `http.dfy` | `Http` | `Response`: 200 with a body, 422 naming rejected fields, or 500 with a `detail` |
| `pystr.dfy` | `PyStr` | the Python string behaviour the service relies on: `strip()` with Python's whitespace set, `in`, `split(sep)`, and slices `s[k:]` with a negative `k`; also `Join` (`sep.join`), which the service does not call, as the reference that `split` loses nothing |
| `inference.dfy` | `Inference` | the chat template, reply extraction, the generation settings, the `Tokenizer` and `LlamaInference` objects, and `EngineRegistry`, the global `inference_engine` slot |
| `genlog.dfy` | `GenerationLog` | the log line format, `readlines()` with universal newlines, the `/logs` tail, and the `LogFile` object |
| `app.dfy` | `App` | validation of the `/generate` body, and `Server` with the three handlers |

Some inputs cannot be computed in Dafny, so they enter as parameters:

- **The inference library.** Tokenising, `model.generate` and `decode` together
  are one function, `Library`. It takes the formatted prompt and the settings,
  and returns the decoded text or the message of the exception it raised.
- **Model loading.** `from_pretrained` enters as its outcome (`LoadEnvironment`),
  together with whether CUDA is available.
- **Clocks and number formatting.** Clock readings and their text forms arrive
  as a `Stamps` value: `str(temperature)`, the time taken to two decimals, and
  both timestamps.
- **Log file I/O.** How an append to the log ends is a `WriteOutcome`. A failed
  read of the log is an optional message.

What the proofs establish, in the service's terms:

- The chat template loses nothing: the prompt can be recovered from the
  formatted prompt.
- The assistant marker cannot overlap itself. So when the decoded text contains
  the marker, the reply is the text after its last occurrence, stripped. In
  particular, when the decoded text repeats the formatted prompt and then
  continues with text that does not itself contain the marker, the reply is
  exactly the continuation, stripped, whatever the prompt contains. If the
  generated text does contain the marker, the reply is what follows that later
  marker.
- A reply never contains the marker and never has whitespace at either end.
- Sampling is on exactly when the temperature is positive.
- The engine is constructed only while no engine is stored. Once stored, the
  same engine is returned every time, and a stored engine is always loaded.
  So `/health` never reports `not_loaded`.
- A log entry whose fields have no line breaks is one complete line ending in a
  line feed. When the file already ends at a line boundary (it is empty or its
  last character is a line feed), such entries appended one by one are read
  back one by one, and `/logs` shows the newest of them last. After a partial
  write, which leaves the file in the middle of a line, the next entry
  continues that line instead.
- An entry whose fields contain no `|` splits back into its five fields.

Two consequences of the code as written are proved as lemmas:

- `Inference.SkippedSpecialTokensCutReply`: the code decodes with
  `skip_special_tokens=True`, which leaves the template's `<|...|>` markers out
  of the decoded text. The marker test then fails and the fallback cuts the
  text by the length of the formatted prompt. That length is 99 characters more
  than what the decoded text actually echoes, so the first 99 characters of the
  reply are lost. A reply of at most 99 characters comes back empty. Whether
  `decode` behaves this way is the library's business, so the model keeps the
  code as written.
- `GenerationLog.EmbeddedLineFeedSplitsEntry` and
  `GenerationLog.OutputLineFeedSplitsEntry`: a line feed inside the first 100
  characters of the prompt, or inside the first 200 characters of the output,
  splits the log entry over two or more lines. Replies often contain line
  feeds. `/logs` then counts and shows those lines separately.

## Model

| member | source | states |
|---|---|---|
| `App.ValidateRequest` | backend/app.py:41-45 | accepted exactly when the prompt is present with 1 to 1000 characters, the temperature (if given) is in [0, 1] and the token limit (if given) is in [10, 500]; an accepted request carries the given values or the defaults 0.7 and 200 and is in bounds; a rejected one names each failing field once and no other |
| `App.ValidateAcceptsInBounds` | backend/app.py:41-45 | a request within the bounds, sent with every field, is accepted unchanged |
| `App.ValidationIsIdempotent` | backend/app.py:41-45 | resending an accepted request with its defaults spelled out yields the same request |
| `App.Server.Generate` | backend/app.py:103-144 | an invalid body gets 422 and changes nothing; a valid body always gets 200 or 500, never 422; a 500 with detail "Generation failed: " and the load error occurs exactly when no engine exists and none can be created, and nothing is logged then; on success the response echoes the prompt and effective temperature with the engine's output, the log gains exactly what the append persisted of the entry for that output, and an existing engine is reused |
| `App.Server.HealthCheck` | backend/app.py:87-101 | 500 with "Service unhealthy: " and the load error exactly when no engine exists and none can be created, and the slot then stays empty; otherwise status "healthy" with the engine's model info, which is always "loaded"; an engine already stored stays stored |
| `App.Server.Logs` | backend/app.py:146-159 | a missing log file yields an empty list of logs with "No logs found"; without `lines` at most the 50 newest lines are shown |
| `App.Server.constructor` | backend/app.py:36-39 | the log file as found at start-up and an empty engine slot |
| `Inference.FormatPrompt` | backend/inference.py:80 | the formatted prompt is the prompt plus the fixed template's length |
| `Inference.PromptOf` | backend/inference.py:80 | whatever prompt it recovers formats back to the given text |
| `Inference.PromptOfFormatPrompt` | backend/inference.py:80 | the template is injective: the prompt is recovered from its formatted form |
| `Inference.AssistantMarkerDoesNotOverlapItself` | backend/inference.py:111-112 | no proper suffix of the assistant marker is a prefix of it |
| `Inference.FormattedPromptContainsMarker` | backend/inference.py:80 | every formatted prompt contains the assistant marker |
| `Inference.ExtractReply` | backend/inference.py:108-114 | the reply never contains the marker and has no outer whitespace; without a marker and with decoded text no longer than the formatted prompt it is empty |
| `Inference.ReplyAfterEchoedPrompt` | backend/inference.py:111-112 | when the decoded text is the formatted prompt followed by marker-free text, the reply is that text stripped, for every prompt |
| `Inference.ReplyAfterFinalMarker` | backend/inference.py:111-112 | when the decoded text contains the marker and nothing after its last occurrence does, the reply is that remaining text stripped, whatever precedes it |
| `Inference.GenerationOutput` | backend/inference.py:76-123 | when the library returns decoded text, the output is a reply without the marker or outer whitespace; when it raises, the output starts with "Error generating text: " |
| `Inference.FallbackDropsPromptLength` | backend/inference.py:113-114 | without a marker, exactly as many leading characters as the formatted prompt has are dropped before stripping |
| `Inference.VisiblePrompt` | backend/inference.py:80 | the formatted prompt is 99 characters longer than its text without special tokens |
| `Inference.SkippedSpecialTokensCutReply` | backend/inference.py:108-114 | decoded text without the special tokens loses the first 99 characters of the reply; a reply of up to 99 characters is returned empty |
| `Inference.SamplingConfig` | backend/inference.py:96-105 | sampling exactly when the temperature is positive; top-p 0.9, repetition penalty 1.1, padding and end ids both the tokenizer's end-of-sequence id; temperature and token limit passed through |
| `Inference.GenerationError` | backend/inference.py:121-123 | the error text is "Error generating text: " followed by the message, nothing else |
| `Inference.ErrorTextIsAPossibleReply` | backend/inference.py:119-123 | an error text without the marker or outer whitespace is also the reply to some decoded text, so callers cannot tell the two apart |
| `Inference.Tokenizer.DefaultPadToken` | backend/inference.py:41-42 | afterwards a padding token is set: the end-of-sequence token if there was none, otherwise the old one |
| `Inference.LlamaInference.constructor` | backend/inference.py:20-24 | the given model name, device "cuda" exactly when CUDA is available, otherwise "cpu", and neither model nor tokenizer |
| `Inference.LlamaInference.LoadModel` | backend/inference.py:30-59 | succeeds exactly when both loads succeed; the tokenizer is stored first with its padding default, the model after it; a failing load is re-raised with its message and leaves later steps undone |
| `Inference.EngineRegistry.constructor` | backend/inference.py:138-139 | the global slot starts empty, with no construction yet |
| `Inference.LlamaInference.GenerateText` | backend/inference.py:61-123 | without model or tokenizer it raises "Model not loaded. Call _load_model() first."; otherwise it returns the extracted reply or the error text |
| `Inference.LlamaInference.ModelInfo` | backend/inference.py:125-136 | "not_loaded" exactly when no model is set; otherwise the name, device, parameter count and the CUDA memory in use, 0 without CUDA |
| `Inference.EngineRegistry.GetInferenceEngine` | backend/inference.py:141-146 | a stored engine is returned as it is and nothing is constructed; otherwise one construction takes place, and the new loaded engine is stored and returned, its tokenizer's padding token set (the end-of-sequence token when none was loaded), or the slot stays empty and the load error is raised |
| `Inference.EngineRegistry.GenerateText` | backend/inference.py:148-151 | fails only when no engine exists and none can be created, with the load error; otherwise the engine's generated text |
| `Inference.LookupsShareEngine` | backend/inference.py:141-146 | when the first of two successive lookups succeeds, the second returns the very same engine; when the slot was empty and the first fails, each of the two lookups constructs an engine |
| `GenerationLog.Preview` | backend/app.py:65 | text of at most the limit is kept whole; longer text is its first `limit` characters followed by "..." |
| `GenerationLog.LogEntry` | backend/app.py:65 | the entry ends with a line feed |
| `GenerationLog.EntryIsOneLine` | backend/app.py:65 | with no line break in any field, the entry is one complete line |
| `GenerationLog.EntryParsesIntoFields` | backend/app.py:65 | with no `|` in any field, splitting the entry on " \| " gives back the timestamp, prompt preview, temperature, time with "s", and output preview |
| `GenerationLog.SplitJoinedFields` | backend/app.py:65 | fields free of `|` joined by " \| " split back into the same fields |
| `GenerationLog.EmbeddedLineFeedSplitsEntry` | backend/app.py:65 | a line feed within the first 100 characters of the prompt makes the entry read back as at least two lines |
| `GenerationLog.OutputLineFeedSplitsEntry` | backend/app.py:65 | a line feed within the first 200 characters of the output makes the entry read back as at least two lines |
| `GenerationLog.Persisted` | backend/app.py:67-68 | what an append stores is a prefix of the entry: all of it when written, none when the open failed |
| `GenerationLog.LogFile.LogGeneration` | backend/app.py:61-72 | the file gains exactly the persisted part of the entry and exists afterwards unless the open failed; nothing is raised |
| `GenerationLog.TranslateNewlines` | backend/app.py:161-162 | translation never lengthens the text and keeps non-empty text non-empty |
| `GenerationLog.TranslateNewlinesIdentity` | backend/app.py:161-162 | text without carriage returns reads back unchanged |
| `GenerationLog.TranslateNewlinesAppend` | backend/app.py:161-162 | translation distributes over concatenation when the first part does not end in a carriage return |
| `GenerationLog.SplitLines` | backend/app.py:161-162 | there are no lines exactly when the text is empty, and never more lines than characters |
| `GenerationLog.ReadLines` | backend/app.py:161-162 | the lines `readlines` returns, put together, are the file's text after newline translation |
| `GenerationLog.ConcatSplitLines` | backend/app.py:161-162 | the lines returned by `readlines` put back together are the text |
| `GenerationLog.SplitLinesAppend` | backend/app.py:161-162 | text split after a line feed splits into the lines of each part |
| `GenerationLog.ReadBackEntries` | backend/app.py:61-68 | complete lines appended to a file ending at a line boundary are read back after the earlier lines, each unchanged |
| `GenerationLog.Tail` | backend/app.py:164 | a suffix of the lines: a positive count keeps min(count, total), zero keeps all, a negative count drops that many from the front |
| `GenerationLog.StripAll` | backend/app.py:167 | one stripped line for each line shown |
| `GenerationLog.StripAllPointwise` | backend/app.py:167 | each shown line is the stored line stripped |
| `GenerationLog.LogFile.GetLogs` | backend/app.py:146-174 | no file gives an empty list of logs with "No logs found"; a failed read gives 500 "Failed to read logs: " and the message; otherwise the stripped tail of the lines, the number of lines in the file and the number shown, never more than the total |
| `GenerationLog.RecentEntriesShown` | backend/app.py:158-170 | after one-line entries are appended to a file that ends at a line boundary, the line count grows by their number and a positive tail no longer than them shows their last ones, newest last |
| `PyStr.Strip` | backend/inference.py:112-114 | the result is the infix of the input starting after its leading whitespace, and has no outer whitespace |
| `PyStr.StripRemovesOnlySpace` | backend/inference.py:112-114 | everything `strip()` removes on either side is whitespace |
| `PyStr.StripEmptyIffAllSpace` | backend/inference.py:112-114 | stripping gives the empty string exactly when the input is all whitespace |
| `PyStr.StripIgnoresLeadingSpace` | backend/inference.py:112 | whitespace put in front does not change the stripped result |
| `PyStr.Contains` | backend/inference.py:111 | the empty string is in every string, and a string longer than the text is never in it |
| `PyStr.Find` | backend/inference.py:111 | a position it returns is an occurrence |
| `PyStr.FindFirst` | backend/inference.py:111 | `find` fails exactly when `in` is false, and returns the first occurrence |
| `PyStr.Split` | backend/inference.py:112 | at least one piece |
| `PyStr.JoinSplit` | backend/inference.py:112 | joining the pieces with the separator gives the string back |
| `PyStr.SplitLastIsSuffix` | backend/inference.py:112 | the last piece is a suffix of the string |
| `PyStr.SplitLastLacksSeparator` | backend/inference.py:112 | the last piece never contains the separator |
| `PyStr.SplitLastAfterFinal` | backend/inference.py:112 | for a separator that cannot overlap itself, the last piece of `x + sep + y` is `y` when `y` lacks the separator |
| `PyStr.SliceFrom` | backend/inference.py:114 | `s[start:]` is a suffix; its length is max(0, len − start) for a non-negative start and min(−start, len) for a negative one |

## Left out

- The inference library (tokeniser, `model.generate`, `decode`, 4-bit loading,
  `device_map`, the 512-token input truncation, `model.eval()`) is the `Library`
  parameter or the load outcome. What it computes is not modelled.
- `not self.model or not self.tokenizer` is modelled as presence: a loaded
  model or tokenizer object is taken to be truthy.
- The parameter count (`sum(p.numel() ...)`) and `torch.cuda.memory_allocated()`
  are inputs.
- Floating point: the temperature is a real number. NaN and infinities are not
  modelled. `str(temperature)` and `f"{time_taken:.2f}"` are text inputs.
- Clocks (`time.time()`, `datetime.now()`) and all `logger` calls are left out.
  Their values enter as `Stamps`.
- Concurrency: the handlers are treated as running one at a time. Races on the
  global engine slot or the log file are not modelled.
- The root endpoint `/`, CORS settings, the `uvicorn` start-up and the
  directory creation at import time are not modelled. A missing directory shows
  up as an open failure.
- Request parsing: pydantic's type coercion and its error messages are left
  out. `RawRequest` holds already-typed optional fields, and a rejection
  carries only the names of the failing fields. A non-integer `lines` query
  value, which FastAPI rejects, is not modelled.
- File encoding: the log is text. Undecodable bytes on reading enter as the
  read failure, and text that cannot be encoded as UTF-8 enters as a failed
  write.
- `os.linesep` translation on writing (Windows) is not modelled: writes store
  `\n` as is.
- `Inference.LlamaInference.constructor`: Python's `__init__` also calls
  `_load_model`. The model splits this into the constructor and `LoadModel`,
  which `EngineRegistry.GetInferenceEngine` runs back to back.
- `download_model.py`, `test_setup.py` and the frontend are not part of this
  model.
