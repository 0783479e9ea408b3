# Partner-docs RAG assistant: verified model of ingestion and answering

This project models the core of a small retrieval-augmented question-answering
assistant for partner-programme documents, and proves properties of the model.

- **Ingestion** (`ingest.py`) reads `.txt` and `.pdf` files and normalises the
  whitespace of text files. It cuts each document into fixed-size,
  overlapping character windows (`chunk_text`). It collects one record per
  non-blank chunk: the text, the metadata `{source, path, chunk}`, and the id
  `<basename>-<chunk>`. The records go to a vector store in a single `add` call.
- **Answering** (`rag.py`) queries the store for the top-k chunks. It labels
  each chunk with its source file and joins them into a context block. It
  wraps that block in a fixed system prompt and a user prompt, and posts the
  result to a local Ollama server. It then returns the generated text, a
  fallback message when nothing was retrieved, or a failure message when
  generation raised.

Modules:

- `Wrappers`: `Option` and `Result`.
- `Text`: the Python string built-ins the code relies on, stated with
  Python's own semantics:
  - `str.isspace` over the full Unicode whitespace set;
  - `strip`;
  - slicing with clamped and negative bounds;
  - `replace` with "" as the replacement;
  - `split` on one character, which always returns at least one piece;
  - `join`;
  - `str(n)`.
- `Chunker`: `chunk_text`, with two parts:
  - a `while`-loop method, `ChunkText`, proved equal to the specification
    function `Chunks`;
  - lemmas about `Chunks`: offsets, coverage, bounds, and chunk counts.
- `Loader`: the `read_txt` normalisation, the `read_pdf` page join, the POSIX
  `basename` and `splitext`, and the extension dispatch of `index_files`.
- `Indexer`: `index_files`. A loop method, `IndexFiles`, fills the three
  lists and is proved equal to a specification of all records. Lemmas cover
  where each record comes from, completeness, and id uniqueness or collision.
- `Rag`: `retrieve`, prompt construction, `_ollama_generate` and `answer`, as
  pure functions. The vector store, the HTTP client and the environment are
  function parameters.

How many chunks a text gives depends on its length and on `overlap`
compared with `size`:

- A text of exactly `size` characters, with `0 < overlap <= size/2`, has two
  windows: the whole text and its last `overlap` characters. Each is kept when
  it is not blank (`Chunker.ExactSizeChunks`).
- A text of exactly `size` non-whitespace characters, with
  `size/2 < overlap < size`, gives at least three chunks
  (`Chunker.ExactSizeLargeOverlapChunks`).
- A text of `2*size - overlap` non-whitespace characters, with
  `0 < overlap <= size/2`, gives three chunks
  (`Chunker.TwiceSizeLessOverlapChunks`).
- For `size >= 1` and `overlap >= 0`, a non-blank text no longer than the
  step gives one chunk: the text itself (`Chunker.ShortTextOneChunk`). For
  `size = 0`, no text gives a chunk.
- A folder holding one `.txt` file of one trimmed line, no longer than a step,
  stores one record: chunk 0, with the file's base name as source and the id
  "<basename>-0" (`Indexer.OneLineTextFile`).

## Model

| member | source | states |
|---|---|---|
| Chunker.Step | ingest.py:36 | the advance `max(1, size - overlap)` is at least 1 and at least `size - overlap`, and is one of the two |
| Chunker.Chunks | ingest.py:24-37 | the definition of `chunk_text`: the non-blank windows `text[o:o+size]` at offsets 0, step, 2·step, … below `len(text)`; it has no `ensures` of its own, and `ChunkText`, `ChunkOffsets`, `KeptWindowsSelect`, `ChunksBoundedAndNonBlank` and `ChunksCover` state its properties |
| Chunker.ChunkText | ingest.py:24-37 | the while loop returns exactly `Chunks(text, size, overlap)`, the non-blank windows at offsets 0, step, 2·step, … below the length |
| Chunker.ChunkOffsets | ingest.py:30-36 | every chunk is the window `text[o:o+size]` at an offset from the step sequence; the offsets strictly increase; an offset is kept iff its window is not blank |
| Chunker.KeptWindowsSelect | ingest.py:33-35 | filtering windows by `strip()` keeps, in order, exactly the offsets whose window is not blank |
| Chunker.WindowStartsSpec | ingest.py:30-36 | the loop offsets start at 0, are one step apart, and the last one is the last below `len(text)` |
| Chunker.WindowStartsCell | ingest.py:30-36 | every index of the text falls in the gap between two consecutive offsets |
| Chunker.ChunksBoundedAndNonBlank | ingest.py:33-35 | every chunk has a non-whitespace character and, for `size >= 0`, at most `size` characters |
| Chunker.ChunksCover | ingest.py:30-36 | with `size >= 1` and `overlap >= 0`, every non-whitespace character of the text lies inside some chunk, which is a contiguous slice of the text |
| Chunker.EmptyTextNoChunks | ingest.py:31-32 | empty text gives no chunks |
| Chunker.ShortTextOneChunk | ingest.py:30-36 | a non-blank text no longer than the step gives exactly one chunk, the text itself |
| Chunker.ExactSizeChunks | ingest.py:30-36 | a text of exactly `size` characters with `0 < overlap <= size/2` gives the whole text and its last `overlap` characters, each kept iff not blank |
| Chunker.TwiceSizeLessOverlapChunks | ingest.py:30-36 | with `0 < overlap <= size/2`, a text of `2·size − overlap` non-whitespace characters gives three chunks |
| Chunker.ExactSizeLargeOverlapChunks | ingest.py:30-36 | with `size/2 < overlap < size`, a text of `size` non-whitespace characters gives at least three chunks |
| Text.IsWhitespace | ingest.py:34 | the definition of the `str.isspace()` set: ASCII `\t`–`\r`, `\x1c`–`\x1f` and space, and the Unicode separators; `StripSpec` and `StripEmptyIff` state what `strip` does with it |
| Text.Strip | ingest.py:34 | `strip()` is no longer than its input; `StripSpec`, `StripEmptyIff` and `StripIdempotent` state the rest |
| Text.StripSpec | ingest.py:34 | `strip()` is the slice between the leading and the trailing whitespace, and is empty or starts and ends with non-whitespace |
| Text.StripEmptyIff | ingest.py:34 | `chunk.strip()` is falsy exactly when the chunk is all whitespace |
| Text.StripIdempotent | ingest.py:45 | stripping twice is stripping once |
| Text.PySlice | ingest.py:33 | for non-negative bounds, `s[lo:hi]` is the slice clamped to the length, and empty when `hi <= lo` |
| Text.Split | ingest.py:45 | `split(sep)` gives one more piece than there are separators, and no piece holds the separator; `SplitJoin` and `JoinSplit` tie it to `Join` |
| Text.Join | ingest.py:45 | the definition of `sep.join(parts)`; no `ensures` of its own; `SplitJoin`, `JoinSplit`, `ContextBlockOrder` and `ContextBlockLength` state its properties |
| Text.SplitJoin | ingest.py:45 | splitting the join of pieces without the separator gives back the pieces |
| Text.JoinSplit | ingest.py:45 | joining the split pieces with the separator gives back the string |
| Text.RemoveChar | ingest.py:45 | `replace("\r", "")` removes every carriage return and keeps the count of every other character |
| Text.RemoveCharConcat | ingest.py:45 | `replace` works piecewise: removing `c` from `a + b` is removing it from `a`, then from `b`, concatenated |
| Text.RemoveCharSingle | ingest.py:45 | a single character is kept exactly when it is not the removed one, so together with `RemoveCharConcat` the kept characters stay in order |
| Text.NatToString | ingest.py:118 | `str(j)` is a non-empty digit string, one digit exactly when `j < 10`; `NatToStringValue` reads it back and `NatToStringInjective` separates distinct numbers |
| Text.NatToStringValue | ingest.py:118 | the decimal text of `n` reads back as `n`, and starts with '0' only for 0 |
| Text.NatToStringInjective | ingest.py:118 | distinct chunk numbers have distinct decimal texts |
| Loader.Normalise | ingest.py:45 | the definition of line 45: remove carriage returns, split at line feeds, strip each line, join with line feeds; no `ensures` of its own; the `Normalise…` lemmas below state its properties |
| Loader.NormaliseLines | ingest.py:45 | the lines of the normalised text are the input's stripped lines once carriage returns are removed |
| Loader.NormaliseNoCarriageReturn | ingest.py:45 | the normalised text has no carriage return |
| Loader.NormaliseLineCount | ingest.py:45 | the line count is one more than the number of line feeds left after removing carriage returns |
| Loader.NormaliseLinesStripped | ingest.py:45 | no line of the normalised text has surrounding whitespace |
| Loader.NormaliseIdempotent | ingest.py:45 | normalising twice is normalising once |
| Loader.NormaliseSingleLine | ingest.py:45 | a single line without carriage return or surrounding whitespace is unchanged |
| Loader.PdfText | ingest.py:48-57 | the definition of `read_pdf`: page texts, "" for a page without text, joined with line feeds; `PdfTextPages` and `PdfDocument` state its properties |
| Loader.PdfTextPages | ingest.py:52-57 | when no page text has a line feed, the lines of the PDF text are the page texts, "" for a page without text |
| Loader.Basename | ingest.py:117 | the base name has no '/' and is a suffix of the path |
| Loader.BasenameSpec | ingest.py:117 | the base name is everything after the last '/': it has no '/', is a suffix of the path, and is preceded by a '/' unless it is the whole path |
| Loader.BasenameOfJoin | ingest.py:117 | the base name of "dir/name" is `name` when `name` has no '/' |
| Loader.Extension | ingest.py:109 | the extension is empty, or a '.' followed by neither '.' nor '/' |
| Loader.ExtensionNoDot | ingest.py:109 | a base name without a '.' has the empty extension |
| Loader.ExtensionSpec | ingest.py:109 | the extension is a suffix of the base name: empty, or starting at the base name's last '.' |
| Loader.ExtensionOfStem | ingest.py:109 | `splitext` of a base name "stem.e", where `e` has no dot and the stem has a non-dot character, is ".e" |
| Loader.TranslateNewlines | ingest.py:42-43 | reading in text mode leaves no carriage return in the text |
| Loader.TranslateCrLf | ingest.py:42-43 | text mode reads "\r\n" as one "\n", leaving the text before it unchanged |
| Loader.TranslateLoneCr | ingest.py:42-43 | text mode reads a "\r" not followed by "\n" as "\n" |
| Loader.TranslateAbsent | ingest.py:42-43 | text without carriage returns is read unchanged |
| Loader.ReadDocument | ingest.py:109-114 | the definition of the reader dispatch: ".pdf" in any case goes to `read_pdf`, every other file to `read_txt`, and `None` when reading raises; `TextDocument`, `PdfDocument` and `UnreadableDocument` state its cases |
| Loader.TextDocument | ingest.py:40-45 | a readable non-PDF file yields its normalised text: the lines as text mode reads them, each stripped, with no carriage return |
| Loader.PdfDocument | ingest.py:48-57 | a readable PDF whose page texts have no line feed yields one line per page |
| Loader.UnreadableDocument | ingest.py:110-114 | reading fails exactly when the path is missing from the reader that its extension selects |
| Loader.PdfExtensionCases | ingest.py:109-111 | ".pdf" in any letter case selects the PDF reader; ".txt", ".pdfx" and "pdf" do not |
| Indexer.ChunkId | ingest.py:118 | the definition of f"{basename}-{j}"; `ChunkIdInjective` proves it can be read back |
| Indexer.ChunkRecord | ingest.py:115-118 | the definition of one record: the chunk, `{source: basename, path, chunk: j}` and the id; `RecordsOrigin` states where each record comes from |
| Indexer.Records | ingest.py:106-118 | the definition of all records, file by file then chunk by chunk, skipping unreadable files; `IndexFiles` is proved to build exactly these, and `RecordsOrigin`, `RecordsComplete`, `IdsUnique` and `SameBasenameCollides` state their properties |
| Indexer.IndexFiles | ingest.py:106-122 | returns `len(files)` and the number of records; `add` is called iff there is a record, with the documents, metadatas and ids of all records in order |
| Indexer.AddFileChunks | ingest.py:115-118 | the inner loop appends the records of one file, chunk by chunk, to the three lists |
| Indexer.RecordsOrigin | ingest.py:108-118 | each record is chunk `j` of a readable `files[f]`, with source = its base name, path = `files[f]`, chunk = `j`, id "<basename>-<j>"; the records follow file order, then chunk order |
| Indexer.RecordsComplete | ingest.py:108-118 | every chunk of every readable file is recorded |
| Indexer.ChunkIdInjective | ingest.py:118 | equal ids have equal base names and equal chunk numbers |
| Indexer.IdsUnique | ingest.py:117-118 | when the files' base names are pairwise distinct, all ids are distinct |
| Indexer.SameBasenameCollides | ingest.py:117-118 | two readable files with the same base name and at least one chunk each give two records with the same id |
| Indexer.UnreadableFileSkipped | ingest.py:110-114 | appending a file whose reading raises leaves the records unchanged; at other positions `RecordsOrigin` gives the same, as that file has no chunks |
| Indexer.OneLineTextFile | ingest.py:106-122 | a folder whose one file is "<dir>/<stem>.txt", holding one trimmed line no longer than a step, stores one record: the whole line, source "<stem>.txt", chunk 0, id "<stem>.txt-0" |
| Rag.Retrieve | rag.py:59-65 | the definition of `retrieve`, with the store's failure passed through; no `ensures` of its own; `RetrieveSpec` states its cases |
| Rag.RetrieveRequest | rag.py:62 | the query holds the single query text and asks for `max(1, k)` results |
| Rag.DefaultRetrieveRequest | rag.py:59-62 | with the default `k = 4`, the store is asked for 4 results for the one query |
| Rag.RetrieveClampsK | rag.py:62 | `retrieve` with `k <= 1` is `retrieve` with `k = 1` |
| Rag.FirstList | rag.py:63-64 | `res.get(key, [[]])[0]`: an absent key gives [], an empty outer list raises, otherwise the first list |
| Rag.Zip | rag.py:65 | `zip` pairs elements index by index, up to the shorter length |
| Rag.RetrieveSpec | rag.py:59-65 | retrieval fails with the store's own error when opening or querying the store raises; otherwise it fails exactly when a present key holds no list; it gives [] when a key is absent, and otherwise pairs the two first lists in order |
| Rag.IntToString | rag.py:94 | `str(n)`: the digits read back as the absolute value of `n`, with no leading zero unless `n = 0`, after a '-' when `n` is negative |
| Rag.SourceLabel | rag.py:94 | the label is "unknown" without a "source" key, the source string when it is a string, and `str(i)` (as `IntToString` states it) when it is an integer |
| Rag.Segment | rag.py:94 | the definition of one segment, f"[From {source}]:\n{d}"; `SegmentLayout` states its layout |
| Rag.SegmentLayout | rag.py:94 | a segment is the header "[From <source>]:\n" followed by the chunk text, unchanged |
| Rag.Segments | rag.py:94 | one segment per retrieved pair, in retrieval order |
| Rag.ContextBlock | rag.py:93-95 | the definition of the context block, the segments joined with "\n\n---\n"; `ContextBlockOrder` and `ContextBlockLength` state its layout |
| Rag.ContextBlockOrder | rag.py:93-95 | in the context block, segment `i` comes after segments `0..i-1` and before the later ones, with "\n\n---\n" between each two |
| Rag.ContextBlockLength | rag.py:93-95 | the block's length is the segments' total length plus one separator between each two |
| Rag.UserPrompt | rag.py:97-101 | the definition of the user prompt; `UserPromptLayout` states its layout |
| Rag.UserPromptLayout | rag.py:97-101 | the user prompt opens with "Context excerpts:\n", then the context block; the query follows "\n\nQuestion: " |
| Rag.FullPrompt | rag.py:103 | the definition of the full prompt, built from the constant `SystemPrompt` (rag.py:42-47, spelled out verbatim) and the user prompt; `FullPromptLayout` states its layout |
| Rag.FullPromptLayout | rag.py:103 | the prompt is the system prompt and a blank line, then the user prompt, then "\n\nAnswer:" |
| Rag.Setting | rag.py:73-74 | the definition of `x or os.getenv(key, default)`; `SettingPrecedence` states the precedence |
| Rag.SettingPrecedence | rag.py:73-74 | a non-empty explicit argument wins; otherwise the environment value, otherwise the default |
| Rag.OllamaRequest | rag.py:72-77 | the request goes to "<host>/api/generate" with the chosen model, the prompt, `stream: false` and the timeout |
| Rag.OllamaDefaults | rag.py:68-77 | with nothing set, the request goes to http://localhost:11434/api/generate with model granite3.3:8b and timeout 120 |
| Rag.StatusErrorText | rag.py:78 | the definition of the text of the HTTPError that `raise_for_status` raises for a 4xx or 5xx status; no `ensures` of its own |
| Rag.OllamaGenerate | rag.py:68-79 | the definition of `_ollama_generate`; `OllamaRequest`, `OllamaDefaults` and `OllamaGenerateSpec` state its request and its outcomes |
| Rag.OllamaGenerateSpec | rag.py:77-79 | generation succeeds exactly on a non-error status with a JSON object body, and returns its "response" field, or "" without one |
| Rag.LlmFailureMessage | rag.py:107-108 | the definition of the failure message; `LlmFailureMessageLayout` states its layout |
| Rag.LlmFailureMessageLayout | rag.py:107-108 | the failure message starts with "LLM call failed." and ends with "Error: " and the exception text |
| Rag.Answer | rag.py:82-108 | the definition of `answer`; `AnswerWithoutContext`, `AnswerWithContext`, `AnswerFailsOnlyInRetrieval` and `AnswerStoreFailure` state its cases |
| Rag.AnswerWithoutContext | rag.py:86-89 | with nothing retrieved, `answer` returns the fallback message, whatever the HTTP service and the environment are |
| Rag.AnswerWithContext | rag.py:91-108 | with context, `answer` sends the full prompt with a 120 s timeout; it returns the generated text, or the failure message built from the exception, and never fails |
| Rag.AnswerFailsOnlyInRetrieval | rag.py:86 | `answer` raises exactly when `retrieve` raises, and with the same error |
| Rag.AnswerStoreFailure | rag.py:61-62 | when opening or querying the store raises, `answer` fails with that same error, since `retrieve` is called outside the `try` at rag.py:86 |

## Left out

- The vector store is modelled as a function from a query to its reply, or
  to the text of the exception opening or querying it raised. This
  leaves out ChromaDB's client, persistence, embedding model and
  nearest-neighbour ranking (`build_collection`, `_get_collection`).
- The best-effort `collection.delete(where={})` at ingest.py:101-104 is left
  out. It catches every exception and does not affect the records built.
- The `add` call is the `added` result of `IndexFiles`; what the store does
  with it is not modelled.
- Indexer.IndexFiles: opening the collection (`build_collection`,
  ingest.py:97) and the `add` call (ingest.py:121) never fail in the model. In
  the program either one can raise outside any `try`, and then `index_files`
  returns nothing. One case is a batch the store rejects because two files
  with the same base name repeat an id (`SameBasenameCollides`). The ensures
  of `IndexFiles` describe the run in which both calls succeed.
- `collect_files`, `ensure_sample_copy`, the `__main__` block and the Streamlit
  front end (`app.py`) are not modelled. They are file-system walking, file
  copying and UI.
- The `[skip]` message printed for an unreadable file is left out, because it
  is console output. The skip itself is modelled.
- Decoding bytes as UTF-8 with `errors="ignore"` is left out. The file system
  gives the decoded text of each readable file. The newline translation of
  text mode that follows decoding is modelled (`TranslateNewlines`).
- PDF parsing and `extract_text` are left out. The file system gives each
  page's extracted text, or none.
- Lower-casing of the extension is modelled for ASCII letters only. No other
  character lower-cases to 'p', 'd' or 'f', so the comparison with ".pdf"
  comes out the same.
- The HTTP transport and the internals of `requests` are left out. A call's
  outcome is an input: it raised, or it replied with a status, reason and
  body. `StatusErrorText` follows the message format of `raise_for_status`
  and uses the request URL, so redirects are not modelled.
- The JSON decoding of the Ollama reply is modelled as an object with string
  fields, or a decoding error. Other JSON values are left out.
- Metadata values are strings or integers, the two types ingestion stores.
  Other value types are left out.
- `load_dotenv` and `os.getenv` are modelled as an environment map passed as
  input.
- Exception texts are plain strings. Python's exception types, and the text of
  errors other than the HTTP status error, are inputs.
- Chunker.ChunksBoundedAndNonBlank: the `|chunk| <= size` bound is stated only
  for `size >= 0`. For a negative size, Python's slice `text[i:i+size]` counts
  from the end and can be longer.

