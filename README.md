# A verified model of the ingestion and query core of a local RAG pipeline

This project models the core of a retrieval-augmented question-answering
application written in Python. The application turns a directory of PDF files
into documents, chunks and indexes them, and answers questions from the index.
The model covers these parts:

- **Text utilities** (`utils/text_utils.py`), as pure functions with lemmas:
  - `clean_text`: collapse runs of three or more newlines to two, collapse
    runs of spaces to one, then `str.strip()`;
  - `extract_metadata`: a title from the first non-blank line, and authors
    from the first line that matches `(?i)author|^by\b`;
  - `split_by_section`: the heading regular expression
    `(?:\n|^)([A-Z][A-Za-z0-9 ]{1,50}[:.?!]?)(?:\n)+`, written out as a
    leftmost, non-overlapping `re.finditer` scan, plus the sections cut from
    its matches.
- **PDF loader** (`app/document_processing/pdf_loader.py`): the `*.pdf`
  filter over a directory listing, `load_single_pdf` with its error path, and
  the `load_all_pdfs` loop as a method with a loop invariant.
- **Query processor** (`app/query_engine/query_processor.py`): a class that
  holds an optional index and caches the query engine built from it.
- **RAG service** (`app/core/service.py`): a class that loads a stored index
  on construction, builds one from the PDFs on demand, and falls back from
  load to build when a query arrives with no index.
- **Command-line front end** (`app.py`):
  - the `--chunk-size=` / `--chunk-overlap=` loop over `argv`, using Python's
    `int()`;
  - the exit test of the interactive loop;
  - the missing-model filter of the environment check;
  - where `main` ends up.

Python library behaviour is spelled out where the core depends on it:

- `str.strip` removes exactly the characters `str.isspace()` accepts.
- `str.split` and `str.join` are modelled, with a split/join round trip.
- `re.sub` replaces maximal runs.
- `finditer` scans from left to right and resumes at the end of each match.
  Without `MULTILINE`, `^` matches only at index 0.
- `int()` accepts surrounding whitespace, a sign, and underscores between
  digits.
- A slice `t[a:b]` clamps its bounds.

Collaborators the model cannot see are parameters:

- **PDF loader:** the directory listing, the PDF reader and `os.path.getsize`, given as a `Loader` value.
- **Query processor:** `as_query_engine` and `query`, given as functions.
- **RAG service:**
  - the chunker and `create_index`, given as functions;
  - what `load_index` returns, as an `Option`;
  - which step of `build_index` raises, as a `BuildOutcome`.
- **Command-line front end:** whether Ollama runs, which models it lists, and the lines `input()` returns.

Three details of the code are easy to miss, and the model follows the code
in each:

- **No `has_layout_analysis` key.** `load_single_pdf` adds only `source`,
  `file_path`, `file_size` and `file_type` to the extracted metadata.
- **Authors via `^by\b`.** The author test is `^by\b`, not "starts with
  `by `": it also accepts a line that is just "by" or starts with "by,".
- **`analyze_layouts` is missing.** `main` calls
  `rag_service.analyze_layouts()`, which `RAGService` does not define. See
  the findings below.

Modules:

| module | file | models |
|---|---|---|
| `Wrappers` | wrappers.dfy | `Option` and its values |
| `Sequences` | sequences.dfy | subsequences (order-preserving selection) |
| `Schema` | schema.dfy | `Document`, text `Node`, metadata values |
| `TextUtils` | text_utils.dfy | `utils/text_utils.py` |
| `PdfLoader` | pdf_loader.dfy | `app/document_processing/pdf_loader.py` |
| `QueryProcessing` | query_processor.dfy | `app/query_engine/query_processor.py` |
| `Core` | service.dfy | `app/core/service.py` |
| `App` | app.dfy | `app.py` |

## Model

| member | source | states |
|---|---|---|
| TextUtils.Strip | utils/text_utils.py:17 | `str.strip()`: the result has no Python whitespace at either end, is the slice of the input starting at `StripOffset`, and everything cut off on either side is whitespace |
| TextUtils.StripStripped | utils/text_utils.py:17 | stripping a string that already has no whitespace at its ends gives it back unchanged |
| TextUtils.StripEmpty | utils/text_utils.py:17 | strip gives the empty string exactly when every character is whitespace |
| TextUtils.CleanText | utils/text_utils.py:15-17 | `clean_text` returns a string with no three newlines in a row, no two spaces in a row and no whitespace at either end, and keeps only characters of the input, in order |
| TextUtils.CleanTextFixpoint | utils/text_utils.py:15-17 | `clean_text` leaves a string unchanged exactly when the string is already in that normal form (both directions) |
| TextUtils.CleanTextIdempotent | utils/text_utils.py:15-17 | cleaning twice is the same as cleaning once |
| TextUtils.CollapseNewlines | utils/text_utils.py:15 | `re.sub(r'\n{3,}', '\n\n', text)`. CollapseNewlinesBound, CollapseRunsSubsequence and CollapseNewlinesIdentity give the newline bound, that only characters are dropped, and that text without a triple newline is unchanged |
| TextUtils.CollapseSpaces | utils/text_utils.py:16 | `re.sub(r' +', ' ', text)`. CollapseSpacesBound, CollapseRunsSubsequence and CollapseSpacesIdentity give the space bound, that only characters are dropped, and that text without a double space is unchanged |
| TextUtils.CollapseNewlinesBound | utils/text_utils.py:15 | after `re.sub(r'\n{3,}', '\n\n', ...)` no three newlines stand in a row |
| TextUtils.CollapseSpacesBound | utils/text_utils.py:16 | after `re.sub(r' +', ' ', ...)` no two spaces stand in a row |
| TextUtils.CollapseSpacesKeepsNewlineBound | utils/text_utils.py:15-16 | collapsing spaces cannot create a newline run that the first step removed |
| TextUtils.StripKeepsNewlineBound | utils/text_utils.py:15-17 | stripping keeps the newline bound |
| TextUtils.StripKeepsSpaceBound | utils/text_utils.py:16-17 | stripping keeps the space bound |
| TextUtils.CollapseRunsSubsequence | utils/text_utils.py:15-16 | each `re.sub` step only drops characters, so its result is a subsequence of its input |
| TextUtils.StripSubsequence | utils/text_utils.py:17 | the stripped string is a subsequence of the input |
| TextUtils.CollapseNewlinesIdentity | utils/text_utils.py:15 | without a run of three newlines the first substitution changes nothing |
| TextUtils.CollapseSpacesIdentity | utils/text_utils.py:16 | without two spaces in a row the second substitution changes nothing |
| TextUtils.Split | utils/text_utils.py:34 | `str.split(sep)` gives at least one part, no part holds the separator, and joining the parts with the separator gives the input back |
| TextUtils.Join | app/document_processing/pdf_loader.py:43 | `sep.join(parts)`: the page join of `load_single_pdf`. Split and SplitJoin make it the inverse of `split` in both directions |
| TextUtils.SplitJoin | utils/text_utils.py:34 | the other round trip: separator-free parts joined and split again are the same parts |
| TextUtils.SplitNoSeparator | utils/text_utils.py:34 | a string without the separator splits into itself alone |
| TextUtils.SplitAfterPart | utils/text_utils.py:34 | splitting `x + sep + y` with `x` separator-free gives `x` followed by the parts of `y` |
| TextUtils.ExtractMetadata | utils/text_utils.py:31-43 | `extract_metadata` yields no key other than `title` and `authors` |
| TextUtils.ExtractMetadataTitle | utils/text_utils.py:34-36 | `title` is present exactly when some stripped line is non-blank, and it is then the first such line |
| TextUtils.ExtractMetadataAuthors | utils/text_utils.py:34-41 | `authors` is present exactly when some non-blank stripped line matches `(?i)author\|^by\b`, and it is then the first such line |
| TextUtils.MetadataOfTitle | utils/text_utils.py:35-36 | the dictionary has `title` exactly when the filtered line list is non-empty, holding its first line |
| TextUtils.IsAuthorLine | utils/text_utils.py:39-41 | `re.search(r'(?i)author\|^by\b', line)`: `author` in any case anywhere, or `by` in any case at the start followed by a non-word character or the end |
| TextUtils.AuthorLineExamples | utils/text_utils.py:39-41 | `Co-AUTHORS: A. Smith`, `By Jane Doe`, `by, J. Doe` and `by` are author lines, `Byron Smith` is not |
| TextUtils.MetadataOfAuthors | utils/text_utils.py:39-41 | the dictionary has `authors` exactly when the author lines are non-empty, holding the first of them |
| TextUtils.NonBlankFirst | utils/text_utils.py:34-36 | the filtered list is non-empty exactly when some line is non-blank, and it then starts with the first non-blank line |
| TextUtils.AuthorLinesFirst | utils/text_utils.py:39-41 | the author list is non-empty exactly when some non-blank line passes the author test, and it then starts with the first such line |
| TextUtils.HeadingFrom | utils/text_utils.py:56 | a heading attempt at position h reports group 1 starting at h, ending before a newline run that ends inside the text |
| TextUtils.HeadingFromSound | utils/text_utils.py:56 | what it reports is an upper-case letter, 1 to 50 of `[A-Za-z0-9 ]` and an optional `[:.?!]`, followed by the longest run of newlines there |
| TextUtils.MatchAt | utils/text_utils.py:56 | a match tried at p starts at p and its group and newline run lie in order inside the text |
| TextUtils.MatchAtSound | utils/text_utils.py:56 | every match found at p is an instance of the whole pattern (a newline before the heading, or `^` at index 0) with a maximal newline run |
| TextUtils.MatchAtComplete | utils/text_utils.py:56 | wherever the pattern can match, the scanner finds a match there with the same group 1 and a newline run at least as long |
| TextUtils.HeadingAtText | utils/text_utils.py:56-62 | the window form of the heading test agrees with the test on the sliced string (both directions) |
| TextUtils.FindAll | utils/text_utils.py:58 | every match `finditer` reports lies inside the text, at or after the scan position |
| TextUtils.FindAllScan | utils/text_utils.py:58 | the reported matches come in text order and do not overlap |
| TextUtils.FindAllSound | utils/text_utils.py:58 | each reported match is the match the pattern makes at that match's start |
| TextUtils.FindAllComplete | utils/text_utils.py:58 | the scan misses nothing: every index where the pattern can match lies inside some reported match |
| TextUtils.NoMatchAtEnd | utils/text_utils.py:56-58 | since a match swallows all the newlines after it, no match starts where the previous one ends |
| TextUtils.Slice | utils/text_utils.py:71 | Python's `t[a:b]` with in-range bounds is the ordinary slice |
| TextUtils.SplitBySection | utils/text_utils.py:58-78 | the loop over the matches builds exactly `Sections(text)`: one section per match, or the single section `Document` holding the whole text |
| TextUtils.SectionsWithoutHeading | utils/text_utils.py:75-76 | with no match, the result is the one section `Document` holding the unstripped text |
| TextUtils.SectionsFromMatches | utils/text_utils.py:61-72 | with matches, there are as many sections as matches. Section i has the stripped group 1 of match i as its title, and as its content the stripped text from the end of match i to the start of match i+1, or to the end of the text |
| TextUtils.SectionTitleAt | utils/text_utils.py:56-62 | the title of the section of match i starts with an upper-case letter and is at most 52 characters long |
| TextUtils.SectionTitles | utils/text_utils.py:61-76 | every title `split_by_section` returns starts with an upper-case letter and is at most 52 characters long |
| TextUtils.HeadingTitle | utils/text_utils.py:62 | stripping a group-1 string keeps a title of one upper-case letter and at most 51 more characters |
| TextUtils.MatchedHeadingRun | utils/text_utils.py:56 | a matched heading holds at most 51 characters of `[A-Za-z0-9 ]` |
| TextUtils.NoHeadingFrom | utils/text_utils.py:56-58 | past index 0, nothing matches when no newline is followed by an upper-case letter |
| TextUtils.AdjacentHeadingExample | utils/text_utils.py:56-58 | for `"Intro\nMethods\nbody"` only `Intro` is found, because the first match consumes the newline the second heading would need |
| PdfLoader.PdfNames | app/document_processing/pdf_loader.py:26 | the names kept are exactly the listed names ending in `.pdf`, in listing order |
| PdfLoader.GetPdfFiles | app/document_processing/pdf_loader.py:23-26 | `get_pdf_files` returns exactly the paths in the directory of the listed `.pdf` names, and no more paths than names listed |
| PdfLoader.FileMetadata | app/document_processing/pdf_loader.py:49-57 | the metadata of a loaded file. FileMetadataUpdate and FileMetadataContents give its keys and values |
| PdfLoader.FileMetadataUpdate | app/document_processing/pdf_loader.py:49-57 | the keys are the extracted keys plus the four file keys. The file keys hold the name, the path string, the size and `pdf`, and win over an extracted entry of the same key, as `dict.update` does. Every other extracted entry is kept as a string value |
| PdfLoader.FileMetadataContents | app/document_processing/pdf_loader.py:49-57 | for the keys `extract_metadata` produces, every extracted entry is kept as well: the update overwrites nothing |
| PdfLoader.MetadataKeysDisjoint | app/document_processing/pdf_loader.py:52-57 | the extracted keys and the file keys never collide, so `update` overwrites nothing |
| PdfLoader.LoadSinglePdf | app/document_processing/pdf_loader.py:28-64 | `load_single_pdf` returns None exactly when the reader or the size lookup raises. Otherwise the text is `clean_text` of the pages joined by a blank line |
| PdfLoader.LoadSinglePdfText | app/document_processing/pdf_loader.py:43-46 | a loaded document's text is in `clean_text`'s normal form and keeps only characters of its pages, in order |
| PdfLoader.LoadSinglePdfMetadata | app/document_processing/pdf_loader.py:49-59 | a loaded document's metadata holds exactly the extracted keys and the four file keys, with the values of each |
| PdfLoader.LoadResultsAt | app/document_processing/pdf_loader.py:78-80 | entry i of the results is `load_single_pdf` of file i |
| PdfLoader.LoadResultsAppend | app/document_processing/pdf_loader.py:78-80 | loading files one by one distributes over concatenating file lists |
| PdfLoader.LoadedDocsSkipsFailure | app/document_processing/pdf_loader.py:78-82 | a file that fails to load leaves no trace: dropping it from the list does not change the documents |
| PdfLoader.LoadedDocsMembers | app/document_processing/pdf_loader.py:78-82 | a document is returned exactly when some file's load gives it |
| PdfLoader.LoadedDocsAllLoad | app/document_processing/pdf_loader.py:78-82 | when every file loads, there is one document per file, in file order |
| PdfLoader.LoadedDocsStep | app/document_processing/pdf_loader.py:78-82 | one more file appends its document at the end, or changes nothing when it fails |
| PdfLoader.CorruptFileExample | app/document_processing/pdf_loader.py:62-82 | with an unreadable file between two good ones, the two good documents come back in order |
| PdfLoader.LoadAllPdfs | app/document_processing/pdf_loader.py:66-85 | the loop returns exactly the documents of the files that load, in file order, and no more documents than files |
| QueryProcessing.ToResult | app/query_engine/query_processor.py:47-58 | the result dictionary carries the engine's answer and one source per retrieved node |
| QueryProcessing.SourcesRoundTrip | app/query_engine/query_processor.py:51-57 | each source gives back its node's content and metadata, in node order |
| QueryProcessing.QueryProcessor.constructor | app/query_engine/query_processor.py:6-14 | starts with the given index and no cached engine |
| QueryProcessing.QueryProcessor.QueryEngine | app/query_engine/query_processor.py:16-21 | the `query_engine` property returns None exactly when there is no index, otherwise the engine of the current index. A cached engine is kept, and an engine is built only when none was cached |
| QueryProcessing.QueryProcessor.SetIndex | app/query_engine/query_processor.py:23-31 | installs the index and drops the cached engine |
| QueryProcessing.QueryProcessor.Query | app/query_engine/query_processor.py:33-60 | `query` returns None exactly when there is no index. Otherwise it returns the result built from the current index's engine's answer. The index is unchanged and the engine is built at most once |
| QueryProcessing.QueryTwice | app/query_engine/query_processor.py:16-60 | two queries against the same index build the engine at most once, and not at all when it was cached |
| QueryProcessing.QueryAfterSetIndex | app/query_engine/query_processor.py:23-60 | after `set_index` the next query is answered by an engine of the new index |
| Core.Documents | app/core/service.py:51 | the documents a build uses are at most one per PDF file |
| Core.RagService.constructor | app/core/service.py:11-28 | creates an empty query processor, then tries once to load a stored index |
| Core.RagService.LoadExistingIndex | app/core/service.py:30-41 | returns true exactly when `load_index` gives an index, and then installs it. Otherwise nothing changes |
| Core.RagService.BuildIndex | app/core/service.py:43-66 | returns true exactly when documents were loaded and no step raised. On success the new index is installed; on failure the installed index is unchanged. The new index is recorded as saved exactly when `persist` completed, which includes the case where only the report line after it raised |
| Core.RagService.Query | app/core/service.py:68-84 | with an index installed, it queries directly and loads, builds and saves nothing. Otherwise it loads once, and builds once only when the load gave nothing; the saved indexes grow by the built index exactly when that build persisted it. The result is None exactly when there was no index, nothing could be loaded and the build failed, and then no index is installed. Otherwise it is the answer of the installed index |
| App.ParseInt | app.py:87 | `int()` on a string: a stripped, optionally signed numeral. Its lemmas below give the round trip with `str`, the rejection of blanks and stray underscores, and that every accepted string holds a digit |
| App.ParseIntFormat | app.py:87-92 | `int(str(n)) == n` for every integer, up to the digit limit named under Left out |
| App.ParseIntBlank | app.py:86-89 | blank input, the empty string included, is a ValueError, so the option keeps its value |
| App.ParseIntHasDigit | app.py:87-92 | whatever `int()` accepts holds an ASCII digit |
| App.ParseIntUnderscore | app.py:87-92 | `int("1_024") == 1024` |
| App.ParseIntRejectsUnderscores | app.py:87-89 | a trailing underscore or a doubled one is a ValueError |
| App.DigitsValue | app.py:87-92 | the decimal digits of n form a numeral whose value is n |
| App.FlagValue | app.py:87 | `arg.split("=")[1]`, or None for the IndexError. FlagValueExists and FlagValueAfterPrefix say when it exists and what it is |
| App.FlagValueExists | app.py:87 | `split("=")[1]` exists exactly when the argument holds an `=` |
| App.FlagInt | app.py:87-93 | `int(arg.split("=")[1])` or None. By FlagValueAfterPrefix and FlagIntFormat, behind either prefix it reads the text up to the next `=`, and `str(n)` reads back as n |
| App.OptionValue | app.py:84-94 | the value of one option after the loop. OptionDefault, LastParsableWins and OptionIgnoresOthers give its default, that the last parsable argument decides it, and that other arguments do not touch it |
| App.PrefixesExclusive | app.py:85-90 | no argument carries both prefixes, so the `elif` never hides an option |
| App.FlagValueAfterPrefix | app.py:87-93 | behind either prefix, `split("=")[1]` is the text up to the next `=`, so the IndexError branch is never taken |
| App.OptionDefault | app.py:81-94 | with no argument whose value parses, an option keeps its default |
| App.LastParsableWins | app.py:84-94 | the last argument with the prefix whose value parses decides the option |
| App.OptionValueSnoc | app.py:84-94 | one more argument updates the option exactly as the loop body does |
| App.OptionIgnoresOthers | app.py:84-94 | an argument without the prefix does not change the option, wherever it stands |
| App.ParseChunkOptions | app.py:81-94 | the loop gives each option the value that `OptionValue` assigns from the defaults 512 and 50 |
| App.DefaultsWithoutOptions | app.py:81-82 | with no chunk option the values are 512 and 50 |
| App.FlagIntFormat | app.py:85-92 | an option written as the prefix and `str(n)` reads back as n, up to the digit limit named under Left out |
| App.NoRangeCheck | app.py:84-94 | the argv loop takes any two integers as size and overlap, including a negative size or an overlap above the size. What the service does with such values is named under Left out |
| App.IsExitCommand | app.py:42 | `query.lower() in ["exit", "quit", "q"]`. ExitCommandSpelling and ExitCommandExamples give exactly which inputs pass |
| App.ExitCommandSpelling | app.py:42-43 | an input ends the loop exactly when it is `q` (one character) or `exit` or `quit` (four characters), with each letter in either case. So an exit word has one or four characters, and no whitespace around it |
| App.ExitCommandExamples | app.py:42-43 | `Quit`, `EXIT` and `q` exit. `exit ` (with a trailing space), `quits` and the empty line do not |
| App.QueriesBeforeExit | app.py:40-46 | the answered inputs are a prefix of the inputs with no exit word, and the next input, if any, is an exit word |
| App.InteractiveMode | app.py:26-46 | with no index and a failed build, nothing is answered. Otherwise each input before the first exit word gets the answer of the installed index, in order, and the loop reports whether it met an exit word. The loop never loads an index, and it builds at most once, before the first query, and only when no index was installed |
| App.ModelStatus | utils/ollama_utils.py:40-52 | one entry per required model, in order, saying whether the server lists it |
| App.MissingModels | app.py:57-58 | a model is missing exactly when its status is false. The list is empty exactly when every status is true |
| App.MissingModelsInOrder | app.py:58 | the missing models keep the order of the status entries |
| App.CheckEnvironment | app.py:48-66 | the check passes exactly when Ollama runs and every entry of the model status says available |
| App.CheckEnvironmentRequired | app.py:50-66 | for the two configured models the check passes exactly when Ollama runs and lists both |
| App.MainAsWritten | app.py:68-109 | `main` as written. MainAsWrittenNeverDispatches and IndexCommandRaises show that past the status command and the environment check it always raises AttributeError |
| App.MainAsWrittenNeverDispatches | app.py:68-109 | `main` as written never reaches the index build or the interactive loop; past the checks it always raises |
| App.IndexCommandRaises | app.py:96-101 | `python app.py index` with a working environment raises at `analyze_layouts` with the defaults 512 and 50 |
| App.MainIntended | app.py:68-109 | `main` without the missing call never raises the AttributeError |
| App.MainIntendedDispatch | app.py:72-109 | `status` shows the status. Otherwise a failed check stops, `index` builds with the parsed options, and anything else runs the interactive loop |
| App.MainDiscrepancy | app.py:96-109 | wherever the two versions differ, the intended one builds or runs interactively and the written one raises, with the same options |

## Left out

- Printing, the header and `print_response` are left out. They produce only console output, which the model has none of.
- `initialize_settings` is left out. It creates the PDF directory and the index storage directory (app/core/config.py:41-42), which the model takes as given: the directory listing is part of the `Loader`, and the store is what `load_index` returns. It also configures the Ollama client and the embedding model, which are network services.
- The layout analyser (`app/document_processing/layout_analysis.py`) is not part of this model. It only detects layout elements on each page image and saves their crops (`analyze_pdf` and `_analyze_image`); nothing in the code keeps a cache of analysed files or merges layout descriptions into page text. `main` does not call the analyser: it calls `analyze_layouts`, which is defined nowhere (see Findings).
- The chunker (`chunker.py`) and the index store (`index_manager.py`) are not part of this model. Their results are given as functions, and which step raises is a parameter.
- Retrieval and answer synthesis inside the query engine are left out. The engine is a function from an index and a query to an answer with its source nodes.
- PdfLoader.GetPdfFiles: the order of `Path.glob` is taken to be the order of the directory listing given. Hidden-file and case rules of glob matching are not modelled; a name matches when it ends in `.pdf`.
- PdfLoader.PathString: path normalisation by `pathlib` is not modelled. `str(pdf_path)` is the directory, `/` and the name.
- PdfLoader.LoadSinglePdf: exceptions from `clean_text` or `extract_metadata` are not modelled. Those are pure string functions and do not raise.
- Core.RagService.Query: an exception raised by the query engine itself is not modelled. Python lets it propagate, and the model's engine is a total function.
- App.InteractiveMode: end of input, where `input()` raises EOFError, is modelled as the list of inputs running out.
- App.ParseInt: the non-ASCII decimal digits that Python's `int()` also accepts are not modelled. ASCII digits are the only ones read. The limit on the length of integer strings that recent CPython releases enforce (`sys.int_max_str_digits`, 4300 digits by default), beyond which `int()` and `str()` raise ValueError, is not modelled either: the model reads numerals of any length.
- App.ParseIntFormat: holds only up to that digit limit in Python; for an integer of more than 4300 digits, `str(n)` itself raises.
- App.FlagIntFormat: holds only up to the same digit limit, for the same reason.
- App.NoRangeCheck: holds only up to the same digit limit. Values past it are a ValueError and keep the option's previous value.
- Core.RagService.BuildIndex: a `persist` that raises part-way may leave a partly written store. The model records an index as saved only when `persist` completed, and says nothing about the store after a failed `persist`.
- Core.RagService.constructor: creating the chunker at app/core/service.py:24 builds a sentence splitter, which raises ValueError when the overlap exceeds the chunk size. That raise is not modelled; the constructor accepts any two integers.
- App.MainIntended: building the `RAGService` at app.py:96 creates the chunker, whose sentence splitter raises ValueError when the overlap exceeds the chunk size (`--chunk-size=10 --chunk-overlap=50`, say). That outcome is not modelled, because the chunker is not part of this model. App.MainIntendedDispatch, App.MainDiscrepancy and App.MainAsWritten are stated without it: for such options both versions of `main` raise at app.py:96.
- App.ModelStatus: the dictionary is modelled as a list in the order of the required models. For two distinct names, its de-duplication changes nothing.
- `if document:`, `if index:` and `if missing_models:` are modelled as tests for "not None" and "non-empty". A `Document` is always truthy. An index object is taken to be truthy whenever it exists.
- TextUtils.IsWordChar: `\b` in `^by\b` is taken over ASCII word characters. Python's Unicode word characters beyond ASCII are not modelled.
- TextUtils.LowerAscii: case-insensitive matching uses ASCII folding. This is exact for the letters of `author` and `by`: no non-ASCII character folds to one of them under `re.IGNORECASE`. It is also exact for the exit words under `str.lower()`.
- `streamlit_app.py`, the other front end, is not part of this model.

## Findings

| source | as written | input that shows it | evidently intended | confidence | as-written member | corrected member |
|---|---|---|---|---|---|---|
| app.py:99 | after the environment check, `main` calls `rag_service.analyze_layouts()`, which `RAGService` in `app/core/service.py` does not define, so every run past the check raises AttributeError | `python app.py index` with Ollama running and both models present | `main` dispatches to `build_index` for `index` and to the interactive loop otherwise, with the parsed chunk options | not executed | App.MainAsWritten (shown by App.IndexCommandRaises and App.MainAsWrittenNeverDispatches) | App.MainIntended (proved by App.MainIntendedDispatch and App.MainDiscrepancy) |
