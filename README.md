# Gradio_bot corpus builders and summarizer, modelled in Dafny

Gradio_bot builds a text corpus from a code repository and then enriches it
with a language model. Four scripts build the corpus:

- `github_parser.py`, `python_file.py` and `md_file.py` walk a GitHub
  repository through the contents API. They wrap each selected file in a
  described block (`The following ... located at {path}\n------\n{content}\n------`)
  and write one single-field CSV row per file.
  - The first script keeps every non-directory item.
  - The second keeps `.py` files and skips excluded folder names.
  - The third keeps `.md` files and never enters `cn`.
- `local_parser.py` walks a local directory. It picks an envelope by the
  file's extension through an `if`/`elif` chain: a described block, or a
  fenced code block such as ```` ```rust:{path}\n{content}\n``` ````.

`summarizer.py` reads such a corpus. For each document not processed yet
and no longer than 32000 characters, it asks the model for a summary, for
questions, and for an answer to each non-blank question line. It then
appends a summary row and one row per question-and-answer pair. Documents
already in the output are skipped, so an interrupted run can be resumed.

The model has one Dafny module per piece of logic:

- `Strings`: the Python string operations used: `split`, `join`, `rstrip`,
  `endswith`, `splitlines`, and `strip` to test for a blank line.
- `Blocks`: the envelopes.
- `GithubUrl`: the address parsing of `get_github_contents`, which the three
  remote scripts share.
- `RepoWalk`: the recursive `process_contents` walk over a listing tree that
  is given as input, plus a reference description of it (leaves, then
  filter, then choose, then wrap).
- `GithubParser`, `PythonFile`, `MdFile`: each script's collector and main
  block.
- `Corpus`: their `write_to_csv`.
- `LocalParser`: `os.path.splitext`, the envelope chain, the walk and
  `write_to_csv`.
- `Summarizer`: `process_row`, `load_processed_contents` and `main`'s loop.
- `Wrappers`: `Option` and `Result`.

The model is stateful where the scripts are:
- The shared `paths` list is a `seq` field of a collector class, extended
  by its methods.
- The processed set and the output file are fields of `Summarizer.Session`.

Each method is proved against a function of its inputs. The properties are
proved about those functions.

## Model

| member | source | states |
|---|---|---|
| Strings.RStripAppend | github_parser.py:9 | Appending one more trailing slash does not change what `rstrip('/')` keeps. |
| Strings.RStripIdempotent | github_parser.py:9 | Stripping trailing slashes twice is the same as once. |
| Strings.JoinSplit | github_parser.py:20 | `'/'.join(s.split('/')) == s` for every string. |
| Strings.SplitJoin | github_parser.py:9 | Splitting a join of slash-free pieces gives the pieces back. |
| Strings.SplitLines | summarizer.py:113 | `splitlines` yields break-free lines, and none only for the empty text. |
| Strings.SplitLinesTerminated | summarizer.py:113 | `splitlines` recovers break-free lines written one per line. |
| Blocks.DescribedHolds | github_parser.py:56 | A described block holds the path and the whole content verbatim, each at a fixed offset after the header; its length is fixed by theirs. |
| Blocks.FencedHolds | local_parser.py:18-19 | A fenced block holds the path and the content verbatim and ends with the closing fence. |
| Blocks.OpenFencedHolds | local_parser.py:48-49 | The open `.tsx` fence is non-empty, holds path and content, and ends with the content itself. |
| GithubUrl.ParseParts | github_parser.py:11-23 | `ValueError` exactly for fewer than 5 segments or a host other than `github.com`. An index error exactly for a `tree` segment with fewer than 7 segments. Otherwise owner and repository are segments 3 and 4, and a `tree` segment anywhere gives branch `parts[6]` and subpath `'/'.join(parts[7:])`. |
| GithubUrl.ContentsUrlCases | github_parser.py:9-23 | Every outcome of the address parse: the two errors exactly when their conditions hold, and otherwise the contents address, with or without `?ref=`. |
| GithubUrl.TrailingSlashIgnored | github_parser.py:9 | A trailing slash never changes the outcome. |
| GithubUrl.WebUrlUnstripped | github_parser.py:9 | The page address of a well-formed location survives `rstrip('/')` unchanged. |
| GithubUrl.WebUrlSegments | github_parser.py:9 | The page address of a well-formed location splits into its owner, repository, `tree`, branch and subpath segments. |
| GithubUrl.SegmentsParse | github_parser.py:11-20 | Those segments parse back to the location, unless the owner or repository of a plain address is named `tree`. |
| GithubUrl.RoundTrip | python_file.py:8-21 | Round trip: the page address of a well-formed location yields that location's contents address, unless a plain address's owner or repository is named `tree`. |
| GithubUrl.PlainTreeNameRefused | md_file.py:16-17 | As written, a plain address whose owner or repository is named `tree` gets an index error (see Findings). |
| GithubUrl.ParsePartsIntended | github_parser.py:18-19 | Corrected check, where `tree` must be segment 5: same errors and same owner/repository; a tree reference exactly when segment 5 is `tree`. |
| GithubUrl.SegmentsParseIntended | github_parser.py:15-20 | With the corrected check, the segments of every well-formed location parse back to it. |
| GithubUrl.RoundTripIntended | github_parser.py:18-21 | With the corrected check, every well-formed location round-trips, whatever its names. |
| RepoWalk.Filter | python_file.py:38-40 | Keeps exactly the leaves with no excluded directory name above them, in order. |
| RepoWalk.Chosen | python_file.py:49 | Keeps exactly the leaves the variant wants (any item, or a file whose path has the suffix), in order. |
| RepoWalk.EmitWanted | python_file.py:49-54 | A non-directory item contributes one block with the script's header when wanted, nothing otherwise. |
| RepoWalk.WalkAppend | github_parser.py:40 | The walk over two listings back to back is the two walks back to back. |
| RepoWalk.WalkPrefix | github_parser.py:40-57 | The walk of one more listed item appends that item's documents. |
| RepoWalk.ChosenAppend | python_file.py:35-54 | Choosing distributes over concatenation. |
| RepoWalk.ChosenUnder | python_file.py:44-48 | Choosing leaves moved under a directory is choosing them with the parent path extended by `d/`. |
| RepoWalk.CleanUnder | python_file.py:38-40 | A leaf under `d` is outside every excluded name exactly when `d` is not excluded and the leaf itself is clean. |
| RepoWalk.FilterUnder | md_file.py:40-44 | Nothing below an excluded directory survives the filter; otherwise moving down commutes with filtering. |
| RepoWalk.LeavesFilter | python_file.py:38-48 | Not entering excluded directories during the walk yields exactly the leaves that filtering all leaves afterwards yields. |
| RepoWalk.WalkLeaves | github_parser.py:40-57 | The recursive walk writes one block per wanted leaf outside excluded directories, depth-first in listing order, with path `parent + dirs/ + name`. |
| RepoWalk.WalkDocuments | md_file.py:35-50 | The whole walk equals the reference description: all leaves, minus those under an excluded name, minus unwanted ones, each wrapped. |
| RepoWalk.ChosenAll | github_parser.py:50-57 | The first script wants every leaf. |
| RepoWalk.FilterNone | github_parser.py:44-49 | With nothing excluded every leaf is kept. |
| GithubParser.ContentsCollector.ProcessContents | github_parser.py:35-60 | Appends the walk's documents after what the shared list already held; earlier entries are unchanged. |
| GithubParser.Export | github_parser.py:70-89 | An address error ends the run with no file written; otherwise the rows are the walk's documents, one per row. |
| GithubParser.OneDocumentPerLeaf | github_parser.py:40-60 | One document per non-directory item, in depth-first listing order; the count equals the number of leaves. |
| PythonFile.ContentsCollector.ProcessContents | python_file.py:31-57 | Appends the `.py` walk's documents after what the shared list already held. |
| PythonFile.Export | python_file.py:66-83 | Address errors propagate; otherwise the rows are the `.py` documents for the `--exclude` names. |
| PythonFile.PythonDocuments | python_file.py:35-54 | The documents are exactly those of the files whose path ends in `.py` and that have no excluded directory name above them at any depth, in listing order (both directions). |
| MdFile.ContentsCollector.ProcessContents | md_file.py:31-54 | Appends the `.md` walk's documents after what the shared list already held. |
| MdFile.Export | md_file.py:62-76 | Address errors propagate; otherwise the rows are the `.md` documents with `cn` excluded. |
| MdFile.MarkdownDocuments | md_file.py:35-50 | The documents are exactly those of the files whose path ends in `.md` and that lie outside excluded directories, in listing order (both directions). |
| MdFile.CnNeverEntered | md_file.py:70 | No document of the main block comes from under a `cn` directory at any depth, and a listed `cn` directory contributes nothing. |
| Corpus.WriteToCsv | github_parser.py:62-68 | One single-field row per document, in order. |
| Corpus.RowsRoundTrip | python_file.py:60-64 | Every written row has exactly one field, and reading the first fields back gives the documents. |
| LocalParser.LastBefore | local_parser.py:14 | The index found is -1 or holds the searched character. |
| LocalParser.RFind | local_parser.py:14 | The index found is -1 or holds the searched character. |
| LocalParser.RFindLast | local_parser.py:14 | No occurrence comes after the one found. |
| LocalParser.RFindIs | local_parser.py:14 | An occurrence with none after it is the one found. |
| LocalParser.NonDotInExists | local_parser.py:14 | The scan for a non-dot character succeeds exactly when one exists in the range. |
| LocalParser.ExtensionShape | local_parser.py:14 | An extension is empty, or it is a dot followed by no dot and no slash, and it ends the path. |
| LocalParser.ExtensionOfStem | local_parser.py:14 | Round trip: a stem whose last component holds a non-dot, followed by a dot-and-slash-free suffix starting with a dot, has exactly that suffix as extension. |
| LocalParser.HiddenFileHasNoExtension | local_parser.py:14 | A last component whose only dot is its first character has no extension. |
| LocalParser.NoDotNoExtension | local_parser.py:14 | A last component without a dot has no extension. |
| LocalParser.LookupFirst | local_parser.py:16-51 | The first branch that tests the extension decides. |
| LocalParser.LookupMissing | local_parser.py:50-51 | With no branch testing the extension, the `else` branch decides. |
| LocalParser.LookupIn | local_parser.py:16-51 | The selected envelope is that of a branch testing the extension, or the `else` one. |
| LocalParser.ChainKeysDistinct | local_parser.py:16-49 | No two branches test the same extension, so every branch is reachable. |
| LocalParser.FormatByChain | local_parser.py:16-51 | A tested extension gets its branch's envelope (`.md`/`.txt` described, fourteen tags fenced, `.tsx` open); any other extension, the empty one included, gets the generic described block. |
| LocalParser.DescribedBranches | local_parser.py:16-17 | `.md` and `.txt` get their own headers; the empty extension gets the generic one. |
| LocalParser.WrapHolds | local_parser.py:16-51 | Every envelope is non-empty and holds path and content verbatim; a closed fence ends with the closing fence. |
| LocalParser.FormatHolds | local_parser.py:16-51 | Formatting is total: for any extension the result is non-empty and holds path and content verbatim. |
| LocalParser.TsxFenceUnclosed | local_parser.py:48-49 | As written, `.tsx` gets an opening `typescript` fence that is never closed (see Findings). |
| LocalParser.OnlyTsxOpen | local_parser.py:18-49 | `.tsx` is the only branch whose fence is left open. |
| LocalParser.FencesClosedIntended | local_parser.py:48-49 | With the corrected `.tsx` branch, every envelope is described or ends with the closing fence, and still holds path and content. |
| LocalParser.IntendedOnlyTsx | local_parser.py:18-47 | The correction changes nothing for any extension other than `.tsx`. |
| LocalParser.StepEntriesPrefix | local_parser.py:9-52 | Handling one more file of a directory appends its record. |
| LocalParser.StepEntriesPerFile | local_parser.py:9-52 | One record per file of a directory, the k-th belonging to the k-th file. |
| LocalParser.EntriesPerFile | local_parser.py:8-53 | One record per file of the walk, in walk order. |
| LocalParser.RecordPerFile | local_parser.py:7-53 | Exactly one record per file, in walk order: the envelope chosen by the extension of the file's path relative to the walked root. |
| LocalParser.LocalCollector.ProcessLocalRepo | local_parser.py:7-53 | Appends every file's record after what the shared list already held; earlier entries are unchanged. |
| LocalParser.LocalCollector.ProcessFiles | local_parser.py:9-52 | Appends one directory's records, in file order. |
| LocalParser.WriteToCsv | local_parser.py:55-59 | One single-field row per record, holding its formatted content, in order. |
| LocalParser.Export | local_parser.py:61-70 | The rows written are the walk's records, one per file. |
| Summarizer.NonBlank | summarizer.py:113-115 | Keeps the lines that are not blank after `strip`, drawn from the input. |
| Summarizer.PairsCons | summarizer.py:116-117 | One more answered question adds its pair in front. |
| Summarizer.AnsweredCons | summarizer.py:113-116 | All questions are answered exactly when the first one and all the rest are. |
| Summarizer.QnAByNonBlank | summarizer.py:113-117 | The question loop succeeds exactly when every non-blank line gets an answer, and then holds one `Q: ...\nA: ...` pair per non-blank line, in order. |
| Summarizer.AnswerQuestions | summarizer.py:111-117 | The imperative question loop computes that outcome. |
| Summarizer.OutcomeCases | summarizer.py:97-133 | A row is skipped exactly when its document is processed or too long. It is written exactly when it is not empty, its document is new and at most 32000 characters long, and every model call succeeds. It then writes the summary row first and one row per non-blank question, all starting with the document. |
| Summarizer.OutcomeWritten | summarizer.py:109-121 | A row whose calls all succeed is written with the summary row followed by the pairs. |
| Summarizer.LoadProcessedContents | summarizer.py:136-143 | The empty set when the output is absent; the first fields of its rows otherwise; a failure exactly when some row is empty. |
| Summarizer.Session.ProcessRow | summarizer.py:97-133 | Returns the count plus one and writes the rows only for a written row; returns 1 for a failure, 0 otherwise; the document joins the processed set only when written; an already processed or too long document changes nothing. |
| Summarizer.Session.WriteQna | summarizer.py:120-121 | Appends one row per pair, in order, and leaves the processed set alone. |
| Summarizer.Session.ProcessRows | summarizer.py:164-166 | `main`'s loop threads the processed set, the output and the counters as one replay of the rows. |
| Summarizer.Run | summarizer.py:145-177 | A malformed output file stops the run; otherwise the report is the replay from the loaded processed set and the existing output. |
| Summarizer.ReplayGrows | summarizer.py:164-166 | A run only appends to the output and never forgets a processed document. `row_count` never decreases, and each input row is counted at most once across both counters. |
| Summarizer.FirstFieldsAppend | summarizer.py:140-142 | The first fields of two row lists together are the union of each. |
| Summarizer.StepInSync | summarizer.py:119-123 | One row keeps the processed set equal to the output's first fields. |
| Summarizer.ReplayInSync | summarizer.py:136-166 | A run keeps the processed set equal to the set `load_processed_contents` would read back from the output. |
| Summarizer.StepWritesOnlyNew | summarizer.py:101-123 | One row keeps the existing output and processed set, and writes rows only for a document not processed before it. |
| Summarizer.ReplayWritesOnlyNew | summarizer.py:101-103 | Whatever the model answers, a run keeps the existing output and writes rows only for documents not processed before it. |
| Summarizer.NotDoneStable | summarizer.py:101-107 | A row not written against some processed set is not written against a larger one. |
| Summarizer.ReplaySettles | summarizer.py:101-123 | After a run, no input row of that run would be written again. |
| Summarizer.ReplayQuiet | summarizer.py:164-166 | A run over rows none of which would be written leaves the output and the processed set as they are. |
| Summarizer.RerunWritesNothing | summarizer.py:153-166 | Resuming: a second `main` over the same input, with the same model, starting from what `load_processed_contents` reads back from the output the first run left (and counters at zero), writes nothing more. |

## Left out

- HTTP: every contents listing and download is given as an `Item` tree, with each directory's children and each file's text in place.
  - Failed requests (`raise_for_status`), the JSON decoding, the token and the request headers are not modelled.
  - The address computed by `get_github_contents` is not used to fetch the listing.
- Printing, logging, `argparse` and `sys.argv` handling are not modelled; the arguments of each main block are parameters.
- The model calls of `summarizer.py` are functions given as a parameter that either answer or fail:
  - the prompts, the OpenAI client and the `tenacity` retry policy are not modelled;
  - the retry policy's give-up (`ProcessingError`) and every other exception inside `process_row` collapse into a failure;
  - a `None` message content is not modelled.
- The model is deterministic: the same call gives the same answer. `Summarizer.RerunWritesNothing` uses this; `Summarizer.ReplayWritesOnlyNew` does not.
- `os.walk` is given as the sequence of (directory, files) pairs it yields, with each directory already relative to the walked root.
  - The traversal order, symbolic links and file reading are not modelled.
  - UTF-8 decoding with `errors='ignore'` is not modelled.
- `LocalParser.Extension` follows POSIX `os.path.splitext`, with `/` as the only separator.
- `LocalParser.RelPath` joins the relative directory and the file name and does not normalise `..` or duplicate separators.
- CSV quoting, escaping and `csv.field_size_limit` are not modelled; a row is a sequence of fields, and reading a file back gives the rows written.
- `outfile.flush()`, `KeyboardInterrupt` and the `finally` printing in `main` are not modelled. The loop is modelled as running to the end of the input.
- `LocalParser`'s per-extension lemmas are stated for the described branches (`LocalParser.DescribedBranches`). The fenced branches are stated once for the whole table, by `LocalParser.FormatByChain`, over the constant `Chain` that lists each extension with its tag.
- The mutable default `paths=[]` is a field of a collector object created once per run. Each method's contract shows that later calls append after earlier entries; the scripts call `process_contents` once per run.

## Findings

| source | as written | input that shows it | evidently intended | confidence | as-written member | corrected member |
|---|---|---|---|---|---|---|
| github_parser.py:18-19 | `"tree" in parts` tests every segment, so an owner or repository named `tree` is taken for a `tree` address and `parts[6]` fails (the same code is at python_file.py:16-17 and md_file.py:16-17) | `https://github.com/acme/tree` | test only the segment after the repository name (`parts[5] == "tree"`) | not executed | GithubUrl.PlainTreeNameRefused | GithubUrl.RoundTripIntended |
| local_parser.py:48-49 | the `.tsx` branch opens a ```` ```typescript: ```` fence and never closes it, unlike every other fenced branch | a file `app.tsx` with content `x` | end with a newline and a closing fence of three backquotes, like the other fenced branches | not executed | LocalParser.TsxFenceUnclosed | LocalParser.FencesClosedIntended |
