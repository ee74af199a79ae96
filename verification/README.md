# LaTeX-to-PDF backend: normaliser, artifact registry, toolchain locator, id gate

This Dafny project models the core of a small web backend. The backend turns LaTeX text into a
downloadable PDF, or into a downloadable `.tex` file when no PDF can be produced. The model has
four parts, one module each:

- **`LatexService`: the document normaliser (`normalizar_latex`).** It takes any text and
  returns a document that has a `\documentclass` declaration and a `\begin{document}` /
  `\end{document}` pair.
  - `Normalize` is its specification as a function, covering the three cases.
  - `NormalizeLatex` and `SplitPreamble` are the procedure as the service runs it. The
    preamble/body split is a loop with an "in preamble" flag, and the result is built by
    appending.
  - `Text` holds the Python string operations it relies on: `strip`, `in`/`find`,
    `startswith`, `splitlines`, `'\n'.join` and slicing.
- **`Pdflatex`: the toolchain locator.** `ToolchainLocator` holds the module-level
  availability cache, which is unset until the first search.
  - `IsAvailable` is the memoised first-success search over the eight known locations.
  - `VerifyPaths` builds the per-location report.
  - Running a program is a probe function given as a parameter.
- **`PdfService`: the artifact registry `PDF_FILES`.** `ArtifactStore.files` maps an id to an
  entry (`latex`, `is_latex_only`, `compile_dir`, `path`). `ArtifactStore.dirs` is the set of
  compile directories present on disk.
  - `Generate` is generation. It records the entry first and then may compile (`Compile`).
  - `Retrieve` is the download decision.
  - `FileInfo` is the info copy.
  - `Expire` is the expiry that runs when the TTL has passed.
  - What the filesystem and `pdflatex` do is an input (`CompileEnv`, a file-size function). So
    are the new id and whether removing a directory fails.
- **`PdfRouter`: the HTTP layer.**
  - The `UUID_PATTERN` gate in front of download and info, with Python's `$` semantics.
  - The mapping of service errors to HTTP errors.
  - The mode reported by the status endpoint.

## Model

| member | source | states |
|---|---|---|
| Text.Strip | app/services/latex_service.py:10 | `strip()`: the result is no longer than the input and neither starts nor ends with whitespace |
| Text.StripRemovesOnlySurroundingSpaces | app/services/latex_service.py:10 | `strip()` removes only whitespace, and only at the ends: the result occurs in the input with nothing but whitespace before and after it |
| Text.StripIdempotent | app/services/latex_service.py:10 | stripping twice is stripping once |
| Text.StripKeepsMarker | app/services/latex_service.py:13-15 | stripping never removes a marker whose first and last characters are not whitespace |
| Text.FindFromIsFirst | app/services/latex_service.py:26-27 | `find` returns the first occurrence: an occurrence at or after the start bounds the result from above and makes it non-negative |
| Text.ContainsIff | app/services/latex_service.py:13-15 | `m in s` holds exactly when `m` occurs in `s` at some index |
| Text.SplitLines | app/services/latex_service.py:55 | `splitlines()` returns no lines exactly for the empty text, and no returned line contains a line break |
| Text.NoBreakBeforeFirst | app/services/latex_service.py:55 | there is no line break before the first one `find` reports, and none at all when it reports none |
| Text.FindFrom | app/services/latex_service.py:26-27 | `find` gives -1 or an index at or after the start where the marker occurs; `FindFromIsFirst` adds that it is the first such index |
| Text.Contains | app/services/latex_service.py:13-15 | `m in s`, defined through `find`; `ContainsIff` proves it equivalent to an occurrence at some index, and `StripKeepsMarker` that stripping keeps it |
| Text.Join | app/services/latex_service.py:71-73 | `'\n'.join`; `JoinSplitLines` proves it undoes `SplitLines` for a text not ending in a line break, and `JoinAppend` how it splits over a concatenation |
| Text.JoinSplitLines | app/services/latex_service.py:55-73 | joining the lines of a text that does not end in a line break gives the text back |
| Text.JoinAppend | app/services/latex_service.py:71-73 | joining two non-empty runs of lines puts exactly one line break between their joins |
| Text.Slice | app/services/latex_service.py:29 | Python slicing: within bounds it is the subsequence, and it is empty when the end is not after the start |
| Text.FirstLineIsPrefix | app/utils/pdflatex.py:96 | the first line of a non-empty output is a prefix of it, followed by a line break or by the end of the output |
| LatexService.PreambleLength | app/services/latex_service.py:59-68 | the number of leading preamble lines, at most the number of lines; `PreambleLengthIsLongestRun` proves it is the longest leading run |
| LatexService.PreambleLengthIsLongestRun | app/services/latex_service.py:59-68 | every line before the split point is a preamble line (class line, `%`, `\use`, blank) and the line at it is not |
| LatexService.SplitPreamble | app/services/latex_service.py:55-68 | the loop puts exactly the longest leading run of preamble lines in the preamble and every later line in the body, so preamble and body together are the lines, in order |
| LatexService.Normalize | app/services/latex_service.py:4-81 | `normalizar_latex` as a function, one branch per case of the code; `NormalizeIsComplete`, `NormalizeTwiceOnlyStrips`, `CompleteInputIsFixedPoint` and `NormalizeNotIdempotent` state what it promises |
| LatexService.NormalizeLatex | app/services/latex_service.py:4-81 | the procedure computes `Normalize` and its output always holds all three markers |
| LatexService.CompleteInputIsStripped | app/services/latex_service.py:17-19 | an input whose stripped text has all three markers comes back stripped and otherwise unchanged |
| LatexService.FragmentIsWrapped | app/services/latex_service.py:22-50 | without a document class the output is the article template around the body, and starts with the template head |
| LatexService.FragmentWithoutMarkersKeepsAll | app/services/latex_service.py:30-33 | without both body markers the whole stripped fragment is the body |
| LatexService.FragmentBodyBetweenMarkers | app/services/latex_service.py:24-29 | with both markers the body is the stripped text between the first `\begin{document}` and the first `\end{document}`, and it is empty when the end comes first |
| LatexService.RestructureCase | app/services/latex_service.py:53-55 | with a class but not both body markers, the output is the restructured document, and the stripped input is non-empty and does not end in a line break |
| LatexService.RestructureKeepsLines | app/services/latex_service.py:55-68 | every preamble line is a preamble line, the first body line is not, and joining preamble and body lines gives back the stripped input |
| LatexService.RestructureShape | app/services/latex_service.py:71-76 | the restructured document is the preamble, `\begin{document}` after a line break, a blank line, the body, and `\end{document}` only when the input had none |
| LatexService.RestructureKeepsMarker | app/services/latex_service.py:53-78 | every one-line marker of the input survives restructuring, outside the inserted `\begin{document}` line |
| LatexService.BeginOnlyGivesBeginTwice | app/services/latex_service.py:71-78 | when only `\begin{document}` was present, the output has it at two different positions |
| LatexService.WrapHasClass | app/services/latex_service.py:36-48 | the article template around any body holds `\documentclass` |
| LatexService.WrapHasBegin | app/services/latex_service.py:36-48 | the article template around any body holds `\begin{document}` |
| LatexService.WrapHasEnd | app/services/latex_service.py:36-48 | the article template around any body holds `\end{document}` |
| LatexService.RestructureHasClass | app/services/latex_service.py:55-78 | restructuring keeps the document class |
| LatexService.RestructureHasBegin | app/services/latex_service.py:71-72 | restructuring always yields a `\begin{document}` |
| LatexService.RestructureHasEnd | app/services/latex_service.py:73-76 | restructuring keeps the input's `\end{document}` or appends one |
| LatexService.NormalizeIsComplete | app/services/latex_service.py:17-81 | every output holds all three markers, so the final fall-back return is never reached |
| LatexService.NormalizeTwiceOnlyStrips | app/services/latex_service.py:10-19 | normalising an output again only strips it |
| LatexService.CompleteInputIsFixedPoint | app/services/latex_service.py:17-19 | for an input that is complete once stripped, normalising twice equals normalising once |
| LatexService.NormalizeEndsInLineBreak | app/services/latex_service.py:47-48 | when a document class or `\end{document}` is missing, the output is non-empty and ends in a line break |
| LatexService.NormalizeNotIdempotent | app/services/latex_service.py:47-48 | when a document class or `\end{document}` is missing, the output ends in a line break that a second pass removes, so normalising twice differs from normalising once |
| Pdflatex.FirstSuccessFrom | app/utils/pdflatex.py:23-35 | the index found is a location whose probe exits with 0, or the end of the list |
| Pdflatex.FirstSuccessFromIsFirst | app/utils/pdflatex.py:23-46 | no location before the first success succeeds |
| Pdflatex.FirstSuccessFromUnique | app/utils/pdflatex.py:23-50 | an index preceded only by failing locations, and at a success or at the end, is the one the search finds |
| Pdflatex.AvailableIffSomeSucceeds | app/utils/pdflatex.py:23-50 | `pdflatex` is found exactly when some location's probe exits with 0 |
| Pdflatex.Searched | app/utils/pdflatex.py:23-46 | an uncached search probes a non-empty prefix of the locations; every probed location but the last fails, the last succeeds unless all were probed, and `pdflatex` is found exactly when the last succeeds |
| Pdflatex.ToolchainLocator.constructor | app/utils/pdflatex.py:7 | the cache starts unset and nothing has been probed |
| Pdflatex.ProbedBeforeFirstSuccessFail | app/utils/pdflatex.py:23-46 | every location before the first success fails its probe |
| Pdflatex.ToolchainLocator.IsAvailable | app/utils/pdflatex.py:9-54 | a cached answer is returned with no probing; otherwise exactly the locations of `Searched` are probed, in order, and the answer is whether one succeeded; afterwards the cache holds the answer |
| Pdflatex.ReportFor | app/utils/pdflatex.py:86-115 | the report row for one location's probe; `ReportFoundIff` states when it is found and what its message is |
| Pdflatex.ReportFoundIff | app/utils/pdflatex.py:93-97 | a location is reported found exactly when it exits with 0 and prints something; the message is then its first output line: a prefix of the output with no line break, followed by a line break or the end |
| Pdflatex.VerifyPaths | app/utils/pdflatex.py:82-117 | one report per location, in order, each the report for that location's probe |
| Pdflatex.ReportFoundMeansAvailable | app/utils/pdflatex.py:86-97 | a location the report finds makes the availability search succeed at it or before it |
| Pdflatex.SilentSuccessIsNotFound | app/utils/pdflatex.py:93-115 | a location that exits with 0 but prints nothing counts as available, yet the report lists it as not found |
| PdfService.PdflatexCommand | app/services/pdf_service.py:78-94 | the command line of each mode; `CommandShape` states its shape |
| PdfService.CommandShape | app/services/pdf_service.py:78-94 | both modes run `pdflatex -interaction=nonstopmode -output-directory <dir> ... <dir>/documento.tex`; only the simple mode adds `-no-shell-escape` |
| PdfService.CompiledEntry | app/services/pdf_service.py:62-175 | the entry after a compile attempt; `PromotedIff`, `CompileDirIff`, `FailedSecondPassKeepsLatexOnly` and `EmptyPdfIsPromoted` state when it is promoted and when it records its directory |
| PdfService.GeneratedEntry | app/services/pdf_service.py:41-175 | the entry generation records: the compile result when a compile is attempted, otherwise the LaTeX-only entry; `GeneratedIsWellFormed` proves it well-formed |
| PdfService.GeneratedIsWellFormed | app/services/pdf_service.py:41-148 | generation records the normalised LaTeX, and the entry has a path exactly when it is not LaTeX-only, and a compile directory when it has a path |
| PdfService.PromotedIff | app/services/pdf_service.py:128-148 | an entry leaves LaTeX-only mode exactly when a compile was attempted and set up, every pass completed and a PDF was found; its path is that PDF |
| PdfService.CompileDirIff | app/services/pdf_service.py:62-75 | the compile directory is recorded exactly when a compile was attempted and the `.tex` file was written, whatever the passes did |
| PdfService.FailedSecondPassKeepsLatexOnly | app/services/pdf_service.py:117-170 | in normal mode a failing second pass leaves the entry LaTeX-only with its directory, even after a successful first pass |
| PdfService.EmptyPdfIsPromoted | app/services/pdf_service.py:131-148 | an empty `documento.pdf` fails the size check but the `*.pdf` listing finds it, so the entry is promoted anyway |
| PdfService.LogTail | app/services/pdf_service.py:156 | the log excerpt is a suffix of the log of at most 500 characters, the whole log when it is short enough |
| PdfService.TrimForDisplay | app/services/pdf_service.py:439 | a short LaTeX text is shown whole; a longer one as its first 500 characters and `...`, 503 characters in all |
| PdfService.TrimForDisplayFixedPoints | app/services/pdf_service.py:439 | the trimming leaves a text unchanged exactly when it has at most 500 characters, or 503 ending in `...` |
| PdfService.ArtifactStore.constructor | app/config.py:77 | the registry starts empty |
| PdfService.ArtifactStore.Generate | app/services/pdf_service.py:18-184 | the id given is returned and its entry is the one `GeneratedEntry` describes for the locator's answer. That answer is the cached one if there was one, and otherwise whether some location succeeds, with exactly the locations of `Searched` probed. When LaTeX-only is forced the locator is untouched. A compile directory appears only for an attempted compile. Well-formedness of the registry is kept |
| PdfService.ArtifactStore.Compile | app/services/pdf_service.py:62-175 | a compile attempt replaces the LaTeX-only entry by `CompiledEntry` and creates the directory unless `mkdir` failed |
| PdfService.ArtifactStore.Retrieve | app/services/pdf_service.py:200-259 | 404 exactly for an unknown id. The PDF exactly when the entry is not LaTeX-only, has a path and that file is larger than 100 bytes. Otherwise the LaTeX whenever the entry has it, or 500 when there is none |
| PdfService.ArtifactStore.FileInfo | app/services/pdf_service.py:431-439 | 404 exactly for an unknown id, otherwise the entry with its LaTeX trimmed for display and every other field unchanged |
| PdfService.ArtifactStore.Expire | app/services/pdf_service.py:261-285 | an unknown id changes nothing. A compiled entry's existing directory is removed, and the entry is deleted unless that removal fails. No other entry changes |
| PdfService.ValidStoreNeverFails | app/services/pdf_service.py:230-259 | a registered id of a well-formed registry is always answered with a file, never 500 |
| PdfService.SmallPdfServedAsTex | app/services/pdf_service.py:209-232 | a promoted entry whose PDF is at most 100 bytes or missing is answered with its LaTeX |
| PdfService.LatexOnlyKeepsDirectory | app/services/pdf_service.py:276-279 | expiry never removes the compile directory of a LaTeX-only entry |
| PdfRouter.Matches | app/routers/pdf_router.py:11 | `UUID_PATTERN.match`, group by group, with `$` as Python reads it; `MatchesIff` characterises it against `UuidShape` |
| PdfRouter.MatchesIff | app/routers/pdf_router.py:11 | the pattern accepts exactly 8-4-4-4-12 lowercase hexadecimal ids, and those ids followed by one line break |
| PdfRouter.FromReply | app/routers/pdf_router.py:54-57 | a service answer is returned and a service HTTP error keeps its status and detail |
| PdfRouter.Propagate | app/routers/pdf_router.py:55-60 | an HTTP error is re-raised unchanged, any other exception becomes a 500 with the handler's detail prefix, and nothing else escapes |
| PdfRouter.PropagateIdempotent | app/routers/pdf_router.py:127-132 | passing an outcome through a second handler changes nothing |
| PdfRouter.Download | app/routers/pdf_router.py:47-60 | a non-matching id gets 400 before the registry is consulted; a matching one gets the service's answer |
| PdfRouter.Info | app/routers/pdf_router.py:118-132 | a non-matching id gets 400 before the registry is consulted; a matching one gets the service's description |
| PdfRouter.RejectionIgnoresStore | app/routers/pdf_router.py:119-121 | the rejection of a non-matching id is the same whatever the registry holds |
| PdfRouter.RegisteredIdIsFound | app/routers/pdf_router.py:52-57 | a matching, registered id is never answered with 404 |
| PdfRouter.Mode | app/routers/pdf_router.py:71-76 | forced LaTeX-only reports `latex_only (forced)`; otherwise `pdf_generation` exactly when available, else `latex_only` |
| PdfRouter.ModeMatchesGeneration | app/routers/pdf_router.py:73-76 | without forced compilation, the mode says `pdf_generation` exactly when generation would attempt a compile |
| PdfRouter.PdflatexStatus | app/routers/pdf_router.py:62-83 | the locator is always consulted, even when LaTeX-only is forced; a cached answer probes nothing, otherwise exactly the locations of `Searched` are probed; its answer and the matching mode are reported |

## Behaviour worth knowing

Several behaviours of the code are easy to get wrong when reading it quickly. The model follows
the code in each of them.

- **The normaliser is not idempotent.** Both the article template and the appended
  `\end{document}` end in a line break, and a second pass strips it.
  `NormalizeNotIdempotent` proves that normalising twice differs from normalising once in
  those cases. `NormalizeTwiceOnlyStrips` proves that the second pass only strips.
- **A compile directory is recorded only once the `.tex` file is written.** A failed `mkdir`
  or write leaves the entry without one (`CompileDirIff`).
- **Expiry removes only the directories of compiled entries.** The directory of a failed
  compile stays on disk (`LatexOnlyKeepsDirectory`).
- **A failing directory removal keeps the entry.** The removal and the deletion of the entry
  share one `try`, so the deletion is skipped (`Expire`).
- **`-no-shell-escape` is passed only in simple mode** (`CommandShape`).
- **A failing second pass is fatal to the PDF.** It raises under `check=True`, and the entry
  stays LaTeX-only (`FailedSecondPassKeepsLatexOnly`).
- **A missing compiler does not clear the locator's cache.** The handler writes a global of
  the service module, not the locator's cache. The model has no such write.

## Left out

- **Text.Strip:** whitespace is the ASCII part of Python's `str.isspace`. Non-ASCII spaces
  are not stripped.
- **Text.SplitLines:** `'\n'` is the only line boundary. Python also splits on `\r`, `\r\n`,
  `\v`, `\f`, `\x1c`-`\x1e`, `\x85`, `\u2028` and `\u2029`.
- **Pdflatex.ReportFoundIff:** inherits the `Text.SplitLines` limitation above. A first line
  ending in `\r` keeps it.
- **PdfService.ArtifactStore.Generate, the id:** the id is a parameter, because `uuid4` is
  randomness. As in the code, an id already present would be overwritten, so no freshness is
  assumed.
- **PdfService.ArtifactStore.Generate, expiry scheduling:** scheduling expiry as a background
  task is not modelled. Expiry is the explicit `Expire` call.
- **PdfService.ArtifactStore.Generate, outer handler:** the outer handler that turns an
  unexpected exception into a 500 (app/services/pdf_service.py:182-184) has no reachable cause
  in the model.
- **PdfService.ArtifactStore.Compile, failure kinds:** every failure of a pass ends the same
  way, so all of them become one `PassOutcome` that is not `ExitZero`. These are a non-zero
  exit, a missing compiler, a timeout and any other exception from `subprocess`.
- **PdfService.ArtifactStore.Compile, logging:** the decoded stdout and stderr, and the build
  log read at app/services/pdf_service.py:150-157, only feed log lines. `LogTail` models the
  excerpt.
- **PdfService.ArtifactStore.Compile, the handler's global write:** the missing-compiler
  handler's write to the service module's own globals (app/services/pdf_service.py:165-166) is
  not modelled, as it changes nothing that is read.
- **PdfService.ArtifactStore.Retrieve, response failure:** a failure to build the PDF response
  falls back to the LaTeX (app/services/pdf_service.py:222-224); this is not modelled.
- **PdfService.ArtifactStore.Retrieve, how the `.tex` is delivered:** a temporary `.tex` file
  and the plain-text fallback deliver the same LaTeX. Both are `TexFile`.
- **PdfService.ArtifactStore.FileInfo:** the compile-directory listing and the last 20 log
  lines (app/services/pdf_service.py:441-468) are filesystem reads and are not modelled.
- **PdfService.ArtifactStore.Expire:** the `asyncio.sleep` delay and the TTL value are not
  modelled. The method is what happens once the delay has passed.
- **Pdflatex.ToolchainLocator.IsAvailable:** the outer handler (app/utils/pdflatex.py:51-54)
  can only be reached by a failure of logging, and is not modelled. The found version line is
  only logged.
- **Pdflatex.ToolchainLocator.IsAvailable, repeated probes:** a probe is a function of the
  location. Two probes of the same location within one search would agree, but the eight
  locations are distinct.
- **Concurrency:** concurrent requests and background tasks sharing the registry are not
  modelled. Each method runs alone.
- **Other parts of the repository** are not part of this model. These are:
  - The text-to-LaTeX conversion through an external generative API
    (app/services/ai_service.py, app/routers/conversion_router.py and
    app/services/latex_service.py:83-140).
  - The legacy standalone app (main.py).
  - The health endpoints.
  - The start-up purge of the temporary directory (app/services/pdf_service.py:287-299).
  - The diagnostics (`run_test_pdflatex`, `get_system_info`, `diagnosticar_pdflatex`).
  - The router's generation, test and diagnostics endpoints.
  - Environment loading in app/config.py. The switches are the `Config` parameter, with
    `DEFAULT_CONFIG` holding the defaults.
