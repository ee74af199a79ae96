/**
 * The artifact registry of the PDF service: every generated document is recorded under an id,
 * possibly compiled to a PDF, served, described and finally expired.
 *
 * The registry is `ArtifactStore.files`; `ArtifactStore.dirs` is the set of compile directories
 * present on disk. What the filesystem and `pdflatex` do is an input (`CompileEnv`, a file-size
 * function), and so are the new id and the outcome of removing a directory.
 */
module PdfService {
  import opened Wrappers
  import opened Text
  import LatexService
  import Pdflatex

  /** The directory under which every compile directory is created. */
  const TEMP_DIR := "temp"
  /** A PDF must be larger than this many bytes to be served. */
  const MIN_SERVED_SIZE := 100
  /** How much of a build log and of the LaTeX text the diagnostics keep. */
  const DISPLAY_LIMIT := 500

  /** The three switches read from the environment. */
  datatype Config = Config(forceLatexOnly: bool, forcePdf: bool, simple: bool)

  /** LaTeX-only forced, no forced compilation, simple `pdflatex` invocation. */
  const DEFAULT_CONFIG := Config(true, false, true)

  /** One registry entry: the normalised LaTeX, whether only LaTeX can be served, the compile
      directory once the `.tex` file is written, and the PDF once one is found. */
  datatype Entry = Entry(latex: Option<string>, isLatexOnly: bool, compileDir: Option<string>, path: Option<string>)

  /** The entry every generation starts with. */
  function LatexOnly(latex: string): Entry {
    Entry(Some(latex), true, None, None)
  }

  /** An entry as generation leaves it: it has its LaTeX, it has a PDF exactly when it is not
      LaTeX-only, and a PDF lives in a compile directory. */
  predicate WellFormed(e: Entry) {
    && e.latex.Some?
    && (e.isLatexOnly <==> e.path.None?)
    && (e.path.Some? ==> e.compileDir.Some?)
  }

  function CompileDir(id: string): string {
    TEMP_DIR + "/" + id
  }

  function TexPath(dir: string): string {
    dir + "/documento.tex"
  }

  function PdfPath(dir: string): string {
    dir + "/documento.pdf"
  }

  // ---------------------------------------------------------------------------
  // Compilation

  /** Creating the compile directory and writing the `.tex` file into it. */
  datatype Setup = Ready | MkdirFailed | WriteFailed

  /** How one `pdflatex` pass (run with `check=True` and a 30-second timeout) ended. */
  datatype PassOutcome = ExitZero | ExitNonZero(code: int) | CompilerMissing | PassTimedOut | PassCrashed

  /** What the filesystem and the compiler do during one generation: the directory setup, the
      outcome of running a command as pass 1 or 2, the size of `documento.pdf` if it exists, and
      the names `*.pdf` matches in the compile directory, in the order the listing yields them. */
  datatype CompileEnv = CompileEnv(
    setup: Setup,
    run: (nat, seq<string>) -> PassOutcome,
    mainPdfSize: Option<nat>,
    globbed: seq<string>)

  /** The `pdflatex` command line for a compile directory. */
  function PdflatexCommand(simple: bool, dir: string): (cmd: seq<string>) {
    if simple then ["pdflatex", "-interaction=nonstopmode", "-output-directory", dir, "-no-shell-escape", TexPath(dir)]
    else ["pdflatex", "-interaction=nonstopmode", "-output-directory", dir, TexPath(dir)]
  }

  /** Both modes run `pdflatex` non-interactively into the compile directory on the `.tex` file;
      the simple mode differs only by the extra `-no-shell-escape` before the file. */
  lemma CommandShape(simple: bool, id: string)
    ensures var dir := CompileDir(id);
            var cmd := PdflatexCommand(simple, dir);
            && cmd[..4] == ["pdflatex", "-interaction=nonstopmode", "-output-directory", dir]
            && cmd[|cmd| - 1] == TexPath(dir)
            && ("-no-shell-escape" in cmd <==> simple)
    ensures var dir := CompileDir(id);
            PdflatexCommand(true, dir) == PdflatexCommand(false, dir)[..4] + ["-no-shell-escape"] + PdflatexCommand(false, dir)[4..]
  {
    var dir := CompileDir(id);
    var flag := "-no-shell-escape";
    assert dir[0] == 't' && flag[0] == '-';
    assert TexPath(dir)[|TexPath(dir)| - 1] == 'x' && flag[|flag| - 1] == 'e';
    if !simple {
      assert PdflatexCommand(simple, dir) == ["pdflatex", "-interaction=nonstopmode", "-output-directory", dir, TexPath(dir)];
    }
  }

  /** Every pass completes: one in simple mode, two otherwise, both with the same command. */
  predicate PassesSucceed(simple: bool, dir: string, env: CompileEnv) {
    var cmd := PdflatexCommand(simple, dir);
    env.run(1, cmd) == ExitZero && (simple || env.run(2, cmd) == ExitZero)
  }

  /** The PDF a successful compile leaves: `documento.pdf` when it is non-empty, otherwise the
      first name the `*.pdf` listing yields, with no size check. */
  function FoundPdf(dir: string, env: CompileEnv): Option<string> {
    if env.mainPdfSize.Some? && env.mainPdfSize.value > 0 then Some(PdfPath(dir))
    else if env.globbed != [] then Some(dir + "/" + env.globbed[0])
    else None
  }

  /** The entry after a compile attempt in `dir`. */
  function CompiledEntry(latex: string, dir: string, simple: bool, env: CompileEnv): Entry {
    if env.setup != Ready then LatexOnly(latex)
    else if PassesSucceed(simple, dir, env) && FoundPdf(dir, env).Some? then
      Entry(Some(latex), false, Some(dir), FoundPdf(dir, env))
    else Entry(Some(latex), true, Some(dir), None)
  }

  /** A compile is attempted only when LaTeX-only is not forced and `pdflatex` is available or
      compilation is forced. */
  predicate AttemptsCompile(cfg: Config, available: bool) {
    !cfg.forceLatexOnly && (available || cfg.forcePdf)
  }

  /** The entry generation records for `latex` under `id`. */
  function GeneratedEntry(latex: string, id: string, cfg: Config, available: bool, env: CompileEnv): Entry {
    if AttemptsCompile(cfg, available) then CompiledEntry(latex, CompileDir(id), cfg.simple, env)
    else LatexOnly(latex)
  }

  /** Generation records the normalised LaTeX and leaves a well-formed entry. */
  lemma GeneratedIsWellFormed(latex: string, id: string, cfg: Config, available: bool, env: CompileEnv)
    ensures var e := GeneratedEntry(latex, id, cfg, available, env);
            WellFormed(e) && e.latex == Some(latex)
  {
  }

  /** An entry leaves LaTeX-only mode exactly when a compile was attempted, the directory and the
      `.tex` file were written, every pass completed and a PDF was found; its path is then that PDF. */
  lemma PromotedIff(latex: string, id: string, cfg: Config, available: bool, env: CompileEnv)
    ensures var e := GeneratedEntry(latex, id, cfg, available, env);
            && (!e.isLatexOnly <==>
                  AttemptsCompile(cfg, available) && env.setup == Ready
                  && PassesSucceed(cfg.simple, CompileDir(id), env) && FoundPdf(CompileDir(id), env).Some?)
            && (!e.isLatexOnly ==> e.path == FoundPdf(CompileDir(id), env))
  {
  }

  /** A compile directory is recorded only when a compile was attempted and the `.tex` file was
      written; it is then recorded whatever the passes did. */
  lemma CompileDirIff(latex: string, id: string, cfg: Config, available: bool, env: CompileEnv)
    ensures var e := GeneratedEntry(latex, id, cfg, available, env);
            && (e.compileDir.Some? <==> AttemptsCompile(cfg, available) && env.setup == Ready)
            && (e.compileDir.Some? ==> e.compileDir == Some(CompileDir(id)))
  {
  }

  /** In normal mode a failing second pass keeps the entry LaTeX-only even after a successful
      first pass that already produced a PDF. */
  lemma FailedSecondPassKeepsLatexOnly(latex: string, id: string, cfg: Config, available: bool, env: CompileEnv)
    requires AttemptsCompile(cfg, available) && env.setup == Ready && !cfg.simple
    requires env.run(2, PdflatexCommand(false, CompileDir(id))) != ExitZero
    ensures GeneratedEntry(latex, id, cfg, available, env) == Entry(Some(latex), true, Some(CompileDir(id)), None)
  {
  }

  /** A listing consistent with the size check: `documento.pdf` is listed exactly when it exists. */
  predicate ListingAgrees(env: CompileEnv) {
    env.mainPdfSize.Some? <==> "documento.pdf" in env.globbed
  }

  /** An empty `documento.pdf` fails the size check but is still found by the listing, so the entry
      is promoted to a PDF anyway. */
  lemma EmptyPdfIsPromoted(latex: string, id: string, cfg: Config, available: bool, env: CompileEnv)
    requires AttemptsCompile(cfg, available) && env.setup == Ready
    requires PassesSucceed(cfg.simple, CompileDir(id), env)
    requires ListingAgrees(env) && env.mainPdfSize == Some(0)
    ensures !GeneratedEntry(latex, id, cfg, available, env).isLatexOnly
  {
    assert env.globbed != [];
  }

  /** The last characters of a build log shown in diagnostics: at most 500, a suffix of the log,
      the whole log when it is short enough. */
  function LogTail(log: string): (tail: string)
    ensures |tail| <= DISPLAY_LIMIT
    ensures |log| <= DISPLAY_LIMIT ==> tail == log
    ensures |log| > DISPLAY_LIMIT ==> |tail| == DISPLAY_LIMIT
    ensures log == log[..|log| - |tail|] + tail
  {
    if |log| > DISPLAY_LIMIT then log[|log| - DISPLAY_LIMIT..] else log
  }

  // ---------------------------------------------------------------------------
  // Serving and describing

  /** What the service answers, or the HTTP error it raises. */
  datatype Reply<T> = Ok(value: T) | HttpError(status: int, detail: string)

  /** A download: the PDF file, or the LaTeX text as a `.tex` file. */
  datatype Download = PdfFile(path: string) | TexFile(latex: string)

  /** A PDF is served only when it is a file larger than 100 bytes. */
  predicate Servable(size: Option<nat>) {
    size.Some? && size.value > MIN_SERVED_SIZE
  }

  /** The LaTeX shown by the info endpoint: the first 500 characters and `...` when longer. */
  function TrimForDisplay(latex: string): (shown: string)
    ensures |latex| <= DISPLAY_LIMIT ==> shown == latex
    ensures |latex| > DISPLAY_LIMIT ==>
              && |shown| == DISPLAY_LIMIT + 3
              && StartsWith(shown, latex[..DISPLAY_LIMIT])
              && shown[DISPLAY_LIMIT..] == "..."
  {
    if |latex| > DISPLAY_LIMIT then latex[..DISPLAY_LIMIT] + "..." else latex
  }

  /** The trimming leaves a text unchanged exactly when it is short enough, or when it is 503
      characters long and already ends in `...` after its first 500. */
  lemma TrimForDisplayFixedPoints(latex: string)
    ensures TrimForDisplay(latex) == latex
            <==> |latex| <= DISPLAY_LIMIT || (|latex| == DISPLAY_LIMIT + 3 && latex[DISPLAY_LIMIT..] == "...")
  {
    if |latex| == DISPLAY_LIMIT + 3 && latex[DISPLAY_LIMIT..] == "..." {
      assert latex == latex[..DISPLAY_LIMIT] + latex[DISPLAY_LIMIT..];
    }
    if |latex| > DISPLAY_LIMIT && TrimForDisplay(latex) == latex {
      assert latex[DISPLAY_LIMIT..] == TrimForDisplay(latex)[DISPLAY_LIMIT..];
    }
  }

  /** The `PDF_FILES` registry and the compile directories on disk. */
  class ArtifactStore {
    var files: map<string, Entry>
    var dirs: set<string>

    /** Every entry is as generation leaves it. */
    predicate Valid()
      reads this
    {
      forall id :: id in files ==> WellFormed(files[id])
    }

    constructor()
      ensures files == map[] && dirs == {}
      ensures Valid()
    {
      files := map[];
      dirs := {};
    }

    /** `generar_pdf_desde_latex`: records the normalised LaTeX as LaTeX-only under `id` first,
        then, unless LaTeX-only is forced, asks the locator whether `pdflatex` is available and,
        when it is or compilation is forced, tries to compile. The answer is always `id`. */
    method Generate(code: string, id: string, cfg: Config, locator: Pdflatex.ToolchainLocator,
                    probe: string -> Pdflatex.ProbeOutcome, env: CompileEnv) returns (fileId: string)
      modifies this, locator
      ensures fileId == id
      ensures files == old(files)[id := GeneratedEntry(LatexService.Normalize(code), id, cfg, locator.cache == Some(true), env)]
      ensures dirs == old(dirs) + (if AttemptsCompile(cfg, locator.cache == Some(true)) && env.setup != MkdirFailed
                                   then {CompileDir(id)} else {})
      ensures cfg.forceLatexOnly ==> locator.cache == old(locator.cache) && locator.probed == old(locator.probed)
      ensures !cfg.forceLatexOnly && old(locator.cache).Some? ==>
                locator.cache == old(locator.cache) && locator.probed == old(locator.probed)
      ensures !cfg.forceLatexOnly && old(locator.cache).None? ==>
                && locator.cache == Some(Pdflatex.FirstSuccess(probe) < |Pdflatex.CANDIDATES|)
                && locator.probed == old(locator.probed) + Pdflatex.Searched(probe)
      ensures old(Valid()) ==> Valid()
    {
      var latex := LatexService.NormalizeLatex(code);
      files := files[id := LatexOnly(latex)];
      fileId := id;
      if !cfg.forceLatexOnly {
        var available := locator.IsAvailable(probe);
        if available || cfg.forcePdf {
          Compile(id, latex, cfg.simple, env);
        }
      }
      GeneratedIsWellFormed(latex, id, cfg, locator.cache == Some(true), env);
    }

    /** The compile attempt of generation: create the compile directory and write the `.tex`
        file, record the directory, run the passes and, when they all complete and a PDF is
        found, record it and leave LaTeX-only mode. A failure at any step keeps what is already
        recorded. */
    method Compile(id: string, latex: string, simple: bool, env: CompileEnv)
      requires id in files && files[id] == LatexOnly(latex)
      modifies this
      ensures files == old(files)[id := CompiledEntry(latex, CompileDir(id), simple, env)]
      ensures dirs == old(dirs) + (if env.setup != MkdirFailed then {CompileDir(id)} else {})
    {
      assert files == files[id := LatexOnly(latex)];
      var dir := CompileDir(id);
      if env.setup == MkdirFailed {
        return;
      }
      dirs := dirs + {dir};
      if env.setup == WriteFailed {
        return;
      }
      files := files[id := files[id].(compileDir := Some(dir))];
      var cmd := PdflatexCommand(simple, dir);
      if env.run(1, cmd) != ExitZero {
        return;
      }
      if !simple && env.run(2, cmd) != ExitZero {
        return;
      }
      if env.mainPdfSize.Some? && env.mainPdfSize.value > 0 {
        files := files[id := files[id].(path := Some(PdfPath(dir)), isLatexOnly := false)];
      } else if env.globbed != [] {
        files := files[id := files[id].(path := Some(dir + "/" + env.globbed[0]), isLatexOnly := false)];
      }
    }

    /** `obtener_archivo`: 404 for an unknown id; the PDF when the entry is not LaTeX-only, has a
        path and that file is larger than 100 bytes; otherwise the LaTeX; 500 when there is none. */
    function Retrieve(id: string, fileSize: string -> Option<nat>): (r: Reply<Download>)
      reads this
      ensures r == HttpError(404, "Archivo no encontrado") <==> id !in files
      ensures r.Ok? && r.value.PdfFile? <==>
                id in files && !files[id].isLatexOnly && files[id].path.Some? && Servable(fileSize(files[id].path.value))
      ensures r.Ok? && r.value.PdfFile? ==> r.value.path == files[id].path.value
      ensures r.Ok? && r.value.TexFile? ==> id in files && files[id].latex == Some(r.value.latex)
      ensures id in files && files[id].latex.Some?
              && !(!files[id].isLatexOnly && files[id].path.Some? && Servable(fileSize(files[id].path.value)))
              ==> r == Ok(TexFile(files[id].latex.value))
      ensures r == HttpError(500, "Error interno al procesar el archivo") <==> id in files && !r.Ok? && files[id].latex.None?
    {
      if id !in files then HttpError(404, "Archivo no encontrado")
      else
        var e := files[id];
        if !e.isLatexOnly && e.path.Some? && Servable(fileSize(e.path.value)) then Ok(PdfFile(e.path.value))
        else if e.latex.Some? then Ok(TexFile(e.latex.value))
        else HttpError(500, "Error interno al procesar el archivo")
    }

    /** `get_file_info`: 404 for an unknown id, otherwise a copy of the entry with its LaTeX trimmed for display. */
    function FileInfo(id: string): (r: Reply<Entry>)
      reads this
      ensures r.HttpError? <==> id !in files
      ensures r.HttpError? ==> r.status == 404
      ensures r.Ok? ==> && r.value.isLatexOnly == files[id].isLatexOnly
                        && r.value.compileDir == files[id].compileDir
                        && r.value.path == files[id].path
                        && (files[id].latex.Some? <==> r.value.latex.Some?)
                        && (files[id].latex.Some? ==> r.value.latex == Some(TrimForDisplay(files[id].latex.value)))
    {
      if id !in files then HttpError(404, "Archivo no encontrado")
      else
        var e := files[id];
        Ok(if e.latex.Some? then e.(latex := Some(TrimForDisplay(e.latex.value))) else e)
    }

    /** Whether expiring `e` removes its compile directory: only a compiled entry's, and only when the directory exists. */
    predicate RemovesDir(e: Entry)
      reads this
    {
      !e.isLatexOnly && e.compileDir.Some? && e.compileDir.value in dirs
    }

    /** `eliminar_archivo_temporal` once its delay has passed: an unknown id changes nothing;
        otherwise the compile directory is removed when `RemovesDir` holds and the entry is
        deleted. If removing the directory fails, the error is logged and the entry stays. */
    method Expire(id: string, removalFails: bool)
      modifies this
      ensures id !in old(files) ==> files == old(files) && dirs == old(dirs)
      ensures id in old(files) && old(RemovesDir(files[id])) && removalFails ==>
                files == old(files) && dirs == old(dirs)
      ensures id in old(files) && !(old(RemovesDir(files[id])) && removalFails) ==>
                && files == old(files) - {id}
                && dirs == old(dirs) - (if old(RemovesDir(files[id])) then {old(files)[id].compileDir.value} else {})
      ensures forall k :: k != id && k in old(files) ==> k in files && files[k] == old(files)[k]
      ensures old(Valid()) ==> Valid()
    {
      if id in files {
        var e := files[id];
        if RemovesDir(e) {
          if removalFails {
            return;
          }
          dirs := dirs - {e.compileDir.value};
        }
        files := files - {id};
      }
    }
  }

  /** A registry whose entries are all well formed never answers a download with 500. */
  lemma ValidStoreNeverFails(store: ArtifactStore, id: string, fileSize: string -> Option<nat>)
    requires store.Valid() && id in store.files
    ensures store.Retrieve(id, fileSize).Ok?
  {
  }

  /** A served PDF is always larger than 100 bytes, and an entry promoted with a PDF of at most
      100 bytes is answered with its LaTeX. */
  lemma SmallPdfServedAsTex(store: ArtifactStore, id: string, fileSize: string -> Option<nat>)
    requires store.Valid() && id in store.files && !store.files[id].isLatexOnly
    requires !Servable(fileSize(store.files[id].path.value))
    ensures store.Retrieve(id, fileSize) == Ok(TexFile(store.files[id].latex.value))
  {
  }

  /** A LaTeX-only entry never has its compile directory removed at expiry, even when it has one. */
  lemma LatexOnlyKeepsDirectory(store: ArtifactStore, e: Entry)
    requires e.isLatexOnly
    ensures !store.RemovesDir(e)
  {
  }
}
