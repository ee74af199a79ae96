/**
 * The HTTP layer of the PDF endpoints: id validation before any lookup, the mapping of the
 * service's errors to HTTP errors, and the operating mode reported by the status endpoint.
 */
module PdfRouter {
  import opened Wrappers
  import PdfService
  import Pdflatex

  // ---------------------------------------------------------------------------
  // Id validation

  predicate IsLowerHex(c: char) {
    ('0' <= c <= '9') || ('a' <= c <= 'f')
  }

  /** The intended shape of an id: 36 characters, dashes at 8, 13, 18 and 23, lowercase
      hexadecimal digits everywhere else. */
  predicate UuidShape(s: string) {
    && |s| == 36
    && (forall i :: 0 <= i < 36 ==> (s[i] == '-' <==> i in {8, 13, 18, 23}))
    && (forall i :: 0 <= i < 36 && i !in {8, 13, 18, 23} ==> IsLowerHex(s[i]))
  }

  /** The lengths of the hexadecimal groups of the pattern, separated by `-`. */
  const GROUPS: seq<nat> := [8, 4, 4, 4, 12]

  /** `[0-9a-f]{n}` at `i`. */
  predicate HexRun(s: string, i: nat, n: nat) {
    i + n <= |s| && forall j :: i <= j < i + n ==> IsLowerHex(s[j])
  }

  /** `$` at `i`, as Python's `re` reads it: the end of the text, or just before a final line break. */
  predicate AtEnd(s: string, i: nat) {
    i == |s| || (i + 1 == |s| && s[i] == '\n')
  }

  /** The rest of the pattern from `i`: the remaining groups separated by `-`, then `$`. */
  predicate MatchGroups(s: string, i: nat, groups: seq<nat>)
    decreases |groups|
  {
    if groups == [] then AtEnd(s, i)
    else
      && HexRun(s, i, groups[0])
      && (if |groups| == 1 then MatchGroups(s, i + groups[0], [])
          else i + groups[0] < |s| && s[i + groups[0]] == '-' && MatchGroups(s, i + groups[0] + 1, groups[1..]))
  }

  /** `UUID_PATTERN.match(s)` succeeds. */
  predicate Matches(s: string) {
    MatchGroups(s, 0, GROUPS)
  }

  /** The pattern accepts exactly the ids of the intended shape, and the same ids followed by one line break. */
  lemma MatchesIff(s: string)
    ensures Matches(s) <==> UuidShape(s) || (|s| == 37 && s[36] == '\n' && UuidShape(s[..36]))
  {
    var G := GROUPS;
    assert G[1..] == [4, 4, 4, 12] && G[1..][1..] == [4, 4, 12] && G[1..][1..][1..] == [4, 12];
    assert G[1..][1..][1..][1..] == [12];
    if Matches(s) {
      assert HexRun(s, 0, 8) && s[8] == '-' && HexRun(s, 9, 4) && s[13] == '-' && HexRun(s, 14, 4);
      assert s[18] == '-' && HexRun(s, 19, 4) && s[23] == '-' && HexRun(s, 24, 12) && AtEnd(s, 36);
      var t := s[..36];
      forall i | 0 <= i < 36 && i !in {8, 13, 18, 23} ensures IsLowerHex(t[i]) {
        assert t[i] == s[i];
      }
      forall i | 0 <= i < 36 ensures t[i] == '-' <==> i in {8, 13, 18, 23} {
        assert t[i] == s[i];
      }
      assert UuidShape(t);
      if |s| == 36 {
        assert s == t;
      }
    } else {
      var s' := if |s| == 37 then s[..36] else s;
      if UuidShape(s') && (s' == s || s[36] == '\n') {
        forall i | 0 <= i < 36 ensures s[i] == s'[i] { }
        assert HexRun(s, 24, 12);
        assert MatchGroups(s, 24, [12]);
        assert HexRun(s, 19, 4);
        assert MatchGroups(s, 19, [4, 12]);
        assert HexRun(s, 14, 4);
        assert MatchGroups(s, 14, [4, 4, 12]);
        assert HexRun(s, 9, 4);
        assert MatchGroups(s, 9, [4, 4, 4, 12]);
        assert HexRun(s, 0, 8);
        assert false;
      }
    }
  }

  // ---------------------------------------------------------------------------
  // Error mapping

  /** How a handler's call into the service ended: a value, an HTTP error, or any other exception. */
  datatype Outcome<T> = Returned(value: T) | HttpError(status: int, detail: string) | OtherError(message: string)

  /** An HTTP error from the service, as the handler sees it. */
  function FromReply<T>(r: PdfService.Reply<T>): (o: Outcome<T>)
    ensures r.Ok? <==> o.Returned?
    ensures r.Ok? ==> o.value == r.value
    ensures r.HttpError? ==> o == HttpError(r.status, r.detail)
  {
    match r
    case Ok(v) => Returned(v)
    case HttpError(status, detail) => HttpError(status, detail)
  }

  /** The handler's `except` clauses: an HTTP error is re-raised as it is, any other exception
      becomes a 500 whose detail starts with `context`. */
  function Propagate<T>(o: Outcome<T>, context: string): (r: Outcome<T>)
    ensures !r.OtherError?
    ensures o.Returned? || o.HttpError? ==> r == o
    ensures o.OtherError? ==> r.HttpError? && r.status == 500 && r.detail == context + o.message
  {
    match o
    case OtherError(message) => HttpError(500, context + message)
    case _ => o
  }

  /** Re-raising through a second handler changes nothing. */
  lemma PropagateIdempotent<T>(o: Outcome<T>, context: string, context': string)
    ensures Propagate(Propagate(o, context), context') == Propagate(o, context)
  {
  }

  /** The 400 raised for an id that does not match. */
  const INVALID_ID := "ID de archivo inválido, debe ser un UUID"

  /** `descargar_pdf`: a non-matching id is rejected with 400 before the registry is consulted;
      otherwise the service's answer, with its errors passed through. */
  function Download(store: PdfService.ArtifactStore, id: string, fileSize: string -> Option<nat>): (r: Outcome<PdfService.Download>)
    reads store
    ensures !Matches(id) ==> r == HttpError(400, INVALID_ID)
    ensures Matches(id) ==> r == FromReply(store.Retrieve(id, fileSize))
  {
    if !Matches(id) then HttpError(400, INVALID_ID)
    else Propagate(FromReply(store.Retrieve(id, fileSize)), "Error al descargar archivo: ")
  }

  /** `obtener_info_archivo`: the same gate, then the service's description of the entry. */
  function Info(store: PdfService.ArtifactStore, id: string): (r: Outcome<PdfService.Entry>)
    reads store
    ensures !Matches(id) ==> r == HttpError(400, INVALID_ID)
    ensures Matches(id) ==> r == FromReply(store.FileInfo(id))
  {
    if !Matches(id) then HttpError(400, INVALID_ID)
    else Propagate(FromReply(store.FileInfo(id)), "Error al obtener información: ")
  }

  /** The rejection does not depend on the registry: two stores answer a non-matching id alike. */
  lemma RejectionIgnoresStore(a: PdfService.ArtifactStore, b: PdfService.ArtifactStore, id: string,
                              fileSize: string -> Option<nat>)
    requires !Matches(id)
    ensures Download(a, id, fileSize) == Download(b, id, fileSize) == HttpError(400, INVALID_ID)
    ensures Info(a, id) == Info(b, id) == HttpError(400, INVALID_ID)
  {
  }

  /** A matching id that is registered is never answered with 404. */
  lemma RegisteredIdIsFound(store: PdfService.ArtifactStore, id: string, fileSize: string -> Option<nat>)
    requires Matches(id) && id in store.files
    ensures Download(store, id, fileSize) != HttpError(404, "Archivo no encontrado")
    ensures Info(store, id).Returned?
  {
  }

  // ---------------------------------------------------------------------------
  // Status

  /** The mode reported by the status endpoint. */
  function Mode(forceLatexOnly: bool, available: bool): (mode: string)
    ensures forceLatexOnly ==> mode == "latex_only (forced)"
    ensures !forceLatexOnly ==> (mode == "pdf_generation" <==> available)
    ensures !forceLatexOnly && !available ==> mode == "latex_only"
  {
    if forceLatexOnly then "latex_only (forced)"
    else if available then "pdf_generation"
    else "latex_only"
  }

  /** The mode says `pdf_generation` exactly when generation would attempt a compile without forcing it. */
  lemma ModeMatchesGeneration(cfg: PdfService.Config, available: bool)
    requires !cfg.forcePdf
    ensures Mode(cfg.forceLatexOnly, available) == "pdf_generation" <==> PdfService.AttemptsCompile(cfg, available)
  {
  }

  /** `pdflatex_status`: asks the locator (even when LaTeX-only is forced) and reports its answer
      with the mode. */
  method PdflatexStatus(locator: Pdflatex.ToolchainLocator, probe: string -> Pdflatex.ProbeOutcome, cfg: PdfService.Config)
    returns (available: bool, mode: string)
    modifies locator
    ensures locator.cache == Some(available)
    ensures old(locator.cache).Some? ==> available == old(locator.cache).value
    ensures old(locator.cache).None? ==> available == (Pdflatex.FirstSuccess(probe) < |Pdflatex.CANDIDATES|)
    ensures old(locator.cache).Some? ==> locator.probed == old(locator.probed)
    ensures old(locator.cache).None? ==> locator.probed == old(locator.probed) + Pdflatex.Searched(probe)
    ensures mode == Mode(cfg.forceLatexOnly, available)
  {
    available := locator.IsAvailable(probe);
    mode := Mode(cfg.forceLatexOnly, available);
  }
}
