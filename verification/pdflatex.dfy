/**
 * The toolchain locator: which of the known `pdflatex` locations answers `--version`.
 *
 * Running a candidate is outside the model; a probe function says what running
 * `<path> --version` produced. `ToolchainLocator` holds the module-level availability cache,
 * which is unset until the first search writes it; `VerifyPaths` is the per-candidate report.
 */
module Pdflatex {
  import opened Wrappers
  import opened Text

  /** The locations tried, in order. */
  const CANDIDATES: seq<string> := [
    "pdflatex",
    "/usr/bin/pdflatex",
    "/usr/local/bin/pdflatex",
    "/usr/texbin/pdflatex",
    "/bin/pdflatex",
    "/opt/homebrew/bin/pdflatex",
    "C:\\texlive\\2023\\bin\\win32\\pdflatex.exe",
    "C:\\Program Files\\MiKTeX\\miktex\\bin\\x64\\pdflatex.exe"
  ]

  /** What running `<path> --version` (with a 5-second timeout) produced. */
  datatype ProbeOutcome =
    | Exited(code: int, stdout: string, stderr: string)
    | NotFound
    | TimedOut
    | Failed(message: string)

  /** The probe ran and exited with status 0. */
  predicate Succeeds(o: ProbeOutcome) {
    o.Exited? && o.code == 0
  }

  /** The index of the first candidate at or after `i` whose probe succeeds, or `|paths|`. */
  function FirstSuccessFrom(paths: seq<string>, probe: string -> ProbeOutcome, i: nat): (k: nat)
    requires i <= |paths|
    ensures i <= k <= |paths|
    ensures k < |paths| ==> Succeeds(probe(paths[k]))
    decreases |paths| - i
  {
    if i == |paths| then i
    else if Succeeds(probe(paths[i])) then i
    else FirstSuccessFrom(paths, probe, i + 1)
  }

  /** The index of the first candidate whose probe succeeds, or `|CANDIDATES|` when none does. */
  function FirstSuccess(probe: string -> ProbeOutcome): nat {
    FirstSuccessFrom(CANDIDATES, probe, 0)
  }

  /** No candidate before the first success succeeds. */
  lemma {:induction false} FirstSuccessFromIsFirst(paths: seq<string>, probe: string -> ProbeOutcome, i: nat, j: nat)
    requires i <= |paths| && i <= j < FirstSuccessFrom(paths, probe, i)
    ensures !Succeeds(probe(paths[j]))
    decreases |paths| - i
  {
    if j > i {
      FirstSuccessFromIsFirst(paths, probe, i + 1, j);
    }
  }

  /** Conversely, an index after only failing candidates and at a success (or at the end) is the first success. */
  lemma {:induction false} FirstSuccessFromUnique(paths: seq<string>, probe: string -> ProbeOutcome, i: nat, k: nat)
    requires i <= k <= |paths|
    requires forall j :: i <= j < k ==> !Succeeds(probe(paths[j]))
    requires k < |paths| ==> Succeeds(probe(paths[k]))
    ensures FirstSuccessFrom(paths, probe, i) == k
    decreases k - i
  {
    if i < k {
      FirstSuccessFromUnique(paths, probe, i + 1, k);
    }
  }

  /** `pdflatex` is available exactly when some candidate's probe succeeds. */
  lemma AvailableIffSomeSucceeds(probe: string -> ProbeOutcome)
    ensures FirstSuccess(probe) < |CANDIDATES| <==> exists j :: 0 <= j < |CANDIDATES| && Succeeds(probe(CANDIDATES[j]))
  {
    var k := FirstSuccess(probe);
    forall j | 0 <= j < |CANDIDATES| && Succeeds(probe(CANDIDATES[j])) ensures k <= j {
      if j < k {
        FirstSuccessFromIsFirst(CANDIDATES, probe, 0, j);
      }
    }
  }

  /** The locations an uncached search probes: up to and including the first success, or all of them. */
  function Searched(probe: string -> ProbeOutcome): (probed: seq<string>)
    ensures probed != [] && probed <= CANDIDATES
    ensures forall j :: 0 <= j < |probed| - 1 ==> !Succeeds(probe(probed[j]))
    ensures |probed| < |CANDIDATES| ==> Succeeds(probe(probed[|probed| - 1]))
    ensures FirstSuccess(probe) < |CANDIDATES| <==> Succeeds(probe(probed[|probed| - 1]))
  {
    var k := FirstSuccess(probe);
    ProbedBeforeFirstSuccessFail(probe);
    if k < |CANDIDATES| then CANDIDATES[..k + 1] else CANDIDATES
  }

  /** Every candidate before the first success fails. */
  lemma ProbedBeforeFirstSuccessFail(probe: string -> ProbeOutcome)
    ensures forall j :: 0 <= j < FirstSuccess(probe) ==> !Succeeds(probe(CANDIDATES[j]))
  {
    forall j | 0 <= j < FirstSuccess(probe) ensures !Succeeds(probe(CANDIDATES[j])) {
      FirstSuccessFromIsFirst(CANDIDATES, probe, 0, j);
    }
  }

  /** The memoised availability search (`is_pdflatex_available`). */
  class ToolchainLocator {
    /** The cached answer; unset until the first search. */
    var cache: Option<bool>
    /** Every location probed so far, in order. */
    ghost var probed: seq<string>

    constructor()
      ensures cache == None && probed == []
    {
      cache := None;
      probed := [];
    }

    /** A cached answer is returned without probing. Otherwise the candidates are probed in
        order up to and including the first that exits with 0, and the answer, whether one did,
        is cached. Either way the cache holds the answer afterwards. */
    method IsAvailable(probe: string -> ProbeOutcome) returns (available: bool)
      modifies this
      ensures cache == Some(available)
      ensures old(cache).Some? ==> available == old(cache).value && probed == old(probed)
      ensures old(cache).None? ==>
        var k := FirstSuccess(probe);
        && available == (k < |CANDIDATES|)
        && probed == old(probed) + Searched(probe)
    {
      if cache.Some? {
        return cache.value;
      }
      for i := 0 to |CANDIDATES|
        invariant forall j :: 0 <= j < i ==> !Succeeds(probe(CANDIDATES[j]))
        invariant probed == old(probed) + CANDIDATES[..i]
        invariant cache == None
      {
        var path := CANDIDATES[i];
        probed := probed + [path];
        var outcome := probe(path);
        match outcome {
          case Exited(code, _, _) =>
            if code == 0 {
              FirstSuccessFromUnique(CANDIDATES, probe, 0, i);
              assert CANDIDATES[..i + 1] == CANDIDATES[..i] + [path];
              cache := Some(true);
              return true;
            }
          case NotFound =>
          case TimedOut =>
          case Failed(_) =>
        }
      }
      FirstSuccessFromUnique(CANDIDATES, probe, 0, |CANDIDATES|);
      assert CANDIDATES[..|CANDIDATES|] == CANDIDATES;
      cache := Some(false);
      return false;
    }
  }

  /** One row of the per-location report: the location, whether it answered, and a message. */
  datatype PathReport = PathReport(path: string, found: bool, message: string)

  /** The report for one location: on exit 0 the first line of the output, otherwise the
      error output; a missing program, a timeout or any other error has a fixed or the error's
      message. Exit 0 with no output at all has no first line: the lookup fails and is
      reported like any other error, with Python's message for it. */
  function ReportFor(path: string, o: ProbeOutcome): PathReport {
    match o
    case Exited(code, stdout, stderr) =>
      if code == 0 then
        var lines := SplitLines(stdout);
        if lines == [] then PathReport(path, false, "list index out of range")
        else PathReport(path, true, lines[0])
      else PathReport(path, false, stderr)
    case NotFound => PathReport(path, false, "Archivo no encontrado")
    case TimedOut => PathReport(path, false, "Timeout al ejecutar")
    case Failed(message) => PathReport(path, false, message)
  }

  /** A location is reported as found exactly when its probe exited with 0 and printed something,
      and its message is then the first line of what it printed. */
  lemma ReportFoundIff(path: string, o: ProbeOutcome)
    ensures ReportFor(path, o).path == path
    ensures ReportFor(path, o).found <==> Succeeds(o) && o.stdout != ""
    ensures ReportFor(path, o).found ==> StartsWith(o.stdout, ReportFor(path, o).message)
    ensures ReportFor(path, o).found ==>
              var line := ReportFor(path, o).message;
              && '\n' !in line
              && (|line| == |o.stdout| || o.stdout[|line|] == '\n')
  {
    match o
    case Exited(code, stdout, _) =>
      if code == 0 && stdout != "" {
        FirstLineIsPrefix(stdout);
      }
    case NotFound =>
    case TimedOut =>
    case Failed(_) =>
  }

  /** `verify_pdflatex_paths`: probes every location, in order, and reports on each. */
  method VerifyPaths(probe: string -> ProbeOutcome) returns (results: seq<PathReport>)
    ensures |results| == |CANDIDATES|
    ensures forall i :: 0 <= i < |CANDIDATES| ==> results[i] == ReportFor(CANDIDATES[i], probe(CANDIDATES[i]))
  {
    results := [];
    for i := 0 to |CANDIDATES|
      invariant |results| == i
      invariant forall j :: 0 <= j < i ==> results[j] == ReportFor(CANDIDATES[j], probe(CANDIDATES[j]))
    {
      var path := CANDIDATES[i];
      var report: PathReport;
      match probe(path) {
        case Exited(code, stdout, stderr) =>
          if code == 0 {
            var lines := SplitLines(stdout);
            if lines == [] {
              report := PathReport(path, false, "list index out of range");
            } else {
              report := PathReport(path, true, lines[0]);
            }
          } else {
            report := PathReport(path, false, stderr);
          }
        case NotFound =>
          report := PathReport(path, false, "Archivo no encontrado");
        case TimedOut =>
          report := PathReport(path, false, "Timeout al ejecutar");
        case Failed(message) =>
          report := PathReport(path, false, message);
      }
      results := results + [report];
    }
  }

  /** The two searches agree one way: a location the report finds makes the availability search succeed,
      at that location or an earlier one. */
  lemma ReportFoundMeansAvailable(probe: string -> ProbeOutcome, i: nat)
    requires i < |CANDIDATES| && ReportFor(CANDIDATES[i], probe(CANDIDATES[i])).found
    ensures FirstSuccess(probe) <= i
  {
    ReportFoundIff(CANDIDATES[i], probe(CANDIDATES[i]));
    if FirstSuccess(probe) > i {
      FirstSuccessFromIsFirst(CANDIDATES, probe, 0, i);
    }
  }

  /** The other way they can disagree: a location that exits with 0 but prints nothing makes
      `pdflatex` available, yet the report lists it as not found. */
  lemma SilentSuccessIsNotFound(probe: string -> ProbeOutcome, i: nat)
    requires i < |CANDIDATES| && probe(CANDIDATES[i]) == Exited(0, "", "")
    ensures FirstSuccess(probe) <= i
    ensures !ReportFor(CANDIDATES[i], probe(CANDIDATES[i])).found
  {
    if FirstSuccess(probe) > i {
      FirstSuccessFromIsFirst(CANDIDATES, probe, 0, i);
    }
  }
}
