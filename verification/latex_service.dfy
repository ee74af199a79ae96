/**
 * The document normaliser of the LaTeX service (`normalizar_latex`): it turns any text into one
 * that has a `\documentclass` declaration and a `\begin{document}` / `\end{document}` pair.
 *
 * `Normalize` is the specification: three cases, chosen by which of the three markers the
 * stripped input contains. `NormalizeLatex` is the procedure as the service runs it: the third
 * case walks the lines with an "in preamble" flag and builds the document by appending.
 */
module LatexService {
  import opened Text

  const DOCUMENT_CLASS := "\\documentclass"
  const BEGIN_DOCUMENT := "\\begin{document}"
  const END_DOCUMENT := "\\end{document}"

  /** What follows the class command in the fixed article preamble, up to `\begin{document}`. */
  const ARTICLE_PREAMBLE :=
    "[12pt]{article}\n"
    + "\\usepackage[utf8]{inputenc}\n"
    + "\\usepackage[T1]{fontenc}\n"
    + "\\usepackage{amsmath}\n"
    + "\\usepackage{amssymb}\n"
    + "\\usepackage{graphicx}\n"
    + "\n"
  /** The fixed article preamble wrapped around a fragment that has no document class. */
  const TEMPLATE_HEAD := DOCUMENT_CLASS + ARTICLE_PREAMBLE + BEGIN_DOCUMENT + "\n\n"
  const TEMPLATE_TAIL := "\n\n" + END_DOCUMENT + "\n"

  /** A fragment's body inside the article template. */
  function Wrap(body: string): string {
    TEMPLATE_HEAD + body + TEMPLATE_TAIL
  }

  /** Inserted between the preamble lines and the body lines of a document that has a class. */
  const BODY_OPEN := "\n" + BEGIN_DOCUMENT + "\n\n"
  /** Appended to such a document when it has no `\end{document}`. */
  const BODY_CLOSE := "\n" + END_DOCUMENT + "\n"

  /** A line that keeps the preamble going: the class line, a comment, a `\use...` line or a blank line. */
  predicate IsPreambleLine(line: string) {
    var t := Strip(line);
    StartsWith(t, DOCUMENT_CLASS) || StartsWith(t, "%") || StartsWith(t, "\\use") || t == ""
  }

  /** The number of leading preamble lines. */
  function PreambleLength(lines: seq<string>): (k: nat)
    ensures k <= |lines|
  {
    if lines == [] || !IsPreambleLine(lines[0]) then 0
    else 1 + PreambleLength(lines[1..])
  }

  /** Every line before `PreambleLength` is a preamble line and the line at it is not: the
      preamble is the longest run of preamble lines at the start. */
  lemma {:induction false} PreambleLengthIsLongestRun(lines: seq<string>)
    ensures forall j :: 0 <= j < PreambleLength(lines) ==> IsPreambleLine(lines[j])
    ensures PreambleLength(lines) < |lines| ==> !IsPreambleLine(lines[PreambleLength(lines)])
  {
    if lines != [] && IsPreambleLine(lines[0]) {
      PreambleLengthIsLongestRun(lines[1..]);
      forall j | 0 <= j < PreambleLength(lines) ensures IsPreambleLine(lines[j]) {
        if j > 0 { assert lines[j] == lines[1..][j - 1]; }
      }
    }
  }

  /** The body of a fragment without a document class: the stripped text between the first
      `\begin{document}` and the first `\end{document}` when both occur, else the whole text. */
  function FragmentBody(trimmed: string): string {
    if Contains(trimmed, BEGIN_DOCUMENT) && Contains(trimmed, END_DOCUMENT) then
      var start := Find(trimmed, BEGIN_DOCUMENT);
      var stop := Find(trimmed, END_DOCUMENT);
      if start != -1 && stop != -1 then Strip(Slice(trimmed, start + |BEGIN_DOCUMENT|, stop))
      else trimmed
    else trimmed
  }

  /** A document with a class but without both body markers, re-emitted as preamble lines,
      `\begin{document}`, body lines and, when it had none, `\end{document}`. */
  function Restructure(trimmed: string): string {
    var lines := SplitLines(trimmed);
    var k := PreambleLength(lines);
    Join(lines[..k]) + BODY_OPEN + Join(lines[k..])
      + (if Contains(trimmed, END_DOCUMENT) then "" else BODY_CLOSE)
  }

  /** `normalizar_latex`, as a function of its input. */
  function Normalize(code: string): string {
    var trimmed := Strip(code);
    var hasClass := Contains(trimmed, DOCUMENT_CLASS);
    var hasBegin := Contains(trimmed, BEGIN_DOCUMENT);
    var hasEnd := Contains(trimmed, END_DOCUMENT);
    if hasClass && hasBegin && hasEnd then trimmed
    else if !hasClass then Wrap(FragmentBody(trimmed))
    else if hasClass && !(hasBegin && hasEnd) then Restructure(trimmed)
    else trimmed
  }

  /** All three markers are present. */
  predicate IsComplete(doc: string) {
    Contains(doc, DOCUMENT_CLASS) && Contains(doc, BEGIN_DOCUMENT) && Contains(doc, END_DOCUMENT)
  }

  /** The preamble/body split as the service runs it: one pass over the lines with an
      "in preamble" flag, appending each line to the preamble or to the body. Once a line
      goes to the body, every later line does too. */
  method SplitPreamble(lines: seq<string>) returns (preamble: seq<string>, body: seq<string>)
    ensures preamble == lines[..PreambleLength(lines)]
    ensures body == lines[PreambleLength(lines)..]
    ensures preamble + body == lines
  {
    ghost var k := PreambleLength(lines);
    preamble := [];
    body := [];
    var inPreamble := true;
    for i := 0 to |lines|
      invariant inPreamble ==> k == i + PreambleLength(lines[i..]) && preamble == lines[..i] && body == []
      invariant !inPreamble ==> k < i && preamble == lines[..k] && body == lines[k..i]
    {
      var line := lines[i];
      assert lines[i..][0] == line && lines[i..][1..] == lines[i + 1..];
      if inPreamble && StartsWith(Strip(line), DOCUMENT_CLASS) {
        preamble := preamble + [line];
        inPreamble := true;
      } else if inPreamble
        && (StartsWith(Strip(line), "%") || StartsWith(Strip(line), "\\use") || Strip(line) == "")
      {
        preamble := preamble + [line];
      } else {
        inPreamble := false;
        body := body + [line];
      }
    }
  }

  /** The normaliser as the service runs it; the document of the third case is built by appending. */
  method NormalizeLatex(code: string) returns (doc: string)
    ensures doc == Normalize(code)
    ensures IsComplete(doc)
  {
    NormalizeIsComplete(code);
    var trimmed := Strip(code);
    var hasClass := Contains(trimmed, DOCUMENT_CLASS);
    var hasBegin := Contains(trimmed, BEGIN_DOCUMENT);
    var hasEnd := Contains(trimmed, END_DOCUMENT);
    if hasClass && hasBegin && hasEnd {
      return trimmed;
    }
    if !hasClass {
      return TEMPLATE_HEAD + FragmentBody(trimmed) + TEMPLATE_TAIL;
    }
    var preamble, body := SplitPreamble(SplitLines(trimmed));
    doc := Join(preamble);
    doc := doc + BODY_OPEN;
    doc := doc + Join(body);
    if !hasEnd {
      doc := doc + BODY_CLOSE;
    }
  }

  // ---------------------------------------------------------------------------
  // The three cases

  /** An input whose stripped text already has all three markers comes back stripped and otherwise unchanged. */
  lemma CompleteInputIsStripped(code: string)
    requires IsComplete(Strip(code))
    ensures Normalize(code) == Strip(code)
  {
  }

  /** A fragment without a document class is wrapped in the fixed article template. */
  lemma FragmentIsWrapped(code: string)
    requires !Contains(Strip(code), DOCUMENT_CLASS)
    ensures Normalize(code) == Wrap(FragmentBody(Strip(code)))
    ensures StartsWith(Normalize(code), TEMPLATE_HEAD)
  {
    var r := Normalize(code);
    assert r[..|TEMPLATE_HEAD|] == TEMPLATE_HEAD;
  }

  /** Without both body markers the whole stripped fragment becomes the body. */
  lemma FragmentWithoutMarkersKeepsAll(trimmed: string)
    requires !(Contains(trimmed, BEGIN_DOCUMENT) && Contains(trimmed, END_DOCUMENT))
    ensures FragmentBody(trimmed) == trimmed
  {
  }

  /** With both body markers, the body is the stripped text strictly between the first
      `\begin{document}` and the first `\end{document}`, and it is empty when the end comes first. */
  lemma FragmentBodyBetweenMarkers(trimmed: string)
    requires Contains(trimmed, BEGIN_DOCUMENT) && Contains(trimmed, END_DOCUMENT)
    ensures var start := Find(trimmed, BEGIN_DOCUMENT) + |BEGIN_DOCUMENT|;
            var stop := Find(trimmed, END_DOCUMENT);
            && start <= |trimmed|
            && (start <= stop ==> FragmentBody(trimmed) == Strip(trimmed[start..stop]))
            && (stop < start ==> FragmentBody(trimmed) == [])
  {
  }

  // ---------------------------------------------------------------------------
  // Lines in the restructuring case

  /** In the restructuring case the preamble lines followed by the body lines are exactly the
      lines of the stripped input, the preamble lines are all preamble lines, the first body line
      is not, and joining the two runs gives back the stripped input. */
  lemma RestructureKeepsLines(code: string)
    requires Contains(Strip(code), DOCUMENT_CLASS)
    ensures var lines := SplitLines(Strip(code));
            var k := PreambleLength(lines);
            && (forall j :: 0 <= j < k ==> IsPreambleLine(lines[j]))
            && (k < |lines| ==> !IsPreambleLine(lines[k]))
            && Join(lines[..k] + lines[k..]) == Strip(code)
  {
    var t := Strip(code);
    assert t != [];
    JoinSplitLines(t);
    var lines := SplitLines(t);
    var k := PreambleLength(lines);
    PreambleLengthIsLongestRun(lines);
    assert lines[..k] + lines[k..] == lines;
  }

  /** Joining the lines is joining the two runs either side of `k`, with a line break between
      them when both are non-empty. */
  lemma JoinRuns(lines: seq<string>, k: nat)
    requires k <= |lines|
    ensures k == 0 ==> Join(lines) == Join(lines[k..])
    ensures k == |lines| ==> Join(lines) == Join(lines[..k])
    ensures 0 < k < |lines| ==> Join(lines) == Join(lines[..k]) + "\n" + Join(lines[k..])
  {
    if k == 0 {
      assert lines[k..] == lines;
    } else if k == |lines| {
      assert lines[..k] == lines;
    } else {
      assert lines[..k] + lines[k..] == lines;
      JoinAppend(lines[..k], lines[k..]);
    }
  }

  /** Putting a separator where two runs of text meet keeps every one-line occurrence, outside
      the separator. */
  lemma KeepsAcrossSeparator(t: string, ja: string, jb: string, sep: string, m: string, p: int)
    requires t == ja + "\n" + jb || (ja == "" && t == jb) || (jb == "" && t == ja)
    requires OccursAt(t, m, p) && '\n' !in m
    ensures exists q :: OccursAt(ja + sep + jb, m, q) && (q + |m| <= |ja| || q >= |ja| + |sep|)
  {
    if t == ja + "\n" + jb {
      assert t == ja + ['\n'] + jb;
      OccursAcross(ja, '\n', jb, m, p);
      if OccursAt(ja, m, p) {
        OccursInLeft(ja, sep + jb, m, p);
        assert ja + (sep + jb) == ja + sep + jb;
      } else {
        OccursInRight(ja + sep, jb, m, p - |ja| - 1);
      }
    } else if ja == "" && t == jb {
      OccursInRight(ja + sep, jb, m, p);
    } else {
      OccursInLeft(ja, sep + jb, m, p);
      assert ja + (sep + jb) == ja + sep + jb;
    }
  }

  /** Every occurrence of a one-line marker in the stripped input survives the restructuring,
      outside the inserted `BODY_OPEN`. */
  lemma RestructureKeepsMarker(t: string, m: string)
    requires t != [] && t[|t| - 1] != '\n'
    requires Contains(t, m) && '\n' !in m
    ensures var lines := SplitLines(t);
            var pre := Join(lines[..PreambleLength(lines)]);
            exists q :: OccursAt(Restructure(t), m, q) && (q + |m| <= |pre| || q >= |pre| + |BODY_OPEN|)
  {
    JoinSplitLines(t);
    var lines := SplitLines(t);
    var k := PreambleLength(lines);
    JoinRuns(lines, k);
    var ja, jb := Join(lines[..k]), Join(lines[k..]);
    var mid := ja + BODY_OPEN + jb;
    KeepsAcrossSeparator(t, ja, jb, BODY_OPEN, m, Find(t, m));
    var q :| OccursAt(mid, m, q) && (q + |m| <= |ja| || q >= |ja| + |BODY_OPEN|);
    var tail := if Contains(t, END_DOCUMENT) then "" else BODY_CLOSE;
    OccursInLeft(mid, tail, m, q);
    assert Restructure(t) == mid + tail;
    assert OccursAt(Restructure(t), m, q);
  }

  /** The restructuring case of `Normalize`: a class but not both body markers. Its stripped
      input is non-empty and does not end in a line break. */
  lemma RestructureCase(code: string)
    requires Contains(Strip(code), DOCUMENT_CLASS)
    requires !(Contains(Strip(code), BEGIN_DOCUMENT) && Contains(Strip(code), END_DOCUMENT))
    ensures Normalize(code) == Restructure(Strip(code))
    ensures Strip(code) != [] && Strip(code)[|Strip(code)| - 1] != '\n'
  {
    var t := Strip(code);
    assert OccursAt(t, DOCUMENT_CLASS, Find(t, DOCUMENT_CLASS));
  }

  /** A restructured document is its preamble lines, a line break, `\begin{document}`, and the
      rest: a blank line, the body lines and, when the input had none, `\end{document}`. */
  lemma RestructureShape(t: string)
    ensures var lines := SplitLines(t);
            var k := PreambleLength(lines);
            Restructure(t) == Join(lines[..k]) + "\n" + BEGIN_DOCUMENT
              + ("\n\n" + Join(lines[k..]) + (if Contains(t, END_DOCUMENT) then "" else BODY_CLOSE))
  {
    var lines := SplitLines(t);
    var k := PreambleLength(lines);
    var tail := if Contains(t, END_DOCUMENT) then "" else BODY_CLOSE;
    assert Restructure(t) == Join(lines[..k]) + BODY_OPEN + Join(lines[k..]) + tail;
    Regroup(Join(lines[..k]), "\n", BEGIN_DOCUMENT, "\n\n", Join(lines[k..]), tail);
  }

  /** Moving the last piece of an inserted separator into what follows it. */
  lemma Regroup(a: string, x: string, y: string, z: string, b: string, c: string)
    ensures a + (x + y + z) + b + c == a + x + y + (z + b + c)
  {
  }

  /** When only `\begin{document}` was present, the restructured document has it twice. */
  lemma BeginOnlyGivesBeginTwice(code: string)
    requires var t := Strip(code);
      Contains(t, DOCUMENT_CLASS) && Contains(t, BEGIN_DOCUMENT) && !Contains(t, END_DOCUMENT)
    ensures exists q1, q2 :: q1 != q2 && OccursAt(Normalize(code), BEGIN_DOCUMENT, q1)
                                       && OccursAt(Normalize(code), BEGIN_DOCUMENT, q2)
  {
    var t := Strip(code);
    RestructureCase(code);
    RestructureKeepsMarker(t, BEGIN_DOCUMENT);
    var lines := SplitLines(t);
    var k := PreambleLength(lines);
    var pre := Join(lines[..k]);
    var q1 :| OccursAt(Restructure(t), BEGIN_DOCUMENT, q1)
              && (q1 + |BEGIN_DOCUMENT| <= |pre| || q1 >= |pre| + |BODY_OPEN|);
    var rest := "\n\n" + Join(lines[k..]) + BODY_CLOSE;
    RestructureShape(t);
    OccursInMiddle(pre + "\n", BEGIN_DOCUMENT, rest);
    var q2 := |pre| + 1;
    assert OccursAt(Restructure(t), BEGIN_DOCUMENT, q2);
  }

  // ---------------------------------------------------------------------------
  // Completeness and (near-)idempotence

  /** The article template around any body holds all three markers. */
  lemma WrapHasClass(body: string)
    ensures Contains(Wrap(body), DOCUMENT_CLASS)
  {
    var rest := ARTICLE_PREAMBLE + BEGIN_DOCUMENT + "\n\n" + body + TEMPLATE_TAIL;
    assert Wrap(body) == DOCUMENT_CLASS + rest;
    assert DOCUMENT_CLASS[0..|DOCUMENT_CLASS|] == DOCUMENT_CLASS;
    OccursInLeft(DOCUMENT_CLASS, rest, DOCUMENT_CLASS, 0);
    OccursThenContains(Wrap(body), DOCUMENT_CLASS, 0);
  }

  lemma WrapHasBegin(body: string)
    ensures Contains(Wrap(body), BEGIN_DOCUMENT)
  {
    var rest := "\n\n" + body + TEMPLATE_TAIL;
    assert Wrap(body) == DOCUMENT_CLASS + ARTICLE_PREAMBLE + BEGIN_DOCUMENT + rest;
    OccursInMiddle(DOCUMENT_CLASS + ARTICLE_PREAMBLE, BEGIN_DOCUMENT, rest);
    OccursThenContains(Wrap(body), BEGIN_DOCUMENT, |DOCUMENT_CLASS + ARTICLE_PREAMBLE|);
  }

  lemma WrapHasEnd(body: string)
    ensures Contains(Wrap(body), END_DOCUMENT)
  {
    OccursInMiddle("\n\n", END_DOCUMENT, "\n");
    OccursInRight(TEMPLATE_HEAD + body, TEMPLATE_TAIL, END_DOCUMENT, 2);
    OccursThenContains(Wrap(body), END_DOCUMENT, |TEMPLATE_HEAD + body| + 2);
  }

  /** Restructuring keeps the document class of its input. */
  lemma RestructureHasClass(t: string)
    requires t != [] && t[|t| - 1] != '\n'
    requires Contains(t, DOCUMENT_CLASS)
    ensures Contains(Restructure(t), DOCUMENT_CLASS)
  {
    RestructureKeepsMarker(t, DOCUMENT_CLASS);
    var q :| OccursAt(Restructure(t), DOCUMENT_CLASS, q);
    OccursThenContains(Restructure(t), DOCUMENT_CLASS, q);
  }

  /** Restructuring always inserts a `\begin{document}`. */
  lemma RestructureHasBegin(t: string)
    ensures Contains(Restructure(t), BEGIN_DOCUMENT)
  {
    var lines := SplitLines(t);
    var k := PreambleLength(lines);
    var pre := Join(lines[..k]);
    var rest := "\n\n" + Join(lines[k..]) + (if Contains(t, END_DOCUMENT) then "" else BODY_CLOSE);
    RestructureShape(t);
    OccursInMiddle(pre + "\n", BEGIN_DOCUMENT, rest);
    OccursThenContains(Restructure(t), BEGIN_DOCUMENT, |pre| + 1);
  }

  /** Restructuring keeps the input's `\end{document}` or appends one. */
  lemma RestructureHasEnd(t: string)
    requires t != [] && t[|t| - 1] != '\n'
    ensures Contains(Restructure(t), END_DOCUMENT)
  {
    if Contains(t, END_DOCUMENT) {
      RestructureKeepsMarker(t, END_DOCUMENT);
      var q :| OccursAt(Restructure(t), END_DOCUMENT, q);
      OccursThenContains(Restructure(t), END_DOCUMENT, q);
    } else {
      var lines := SplitLines(t);
      var k := PreambleLength(lines);
      var mid := Join(lines[..k]) + BODY_OPEN + Join(lines[k..]);
      assert Restructure(t) == mid + BODY_CLOSE;
      OccursInMiddle("\n", END_DOCUMENT, "\n");
      OccursInRight(mid, BODY_CLOSE, END_DOCUMENT, 1);
      OccursThenContains(Restructure(t), END_DOCUMENT, |mid| + 1);
    }
  }

  /** Every output holds a document class, a `\begin{document}` and an `\end{document}`; the
      normaliser's final fall-back return is never reached. */
  lemma NormalizeIsComplete(code: string)
    ensures IsComplete(Normalize(code))
  {
    var t := Strip(code);
    if !Contains(t, DOCUMENT_CLASS) {
      FragmentIsWrapped(code);
      WrapHasClass(FragmentBody(t));
      WrapHasBegin(FragmentBody(t));
      WrapHasEnd(FragmentBody(t));
    } else if !(Contains(t, BEGIN_DOCUMENT) && Contains(t, END_DOCUMENT)) {
      RestructureCase(code);
      RestructureHasClass(t);
      RestructureHasBegin(t);
      RestructureHasEnd(t);
    }
  }

  /** A second pass only strips: normalising an output again returns it without surrounding whitespace. */
  lemma NormalizeTwiceOnlyStrips(code: string)
    ensures Normalize(Normalize(code)) == Strip(Normalize(code))
  {
    var r := Normalize(code);
    NormalizeIsComplete(code);
    StripKeepsMarker(r, DOCUMENT_CLASS);
    StripKeepsMarker(r, BEGIN_DOCUMENT);
    StripKeepsMarker(r, END_DOCUMENT);
  }

  /** An input that is already complete is a fixed point of the normaliser after the first pass. */
  lemma CompleteInputIsFixedPoint(code: string)
    requires IsComplete(Strip(code))
    ensures Normalize(Normalize(code)) == Normalize(code)
  {
    StripIdempotent(code);
  }

  /** The normaliser is not idempotent: when the input lacks a document class or an
      `\end{document}`, the output ends with a line break that a second pass strips. */
  lemma NormalizeNotIdempotent(code: string)
    requires !Contains(Strip(code), DOCUMENT_CLASS) || !Contains(Strip(code), END_DOCUMENT)
    ensures Normalize(Normalize(code)) != Normalize(code)
  {
    var r := Normalize(code);
    NormalizeEndsInLineBreak(code);
    NormalizeTwiceOnlyStrips(code);
    StripDropsLineBreak(r);
  }

  /** Without a document class or an `\end{document}`, the output ends in a line break. */
  lemma NormalizeEndsInLineBreak(code: string)
    requires !Contains(Strip(code), DOCUMENT_CLASS) || !Contains(Strip(code), END_DOCUMENT)
    ensures Normalize(code) != [] && Normalize(code)[|Normalize(code)| - 1] == '\n'
  {
    var t := Strip(code);
    if !Contains(t, DOCUMENT_CLASS) {
      FragmentIsWrapped(code);
      EndsInLineBreak(TEMPLATE_HEAD + FragmentBody(t), TEMPLATE_TAIL);
    } else {
      RestructureCase(code);
      var lines := SplitLines(t);
      var k := PreambleLength(lines);
      var mid := Join(lines[..k]) + BODY_OPEN + Join(lines[k..]);
      assert Restructure(t) == mid + BODY_CLOSE;
      EndsInLineBreak(mid, BODY_CLOSE);
    }
  }

  /** Stripping changes a text that ends in a line break. */
  lemma StripDropsLineBreak(r: string)
    requires r != [] && r[|r| - 1] == '\n'
    ensures Strip(r) != r
  {
    var s := Strip(r);
    assert s == [] || !IsSpace(s[|s| - 1]);
  }

  /** Appending a text that ends in a line break gives a text that ends in one. */
  lemma EndsInLineBreak(a: string, b: string)
    requires b != [] && b[|b| - 1] == '\n'
    ensures (a + b)[|a + b| - 1] == '\n'
  {
  }
}
