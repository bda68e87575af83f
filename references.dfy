/**
 * `FindReferences`: every reference to the symbol at a 1-indexed position,
 * grouped by file, with a configurable number of context lines.
 */
module References {
  import opened Wrappers
  import opened Protocol
  import opened GoStrings
  import opened Grouping
  import opened LocationReport

  const NoReferencesFound := "No references found"

  const DefaultContextLines: nat := 5

  /**
   * The context-line count from the value of LSP_CONTEXT_LINES ("" when the
   * variable is unset): the value when it is a non-negative integer that
   * Atoi accepts, 5 otherwise.
   */
  function ContextLines(envLines: string): (n: nat)
    ensures n == DefaultContextLines || Atoi(envLines) == Some(n)
  {
    var parsed := Atoi(envLines);
    if envLines != "" && parsed.Some? && parsed.value >= 0 then parsed.value else DefaultContextLines
  }

  /** Exactly the non-negative integers Atoi reads are taken; anything else falls back to 5. */
  lemma ContextLinesIff(envLines: string)
    ensures (exists v: nat :: Atoi(envLines) == Some(v)) <==> Atoi(envLines) == Some(ContextLines(envLines))
  {
  }

  /** A decimal count in range is used as given. */
  lemma ContextLinesDecimal(n: nat)
    requires n <= MaxInt64
    ensures ContextLines(DecimalString(n)) == n
  {
    AtoiDecimal(n);
  }

  /** An unset variable and a negative count both give the default. */
  lemma ContextLinesDefault(k: nat)
    requires 1 <= k <= -MinInt64
    ensures ContextLines("") == DefaultContextLines
    ensures ContextLines("-" + DecimalString(k)) == DefaultContextLines
  {
    AtoiNegative(k);
  }

  /** The references request: the converted position, declarations excluded. */
  function ReferenceRequest(filePath: string, line: int, column: int): (p: ReferenceParams)
    ensures !p.includeDeclaration
    ensures p.textDocumentPosition == RequestPosition(filePath, line, column)
  {
    ReferenceParams(RequestPosition(filePath, line, column), false)
  }

  /**
   * `references` is the language client's References call and `envLines`
   * the value of LSP_CONTEXT_LINES. Errors of OpenFile and of the request
   * are returned; otherwise the report for the references the server gave.
   */
  method FindReferences<L, R>(
    w: Workspace<L, R>, references: ReferenceParams -> Result<seq<Location>, string>,
    envLines: string, filePath: string, line: int, column: int)
    returns (r: Result<string, ToolError>)
    ensures w.openFile(filePath).Some? ==> r == Failure(OpenFailed(w.openFile(filePath).value))
    ensures w.openFile(filePath).None? && references(ReferenceRequest(filePath, line, column)).Failure? ==>
      r == Failure(RequestFailed(references(ReferenceRequest(filePath, line, column)).error))
    ensures w.openFile(filePath).None? && references(ReferenceRequest(filePath, line, column)) == Success([]) ==>
      r == Success(NoReferencesFound)
    ensures w.openFile(filePath).None? && references(ReferenceRequest(filePath, line, column)).Success? ==>
      r == Success(Report(ReferencesStyle(ContextLines(envLines)), NoReferencesFound,
                          references(ReferenceRequest(filePath, line, column)).value, w))
  {
    var contextLines := ContextLines(envLines);
    var openError := w.openFile(filePath);
    if openError.Some? {
      return Failure(OpenFailed(openError.value));
    }
    var refsParams := ReferenceRequest(filePath, line, column);
    var refs := references(refsParams);
    if refs.Failure? {
      return Failure(RequestFailed(refs.error));
    }
    var output := RenderReport(ReferencesStyle(contextLines), NoReferencesFound, refs.value, w);
    return Success(output);
  }

  /**
   * The header of a references section states how many references the
   * input holds for that file.
   */
  lemma HeaderCountsReferences(contextLines: nat, locs: seq<Location>, uri: string)
    ensures Header(ReferencesStyle(contextLines), DisplayPath(uri), Group(locs, uri)) ==
      "---\n\n" + DisplayPath(uri) + "\nReferences in File: " +
      DecimalString(|set i | 0 <= i < |locs| && locs[i].uri == uri|) + "\n"
  {
    GroupSizeCountsUri(locs, uri);
  }
}
