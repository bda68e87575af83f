/**
 * `GetImplementation`: the implementations of the symbol at a 1-indexed
 * position, listed per file under a "File:" header with 5 context lines.
 */
module Implementation {
  import opened Wrappers
  import opened Protocol
  import opened LocationReport

  const NoImplementationsFound := "No implementations found"

  function ImplementationRequest(filePath: string, line: int, column: int): (p: ImplementationParams)
    ensures p.textDocumentPosition == RequestPosition(filePath, line, column)
  {
    ImplementationParams(RequestPosition(filePath, line, column))
  }

  /**
   * `implementation` is the language client's Implementation call and
   * `extract` is ExtractLocationsFromDefinitionResult on its result's value.
   */
  method GetImplementation<V, L, R>(
    w: Workspace<L, R>, implementation: ImplementationParams -> Result<V, string>,
    extract: V -> Result<seq<Location>, string>, filePath: string, line: int, column: int)
    returns (r: Result<string, ToolError>)
    ensures w.openFile(filePath).Some? ==> r == Failure(OpenFailed(w.openFile(filePath).value))
    ensures w.openFile(filePath).None? && implementation(ImplementationRequest(filePath, line, column)).Failure? ==>
      r == Failure(RequestFailed(implementation(ImplementationRequest(filePath, line, column)).error))
    ensures w.openFile(filePath).None? && implementation(ImplementationRequest(filePath, line, column)).Success? ==>
      var extracted := extract(implementation(ImplementationRequest(filePath, line, column)).value);
      && (extracted.Failure? ==> r == Failure(ParseFailed(extracted.error)))
      && (extracted == Success([]) ==> r == Success(NoImplementationsFound))
      && (extracted.Success? ==> r == Success(Report(FileStyle, NoImplementationsFound, extracted.value, w)))
  {
    var openError := w.openFile(filePath);
    if openError.Some? {
      return Failure(OpenFailed(openError.value));
    }
    var params := ImplementationRequest(filePath, line, column);
    var result := implementation(params);
    if result.Failure? {
      return Failure(RequestFailed(result.error));
    }
    var locations := extract(result.value);
    if locations.Failure? {
      return Failure(ParseFailed(locations.error));
    }
    var output := RenderReport(FileStyle, NoImplementationsFound, locations.value, w);
    return Success(output);
  }
}
