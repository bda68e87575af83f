/**
 * `GetTypeDefinition`: the type definitions of the symbol at a 1-indexed
 * position, listed per file under a "File:" header with 5 context lines.
 */
module TypeDefinition {
  import opened Wrappers
  import opened Protocol
  import opened LocationReport

  const NoTypeDefinitionFound := "No type definition found"

  function TypeDefinitionRequest(filePath: string, line: int, column: int): (p: TypeDefinitionParams)
    ensures p.textDocumentPosition == RequestPosition(filePath, line, column)
  {
    TypeDefinitionParams(RequestPosition(filePath, line, column))
  }

  /**
   * `typeDefinition` is the language client's TypeDefinition call and
   * `extract` is ExtractLocationsFromDefinitionResult on its result's value.
   */
  method GetTypeDefinition<V, L, R>(
    w: Workspace<L, R>, typeDefinition: TypeDefinitionParams -> Result<V, string>,
    extract: V -> Result<seq<Location>, string>, filePath: string, line: int, column: int)
    returns (r: Result<string, ToolError>)
    ensures w.openFile(filePath).Some? ==> r == Failure(OpenFailed(w.openFile(filePath).value))
    ensures w.openFile(filePath).None? && typeDefinition(TypeDefinitionRequest(filePath, line, column)).Failure? ==>
      r == Failure(RequestFailed(typeDefinition(TypeDefinitionRequest(filePath, line, column)).error))
    ensures w.openFile(filePath).None? && typeDefinition(TypeDefinitionRequest(filePath, line, column)).Success? ==>
      var extracted := extract(typeDefinition(TypeDefinitionRequest(filePath, line, column)).value);
      && (extracted.Failure? ==> r == Failure(ParseFailed(extracted.error)))
      && (extracted == Success([]) ==> r == Success(NoTypeDefinitionFound))
      && (extracted.Success? ==> r == Success(Report(FileStyle, NoTypeDefinitionFound, extracted.value, w)))
  {
    var openError := w.openFile(filePath);
    if openError.Some? {
      return Failure(OpenFailed(openError.value));
    }
    var params := TypeDefinitionRequest(filePath, line, column);
    var result := typeDefinition(params);
    if result.Failure? {
      return Failure(RequestFailed(result.error));
    }
    var locations := extract(result.value);
    if locations.Failure? {
      return Failure(ParseFailed(locations.error));
    }
    var output := RenderReport(FileStyle, NoTypeDefinitionFound, locations.value, w);
    return Success(output);
  }
}
