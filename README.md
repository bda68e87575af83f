# Location tools of the MCP language server, in Dafny

This project models the three tool front ends of the language-server bridge:
`FindReferences`, `GetImplementation` and `GetTypeDefinition`. Each one works
on the location list returned by the language server. It does these steps:

- It converts the caller's 1-indexed line and column into the zero-based LSP `Position`.
- It asks the server for locations. It returns a fixed "not found" text when there are none.
- It groups the locations by document URI and visits the groups in ascending URI order.
- It writes one section per file: a header with the path (the URI without `file://`),
  the `L<line>:C<column>` markers, and the source lines picked by the display helpers.
  A file that cannot be read gets its header and the error text. A file whose
  `GetLineRangesToDisplay` call fails gets no section at all.
- It joins the sections with `"\n"`.

The model is written in the same imperative way as the Go code. These parts are loops:

- the map from URI to locations (`Grouping.GroupByUri`);
- collecting the map keys and sorting them in place (`Grouping.SortedUris`, `StringOrder.SortStrings`);
- the marker list (`LocationFormat.LocationMarkers`);
- the per-file loop (`LocationReport.RenderSections`, `LocationReport.RenderFile`).

`GroupByUri`, `LocationMarkers`, `RenderFile`, `RenderSections` and `RenderReport` are each
proved equal to a specification function, and lemmas state what the tools promise about
those functions. `SortStrings` and `SortedUris` are specified by their results instead:
a sorted permutation, and a strictly ascending list holding exactly the keys.
`RenderReport` ties the sorted keys to `Grouping.UriOrder` through `Grouping.SortedUnique`.
`UriOrder` is an independent reference definition that builds the file order by insertion,
with no sort.

Modules:

- `Protocol`: the LSP data types, `uint32`, and the conversion both ways with explicit 32-bit wrap-around.
- `GoStrings`: `strings.Join`, `strings.Split`, `strings.TrimPrefix`, `%d` and `strconv.Atoi`.
- `StringOrder`: Go's `<` on strings and `sort.Strings`.
- `Grouping`: group-by-URI, the partition lemmas and the URI order.
- `LocationFormat`: the markers and a parser that reads them back.
- `LocationReport`: the per-file sections shared by all three tools. The two header layouts are the `Style` datatype.
- `References`, `Implementation`, `TypeDefinition`: one module per Go file.

How the outside world is modelled:

- Calls into the language client, the file system and the display helpers are function-typed parameters.
  This covers the language client's `OpenFile`, `References`, `Implementation` and
  `TypeDefinition`, plus `os.ReadFile`, `GetLineRangesToDisplay`, `ConvertLinesToRanges`,
  `FormatLinesWithRanges` and `ExtractLocationsFromDefinitionResult`.
  The standard-library calls (`strings.Join`, `strings.Split`, `strings.TrimPrefix`, `strconv.Atoi`,
  `sort.Strings` and the `fmt.Sprintf` formats) are Dafny definitions in `GoStrings`, `StringOrder`,
  `LocationFormat` and `LocationReport`.
  `OpenFile`, `os.ReadFile` and the three display helpers are bundled in `LocationReport.Workspace`
  and `LocationReport.Helpers`. The server call (`References`, `Implementation` or `TypeDefinition`)
  and `ExtractLocationsFromDefinitionResult` are separate parameters of each tool's method.
- The value of `LSP_CONTEXT_LINES` is a string parameter. It is `""` when the variable is unset,
  which is what `os.Getenv` returns then.
- Go's map iteration order is an arbitrary choice (`:|`) made before the sort.
- `line` and `column` have no precondition. `uint32(line - 1)` is computed as `(line - 1)` modulo 2^32,
  so line 0 becomes 4294967295, as it does in Go.
- A printed coordinate is `start + 1` in `uint32` arithmetic, so 4294967295 prints as 0.
  Away from these two edges, the printed marker is exactly the inverse of the request conversion
  (`LocationFormat.MarkerRecoversPosition`).
- Strings are sequences of Unicode scalar values. Ordering them by code point gives the same
  order as Go's byte-wise comparison of their UTF-8 encodings.

## Model

| member | source | states |
|---|---|---|
| Protocol.ToUint32 | internal/tools/references.go:31-34 | `uint32(x)` keeps x modulo 2^32; values already in range are unchanged |
| Protocol.ZeroBased | internal/tools/references.go:32 | a 1-indexed value v in 1..2^32 goes out as v-1; 0 wraps to 2^32-1 (no guard in the code) |
| Protocol.OneBased | internal/tools/references.go:98-100 | the printed `value+1` is value+1, except that 2^32-1 wraps to 0 |
| Protocol.ToPosition | internal/tools/references.go:31-34 | for line, column in 1..2^32 the outgoing position is (line-1, column-1) |
| Protocol.OneBasedZeroBased | internal/tools/references.go:31-34 | printing a converted coordinate gives back the caller's value modulo 2^32, and exactly for 1 <= v < 2^32 |
| Protocol.ZeroBasedOneBased | internal/tools/references.go:97-102 | converting a printed value back gives the protocol value unless it wrapped |
| Protocol.ConversionExample | internal/tools/implementation.go:20-23 | (5, 3) goes out as (4, 2); a result at (9, 1) prints as (10, 2) |
| GoStrings.Join | internal/tools/references.go:125 | `strings.Join` of no parts is ""; the first part, followed by the separator when more follow, begins the result; no part is longer than the result |
| GoStrings.Split | internal/tools/references.go:93 | `strings.Split` on "\n" yields at least one line and no line contains "\n" |
| GoStrings.JoinSplit | internal/tools/references.go:93 | joining the split lines with "\n" restores the file content |
| GoStrings.SplitJoin | internal/tools/implementation.go:86 | splitting a "\n"-join of newline-free lines gives those lines back |
| GoStrings.TrimPrefix | internal/tools/references.go:77 | with the prefix present, prefix + result is the input; otherwise the input is unchanged |
| GoStrings.TrimAddedPrefix | internal/tools/type_definition.go:64 | only one leading prefix is removed: TrimPrefix(prefix + p) is p |
| GoStrings.DecimalString | internal/tools/references.go:80-83 | `%d` gives a non-empty digit string denoting the number, with no leading zero; 0 prints as exactly "0" |
| GoStrings.Atoi | internal/tools/references.go:19 | `strconv.Atoi` succeeds only on non-empty input and only with a value in the 64-bit signed range |
| GoStrings.AtoiAccepts | internal/tools/references.go:19 | whatever Atoi accepts is an optional sign followed by at least one decimal digit |
| GoStrings.AtoiSigned | internal/tools/references.go:19 | on an optional sign and a digit string, Atoi gives the signed value exactly when it is in the 64-bit signed range, and fails otherwise |
| GoStrings.AtoiDecimal | internal/tools/references.go:19 | Atoi reads back every decimal count up to 2^63-1 |
| GoStrings.AtoiNegative | internal/tools/references.go:19 | Atoi reads "-n" as -n down to -2^63 |
| StringOrder.Less | internal/tools/references.go:70 | Go's `<` on strings: a proper prefix sorts first, and nothing sorts before the empty string |
| StringOrder.LessFirstDifference | internal/tools/references.go:70 | at the first position where two strings differ, the smaller character decides the order |
| StringOrder.LessIrreflexive | internal/tools/references.go:70 | no string sorts before itself |
| StringOrder.LessAsymmetric | internal/tools/references.go:70 | two strings are never each before the other |
| StringOrder.LessTransitive | internal/tools/references.go:70 | the string order is transitive |
| StringOrder.LessTotal | internal/tools/references.go:70 | of two different strings one sorts first (a total order) |
| StringOrder.AdjacentSortedIsSorted | internal/tools/implementation.go:58 | order between neighbours implies order between every pair |
| StringOrder.SortedDistinctIsStrict | internal/tools/implementation.go:58 | a sorted list without repetitions is strictly ascending |
| StringOrder.StrictIsDistinct | internal/tools/type_definition.go:58 | a strictly ascending list has no repetitions |
| StringOrder.DistinctPermutation | internal/tools/type_definition.go:54-58 | a permutation of a repetition-free list is repetition-free |
| StringOrder.SortStrings | internal/tools/references.go:70 | `sort.Strings` leaves the slice sorted and a permutation of what it held |
| StringOrder.InsertIntoPrefix | internal/tools/implementation.go:58 | one insertion step extends the sorted prefix by one, keeps the contents and leaves the elements after it unchanged |
| Grouping.GroupIsSubsequence | internal/tools/references.go:60-63 | a group is exactly the input's locations with that URI, in arrival order, at ascending positions |
| Grouping.GroupMembers | internal/tools/implementation.go:49-52 | every member of a group carries its URI and comes from the input |
| Grouping.GroupEmptyIff | internal/tools/implementation.go:49-52 | a group is empty exactly when its URI does not occur |
| Grouping.GroupSizeCountsUri | internal/tools/references.go:80-83 | the group size is the number of input positions holding that URI |
| Grouping.LandsInOwnGroup | internal/tools/references.go:60-63 | each location is in the group of its own URI and in no other group |
| Grouping.GroupsPartition | internal/tools/type_definition.go:49-52 | over distinct URIs that cover the input, the groups together are a permutation of the input and their sizes add up to its length |
| Grouping.InsertUriSpec | internal/tools/references.go:66-70 | inserting into a strictly ascending URI list keeps it ascending and adds exactly that URI |
| Grouping.UriOrderSpec | internal/tools/references.go:66-70 | the reference visiting order is strictly ascending and holds exactly the URIs of the input |
| Grouping.SortedUnique | internal/tools/references.go:66-70 | a strictly ascending list is determined by its elements, so the sorted keys equal the reference order |
| Grouping.GroupByUri | internal/tools/references.go:60-63 | the map's keys are the input's URIs and each entry is that URI's group |
| Grouping.SortedUris | internal/tools/references.go:66-70 | the collected and sorted keys are strictly ascending and hold each key exactly once |
| LocationFormat.Marker | internal/tools/references.go:98-100 | a marker starts with `L` and holds only digits, `L`, `:` and `C` |
| LocationFormat.LocationMarkers | internal/tools/references.go:96-102 | one marker per location of the group, in group order |
| LocationFormat.MarkerRoundTrip | internal/tools/implementation.go:70-72 | a marker reads back as the 1-indexed start line and column of its location |
| LocationFormat.MarkerRecoversPosition | internal/tools/type_definition.go:68-78 | converting the marker's numbers as a request does gives back the location's start, unless a coordinate is 2^32-1 |
| LocationReport.DisplayPath | internal/tools/references.go:77 | the shown and read path is the URI with one leading `file://` removed, else the URI itself |
| LocationReport.ContextOf | internal/tools/references.go:105 | the line-range helper gets the configured count for references and 5 for the `File:` layout (implementation.go:88) |
| LocationReport.AtList | internal/tools/references.go:117 | the `At:` list is empty for no locations and otherwise starts with the first marker, followed by ", " when more follow |
| LocationReport.LocationsLine | internal/tools/references.go:115-121 | for references, the `At:` line when there are locations and then the "\n" before the content; for the `File:` layout nothing, since its header already holds the `At:` line |
| LocationReport.Header | internal/tools/references.go:80-83 | the header opens with the `---` rule, followed by the path (references) or by `File: ` and the path (implementations and type definitions) |
| LocationReport.ReadErrorText | internal/tools/references.go:89 | the text after the header of an unreadable file ends with "Error reading file: " and the error; for references it starts on a new line |
| LocationReport.Section | internal/tools/references.go:74-123 | a file's section, when there is one, starts with that file's header |
| LocationReport.SectionOutcomes | internal/tools/references.go:86-109 | a read failure keeps the file with the header and the error text; a file is dropped exactly when it was read and the line-range helper failed |
| LocationReport.SectionsOfSurvivors | internal/tools/references.go:74-123 | the k-th section is the section of the k-th file that was not dropped |
| LocationReport.SurvivorsIff | internal/tools/implementation.go:80-91 | a file appears in the output exactly when its section exists |
| LocationReport.SurvivorsSorted | internal/tools/type_definition.go:61-96 | the files in the output keep the ascending URI order, so none appears twice |
| LocationReport.AllSurvive | internal/tools/type_definition.go:80-95 | when no file is dropped, every URI has its section, in order |
| LocationReport.SurvivorsSnoc | internal/tools/references.go:105-109 | one more URI adds that file exactly when its section exists |
| LocationReport.SectionsSnoc | internal/tools/references.go:122 | one more URI appends that file's section if it has one |
| LocationReport.SectionListsMarkers | internal/tools/implementation.go:76-78 | every group has markers, so the `At:` line is always written and lists the group's markers |
| LocationReport.RenderFile | internal/tools/references.go:74-123 | the loop body for one file yields exactly that file's section, or nothing where the loop continues |
| LocationReport.RenderSections | internal/tools/implementation.go:60-96 | the per-file loop accumulates the sections of the URIs in order |
| LocationReport.RequestPosition | internal/tools/references.go:31-44 | the request names `"file://" + filePath` and the converted position, with the wrap for 0 |
| LocationReport.RequestedPathShown | internal/tools/references.go:35 | a location in the requested document is shown under the caller's own path |
| LocationReport.Report | internal/tools/references.go:55-125 | no locations give the not-found text; otherwise the text is empty (every file dropped) or opens with a section's `---` rule |
| LocationReport.SectionsStartWithRule | internal/tools/implementation.go:60-96 | every section of the per-file loop opens with the `---` rule |
| LocationReport.ReportFiles | internal/tools/references.go:66-125 | the output's files are strictly ascending, are exactly the input's URIs whose section exists, and each one's section sits at its index |
| LocationReport.ReportCoversAllLocations | internal/tools/references.go:59-76 | with no file dropped there is one section per distinct URI, and the groups are a permutation of the input |
| LocationReport.RenderReport | internal/tools/references.go:55-125 | with no locations the output is the not-found text; otherwise it is the sections in ascending URI order joined with "\n" |
| References.ContextLines | internal/tools/references.go:17-22 | the context-line count is 5 or the value Atoi parsed |
| References.ContextLinesIff | internal/tools/references.go:17-22 | the count is taken from the variable exactly when Atoi reads it as a non-negative integer |
| References.ContextLinesDecimal | internal/tools/references.go:19-20 | a decimal count in range is used as given |
| References.ContextLinesDefault | internal/tools/references.go:17-18 | an unset variable and a negative count both give 5 |
| References.ReferenceRequest | internal/tools/references.go:38-48 | the references request carries the converted position and `IncludeDeclaration: false` |
| References.HeaderCountsReferences | internal/tools/references.go:80-83 | the file header states the number of input references for that file |
| References.FindReferences | internal/tools/references.go:15-126 | an open or request error is returned as an error; no references gives exactly "No references found"; otherwise the report |
| Implementation.ImplementationRequest | internal/tools/implementation.go:20-33 | the implementation request carries `"file://" + filePath` and the converted position |
| Implementation.GetImplementation | internal/tools/implementation.go:14-99 | open, request and extraction errors are returned as errors; no locations gives exactly "No implementations found"; otherwise the report with "File:" headers |
| TypeDefinition.TypeDefinitionRequest | internal/tools/type_definition.go:20-33 | the type-definition request carries `"file://" + filePath` and the converted position |
| TypeDefinition.GetTypeDefinition | internal/tools/type_definition.go:14-99 | open, request and extraction errors are returned as errors; no locations gives exactly "No type definition found"; otherwise the report with "File:" headers |

## Left out

- The language client (`OpenFile`, `References`, `Implementation`, `TypeDefinition`): this is JSON-RPC I/O with a subprocess. Each call's result is a parameter of the model, given as a function of the request.
- `os.ReadFile` and `os.Getenv`: file-system and environment I/O, taken as parameters. File content is a string of characters; Go strings holding invalid UTF-8 are not represented.
- `GetLineRangesToDisplay`, `ConvertLinesToRanges`, `FormatLinesWithRanges` and `ExtractLocationsFromDefinitionResult`: their code is not part of this model, so they are parameters that may succeed or fail. `GetLineRangesToDisplay` also receives the context and the client. It is modelled as a pure function of the locations, the line count and the context-line count.
- `context.Context` cancellation: not modelled. Errors keep only their kind and the underlying message, not the `fmt.Errorf` wrapping text.
- Go's map iteration order: it is nondeterministic and immediately erased by the sort. It is modelled as an arbitrary choice of the next key.
- `sort.Strings`: modelled by an insertion sort. Only its result, a sorted permutation, is specified and used.
- Go's 64-bit `int` for `line` and `column`: modelled as an unbounded integer. Taking the low 32 bits gives the same value either way.
- The transport, request registry, document store, diagnostics cache and process supervisor: their code is not part of this model.
