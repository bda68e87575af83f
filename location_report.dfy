/**
 * The per-file part shared by the three tools: for each URI, in the order
 * given, a section made of a header, the location markers and the source
 * lines the display helpers select; the sections are joined with "\n".
 *
 * The display helpers (`GetLineRangesToDisplay`, `ConvertLinesToRanges`,
 * `FormatLinesWithRanges`) and file reading are parameters: `L` is the
 * helpers' set of lines to show and `R` their list of line ranges.
 */
module LocationReport {
  import opened Wrappers
  import opened Protocol
  import opened GoStrings
  import opened StringOrder
  import opened Grouping
  import opened LocationFormat

  /** The display helpers; `lineRangesToDisplay` yields None where the Go helper returns an error. */
  datatype Helpers<!L, !R> = Helpers(
    lineRangesToDisplay: (seq<Location>, nat, nat) -> Option<L>,
    convertLinesToRanges: (L, nat) -> R,
    formatLinesWithRanges: (seq<string>, R) -> string)

  /**
   * What the tools read from outside: `openFile` is the language client's
   * OpenFile (None on success, Some(message) on error) and `readFile` is
   * `os.ReadFile` (the content, or the error's text).
   */
  datatype Workspace<!L, !R> = Workspace(
    openFile: string -> Option<string>,
    readFile: string -> Result<string, string>,
    helpers: Helpers<L, R>)

  /** The error a tool returns; only its kind and the underlying message are kept. */
  datatype ToolError = OpenFailed(detail: string) | RequestFailed(detail: string) | ParseFailed(detail: string)

  /**
   * The two section layouts: the references tool's (a count in the header,
   * a configurable number of context lines) and the "File:" layout of the
   * implementation and type-definition tools (always 5 context lines).
   */
  datatype Style = ReferencesStyle(contextLines: nat) | FileStyle

  const FileScheme := "file://"

  /** The path shown and read for a URI: the URI with one leading "file://" removed. */
  function DisplayPath(uri: string): (path: string)
    ensures FileScheme <= uri ==> FileScheme + path == uri
    ensures !(FileScheme <= uri) ==> path == uri
  {
    TrimPrefix(uri, FileScheme)
  }

  /** The context-line count given to the line-range helper. */
  function ContextOf(style: Style): (n: nat)
    ensures style.ReferencesStyle? ==> n == style.contextLines
    ensures style.FileStyle? ==> n == 5
  {
    match style
    case ReferencesStyle(n) => n
    case FileStyle => 5
  }

  /** The markers joined as on the "At:" line. */
  function AtList(group: seq<Location>): (r: string)
    ensures group == [] ==> r == ""
    ensures |group| > 0 ==> Marker(group[0]) <= r
    ensures |group| > 1 ==> Marker(group[0]) + ", " <= r
  {
    Join(Markers(group), ", ")
  }

  /** `fileInfo`: the part of a section written before the file is read. */
  function Header(style: Style, path: string, group: seq<Location>): (r: string)
    ensures "---\n\n" <= r
    ensures style.ReferencesStyle? ==> |r| >= 5 + |path| && r[5..5 + |path|] == path
    ensures style.FileStyle? ==> |r| >= 11 + |path| && r[5..11 + |path|] == "File: " + path
  {
    match style
    case ReferencesStyle(_) =>
      "---\n\n" + path + "\nReferences in File: " + DecimalString(|group|) + "\n"
    case FileStyle =>
      "---\n\nFile: " + path + "\n" + (if |Markers(group)| > 0 then "At: " + AtList(group) + "\n\n" else "")
  }

  /** The text a section holds after its header when the file cannot be read. */
  function ReadErrorText(style: Style, err: string): (r: string)
    ensures var e := "Error reading file: " + err; |e| <= |r| && r[|r| - |e|..] == e
    ensures style.ReferencesStyle? ==> r[0] == '\n'
  {
    match style
    case ReferencesStyle(_) =>
      var r := "\n" + ("Error reading file: " + err);
      assert r[1..] == "Error reading file: " + err;
      r
    case FileStyle => "Error reading file: " + err
  }

  /** What a successfully rendered section has between the header and the formatted lines. */
  function LocationsLine(style: Style, group: seq<Location>): (r: string)
    ensures style.FileStyle? ==> r == ""
    ensures style.ReferencesStyle? ==> |r| >= 1 && r[|r| - 1] == '\n'
    ensures style.ReferencesStyle? && group != [] ==> "At: " + AtList(group) + "\n" <= r
  {
    match style
    case ReferencesStyle(_) => (if |Markers(group)| > 0 then "At: " + AtList(group) + "\n" else "") + "\n"
    case FileStyle => ""
  }

  /**
   * The section of one file, or None when the file is left out: a read
   * failure gives the header and the error text, a failure of the
   * line-range helper leaves the file out, anything else gives the header,
   * the markers and the formatted lines.
   */
  function Section<L, R>(style: Style, uri: string, group: seq<Location>, w: Workspace<L, R>): (r: Option<string>)
    ensures r.Some? ==> Header(style, DisplayPath(uri), group) <= r.value
  {
    var path := DisplayPath(uri);
    var info := Header(style, path, group);
    match w.readFile(path)
    case Failure(err) => Some(info + ReadErrorText(style, err))
    case Success(content) =>
      var lines := Split(content, '\n');
      match w.helpers.lineRangesToDisplay(group, |lines|, ContextOf(style))
      case None => None
      case Some(show) =>
        var ranges := w.helpers.convertLinesToRanges(show, |lines|);
        Some(info + LocationsLine(style, group) + w.helpers.formatLinesWithRanges(lines, ranges))
  }

  /**
   * A read failure keeps the file, with the header and the error text; a
   * file is left out exactly when it was read and the line-range helper
   * failed.
   */
  lemma SectionOutcomes<L, R>(style: Style, uri: string, group: seq<Location>, w: Workspace<L, R>)
    ensures w.readFile(DisplayPath(uri)).Failure? ==>
      Section(style, uri, group, w) ==
        Some(Header(style, DisplayPath(uri), group) + ReadErrorText(style, w.readFile(DisplayPath(uri)).error))
    ensures Section(style, uri, group, w).None? <==>
      w.readFile(DisplayPath(uri)).Success? &&
      w.helpers.lineRangesToDisplay(group, |Split(w.readFile(DisplayPath(uri)).value, '\n')|, ContextOf(style)).None?
  {
  }

  /** The sections of the given URIs, in that order, skipping the files left out. */
  function Sections<L, R>(style: Style, uris: seq<string>, locs: seq<Location>, w: Workspace<L, R>): seq<string>
  {
    if uris == [] then []
    else
      var init := Sections(style, uris[..|uris| - 1], locs, w);
      var u := uris[|uris| - 1];
      match Section(style, u, Group(locs, u), w)
      case None => init
      case Some(s) => init + [s]
  }

  /** The URIs that contribute a section, in order. */
  function Survivors<L, R>(style: Style, uris: seq<string>, locs: seq<Location>, w: Workspace<L, R>): seq<string>
  {
    if uris == [] then []
    else
      var init := Survivors(style, uris[..|uris| - 1], locs, w);
      var u := uris[|uris| - 1];
      if Section(style, u, Group(locs, u), w).Some? then init + [u] else init
  }

  /** The k-th section is the section of the k-th surviving URI. */
  lemma {:induction false} SectionsOfSurvivors<L, R>(style: Style, uris: seq<string>, locs: seq<Location>, w: Workspace<L, R>)
    ensures |Sections(style, uris, locs, w)| == |Survivors(style, uris, locs, w)|
    ensures forall k :: 0 <= k < |Survivors(style, uris, locs, w)| ==>
      Section(style, Survivors(style, uris, locs, w)[k], Group(locs, Survivors(style, uris, locs, w)[k]), w)
        == Some(Sections(style, uris, locs, w)[k])
  {
    if uris != [] {
      SectionsOfSurvivors(style, uris[..|uris| - 1], locs, w);
    }
  }

  /** A URI survives exactly when its file has a section. */
  lemma {:induction false} SurvivorsIff<L, R>(style: Style, uris: seq<string>, locs: seq<Location>, w: Workspace<L, R>)
    ensures forall u :: u in Survivors(style, uris, locs, w) <==> u in uris && Section(style, u, Group(locs, u), w).Some?
  {
    if uris != [] {
      var init := uris[..|uris| - 1];
      SurvivorsIff(style, init, locs, w);
      assert uris == init + [uris[|uris| - 1]];
    }
  }

  /** Survivors keep the ascending order of the URIs, so no file appears twice. */
  lemma {:induction false} SurvivorsSorted<L, R>(style: Style, uris: seq<string>, locs: seq<Location>, w: Workspace<L, R>)
    requires StrictlySorted(uris)
    ensures StrictlySorted(Survivors(style, uris, locs, w))
  {
    if uris != [] {
      var init := uris[..|uris| - 1];
      var u := uris[|uris| - 1];
      assert StrictlySorted(init);
      SurvivorsSorted(style, init, locs, w);
      SurvivorsIff(style, init, locs, w);
      var s := Survivors(style, init, locs, w);
      forall k | 0 <= k < |s|
        ensures Less(s[k], u)
      {
        assert s[k] in init;
      }
    }
  }

  lemma SurvivorsSnoc<L, R>(style: Style, init: seq<string>, u: string, locs: seq<Location>, w: Workspace<L, R>)
    ensures Survivors(style, init + [u], locs, w) ==
      Survivors(style, init, locs, w) + (if Section(style, u, Group(locs, u), w).Some? then [u] else [])
  {
    var uris := init + [u];
    assert uris[..|uris| - 1] == init;
  }

  /** When no file is left out, every URI has its section, in order. */
  lemma {:induction false} AllSurvive<L, R>(style: Style, uris: seq<string>, locs: seq<Location>, w: Workspace<L, R>)
    requires forall u :: u in uris ==> Section(style, u, Group(locs, u), w).Some?
    ensures Survivors(style, uris, locs, w) == uris
  {
    if uris != [] {
      var init := uris[..|uris| - 1];
      var u := uris[|uris| - 1];
      assert uris == init + [u];
      SurvivorsSnoc(style, init, u, locs, w);
      AllSurvive(style, init, locs, w);
    }
  }

  /**
   * Every group of a non-empty URI has markers, so the guard on the "At:"
   * line always holds: the line lists the group's markers in order.
   */
  lemma SectionListsMarkers<L, R>(style: Style, locs: seq<Location>, uri: string, w: Workspace<L, R>)
    requires uri in UriSet(locs)
    ensures |Markers(Group(locs, uri))| >= 1
    ensures style.FileStyle? ==>
      Header(style, DisplayPath(uri), Group(locs, uri)) ==
        "---\n\nFile: " + DisplayPath(uri) + "\nAt: " + AtList(Group(locs, uri)) + "\n\n"
    ensures style.ReferencesStyle? ==>
      LocationsLine(style, Group(locs, uri)) == "At: " + AtList(Group(locs, uri)) + "\n\n"
  {
    GroupEmptyIff(locs, uri);
  }

  lemma SectionsSnoc<L, R>(style: Style, init: seq<string>, u: string, locs: seq<Location>, w: Workspace<L, R>)
    ensures Sections(style, init + [u], locs, w) ==
      Sections(style, init, locs, w) + (match Section(style, u, Group(locs, u), w) case None => [] case Some(s) => [s])
  {
    var uris := init + [u];
    assert uris[..|uris| - 1] == init;
  }

  lemma TakeOneMore(s: seq<string>, i: nat)
    requires i < |s|
    ensures s[..i + 1] == s[..i] + [s[i]]
  {
  }

  /** The per-file loop of the tools: visits the URIs in order and accumulates the sections. */
  method RenderSections<L, R>(style: Style, uris: seq<string>, groups: map<string, seq<Location>>, ghost locs: seq<Location>, w: Workspace<L, R>)
    returns (sections: seq<string>)
    requires forall u :: u in uris ==> u in groups && groups[u] == Group(locs, u)
    ensures sections == Sections(style, uris, locs, w)
  {
    sections := [];
    var i := 0;
    while i < |uris|
      invariant 0 <= i <= |uris|
      invariant sections == Sections(style, uris[..i], locs, w)
    {
      var uri := uris[i];
      var section := RenderFile(style, uri, groups[uri], w);
      TakeOneMore(uris, i);
      SectionsSnoc(style, uris[..i], uri, locs, w);
      if section.Some? {
        sections := sections + [section.value];
      }
      i := i + 1;
    }
    assert uris[..i] == uris;
  }

  /** The body of the per-file loop for one URI; None where the loop goes on to the next file. */
  method RenderFile<L, R>(style: Style, uri: string, fileLocs: seq<Location>, w: Workspace<L, R>) returns (section: Option<string>)
    ensures section == Section(style, uri, fileLocs, w)
  {
    var filePath := TrimPrefix(uri, FileScheme);
    var fileInfo := Header(style, filePath, fileLocs);
    var fileContent := w.readFile(filePath);
    if fileContent.Failure? {
      return Some(fileInfo + ReadErrorText(style, fileContent.error));
    }
    var lines := Split(fileContent.value, '\n');
    var locStrings := LocationMarkers(fileLocs);
    var linesToShow := w.helpers.lineRangesToDisplay(fileLocs, |lines|, ContextOf(style));
    if linesToShow.None? {
      return None;
    }
    var lineRanges := w.helpers.convertLinesToRanges(linesToShow.value, |lines|);
    var formattedOutput := fileInfo;
    if style.ReferencesStyle? {
      if |locStrings| > 0 {
        formattedOutput := formattedOutput + "At: " + Join(locStrings, ", ") + "\n";
      }
      formattedOutput := formattedOutput + "\n";
    }
    assert locStrings == Markers(fileLocs);
    assert formattedOutput == fileInfo + LocationsLine(style, fileLocs);
    formattedOutput := formattedOutput + w.helpers.formatLinesWithRanges(lines, lineRanges);
    return Some(formattedOutput);
  }

  /** The position part of every request: the document `"file://" + filePath` and the converted position. */
  function RequestPosition(filePath: string, line: int, column: int): (p: TextDocumentPositionParams)
    ensures p.uri == FileScheme + filePath
    ensures 1 <= line <= TwoTo32 && 1 <= column <= TwoTo32 ==>
      p.position.line as int == line - 1 && p.position.character as int == column - 1
    ensures line == 0 ==> p.position.line as int == TwoTo32 - 1
    ensures column == 0 ==> p.position.character as int == TwoTo32 - 1
  {
    TextDocumentPositionParams(FileScheme + filePath, ToPosition(line, column))
  }

  /** A location in the requested document is shown under the caller's own path. */
  lemma RequestedPathShown(filePath: string, line: int, column: int)
    ensures DisplayPath(RequestPosition(filePath, line, column).uri) == filePath
  {
    TrimAddedPrefix(FileScheme, filePath);
  }

  /**
   * The text a tool returns for the locations the server gave: the fixed
   * "not found" text for none, otherwise the sections of the files in
   * ascending URI order joined with "\n".
   */
  function Report<L, R>(style: Style, notFound: string, locs: seq<Location>, w: Workspace<L, R>): (r: string)
    ensures locs == [] ==> r == notFound
    ensures locs != [] && r != "" ==> "---\n\n" <= r
  {
    if locs == [] then notFound
    else
      var sections := Sections(style, UriOrder(locs), locs, w);
      SectionsStartWithRule(style, UriOrder(locs), locs, w);
      Join(sections, "\n")
  }

  /** Every section of a report opens with the "---" rule of its header. */
  lemma {:induction false} SectionsStartWithRule<L, R>(style: Style, uris: seq<string>, locs: seq<Location>, w: Workspace<L, R>)
    ensures forall k :: 0 <= k < |Sections(style, uris, locs, w)| ==> "---\n\n" <= Sections(style, uris, locs, w)[k]
  {
    if uris != [] {
      SectionsStartWithRule(style, uris[..|uris| - 1], locs, w);
    }
  }

  /**
   * The files of a report: each URI of the input at most once, ascending;
   * exactly those whose section exists; the k-th section is the k-th file's.
   */
  lemma ReportFiles<L, R>(style: Style, locs: seq<Location>, w: Workspace<L, R>)
    ensures var files := Survivors(style, UriOrder(locs), locs, w);
      && StrictlySorted(files)
      && (forall u :: u in files <==> u in UriSet(locs) && Section(style, u, Group(locs, u), w).Some?)
      && |Sections(style, UriOrder(locs), locs, w)| == |files|
      && forall k :: 0 <= k < |files| ==>
           Section(style, files[k], Group(locs, files[k]), w) == Some(Sections(style, UriOrder(locs), locs, w)[k])
  {
    UriOrderSpec(locs);
    SurvivorsSorted(style, UriOrder(locs), locs, w);
    SurvivorsIff(style, UriOrder(locs), locs, w);
    SectionsOfSurvivors(style, UriOrder(locs), locs, w);
  }

  /**
   * When no file is left out, the report has one section per distinct URI,
   * in ascending order, and its groups together are a permutation of the
   * input: every location is accounted for exactly once.
   */
  lemma ReportCoversAllLocations<L, R>(style: Style, locs: seq<Location>, w: Workspace<L, R>)
    requires forall u :: u in UriSet(locs) ==> Section(style, u, Group(locs, u), w).Some?
    ensures Survivors(style, UriOrder(locs), locs, w) == UriOrder(locs)
    ensures |Sections(style, UriOrder(locs), locs, w)| == |UriSet(locs)|
    ensures multiset(Concat(UriOrder(locs), locs)) == multiset(locs)
  {
    UriOrderSpec(locs);
    AllSurvive(style, UriOrder(locs), locs, w);
    SectionsOfSurvivors(style, UriOrder(locs), locs, w);
    StrictIsDistinct(UriOrder(locs));
    DistinctElementCount(UriOrder(locs), UriSet(locs));
    assert forall i :: 0 <= i < |locs| ==> locs[i].uri in UriSet(locs);
    GroupsPartition(UriOrder(locs), locs);
  }

  lemma {:induction false} DistinctElementCount(s: seq<string>, elements: set<string>)
    requires Distinct(s)
    requires forall x :: x in s <==> x in elements
    ensures |s| == |elements|
  {
    if s != [] {
      var rest := elements - {s[0]};
      assert Distinct(s[1..]);
      forall x
        ensures x in s[1..] <==> x in rest
      {
        if x in s[1..] {
          var k :| 0 <= k < |s[1..]| && s[1..][k] == x;
          assert s[k + 1] == x;
        }
        if x in rest {
          assert x in s && x != s[0];
          assert s == [s[0]] + s[1..];
        }
      }
      DistinctElementCount(s[1..], rest);
    } else {
      assert forall x :: x !in elements;
      assert elements == {};
    }
  }

  /** The pipeline shared by the tools once the server's locations are known. */
  method RenderReport<L, R>(style: Style, notFound: string, locs: seq<Location>, w: Workspace<L, R>) returns (output: string)
    ensures locs == [] ==> output == notFound
    ensures output == Report(style, notFound, locs, w)
  {
    if |locs| == 0 {
      return notFound;
    }
    var groups := GroupByUri(locs);
    var uris := SortedUris(groups.Keys);
    UriOrderSpec(locs);
    SortedUnique(uris, UriOrder(locs));
    var sections := RenderSections(style, uris, groups, locs, w);
    output := Join(sections, "\n");
  }
}
