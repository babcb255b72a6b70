// The tree-data provider of the TODO panel, without its editor glue: turning the
// matches of each file into tree items (`getTodos`), gathering the items of all
// files, building the exclude glob from configuration, and the guard for a
// window without a workspace folder (`getChildren`).
module TodoProvider {
  import opened Wrappers
  import opened Text
  import opened TodoRegex
  import opened Promises

  // A workspace file, as the `vscode.Uri` that `findFiles` returns and `vscode.open` receives.
  type Path = string

  // The command bound to a tree item: `vscode.open` with the file as its only argument.
  datatype OpenCommand = OpenCommand(command: string, title: string, arguments: seq<Path>)

  // One entry of the panel: the TODO text (its tree label), and the command that opens its file.
  datatype TodoItem = TodoItem(text: string, command: OpenCommand)

  // Why a scan rejects: the `TypeError` of line 54 or a failed file read.
  datatype Failure = TypeError | ReadFailure(path: Path)

  // A file found by the search, with what reading it delivered (`None` when the read failed).
  datatype SourceFile = SourceFile(path: Path, text: Option<string>)

  // The item created for `text` found in `path`.
  function Item(text: string, path: Path): (item: TodoItem)
    ensures item.text == text
    ensures item.command.command == "vscode.open" && item.command.title == "" && item.command.arguments == [path]
  {
    TodoItem(text, OpenCommand("vscode.open", "", [path]))
  }

  // Line 54: `match[1]` when it is a non-empty string, otherwise `match[2]`, trimmed. When the
  // line form matched with an empty capture, `match[1]` is `""` (falsy) and `match[2]` is
  // `undefined`, so calling `trim` on it throws a TypeError.
  function SelectText(c: Capture): (r: Result<string, Failure>)
    ensures r.Err? <==> c == LineText("")
    ensures r.Err? ==> r.error == TypeError
    ensures r.Ok? ==> r.value == Trim(c.text)
  {
    match c
    case LineText(t) => if t != "" then Ok(Trim(t)) else Err(TypeError)
    case BlockText(t) => Ok(Trim(t))
  }

  // Selection fails exactly for an empty line-form capture; otherwise it yields the trimmed
  // capture, which neither begins nor ends with whitespace and holds no line terminator.
  lemma SelectTextSpec(s: string, p: nat)
    requires MatchAt(s, p).Some?
    ensures var c := MatchAt(s, p).value.capture;
      && (SelectText(c).Err? <==> c == LineText(""))
      && (SelectText(c).Ok? ==> SelectText(c).value == Trim(c.text))
      && (SelectText(c).Ok? ==> Trimmed(SelectText(c).value) && SingleLine(SelectText(c).value))
  {
    var c := MatchAt(s, p).value.capture;
    CaptureOnOneLine(s, p);
    TrimSpec(c.text);
    TrimSingleLine(c.text);
  }

  // The rest of one file's loop: `items` pushed so far, the matches `ms` still to come.
  // Each match pushes one item with its selected text, unless the selection throws.
  function Collect(path: Path, items: seq<TodoItem>, ms: seq<Match>): (r: Result<seq<TodoItem>, Failure>)
    ensures r.Err? ==> r.error == TypeError
    ensures r.Ok? ==> |r.value| == |items| + |ms|
    decreases |ms|
  {
    if ms == [] then Ok(items)
    else
      match SelectText(ms[0].capture)
      case Err(e) => Err(e)
      case Ok(text) => Collect(path, items + [Item(text, path)], ms[1..])
  }

  // The items of one file for the matches `ms`, in match order, or the TypeError of the
  // first match whose selection throws.
  function Records(path: Path, ms: seq<Match>): (r: Result<seq<TodoItem>, Failure>)
    ensures r.Err? ==> r.error == TypeError
    ensures r.Ok? ==> |r.value| == |ms|
  {
    Collect(path, [], ms)
  }

  // The loop throws exactly when the selection throws for one of the remaining matches,
  // and then with the TypeError.
  lemma {:induction false} CollectErrIff(path: Path, items: seq<TodoItem>, ms: seq<Match>)
    ensures Collect(path, items, ms).Err? <==> exists i :: 0 <= i < |ms| && SelectText(ms[i].capture).Err?
    ensures Collect(path, items, ms).Err? ==> Collect(path, items, ms).error == TypeError
    decreases |ms|
  {
    if ms != [] && SelectText(ms[0].capture).Ok? {
      var text := SelectText(ms[0].capture).value;
      CollectErrIff(path, items + [Item(text, path)], ms[1..]);
      if exists i :: 0 <= i < |ms| && SelectText(ms[i].capture).Err? {
        var i :| 0 <= i < |ms| && SelectText(ms[i].capture).Err?;
        assert ms[1..][i - 1] == ms[i];
      }
    }
  }

  // Otherwise the loop keeps the items already pushed and pushes one item per remaining
  // match, in match order, labelled with the selected text and opening `path`.
  lemma {:induction false} CollectOk(path: Path, items: seq<TodoItem>, ms: seq<Match>)
    requires Collect(path, items, ms).Ok?
    ensures forall i :: 0 <= i < |ms| ==> SelectText(ms[i].capture).Ok?
    ensures var r := Collect(path, items, ms).value;
      && |r| == |items| + |ms| && r[..|items|] == items
      && forall i :: 0 <= i < |ms| ==> r[|items| + i] == Item(SelectText(ms[i].capture).value, path)
    decreases |ms|
  {
    CollectErrIff(path, items, ms);
    if ms != [] {
      var text := SelectText(ms[0].capture).value;
      var items' := items + [Item(text, path)];
      CollectOk(path, items', ms[1..]);
      var r := Collect(path, items, ms).value;
      assert r[..|items'|][..|items|] == items;
      forall i | 0 <= i < |ms|
        ensures r[|items| + i] == Item(SelectText(ms[i].capture).value, path)
      {
        if i == 0 {
          assert r[|items|] == r[..|items'|][|items|];
        } else {
          assert ms[i] == ms[1..][i - 1];
        }
      }
    }
  }

  // One item per match, in match order, labelled with the selected text and opening `path`;
  // the file throws exactly when the selection throws for one of its matches.
  lemma RecordsSpec(path: Path, ms: seq<Match>)
    ensures var r := Records(path, ms);
      && (r.Err? <==> exists i :: 0 <= i < |ms| && SelectText(ms[i].capture).Err?)
      && (r.Ok? ==> |r.value| == |ms|)
      && (r.Ok? ==> forall i :: 0 <= i < |ms| ==> r.value[i] == Item(SelectText(ms[i].capture).value, path))
  {
    CollectErrIff(path, [], ms);
    if Records(path, ms).Ok? {
      CollectOk(path, [], ms);
    }
  }

  // What the callback of `getTodos` contributes for one file.
  function FileTodos(path: Path, content: string): (r: Result<seq<TodoItem>, Failure>)
    ensures r.Err? ==> r.error == TypeError
    ensures r.Ok? ==> |r.value| == |Matches(content, 0)|
  {
    Records(path, Matches(content, 0))
  }

  // What one file contributes, a failed read included.
  function FileResult(f: SourceFile): (r: Result<seq<TodoItem>, Failure>)
    ensures r.Err? && r.error.ReadFailure? <==> f.text.None?
    ensures r.Err? && r.error.ReadFailure? ==> r.error.path == f.path
  {
    match f.text
    case None => Err(ReadFailure(f.path))
    case Some(content) => FileTodos(f.path, content)
  }

  // The whole scan: each file's callback, in the order the callbacks ran, under `Promise.all`.
  function Aggregate(files: seq<SourceFile>): (r: Result<seq<TodoItem>, Failure>)
    ensures r.Err? && r.error.ReadFailure? ==>
      exists i :: 0 <= i < |files| && files[i].text.None? && files[i].path == r.error.path
  {
    MapElements(FileResult, files);
    All(Map(FileResult, files))
  }

  // The scan succeeds exactly when every file is read and extracted without a throw.
  lemma AggregateOkIff(files: seq<SourceFile>)
    ensures Aggregate(files).Ok? <==> forall i :: 0 <= i < |files| ==> FileResult(files[i]).Ok?
  {
    AllOkIff(Map(FileResult, files));
    MapElements(FileResult, files);
  }

  // On success each file's items form one contiguous block, in match order, between the
  // items of the files whose callbacks ran before it and those that ran after it.
  lemma FileItemsContiguous(files: seq<SourceFile>, i: nat)
    requires i < |files| && Aggregate(files).Ok?
    ensures FileResult(files[i]).Ok? && Aggregate(files[..i]).Ok? && Aggregate(files[i + 1..]).Ok?
    ensures Aggregate(files).value
         == Aggregate(files[..i]).value + FileResult(files[i]).value + Aggregate(files[i + 1..]).value
  {
    AllContiguous(Map(FileResult, files), i);
    MapSlices(FileResult, files, i);
    MapAt(FileResult, files, i);
  }

  // The order in which the callbacks run does not matter: two orders of the same files
  // both succeed or both fail, and on success yield the same items up to order.
  lemma AggregateOrderIrrelevant(a: seq<SourceFile>, b: seq<SourceFile>)
    requires multiset(a) == multiset(b)
    ensures Aggregate(a).Ok? <==> Aggregate(b).Ok?
    ensures Aggregate(a).Ok? ==> multiset(Aggregate(a).value) == multiset(Aggregate(b).value)
  {
    MapPermutes(FileResult, a, b);
    AllOrderIrrelevant(Map(FileResult, a), Map(FileResult, b));
  }

  // Every item of a successful scan opens one of the scanned files with `vscode.open`.
  lemma ItemsOpenTheirFile(files: seq<SourceFile>, t: TodoItem)
    requires Aggregate(files).Ok? && t in Aggregate(files).value
    ensures t.command.command == "vscode.open"
    ensures exists i :: 0 <= i < |files| && t.command.arguments == [files[i].path]
  {
    var i := AllItemSource(Map(FileResult, files), t);
    MapAt(FileResult, files, i);
    var f := files[i];
    var ms := Matches(f.text.value, 0);
    RecordsSpec(f.path, ms);
    var k :| 0 <= k < |ms| && FileResult(f).value[k] == t;
  }

  // The callback of `getTodos` for one file whose read delivered `content`: `exec` from
  // `lastIndex` 0 on, one item per match, until `exec` finds nothing or the selection throws.
  method ScanFile(path: Path, content: string) returns (r: Result<seq<TodoItem>, Failure>)
    ensures r == FileTodos(path, content)
  {
    var items: seq<TodoItem> := [];
    var lastIndex := 0;
    while true
      invariant lastIndex <= |content|
      invariant Collect(path, items, Matches(content, lastIndex)) == FileTodos(path, content)
      decreases |content| - lastIndex
    {
      var m := Exec(content, lastIndex);
      if m.None? {
        MatchesDone(content, lastIndex);
        return Ok(items);
      }
      var found := m.value;
      MatchesStep(content, lastIndex, found);
      assert ([found] + Matches(content, found.end))[1..] == Matches(content, found.end);
      var text := SelectText(found.capture);
      if text.Err? {
        return Err(TypeError);
      }
      items := items + [Item(text.value, path)];
      lastIndex := found.end;
    }
  }

  // `getTodos` with the file reads replaced by `files`, in the order their callbacks run:
  // each callback appends its file's items to the shared `todos`.
  method GetTodos(files: seq<SourceFile>) returns (r: Result<seq<TodoItem>, Failure>)
    ensures r == Aggregate(files)
  {
    ghost var outcomes := Map(FileResult, files);
    var todos: seq<TodoItem> := [];
    var i := 0;
    while i < |files|
      invariant i <= |files|
      invariant All(outcomes[..i]) == Ok(todos)
    {
      var file := files[i];
      MapAt(FileResult, files, i);
      AllStep(outcomes, i);
      match file.text
      case None =>
        AllPrefixErr(outcomes, i + 1);
        return Err(ReadFailure(file.path));
      case Some(content) =>
        var found := ScanFile(file.path, content);
        if found.Err? {
          AllPrefixErr(outcomes, i + 1);
          return found;
        }
        todos := todos + found.value;
      i := i + 1;
    }
    assert outcomes[..i] == outcomes;
    r := Ok(todos);
  }

  // The `todo.exclude` setting as `config.get('exclude')` returns it: a list of globs, or a
  // falsy value (unset, `null`, ...).
  datatype ExcludeSetting = Falsy | Globs(globs: seq<string>)

  // The exclusion used when the setting is falsy.
  const DefaultExclude: seq<string> := ["**/node_modules/**"]

  // The files searched: TypeScript and JavaScript sources.
  const IncludeGlob: string := "**/*.{ts,js,jsx,tsx}"

  // The notice shown when no workspace folder is open.
  const NoWorkspaceMessage: string := "No workspace folder open"

  // `config.get('exclude') || ['**/node_modules/**']`.
  function ExcludePatterns(setting: ExcludeSetting): (patterns: seq<string>)
    ensures patterns == [] <==> setting == Globs([])
  {
    match setting
    case Falsy => DefaultExclude
    case Globs(globs) => globs
  }

  // The exclude argument of `findFiles`: the patterns joined by commas in one brace group.
  function ExcludeGlob(patterns: seq<string>): (g: string)
    ensures |g| >= 2 && g[0] == '{' && g[|g| - 1] == '}'
  {
    "{" + Join(patterns, ',') + "}"
  }

  // The alternatives of a brace group `{a,b,...}`: the group's text split at every comma; a
  // glob matcher reads it the same way when no pattern holds a comma or a brace.
  function BraceAlternatives(g: string): seq<string>
    requires |g| >= 2
  {
    Split(g[1..|g| - 1], ',')
  }

  // The exclude glob is one brace group whose alternatives are exactly the configured
  // patterns, when there is at least one and none contains a comma.
  lemma ExcludeGlobAlternatives(patterns: seq<string>)
    requires |patterns| > 0 && forall i :: 0 <= i < |patterns| ==> ',' !in patterns[i]
    ensures var g := ExcludeGlob(patterns);
      |g| >= 2 && g[0] == '{' && g[|g| - 1] == '}' && BraceAlternatives(g) == patterns
  {
    var g := ExcludeGlob(patterns);
    assert g[1..|g| - 1] == Join(patterns, ',');
    SplitJoin(patterns, ',');
  }

  // Conversely, every brace group is the exclude glob of its own alternatives.
  lemma BraceGroupIsExcludeGlob(g: string)
    requires |g| >= 2 && g[0] == '{' && g[|g| - 1] == '}'
    ensures ExcludeGlob(BraceAlternatives(g)) == g
  {
    JoinSplit(g[1..|g| - 1], ',');
    assert g == "{" + g[1..|g| - 1] + "}";
  }

  // A falsy setting gives the default exclusion; any list, the empty one included, is kept
  // as configured, so an empty list excludes through the empty brace group `{}`.
  lemma ExcludeDefaulting(globs: seq<string>)
    ensures ExcludeGlob(ExcludePatterns(Falsy)) == "{**/node_modules/**}"
    ensures ExcludePatterns(Globs(globs)) == globs
    ensures ExcludeGlob(ExcludePatterns(Globs([]))) == "{}"
  {
  }

  // A call `getChildren` makes into the editor host.
  datatype HostCall =
    | ShowInformationMessage(message: string)
    | GetConfiguration(section: string)
    | FindFiles(pattern: string, excludePattern: string)

  // What `getChildren` does: the host calls it makes, in order, and what its promise settles to.
  datatype Children = Children(calls: seq<HostCall>, result: Result<seq<TodoItem>, Failure>)

  // `getChildren` for the provider's workspace root (`rootPath || ""`). The configuration
  // `setting` and the files `found` (in the order their callbacks run) are the host's answers
  // to the calls it makes; with an empty root it makes neither call.
  function GetChildren(workspaceRoot: string, setting: ExcludeSetting, found: seq<SourceFile>): (c: Children)
    ensures c.calls != [] && (c.calls[0].ShowInformationMessage? <==> workspaceRoot == "")
  {
    if workspaceRoot == "" then
      Children([ShowInformationMessage(NoWorkspaceMessage)], Ok([]))
    else
      Children([GetConfiguration("todo"), FindFiles(IncludeGlob, ExcludeGlob(ExcludePatterns(setting)))],
               Aggregate(found))
  }

  // Without a workspace folder the result is empty and the only host call is the notice: the
  // configuration is not read and no file is searched. With one, no notice is shown, the
  // configuration is read, the search uses the exclude glob built from it, and the result is
  // the scan of the files found.
  lemma GetChildrenSpec(workspaceRoot: string, setting: ExcludeSetting, found: seq<SourceFile>)
    ensures var c := GetChildren(workspaceRoot, setting, found);
      && (workspaceRoot == "" <==> ShowInformationMessage(NoWorkspaceMessage) in c.calls)
      && (workspaceRoot == "" ==> c.result == Ok([]) && forall h :: h in c.calls ==> h.ShowInformationMessage?)
      && (workspaceRoot != "" ==>
            && GetConfiguration("todo") in c.calls
            && FindFiles(IncludeGlob, ExcludeGlob(ExcludePatterns(setting))) in c.calls
            && c.result == Aggregate(found))
  {
  }

  // Line 54 as evidently intended: the group that participated, trimmed, whether or not it
  // is empty (testing `match[1] !== undefined` rather than its truthiness).
  function IntendedText(c: Capture): string {
    Trim(c.text)
  }

  // One file's items under the intended selection: one item per match, in match order.
  function IntendedRecords(path: Path, ms: seq<Match>): (r: seq<TodoItem>)
    ensures |r| == |ms|
  {
    if ms == [] then [] else [Item(IntendedText(ms[0].capture), path)] + IntendedRecords(path, ms[1..])
  }

  // The intended selection never throws, yields one item per match, and agrees with the
  // source wherever the source does not throw.
  lemma {:induction false} IntendedRecordsAgree(path: Path, ms: seq<Match>)
    ensures |IntendedRecords(path, ms)| == |ms|
    ensures forall i :: 0 <= i < |ms| ==> IntendedRecords(path, ms)[i] == Item(Trim(ms[i].capture.text), path)
    ensures Records(path, ms).Ok? ==> Records(path, ms).value == IntendedRecords(path, ms)
    decreases |ms|
  {
    if ms != [] {
      IntendedRecordsAgree(path, ms[1..]);
      var r := IntendedRecords(path, ms);
      forall i | 0 <= i < |ms|
        ensures r[i] == Item(Trim(ms[i].capture.text), path)
      {
        if i > 0 {
          assert r[i] == IntendedRecords(path, ms[1..])[i - 1];
          assert ms[i] == ms[1..][i - 1];
        }
      }
      if Records(path, ms).Ok? {
        RecordsSpec(path, ms);
        var v := Records(path, ms).value;
        forall i | 0 <= i < |ms| ensures v[i] == r[i] {
          assert SelectText(ms[i].capture).Ok?;
        }
      }
    }
  }

  // The source throws exactly where the intended selection and the source part ways: on a
  // line-form marker with an empty capture.
  lemma SourceThrowsOnlyOnEmptyLineCapture(path: Path, content: string)
    ensures FileTodos(path, content).Err? <==>
      exists i :: 0 <= i < |Matches(content, 0)| && Matches(content, 0)[i].capture == LineText("")
    ensures FileTodos(path, content).Ok? ==> FileTodos(path, content).value == IntendedRecords(path, Matches(content, 0))
  {
    var ms := Matches(content, 0);
    RecordsSpec(path, ms);
    IntendedRecordsAgree(path, ms);
    if exists i :: 0 <= i < |ms| && ms[i].capture == LineText("") {
      var i :| 0 <= i < |ms| && ms[i].capture == LineText("");
      assert SelectText(ms[i].capture).Err?;
      assert Records(path, ms).Err?;
      // The postcondition speaks of `FileTodos` and `Matches(content, 0)`, not of `ms`: these
      // two give the solver the unfolded call and the witness in the postcondition's terms.
      assert FileTodos(path, content) == Records(path, ms);
      assert exists j :: 0 <= j < |Matches(content, 0)| && Matches(content, 0)[j].capture == LineText("");
    } else {
      forall i | 0 <= i < |ms| ensures SelectText(ms[i].capture).Ok? {
        assert ms[i].capture != LineText("");
      }
    }
  }

  // The smallest input that shows it: an empty line marker at the end of the text makes the
  // whole file throw, where the corrected selection gives one item with the empty label.
  lemma EmptyLineMarkerThrows(path: Path)
    ensures FileTodos(path, "//TODO:") == Err(TypeError)
    ensures IntendedRecords(path, Matches("//TODO:", 0)) == [Item("", path)]
  {
    // The scan is spelled out step by step: left to the solver, the unfoldings of
    // Matches, NextMatch and the scanner functions do not all fit the resource limit.
    var s := "//TODO:";
    var m := Match(0, 7, LineText(""));
    assert HasAt(s, 0, "//");
    assert WhitespaceRun(s, 2) == 0;
    assert HasAt(s, 2, "TODO:");
    assert LineEnd(s, 7) == 7;
    assert s[7..7] == "";
    assert LineMatchAt(s, 0) == Some(m);
    assert NextMatch(s, 0) == Some(m);
    MatchesStep(s, 0, m);
    MatchesDone(s, 7);
    assert Matches(s, 0) == [m];
    SourceThrowsOnlyOnEmptyLineCapture(path, s);
    IntendedRecordsAgree(path, [m]);
    CollectErrIff(path, [], [m]);
  }
}
