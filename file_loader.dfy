/** Discovery of Svelte components that opt in to the component library:
    a walk over the source tree that keeps `.svelte` files, a search of each
    component's scripts for `export const evidenceInclude = true`, and the
    names of the components that carry it. */
module FileLoader {
  import opened Strings

  datatype Option<T> = None | Some(value: T)

  // ---------------------------------------------------------------------
  // The part of a parsed script that the marker search looks at (ESTree)
  // ---------------------------------------------------------------------

  /** The `value` of a `Literal` node. */
  datatype LiteralValue =
    | BoolValue(b: bool)
    | NumberValue(n: int)
    | StringValue(s: string)
    | NullValue
    | RegExpValue

  /** The `init` of a declarator: a `Literal`, or any other expression. */
  datatype Expression = Literal(value: LiteralValue) | OtherExpression

  /** The `id` of a declarator: an `Identifier`, or a destructuring pattern. */
  datatype Pattern = Identifier(name: string) | OtherPattern

  datatype VariableDeclarator = VariableDeclarator(id: Pattern, init: Option<Expression>)

  datatype VariableKind = Const | Let | Var

  /** The `declaration` of an export: a `VariableDeclaration` (whose
      `declarations` list a malformed tree may lack), or any other kind. */
  datatype Declaration =
    | VariableDeclaration(kind: VariableKind, declarations: Option<seq<VariableDeclarator>>)
    | OtherDeclaration

  /** A top-level statement of a script body. */
  datatype Statement =
    | ExportNamedDeclaration(declaration: Option<Declaration>)
    | OtherStatement

  /** A `<script>` block: its program body. */
  datatype Script = Script(body: seq<Statement>)

  /** What the Svelte parser yields for a component: the instance script
      (`<script>`) and the module script (`<script context="module">`),
      each absent when the component has no such block. */
  datatype ParsedComponent = ParsedComponent(instanceScript: Option<Script>, moduleScript: Option<Script>)

  const MarkerName := "evidenceInclude"

  // ---------------------------------------------------------------------
  // The marker search
  // ---------------------------------------------------------------------

  /** A declarator `evidenceInclude = true`: identifier named exactly
      `evidenceInclude`, initialised with the literal `true`. */
  predicate IsMarkerDeclarator(d: VariableDeclarator)
  {
    d.id.Identifier? && d.id.name == MarkerName &&
    d.init.Some? && d.init.value.Literal? && d.init.value.value == BoolValue(true)
  }

  /** A statement that is, on its own, `export const ..., evidenceInclude = true, ...`. */
  ghost predicate IsMarkerStatement(node: Statement)
  {
    node.ExportNamedDeclaration? &&
    node.declaration.Some? &&
    node.declaration.value.VariableDeclaration? &&
    node.declaration.value.kind == Const &&
    node.declaration.value.declarations.Some? &&
    exists i :: 0 <= i < |node.declaration.value.declarations.value| &&
      IsMarkerDeclarator(node.declaration.value.declarations.value[i])
  }

  /** The loop over the sub-declarations: declarators that are not the
      marker are skipped, the first one that is ends the scan. */
  function ScanDeclarators(ds: seq<VariableDeclarator>): (found: bool)
    ensures found <==> exists i :: 0 <= i < |ds| && IsMarkerDeclarator(ds[i])
  {
    if |ds| == 0 then false
    else if IsMarkerDeclarator(ds[0]) then true
    else ScanDeclarators(ds[1..])
  }

  /** The reducer `astDeclarationSearch(found, currentNode)`. */
  function DeclarationSearch(found: bool, node: Statement): (r: bool)
    ensures found ==> r
    ensures !found ==> (r <==> IsMarkerStatement(node))
  {
    if found then found
    else if !node.ExportNamedDeclaration? then false
    else match node.declaration
      case None => false
      case Some(OtherDeclaration) => false
      case Some(VariableDeclaration(kind, declarations)) =>
        if kind != Const then false
        else match declarations
          case None => false
          case Some(ds) => ScanDeclarators(ds)
  }

  /** `body.reduce(astDeclarationSearch, acc)`: a left fold over the body.
      Once found, always found: a `true` accumulator survives any body. */
  function SearchBody(body: seq<Statement>, acc: bool): (found: bool)
    ensures acc ==> found
  {
    if |body| == 0 then acc
    else SearchBody(body[1..], DeclarationSearch(acc, body[0]))
  }

  /** The fold from `acc` holds exactly when `acc` does or some single
      statement of the body is the marker on its own. */
  lemma {:induction false} SearchBodyFinds(body: seq<Statement>, acc: bool)
    ensures SearchBody(body, acc) <==> acc || exists i :: 0 <= i < |body| && IsMarkerStatement(body[i])
  {
    if |body| > 0 {
      var next := DeclarationSearch(acc, body[0]);
      SearchBodyFinds(body[1..], next);
      if exists i :: 0 <= i < |body| && IsMarkerStatement(body[i]) {
        var i :| 0 <= i < |body| && IsMarkerStatement(body[i]);
        if i > 0 {
          assert body[1..][i - 1] == body[i];
        }
      }
      forall i | 0 <= i < |body[1..]| && IsMarkerStatement(body[1..][i])
        ensures exists j :: 0 <= j < |body| && IsMarkerStatement(body[j])
      {
        assert body[i + 1] == body[1..][i];
      }
    }
  }

  /** A script that is present and has a marker statement in its body. */
  ghost predicate ScriptMarked(script: Option<Script>)
  {
    script.Some? && exists i :: 0 <= i < |script.value.body| && IsMarkerStatement(script.value.body[i])
  }

  /** A component is in the library when either of its scripts is marked. */
  ghost predicate HasIncludeMarker(parsed: ParsedComponent)
  {
    ScriptMarked(parsed.instanceScript) || ScriptMarked(parsed.moduleScript)
  }

  /** `isLibraryComponent` after parsing: `result` starts `false` and is
      or-ed with the search of each script that is present. */
  method IsLibraryComponent(parseResult: ParsedComponent) returns (result: bool)
    ensures result == HasIncludeMarker(parseResult)
    ensures parseResult.instanceScript.None? && parseResult.moduleScript.None? ==> !result
  {
    result := false;
    if parseResult.instanceScript.Some? {
      SearchBodyFinds(parseResult.instanceScript.value.body, false);
      result := result || SearchBody(parseResult.instanceScript.value.body, false);
    }
    if parseResult.moduleScript.Some? {
      SearchBodyFinds(parseResult.moduleScript.value.body, false);
      result := result || SearchBody(parseResult.moduleScript.value.body, false);
    }
  }

  // ---------------------------------------------------------------------
  // The directory walk
  // ---------------------------------------------------------------------

  /** A directory entry as `readdir` lists it: a directory with its own
      listing, or anything else (a file). */
  datatype Entry = File(name: string) | Dir(name: string, children: seq<Entry>)

  /** A path as its `/`-separated segments. */
  type Path = seq<string>

  function PathString(p: Path): string
  {
    Join(p, '/')
  }

  /** Entry names the walk passes over: dependencies, hidden entries and
      SvelteKit's `+` route files. */
  function Skipped(name: string): (skipped: bool)
    ensures skipped <==> name == "node_modules" || (|name| > 0 && (name[0] == '.' || name[0] == '+'))
  {
    name == "node_modules" || StartsWith(name, ".") || StartsWith(name, "+")
  }

  /** A file kept by the walk: its name is a stem followed by `.svelte`. */
  function IsComponentFile(name: string): (isComponent: bool)
    ensures isComponent <==> |name| >= 7 && name == name[..|name| - 7] + ".svelte"
  {
    EndsWith(name, ".svelte")
  }

  /** What the walk contributes for one entry under `root`. */
  function EntryComponents(root: Path, e: Entry): (paths: seq<Path>)
    ensures Skipped(e.name) ==> paths == []
    decreases e
  {
    if Skipped(e.name) then []
    else match e
      case Dir(name, children) => Components(root + [name], children)
      case File(name) => if IsComponentFile(name) then [root + [name]] else []
  }

  /** The walk over a listing: each entry's contribution, in listing order. */
  function Components(root: Path, entries: seq<Entry>): (paths: seq<Path>)
    ensures (forall i :: 0 <= i < |entries| ==> Skipped(entries[i].name)) ==> paths == []
    decreases entries
  {
    if |entries| == 0 then []
    else EntryComponents(root, entries[0]) + Components(root, entries[1..])
  }

  /** Order: the result for a concatenated listing is the concatenation,
      so each subdirectory's results stand at that directory's position. */
  lemma {:induction false} ComponentsAppend(root: Path, a: seq<Entry>, b: seq<Entry>)
    ensures Components(root, a + b) == Components(root, a) + Components(root, b)
  {
    if |a| > 0 {
      assert (a + b)[0] == a[0];
      assert (a + b)[1..] == a[1..] + b;
      ComponentsAppend(root, a[1..], b);
      calc {
        Components(root, a + b);
        EntryComponents(root, a[0]) + Components(root, a[1..] + b);
        EntryComponents(root, a[0]) + (Components(root, a[1..]) + Components(root, b));
        (EntryComponents(root, a[0]) + Components(root, a[1..])) + Components(root, b);
      }
    } else {
      assert a + b == b;
    }
  }

  /** `findSvelteComponents`: a loop over the listing that pushes each
      component file and splices in each subdirectory's own results. */
  method FindSvelteComponents(root: Path, directoryContents: seq<Entry>) returns (output: seq<Path>)
    ensures output == Components(root, directoryContents)
    decreases directoryContents
  {
    output := [];
    var i := 0;
    while i < |directoryContents|
      invariant 0 <= i <= |directoryContents|
      invariant output == Components(root, directoryContents[..i])
    {
      var item := directoryContents[i];
      ComponentsAppend(root, directoryContents[..i], [item]);
      assert directoryContents[..i + 1] == directoryContents[..i] + [item];
      assert Components(root, [item]) == EntryComponents(root, item);
      i := i + 1;
      if item.name == "node_modules" { continue; }
      if StartsWith(item.name, ".") { continue; }
      if StartsWith(item.name, "+") { continue; }
      var itemPath := root + [item.name];
      if item.Dir? {
        var nested := FindSvelteComponents(itemPath, item.children);
        output := output + nested;
      } else if IsComponentFile(item.name) {
        output := output + [itemPath];
      }
    }
    assert directoryContents[..i] == directoryContents;
  }

  /** Relational reference for the walk: `s` leads from the listing, through
      non-skipped directories, to a non-skipped `.svelte` file. */
  ghost predicate Discoverable(entries: seq<Entry>, s: Path)
    decreases |s|
  {
    |s| > 0 &&
    exists i :: 0 <= i < |entries| && entries[i].name == s[0] && !Skipped(s[0]) &&
      if |s| == 1 then entries[i].File? && IsComponentFile(s[0])
      else entries[i].Dir? && Discoverable(entries[i].children, s[1..])
  }

  /** Every path found lies under `root` and is discoverable below it. */
  lemma {:induction false} ComponentsSound(root: Path, entries: seq<Entry>, p: Path)
    requires p in Components(root, entries)
    ensures |root| < |p| && p[..|root|] == root && Discoverable(entries, p[|root|..])
    decreases entries
  {
    var e := entries[0];
    if p in EntryComponents(root, e) {
      match e
      case Dir(name, children) =>
        ComponentsSound(root + [name], children, p);
        var s := p[|root|..];
        assert p[..|root|] == (root + [name])[..|root|];
        assert s[1..] == p[|root + [name]|..];
        assert entries[0].name == s[0];
      case File(name) =>
        assert p == root + [name];
        assert p[|root|..] == [name];
    } else {
      ComponentsSound(root, entries[1..], p);
      var s := p[|root|..];
      var i :| 0 <= i < |entries[1..]| && entries[1..][i].name == s[0] && !Skipped(s[0]) &&
        if |s| == 1 then entries[1..][i].File? && IsComponentFile(s[0])
        else entries[1..][i].Dir? && Discoverable(entries[1..][i].children, s[1..]);
      assert entries[i + 1] == entries[1..][i];
    }
  }

  /** Every discoverable path is found. */
  lemma {:induction false} ComponentsComplete(root: Path, entries: seq<Entry>, s: Path)
    requires Discoverable(entries, s)
    ensures root + s in Components(root, entries)
    decreases |s|, |entries|
  {
    var i :| 0 <= i < |entries| && entries[i].name == s[0] && !Skipped(s[0]) &&
      if |s| == 1 then entries[i].File? && IsComponentFile(s[0])
      else entries[i].Dir? && Discoverable(entries[i].children, s[1..]);
    if i == 0 {
      var e := entries[0];
      if |s| == 1 {
        assert root + s == root + [e.name];
      } else {
        ComponentsComplete(root + [e.name], e.children, s[1..]);
        assert root + [e.name] + s[1..] == root + s;
      }
    } else {
      assert entries[1..][i - 1] == entries[i];
      ComponentsComplete(root, entries[1..], s);
    }
  }

  /** A discoverable path goes through no skipped entry and ends at a
      `.svelte` file. */
  lemma {:induction false} DiscoverableAvoidsSkipped(entries: seq<Entry>, s: Path)
    requires Discoverable(entries, s)
    ensures forall k :: 0 <= k < |s| ==> !Skipped(s[k])
    ensures IsComponentFile(s[|s| - 1])
    decreases |s|
  {
    var i :| 0 <= i < |entries| && entries[i].name == s[0] && !Skipped(s[0]) &&
      if |s| == 1 then entries[i].File? && IsComponentFile(s[0])
      else entries[i].Dir? && Discoverable(entries[i].children, s[1..]);
    if |s| > 1 {
      DiscoverableAvoidsSkipped(entries[i].children, s[1..]);
      forall k | 1 <= k < |s| ensures !Skipped(s[k]) {
        assert s[k] == s[1..][k - 1];
      }
    }
  }

  /** No path found goes through `node_modules` or an entry whose name
      starts with `.` or `+`, and every path found names a `.svelte` file. */
  lemma FoundPathsFiltered(root: Path, entries: seq<Entry>, p: Path)
    requires p in Components(root, entries)
    ensures |root| < |p|
    ensures forall k :: |root| <= k < |p| ==>
      p[k] != "node_modules" && !StartsWith(p[k], ".") && !StartsWith(p[k], "+")
    ensures EndsWith(p[|p| - 1], ".svelte")
  {
    ComponentsSound(root, entries, p);
    var s := p[|root|..];
    DiscoverableAvoidsSkipped(entries, s);
    forall k | |root| <= k < |p|
      ensures p[k] != "node_modules" && !StartsWith(p[k], ".") && !StartsWith(p[k], "+")
    {
      assert p[k] == s[k - |root|];
    }
    assert p[|p| - 1] == s[|s| - 1];
  }

  // ---------------------------------------------------------------------
  // Names and the loader
  // ---------------------------------------------------------------------

  /** `componentPath.split('/').pop()?.split('.').shift() ?? ''`. Neither
      `split` yields an empty array, so the `''` fallback never applies. */
  function ComponentName(componentPath: string): (name: string)
    ensures '/' !in name && '.' !in name
    ensures var segments := Split(componentPath, '/'); name <= segments[|segments| - 1]
  {
    var segments := Split(componentPath, '/');
    var last := segments[|segments| - 1];
    SplitFirstPiece(last, '.');
    Split(last, '.')[0]
  }

  /** The name is the part of the last `/`-segment before its first `.`. */
  lemma ComponentNameOfPath(p: Path)
    requires |p| >= 1
    requires forall k :: 0 <= k < |p| ==> '/' !in p[k]
    ensures var name := ComponentName(PathString(p));
      var last := p[|p| - 1];
      name <= last && '/' !in name && '.' !in name && (|name| == |last| || last[|name|] == '.')
  {
    SplitJoin(p, '/');
    SplitFirstPiece(p[|p| - 1], '.');
  }

  lemma ComponentNameExample()
    ensures ComponentName("a/b/Foo.svelte") == "Foo"
  {
    var segments := ["a", "b", "Foo.svelte"];
    assert Join(segments, '/') == "a/b/Foo.svelte";
    SplitJoin(segments, '/');
    assert Join(["Foo", "svelte"], '.') == "Foo.svelte";
    SplitJoin(["Foo", "svelte"], '.');
  }

  /** One element of the loader's `Promise.all`. */
  datatype ComponentInfo = ComponentInfo(included: bool, componentName: string)

  /** `results.filter((r) => r.include).map((r) => r.componentName)`. */
  function IncludedNames(results: seq<ComponentInfo>): (names: seq<string>)
    ensures |names| <= |results|
  {
    if |results| == 0 then []
    else (if results[0].included then [results[0].componentName] else []) + IncludedNames(results[1..])
  }

  /** Filtering preserves relative order: it distributes over concatenation. */
  lemma {:induction false} IncludedNamesAppend(a: seq<ComponentInfo>, b: seq<ComponentInfo>)
    ensures IncludedNames(a + b) == IncludedNames(a) + IncludedNames(b)
  {
    if |a| > 0 {
      assert (a + b)[0] == a[0];
      assert (a + b)[1..] == a[1..] + b;
      IncludedNamesAppend(a[1..], b);
    } else {
      assert a + b == b;
    }
  }

  /** A name is kept exactly when some included component has it, and no
      more names are kept than there are components (equally many exactly
      when every component is included). */
  lemma {:induction false} IncludedNamesContents(results: seq<ComponentInfo>)
    ensures |IncludedNames(results)| <= |results|
    ensures |IncludedNames(results)| == |results| <==> forall i :: 0 <= i < |results| ==> results[i].included
    ensures forall n :: n in IncludedNames(results) <==>
      exists i :: 0 <= i < |results| && results[i].included && results[i].componentName == n
  {
    if |results| > 0 {
      var tail := results[1..];
      IncludedNamesContents(tail);
      forall n | n in IncludedNames(results)
        ensures exists i :: 0 <= i < |results| && results[i].included && results[i].componentName == n
      {
        if !(results[0].included && results[0].componentName == n) {
          var j :| 0 <= j < |tail| && tail[j].included && tail[j].componentName == n;
          assert results[j + 1] == tail[j];
        }
      }
      forall n, i | 0 <= i < |results| && results[i].included && results[i].componentName == n
        ensures n in IncludedNames(results)
      {
        if i > 0 {
          assert tail[i - 1] == results[i];
        }
      }
      if forall i :: 0 <= i < |results| ==> results[i].included {
        forall i | 0 <= i < |tail| ensures tail[i].included {
          assert tail[i] == results[i + 1];
        }
      }
      if forall i :: 0 <= i < |tail| ==> tail[i].included {
        if results[0].included {
          forall i | 0 <= i < |results| ensures results[i].included {
            if i > 0 { assert results[i] == tail[i - 1]; }
          }
        }
      }
    }
  }

  /** What the loader learns about each discovered path. */
  ghost function Describe(paths: seq<Path>, parse: Path -> ParsedComponent): (infos: seq<ComponentInfo>)
    ensures |infos| == |paths|
  {
    seq(|paths|, i requires 0 <= i < |paths| =>
      ComponentInfo(HasIncludeMarker(parse(paths[i])), ComponentName(PathString(paths[i]))))
  }

  /** `fileLoader(rootDir)`: the names of the discovered components that
      carry the marker, in discovery order. Reading and parsing a file is
      the input `parse`. */
  method Loader(rootDir: Path, listing: seq<Entry>, parse: Path -> ParsedComponent)
    returns (names: seq<string>)
    ensures names == IncludedNames(Describe(Components(rootDir, listing), parse))
  {
    var componentPaths := FindSvelteComponents(rootDir, listing);
    var results: seq<ComponentInfo> := [];
    var i := 0;
    while i < |componentPaths|
      invariant 0 <= i <= |componentPaths|
      invariant results == Describe(componentPaths[..i], parse)
    {
      var componentPath := componentPaths[i];
      var isLibrary := IsLibraryComponent(parse(componentPath));
      results := results + [ComponentInfo(isLibrary, ComponentName(PathString(componentPath)))];
      i := i + 1;
    }
    assert componentPaths[..i] == componentPaths;
    names := IncludedNames(results);
  }

  /** Every name the loader returns belongs to a discovered `.svelte` file
      that carries the marker, and contains neither `/` nor `.`. */
  lemma LoaderNamesMarked(rootDir: Path, listing: seq<Entry>, parse: Path -> ParsedComponent, n: string)
    requires n in IncludedNames(Describe(Components(rootDir, listing), parse))
    ensures exists p :: (p in Components(rootDir, listing) && HasIncludeMarker(parse(p)) &&
      ComponentName(PathString(p)) == n)
    ensures '.' !in n && '/' !in n
  {
    var paths := Components(rootDir, listing);
    var infos := Describe(paths, parse);
    IncludedNamesContents(infos);
    var i :| 0 <= i < |infos| && infos[i].included && infos[i].componentName == n;
    assert infos[i] == ComponentInfo(HasIncludeMarker(parse(paths[i])), ComponentName(PathString(paths[i])));
    assert paths[i] in paths;
  }
}
