# Plugin connector: component discovery and build-progress watching

This project models two pieces of the plugin connector in Dafny and proves
properties of them.

**Component discovery (`file-loader.js`), module `FileLoader`.**
- `findSvelteComponents` walks a source tree depth-first. It skips
  `node_modules` and every entry whose name starts with `.` or `+`, and it
  keeps the `.svelte` files.
- `astDeclarationSearch` is a reducer. It looks for the top-level statement
  `export const evidenceInclude = true`.
- `isLibraryComponent` runs that search over a component's instance script
  and its module script.
- `fileLoader` returns the names of the marked components, in discovery order.

The directory listing is an inductive tree, `File(name) | Dir(name, children)`.
The parsed scripts are a small ESTree-shaped datatype: statements,
declarations, declarators, identifiers and literals. A path is its list of
segments. Its string form joins them with `/`, which is what the name
extraction splits again. Module `Strings` holds JavaScript's
`startsWith`/`endsWith` and a one-character `split`/`join`, with their
round-trip lemmas.

**Progress watch session (`watcher.js`), module `Watcher`.**
`watchDirectory` becomes the class `WatchSession`:
- The constructor `Start` covers the initial count and the short-circuit
  when the build is already complete.
- `OnEvent` covers one watch event and, for `add`/`addDir`, the
  `updateProgress` handler.

The session keeps these fields:
- `watcherCreated` and `closed`;
- `reported`, the log of values passed to the progress callback;
- `stopCalls`, the number of calls of the stop callback;
- a ghost `trace` of the events seen.

The class invariant ties the report log to `ExpectedReports`, a reference
definition over the event trace. That definition filters the `add`/`addDir`
events, computes the progress of each one's own count, and truncates at the
first value of 100 or more. The progress function and the expected total are
constructor parameters. The entry count at each event is an input to
`OnEvent`.

## Model

| member | source | states |
|---|---|---|
| `FileLoader.ScanDeclarators` | packages/plugin-connector/src/component-resolution/loaders/file-loader.js:70-83 | the declarator loop answers true iff some declarator has an `Identifier` id named exactly `evidenceInclude` and a `Literal` init whose value is `true`; other declarators are skipped, not rejected |
| `FileLoader.DeclarationSearch` | packages/plugin-connector/src/component-resolution/loaders/file-loader.js:53-84 | a `true` accumulator is returned unchanged; from `false` the result is true iff the statement is on its own an `export const` whose declarators include the marker, so non-exports, non-variable declarations, `let`/`var` and a missing declarator list give `false` |
| `FileLoader.SearchBody` | packages/plugin-connector/src/component-resolution/loaders/file-loader.js:99 | computes `body.reduce(astDeclarationSearch, acc)` as a left fold; its contract states absorption: once the accumulator is `true` the fold stays `true` over any remaining statements (the full characterisation is `SearchBodyFinds`) |
| `FileLoader.SearchBodyFinds` | packages/plugin-connector/src/component-resolution/loaders/file-loader.js:98-104 | `body.reduce(astDeclarationSearch, acc)` holds iff `acc` holds or some single statement of the body is the marker by itself |
| `FileLoader.IsLibraryComponent` | packages/plugin-connector/src/component-resolution/loaders/file-loader.js:90-106 | the result is true iff the instance script is present and marked or the module script is present and marked; with neither script the result is false |
| `FileLoader.Skipped` | packages/plugin-connector/src/component-resolution/loaders/file-loader.js:21-23 | the names the walk passes over: exactly `node_modules` and the names whose first character is `.` or `+` |
| `FileLoader.IsComponentFile` | packages/plugin-connector/src/component-resolution/loaders/file-loader.js:31 | the files the walk keeps: exactly the names that are a stem followed by `.svelte` |
| `FileLoader.EntryComponents` | packages/plugin-connector/src/component-resolution/loaders/file-loader.js:19-34 | computes one entry's contribution to the walk (nothing, the file itself, or the directory's own walk); a skipped entry contributes nothing, including everything beneath a skipped directory; membership is characterised by `ComponentsSound`/`ComponentsComplete` |
| `FileLoader.Components` | packages/plugin-connector/src/component-resolution/loaders/file-loader.js:19-35 | computes the in-order walk over a listing, each entry's contribution in listing order; a listing whose entries are all skipped yields nothing; order is stated by `ComponentsAppend`, membership by `ComponentsSound`/`ComponentsComplete` |
| `FileLoader.ComponentsAppend` | packages/plugin-connector/src/component-resolution/loaders/file-loader.js:19-35 | results follow listing order: the walk of a concatenated listing is the concatenation of the walks, so a subdirectory's results are spliced in at its position |
| `FileLoader.FindSvelteComponents` | packages/plugin-connector/src/component-resolution/loaders/file-loader.js:12-39 | the loop with its recursive calls returns exactly the in-order walk `Components(root, listing)` |
| `FileLoader.ComponentsSound` | packages/plugin-connector/src/component-resolution/loaders/file-loader.js:19-34 | every returned path lies strictly under the root and leads through non-skipped directories of the listing to a non-skipped `.svelte` file |
| `FileLoader.ComponentsComplete` | packages/plugin-connector/src/component-resolution/loaders/file-loader.js:19-34 | conversely, every such path to a `.svelte` file is returned |
| `FileLoader.DiscoverableAvoidsSkipped` | packages/plugin-connector/src/component-resolution/loaders/file-loader.js:21-23 | a discoverable path has no segment that is `node_modules` or starts with `.` or `+`, and it ends at a `.svelte` name |
| `FileLoader.FoundPathsFiltered` | packages/plugin-connector/src/component-resolution/loaders/file-loader.js:19-34 | no returned path passes through `node_modules` or an entry starting with `.` or `+`, including everything beneath such a directory, and every returned path ends in `.svelte` |
| `FileLoader.ComponentName` | packages/plugin-connector/src/component-resolution/loaders/file-loader.js:119 | computes `split('/').pop().split('.').shift()`; the name contains neither `/` nor `.` and is a prefix of the last `/`-piece (its exact shape is `ComponentNameOfPath`) |
| `FileLoader.ComponentNameOfPath` | packages/plugin-connector/src/component-resolution/loaders/file-loader.js:119 | the component name is the prefix of the path's last `/`-segment that stops just before the segment's first `.`; it contains neither `/` nor `.` |
| `FileLoader.ComponentNameExample` | packages/plugin-connector/src/component-resolution/loaders/file-loader.js:119 | `a/b/Foo.svelte` names the component `Foo` |
| `FileLoader.IncludedNames` | packages/plugin-connector/src/component-resolution/loaders/file-loader.js:123 | computes `results.filter(r => r.include).map(r => r.componentName)`; there are no more names than results (which names are kept is `IncludedNamesContents`, their order `IncludedNamesAppend`) |
| `FileLoader.IncludedNamesAppend` | packages/plugin-connector/src/component-resolution/loaders/file-loader.js:123 | the filter-then-map keeps relative order: it distributes over concatenation |
| `FileLoader.IncludedNamesContents` | packages/plugin-connector/src/component-resolution/loaders/file-loader.js:123 | a name is returned iff some included component has it; there are at most as many names as components, and exactly as many iff all are included |
| `FileLoader.Loader` | packages/plugin-connector/src/component-resolution/loaders/file-loader.js:113-124 | `fileLoader` returns the filtered names of the discovered components, marked iff their parsed scripts carry the marker, in discovery order |
| `FileLoader.LoaderNamesMarked` | packages/plugin-connector/src/component-resolution/loaders/file-loader.js:113-124 | every name returned belongs to a discovered component whose scripts carry the marker, and contains neither `/` nor `.` |
| `Strings.Split` | packages/plugin-connector/src/component-resolution/loaders/file-loader.js:119 | `split` on one character yields at least one piece, and no piece contains the separator, so `pop()` and `shift()` always find an element |
| `Strings.JoinSplit` | packages/plugin-connector/src/component-resolution/loaders/file-loader.js:119 | joining the pieces of a split gives back the string |
| `Strings.SplitJoin` | packages/plugin-connector/src/component-resolution/loaders/file-loader.js:119 | splitting a join of separator-free segments gives back the segments |
| `Strings.SplitFirstPiece` | packages/plugin-connector/src/component-resolution/loaders/file-loader.js:119 | the first piece of a split is the longest separator-free prefix |
| `Watcher.ListenedEvents` | packages/lib/plugin-connector/src/build-plugins/verbose-logs/watcher.js:43-44 | an observation reaches the handler iff it is in the trace and its event is `add` or `addDir`; no more observations reach it than the trace holds |
| `Watcher.ListenedEventsAppend` | packages/lib/plugin-connector/src/build-plugins/verbose-logs/watcher.js:43-44 | the listened events keep trace order: the filter distributes over concatenation |
| `Watcher.UpToCompletionShape` | packages/lib/plugin-connector/src/build-plugins/verbose-logs/watcher.js:34-40 | reporting stops at the first value of 100 or more: the reports are a prefix of the computed values, they end at 100 or more iff some value reaches 100, all reports but the last are below 100, and without completion every value is reported |
| `Watcher.UpToCompletionSnoc` | packages/lib/plugin-connector/src/build-plugins/verbose-logs/watcher.js:34-40 | a further value is reported only while the session has not completed |
| `Watcher.ExpectedReportsShape` | packages/lib/plugin-connector/src/build-plugins/verbose-logs/watcher.js:16-44 | the k-th report is the progress of the count taken at the k-th `add`/`addDir` event; at most one report reaches 100 and it is the last; a session complete at start reports nothing; there are never more reports than events |
| `Watcher.NoReportsAfterCompletion` | packages/lib/plugin-connector/src/build-plugins/verbose-logs/watcher.js:34-35 | after a report of 100 or more, later events add no report |
| `Watcher.ReportsSnoc` | packages/lib/plugin-connector/src/build-plugins/verbose-logs/watcher.js:29-44 | one more event adds exactly one report, the progress of its own count, when the session is watching and not closed and the event is `add`/`addDir`; otherwise it adds nothing |
| `Watcher.WatchSession.Start` | packages/lib/plugin-connector/src/build-plugins/verbose-logs/watcher.js:13-27 | with initial progress 100 or more, no watcher is created, nothing is reported, and the stop callback is called once if it is a function, otherwise never; below 100, a watcher is created with an empty report log (entries already present trigger nothing) |
| `Watcher.WatchSession.OnEvent` | packages/lib/plugin-connector/src/build-plugins/verbose-logs/watcher.js:29-44 | on an open watcher, an `add`/`addDir` event appends the progress of the fresh count; a value of 100 or more closes the watcher and calls the stop callback once if it is a function; a value below 100 leaves it open without calling stop; any other event, and any event after close, changes nothing; the report log always equals `ExpectedReports` of the trace |

## Left out

- Parsing is not modelled. Reading a component file, stripping `<style>` blocks
  with the regular expression, and calling the Svelte parser are one input,
  `parse: Path -> ParsedComponent`. The regular expression's semantics are
  therefore not modelled.
- The file system is not modelled. `fs.readdir` is the listing tree. `path.resolve`
  and `path.relative('.', …)` are represented by appending a segment to a
  segment list, so normalising `..` or absolute roots is not modelled.
- Only directories are `Dir`. An entry that `readdir` does not report as a
  directory, such as a symbolic link to a directory, is a `File`, as it is
  for `isDirectory()`.
- `fileLoader` reads and parses the components in one `Promise.all`. The
  model does this one path at a time. When no read or parse fails, this gives
  the same ordered results. The concurrency is not modelled.
- `FileLoader.Loader`: failures of the foreign calls are not modelled. `parse`
  is total and the listing is always given. In the source, a failing
  `fs.readdir` (line 18) rejects `findSvelteComponents`, so `fileLoader`
  rejects. A failing `fs.readFile` (line 117) rejects that path's mapper
  before `isLibraryComponent` is called. A parser error (line 96) rejects
  `isLibraryComponent`, and so that path's mapper. Either one rejects
  `Promise.all`, so `fileLoader` rejects and returns no names. The model
  always returns the names.
- `Watcher.WatchSession.Start` and `Watcher.WatchSession.OnEvent`: a failing
  `contentCounter` is not modelled, because the count is always given. In the
  source, a rejected count at start (watcher.js line 16) rejects
  `watchDirectory` before any watcher exists. A rejected count in
  `updateProgress` (line 30) rejects the promise that the handler returns.
  The watch library does not use that promise, so the rejection is
  unhandled. No report is made for that event and the watcher is not
  closed. What happens next depends on how the process handles unhandled
  rejections.
- `Watcher.WatchSession.Start` begins once the directory exists.
  `waitForDirectoryCreation` is not modelled.
- `contentCounter` is the `count` given to each event.
- `calculateProgress` is an arbitrary integer-valued function-typed
  parameter. A fractional or `NaN` result of the JavaScript function is not
  modelled.
- chokidar is reduced to delivering one event at a time, and only while the
  watcher is open.
- Overlapping asynchronous `updateProgress` calls are not modelled. Two
  handlers in flight when the watcher closes could both report, and could
  both call the stop callback.
- The `?? ''` fallback on line 119 is unreachable, since `split` always
  yields at least one piece. The model has no branch for it.
- `watchDirectory`'s callbacks are recorded rather than run. The progress
  callback is the `reported` log. The stop callback is `stopCalls`, guarded
  by `stopIsFunction`.
- `packages/lib/plugin-connector/src/build-plugins/verbose-logs/index.js` is
  not part of this model. It is the build-tool plugin wiring and console
  messages around `watchDirectory`.
- The progress callback is assumed to be a function. The source calls it
  without the `typeof` guard it puts on the stop callback, so a non-function
  would throw. That failure is not modelled.
- `chokidar.watch` is called with its default depth, which is recursive.
  The model does not restrict which `add`/`addDir` events arrive: every
  delivered event recounts and reports.
- `calculateProgress` is not modelled, and no rounding or clamping is
  assumed. Every property here holds for any integer-valued progress
  function.
