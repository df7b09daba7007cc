# stromboli-plugin-handlebars, modelled in Dafny

This project models the Handlebars plugin of the Stromboli build tool
(`src/plugin.js`).

Given the path of an entry template, the plugin does three things:

- It resolves the set of files that template depends on. The entry is read
  and parsed. Every partial reference `{{> name}}` in the statement list is
  looked up in the file `name.hbs`. A readable partial file is added to a
  shared set, parsed, registered with the plugin's Handlebars instance under
  its name, and walked in turn. A partial whose file cannot be read is
  skipped. A file that does not parse rejects the call with `{file, message}`.
- It loads the optional JSON data file that sits next to the template. That
  file has the same directory and the same base name, with `.json` in place
  of the extension.
- It renders. The dependencies are reported to the build tool's render
  result, the entry is compiled, the data file is loaded and reported, the
  template is executed with the data, and one binary named `index.html` is
  added.

The model has these modules:

- `Wrappers`: `Option` and `Result`.
- `Paths`: the partial file rule `name + ".hbs"`. Also the part of Node's
  POSIX `path` module the data-file rule uses (`dirname`, `basename`,
  `extname`, for normalised paths).
- `Handlebars`: the statements of a parsed template (`Partial`, `Block`,
  `Other`, and `Null` for a missing entry). Also JSON values and the
  Handlebars library as abstract functions: a parser and an executor.
- `Errors`: the rejections.
  - `ReadFailed`: the entry cannot be read.
  - `ParseFailed(file, message)`: the `{file, message}` object of `_parse`.
  - `DataFailed`: the data file does not hold JSON.
  - `RenderFailed`: template execution throws.
- `Resolver`: the specification functions.
  - `ParseTemplate` for `_parse`.
  - `Walk` for `_recursiveNodeSearch`.
  - `Dependencies` for `getDependencies`.
  - The lemmas about them: termination on cycles, bounds, skipping,
    closure, minimality (the set is exactly the files reachable from the
    entry), idempotence, failure shape and registrations.
- `DataFiles`: `TemplateDataOf` for `getTemplateData`.
- `HandlebarsPlugin`: the imperative plugin.
  - A `PathSet` class, the shared `Set`.
  - A `RenderResult` class, the build tool's sink.
  - The `Plugin` class. Its `partials` field is the registry of its one
    Handlebars instance, which is created in the constructor and persists
    across calls.
  - The methods `RecursiveNodeSearch`, `GetDependencies`, `GetTemplateData`
    and `Render`. Each is proved against the corresponding specification
    function, and `Rendering` specifies `render`.
- `Fixtures`: the repository's eight tests, each written out over
  a small file map and proved.

The model uses stand-ins for the outside world:

- The filesystem is a map from path to text. A path is readable exactly
  when it is a key of the map.
- The Handlebars parser is a total function from source text to statements
  or to an error message.
- The JSON reader is a function from text to a JSON value or an error
  message.
- Template execution is a function of the statements, the registered
  partials and the data.

Five behaviours of src/plugin.js worth stating:

- Partials inside block statements (`{{#if}}…{{/if}}`) are not examined.
  The code only looks at the statements directly in a body's list
  (src/plugin.js:55-57). `Resolver.WalkIgnoresBlocks` states this.
- A partial whose file is missing is always skipped. The code has no strict
  mode.
- The data-file rule is fixed. The code has no configuration for it.
- Registered partials persist across calls. `this.handlebars` is created
  once in the constructor (src/plugin.js:16). In the model the registry is
  a field of `Plugin`, and every method says what it leaves there.
- A data file that exists but is not JSON rejects `render` after the
  template dependencies were already added to the render result
  (src/plugin.js:105-107, 117). `HandlebarsPlugin.RenderingWithBadData`
  states this.

## Model

| member | source | states |
|---|---|---|
| Paths.PartialPathRoundTrip | src/plugin.js:58-59 | `PartialPath(n)`, the file of partial `n`, is `n + ".hbs"`, which is recognised as a partial file, and its name gives back `n` |
| Paths.NameOfRoundTrip | src/plugin.js:58-59 | every partial file is the file of the name read from it |
| Paths.PartialPathInjective | src/plugin.js:58-61 | under the `name + ".hbs"` rule of this model, two partial names share a file exactly when they are equal |
| Paths.LastIndexOf | src/plugin.js:140-141 | the index of the last occurrence of a character, or -1, with no occurrence after it |
| Paths.DirPrefix | src/plugin.js:141 | the directory part is a prefix of the path, and it is empty or ends with the separator |
| Paths.BaseName | src/plugin.js:140-141 | the directory part followed by the base name is the whole path, and the base name holds no separator |
| Paths.SplitJoin | src/plugin.js:141 | a directory prefix joined with a separator-free name splits back into exactly those two parts |
| Paths.DataFileSplits | src/plugin.js:141 | `DataFile(f)` is the entry's directory followed by a separator-free name ending in ".json" |
| Paths.DataFileSameDirectory | src/plugin.js:140-141 | the data file is in the entry's directory, and its base name is the entry's base name without extension plus ".json" |
| Paths.TemplateSplits | src/plugin.js:141 | `dir/stem.hbs` has directory `dir/` and base name `stem.hbs` |
| Paths.TemplateStem | src/plugin.js:140-141 | the extension of `stem.hbs` is ".hbs", and stripping it leaves `stem` |
| Paths.DataFileOfTemplate | src/plugin.js:140-141 | the data file of `dir/stem.hbs` is `dir/stem.json` |
| Paths.ExtNameShape | src/plugin.js:140 | for every base name, `ExtName` (`path.extname`) is a suffix of it that is empty or starts with a dot and holds no other dot |
| Paths.StemAndExtName | src/plugin.js:141 | for every base name, `Stem` (`path.basename(file, extension)`) followed by `ExtName` gives back the base name |
| Paths.DataFileWithoutExtension | src/plugin.js:140-141 | a file whose base name has no extension gets ".json" appended |
| Resolver.ParseTemplate | src/plugin.js:34-49 | succeeds exactly when the parser does, with its statements; otherwise rejects with the file and the parser's message |
| Resolver.Walk | src/plugin.js:52-91 | terminates on any partial graph (measure: unread files, then remaining statements); the set only grows and only by readable files |
| Resolver.WalkOfInert | src/plugin.js:56-83 | statements that are not partials, partials already in the set, and partials without a file change neither the set nor the registry and never fail |
| Resolver.WalkAppend | src/plugin.js:55-90 | walking two lists of siblings is walking the first, then the second from the state it left, unless the first failed |
| Resolver.WalkSkipsInert | src/plugin.js:56-83 | inert statements in front of a list leave the walk of the rest unchanged |
| Resolver.WalkIgnoresBlocks | src/plugin.js:55-57 | a block statement is passed over whatever partials it contains |
| Resolver.WalkCovers | src/plugin.js:61-72 | after a successful walk, every readable partial the list names is in the set, and every file the walk added parsed and has its readable partials in the set |
| Resolver.WalkAgain | src/plugin.js:61-82 | walking the same statements again from the state a successful walk left changes nothing |
| Resolver.WalkAddsOnlyMentioned | src/plugin.js:57-64 | every file a walk adds is named by the list itself or by another file the walk added (a local condition; reachability is `WalkAddsOnlyReachable`) |
| Resolver.WalkAddsOnlyReachable | src/plugin.js:57-72 | every file a walk adds lies in each set that holds the readable partials the list names and is closed under naming, that is, it is reachable from the list |
| Resolver.WalkFailure | src/plugin.js:34-74 | a failing walk was stopped by a readable partial file it added itself, and the error carries that file and the parser's message |
| Resolver.WalkKeepsRegistrations | src/plugin.js:64-70 | a walk never removes a registration, and changes none except those of partials whose files it added |
| Resolver.WalkRegisters | src/plugin.js:64-72 | every added file is a partial file, and each one except the one whose parse failure stopped the walk parsed and is registered with its source |
| Resolver.WalkRegistersParsed | src/plugin.js:68-70 | a partial is registered or re-registered only when its file is readable and its source parsed |
| Resolver.Dependencies | src/plugin.js:165-185 | on success the entry is in the set, the set holds only readable files, and the entry parsed |
| Resolver.DependenciesOfBrokenEntry | src/plugin.js:169-171 | an unreadable entry rejects with a read error and an unparsable one with `{file, message}`, before anything is registered |
| Resolver.DependenciesFailure | src/plugin.js:169-175 | every rejection names the unreadable entry, or a readable file whose source the parser rejected with that message |
| Resolver.DependenciesClosed | src/plugin.js:61-72 | on success every file in the set parses and every readable partial it names is in the set |
| Resolver.DependenciesReachable | src/plugin.js:57-64 | on success every file in the set other than the entry is named by another file in the set (a local condition; reachability is `DependenciesReachedFromEntry`) |
| Resolver.DependenciesClosedUnderNaming | src/plugin.js:61-72 | on success the set holds the entry and every readable partial named by a file in it |
| Resolver.DependenciesLeast | src/plugin.js:57-72 | on success the set lies inside every set that holds the entry and is closed under naming, so it is the least such set |
| Resolver.DependenciesIncludeReachable | src/plugin.js:57-72 | on success every readable file reached from the entry by such a chain is in the set, so the set is exactly the readable files reachable from the entry |
| Resolver.DependenciesReachedFromEntry | src/plugin.js:57-72 | on success every file in the set is reached from the entry by a chain of readable, parsing files each naming the next |
| Resolver.DependenciesRegisters | src/plugin.js:64-70 | on success the partials of the set other than the entry, unless a partial names it, are registered with their sources, earlier registrations are kept, and nothing else changes; nothing is registered whose source did not parse |
| DataFiles.TemplateDataOf | src/plugin.js:138-163 | no data file gives `{files: [], data: null}`; a JSON data file gives `{files: [dataFile], data}`; a data file that is not JSON rejects naming it; at most one file |
| DataFiles.TemplateDataOfTemplate | src/plugin.js:140-161 | for `dir/stem.hbs` the file looked for is `dir/stem.json`, with the absent and present results |
| HandlebarsPlugin.PathSet.constructor | src/plugin.js:173 | a new set is empty |
| HandlebarsPlugin.PathSet.Has | src/plugin.js:61 | `results.has(p)` holds exactly when `p` is in the shared set |
| HandlebarsPlugin.PathSet.Add | src/plugin.js:64 | adds one path and nothing else |
| HandlebarsPlugin.RenderResult.constructor | src/plugin.js:100 | a new render result has no dependencies and no binaries |
| HandlebarsPlugin.RenderResult.AddDependency | src/plugin.js:105-121 | adds one dependency and leaves the binaries alone |
| HandlebarsPlugin.RenderResult.AddBinary | src/plugin.js:125 | appends one binary and leaves the dependencies alone |
| HandlebarsPlugin.AddEachDependency | src/plugin.js:105-107 | the render result gains exactly the given dependencies |
| HandlebarsPlugin.AddEachFile | src/plugin.js:119-121 | the render result gains exactly the data files listed |
| HandlebarsPlugin.Rendering | src/plugin.js:100-136 | a render that does not reject adds one binary named `index.html`, one that rejects adds none, and every reported dependency is a readable file |
| HandlebarsPlugin.RenderingSucceeded | src/plugin.js:103-127 | a successful render reports exactly the dependency set plus the data file if it exists, and its binary is the entry executed with the registered partials and the data |
| HandlebarsPlugin.RenderingOfBrokenEntry | src/plugin.js:103-113 | an entry that cannot be read or parsed rejects the render before anything is reported or registered |
| HandlebarsPlugin.RenderingWithBadData | src/plugin.js:100-157 | a data file that is not JSON rejects the render after the template dependencies were reported, with no binary |
| HandlebarsPlugin.Plugin.constructor | src/plugin.js:14-16 | a new plugin's Handlebars instance has no partials registered |
| HandlebarsPlugin.Plugin.RecursiveNodeSearch | src/plugin.js:52-91 | the shared set, the registry and the outcome are those of `Walk` from the state before the call |
| HandlebarsPlugin.Plugin.GetDependencies | src/plugin.js:165-185 | the result and the registry afterwards are those of `Dependencies` |
| HandlebarsPlugin.Plugin.GetTemplateData | src/plugin.js:138-163 | the result is that of `TemplateDataOf` |
| HandlebarsPlugin.Plugin.Render | src/plugin.js:100-136 | the render result gains exactly the dependencies and binaries of `Rendering`, and the outcome and registry are its own |
| Fixtures.ValidChainWalk | test/dependencies.js:7-18 | the walk of an entry naming `a` and `b`, where `a` names `c`, ends with `a`, `c` and `b` in the set and all three registered with their sources |
| Fixtures.ValidChain | test/dependencies.js:7-18 | that entry has four dependencies |
| Fixtures.MissingPartial | test/dependencies.js:20-31 | an entry naming `a` and a partial without a file has two dependencies and does not reject |
| Fixtures.CircularPartials | test/dependencies.js:33-43 | an entry and a partial that name each other and themselves give two dependencies |
| Fixtures.DataFixtureData | test/data.js:7-25 | a template with a data file next to it gets that file listed and its JSON as data |
| Fixtures.MissingDataFile | test/data.js:28-43 | the data file of `test/missing.hbs` is `test/missing.json` |
| Fixtures.MissingData | test/data.js:28-43 | a template without a data file gets `{files: [], data: null}` and no rejection |
| Fixtures.IndexDataFile | test/render.js:9-28 | the data file of `index.hbs` is `index.json` |
| Fixtures.PlainDependencies | test/render.js:9-28 | an entry naming one partial has itself and the partial as dependencies, and registers the partial |
| Fixtures.PlainData | test/render.js:9-28 | that entry has no data file |
| Fixtures.RenderWithoutData | test/render.js:9-28 | rendering it reports two dependencies and adds one `index.html` binary |
| Fixtures.DataFixtureDependencies | test/render.js:30-49 | an entry without partials has only itself as dependency |
| Fixtures.RenderWithData | test/render.js:30-49 | rendering an entry with a data file reports two dependencies, the entry and the data file, and adds one `index.html` binary |
| Fixtures.RenderWithError | test/render.js:51-63 | rendering an entry that does not parse rejects with its `{file, message}` and reports nothing |

## Left out

- Filesystem I/O (`fs.readFile`, `fs.stat`, `fs.readJSON`) is replaced by a map from path to text. Read errors other than "not there", a path that exists but cannot be read, and file contents changing between reads are not modelled. In particular, `render` reads and parses the entry a second time (src/plugin.js:109-113), and in the model that always gives the first result.
- `Promise.all` concurrency (src/plugin.js:55, 86): siblings are walked one after another, left to right. Two interleaving effects are not captured. Two siblings naming the same partial can both start reading it before either adds it to the set. And after one sibling rejects, the others can go on registering partials. The model stops at the first parse failure and keeps the state reached at that point.
- `path.resolve` and `path.join` (src/plugin.js:59, 141): a partial's file is `name + ".hbs"`, with no resolution against the process's working directory. The data-file rule is modelled for normalised paths: no `.` or `..` segments, no repeated or trailing separators. The entry path is used as given.
- Paths.PartialPathInjective: holds for the `name + ".hbs"` rule of this model only. In the source, `path.resolve(path.join(…))` normalises, so distinct names such as `a`, `./a` and `x/../a` name one file. They are one partial there: the first one reached is read and registered, and the others are skipped at src/plugin.js:61 and never registered under their own names.
- Resolver.WalkRegisters: "every added file's partial is registered under its name" relies on one name per file. In the source, a file reached under several normalising names is registered only under the first one reached.
- Resolver.DependenciesRegisters: for the same reason, in the source the names registered are the first name reached per file, not every name whose file is in the set.
- Dynamic partial names, where `statement.name.original` is not a plain string (src/plugin.js:58), are not modelled. A `Partial` always carries its name.
- Handlebars internals: the grammar, `compile`, template execution and the storage behind `registerPartial` are abstract functions and a map from name to source. `compile` being lazy is not modelled. A template error surfaces as the execution result `RenderFailed`.
- The constructor's `config` argument (src/plugin.js:15) is stored but never used. The `_exists` helper (src/plugin.js:23-32) is folded into the data-file lookup. The unused `file` argument of `_recursiveNodeSearch` is left out.
- JSON values carry integers in place of JavaScript numbers. JSON text is read by an abstract function.
- The fixture files of the repository's tests (`test/dependencies/…`, `test/data/…`, `test/render/…`) are not part of this model. The `Fixtures` lemmas use stand-in sources of the same shape, and the parser and executor there are stand-ins too.
