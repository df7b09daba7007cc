/** The `Plugin` class: the dependency walk and `getDependencies` over a
    shared Set, `getTemplateData`, and `render` reporting to a Stromboli
    render result. */
module HandlebarsPlugin {
  import opened Wrappers
  import opened Paths
  import opened Handlebars
  import opened Errors
  import opened Resolver
  import opened DataFiles

  /** The name of the one binary a render produces. */
  const OutputName: string := "index.html"

  datatype Binary = Binary(name: string, data: string)

  /** A JavaScript `Set` of paths, shared by reference across the recursive
      calls of one walk. */
  class PathSet {
    var elements: set<string>

    constructor ()
      ensures elements == {}
    {
      elements := {};
    }

    /** `results.has(p)`. */
    function Has(p: string): (b: bool)
      reads this
      ensures b <==> p in elements
    {
      p in elements
    }

    method Add(p: string)
      modifies this
      ensures elements == old(elements) + {p}
    {
      elements := elements + {p};
    }
  }

  /** The render result the build tool passes to `render`: a set of
      dependencies and a list of binaries. */
  class RenderResult {
    var dependencies: set<string>
    var binaries: seq<Binary>

    constructor ()
      ensures dependencies == {} && binaries == []
    {
      dependencies, binaries := {}, [];
    }

    method AddDependency(dependency: string)
      modifies this
      ensures dependencies == old(dependencies) + {dependency}
      ensures binaries == old(binaries)
    {
      dependencies := dependencies + {dependency};
    }

    method AddBinary(name: string, data: string)
      modifies this
      ensures binaries == old(binaries) + [Binary(name, data)]
      ensures dependencies == old(dependencies)
    {
      binaries := binaries + [Binary(name, data)];
    }
  }

  /** `dependencies.forEach(d => renderResult.addDependency(d))`. */
  method AddEachDependency(sink: RenderResult, dependencies: set<string>)
    modifies sink
    ensures sink.dependencies == old(sink.dependencies) + dependencies
    ensures sink.binaries == old(sink.binaries)
  {
    var pending := dependencies;
    while pending != {}
      invariant pending <= dependencies
      invariant sink.dependencies == old(sink.dependencies) + (dependencies - pending)
      invariant sink.binaries == old(sink.binaries)
      decreases pending
    {
      var dependency :| dependency in pending;
      sink.AddDependency(dependency);
      pending := pending - {dependency};
    }
  }

  /** `files.forEach(f => renderResult.addDependency(f))`. */
  method AddEachFile(sink: RenderResult, files: seq<string>)
    modifies sink
    ensures sink.dependencies == old(sink.dependencies) + set f | f in files
    ensures sink.binaries == old(sink.binaries)
  {
    for i := 0 to |files|
      invariant sink.dependencies == old(sink.dependencies) + set j | 0 <= j < i :: files[j]
      invariant sink.binaries == old(sink.binaries)
    {
      sink.AddDependency(files[i]);
    }
    assert (set j | 0 <= j < |files| :: files[j]) == set f | f in files;
  }

  /** What one call of `render` does: the dependencies and binaries it adds
      to the render result, the partials registered afterwards, and the
      rejection, if any. */
  datatype RenderEffect = RenderEffect(
    dependencies: set<string>,
    binaries: seq<Binary>,
    partials: map<string, string>,
    error: Option<Error>)

  /** `render(file, renderResult)`: resolve the dependencies and report them,
      read and parse the entry again and compile it, load the data file and
      report it, execute the template, report the output. */
  function Rendering(fs: FileSystem, engine: Engine, readJson: JsonReader, file: string,
                     partials: map<string, string>): (e: RenderEffect)
    ensures e.error.None? ==> |e.binaries| == 1 && e.binaries[0].name == OutputName
    ensures e.error.Some? ==> e.binaries == []
    ensures e.dependencies <= fs.Keys
  {
    var resolution := Dependencies(fs, engine.parse, file, partials);
    if resolution.dependencies.Failure? then
      RenderEffect({}, [], resolution.partials, Some(resolution.dependencies.error))
    else
      var deps := resolution.dependencies.value;
      var ast := ParseTemplate(engine.parse, fs[file], file).value;
      var templateData := TemplateDataOf(fs, readJson, file);
      if templateData.Failure? then
        RenderEffect(deps, [], resolution.partials, Some(templateData.error))
      else
        var reported := deps + set f | f in templateData.value.files;
        var binary := engine.execute(ast, resolution.partials, templateData.value.data);
        if binary.Failure? then
          RenderEffect(reported, [], resolution.partials, Some(RenderFailed(binary.error)))
        else
          RenderEffect(reported, [Binary(OutputName, binary.value)], resolution.partials, None)
  }

  /** A render that succeeds reports exactly the dependency set and the data
      file, if there is one, and one binary: the entry's template executed
      with the partials the walk registered and the data file's contents. */
  lemma RenderingSucceeded(fs: FileSystem, engine: Engine, readJson: JsonReader, file: string,
                           partials: map<string, string>)
    requires Rendering(fs, engine, readJson, file, partials).error.None?
    ensures var e := Rendering(fs, engine, readJson, file, partials);
            var resolution := Dependencies(fs, engine.parse, file, partials);
            var data := TemplateDataOf(fs, readJson, file);
            resolution.dependencies.Success? && data.Success? &&
            e.dependencies == resolution.dependencies.value + (if DataFile(file) in fs then {DataFile(file)} else {}) &&
            e.partials == resolution.partials &&
            file in fs && engine.parse(fs[file]).Success? &&
            engine.execute(engine.parse(fs[file]).value, e.partials, data.value.data) == Success(e.binaries[0].data)
  {
    var data := TemplateDataOf(fs, readJson, file);
    assert (set f | f in data.value.files) == (if DataFile(file) in fs then {DataFile(file)} else {});
  }

  /** An entry that cannot be read or parsed rejects the render before
      anything is reported or registered. */
  lemma RenderingOfBrokenEntry(fs: FileSystem, engine: Engine, readJson: JsonReader, file: string,
                               partials: map<string, string>)
    requires file !in fs || engine.parse(fs[file]).Failure?
    ensures Rendering(fs, engine, readJson, file, partials) ==
            RenderEffect({}, [], partials,
                         Some(if file !in fs then ReadFailed(file) else ParseFailed(file, engine.parse(fs[file]).error)))
  {
  }

  /** A data file that exists but does not hold JSON rejects the render
      after the template dependencies have been reported, without a binary. */
  lemma RenderingWithBadData(fs: FileSystem, engine: Engine, readJson: JsonReader, file: string,
                             partials: map<string, string>)
    requires Dependencies(fs, engine.parse, file, partials).dependencies.Success?
    requires DataFile(file) in fs && readJson(fs[DataFile(file)]).Failure?
    ensures var e := Rendering(fs, engine, readJson, file, partials);
            e.dependencies == Dependencies(fs, engine.parse, file, partials).dependencies.value &&
            e.binaries == [] &&
            e.error == Some(DataFailed(DataFile(file), readJson(fs[DataFile(file)]).error))
  {
  }

  /** The plugin. Its one Handlebars instance, created by the constructor,
      keeps its registered partials from call to call. */
  class Plugin {
    /** The partials registered with `this.handlebars`: name to raw source. */
    var partials: map<string, string>

    constructor ()
      ensures partials == map[]
    {
      partials := map[];
    }

    /** `_recursiveNodeSearch(statements, results, hbs)`, the statements
        taken one after another from left to right. */
    method RecursiveNodeSearch(fs: FileSystem, parse: Parser, statements: seq<Statement>, results: PathSet)
      returns (failure: Option<Error>)
      modifies this, results
      decreases |fs.Keys - results.elements|
      ensures var w := Walk(fs, parse, statements, State(old(results.elements), old(partials)));
              results.elements == w.state.visited && partials == w.state.partials && failure == w.failure
    {
      ghost var start := State(results.elements, partials);
      var i := 0;
      while i < |statements|
        invariant 0 <= i <= |statements|
        invariant start.visited <= results.elements
        invariant Walk(fs, parse, statements, start) == Walk(fs, parse, statements[i..], State(results.elements, partials))
      {
        assert statements[i..][0] == statements[i];
        assert statements[i..][1..] == statements[i + 1..];
        var statement := statements[i];
        if statement.Partial? {
          var name := statement.name;
          var path := PartialPath(name);
          if !results.Has(path) {
            if path in fs {
              var source := fs[path];
              ShrinkBySubset(fs.Keys, start.visited, results.elements);
              ShrinkByOne(fs.Keys, results.elements, path);
              results.Add(path);
              var parsed := ParseTemplate(parse, source, path);
              if parsed.Failure? {
                return Some(parsed.error);
              }
              partials := partials[name := source];
              var inner := RecursiveNodeSearch(fs, parse, parsed.value, results);
              if inner.Some? {
                return inner;
              }
            }
            // otherwise the partial's file does not exist and it is skipped
          }
        }
        i := i + 1;
      }
      failure := None;
    }

    /** `getDependencies(file)`. */
    method GetDependencies(fs: FileSystem, parse: Parser, file: string) returns (r: Result<set<string>, Error>)
      modifies this
      ensures var d := Dependencies(fs, parse, file, old(partials));
              r == d.dependencies && partials == d.partials
    {
      if file !in fs {
        return Failure(ReadFailed(file));
      }
      var parsed := ParseTemplate(parse, fs[file], file);
      if parsed.Failure? {
        return Failure(parsed.error);
      }
      var results := new PathSet();
      var failure := RecursiveNodeSearch(fs, parse, parsed.value, results);
      if failure.Some? {
        return Failure(failure.value);
      }
      results.Add(file);
      r := Success(results.elements);
    }

    /** `getTemplateData(file)`. */
    method GetTemplateData(fs: FileSystem, readJson: JsonReader, file: string) returns (r: Result<TemplateData, Error>)
      ensures r == TemplateDataOf(fs, readJson, file)
    {
      var dataFile := DataFile(file);
      var result := TemplateData([], JNull);
      if dataFile in fs {
        var read := readJson(fs[dataFile]);
        if read.Failure? {
          return Failure(DataFailed(dataFile, read.error));
        }
        result := result.(files := result.files + [dataFile]);
        result := result.(data := read.value);
        assert result == TemplateData([dataFile], read.value);
      }
      r := Success(result);
    }

    /** `render(file, renderResult)`. */
    method Render(fs: FileSystem, engine: Engine, readJson: JsonReader, file: string, sink: RenderResult)
      returns (error: Option<Error>)
      modifies this, sink
      ensures var e := Rendering(fs, engine, readJson, file, old(partials));
              error == e.error && partials == e.partials &&
              sink.dependencies == old(sink.dependencies) + e.dependencies &&
              sink.binaries == old(sink.binaries) + e.binaries
    {
      ghost var effect := Rendering(fs, engine, readJson, file, partials);
      ghost var resolution := Dependencies(fs, engine.parse, file, partials);
      var dependencies := GetDependencies(fs, engine.parse, file);
      if dependencies.Failure? {
        return Some(dependencies.error);
      }
      ghost var registered := partials;
      assert registered == effect.partials == resolution.partials;
      AddEachDependency(sink, dependencies.value);
      // the entry is read and parsed a second time; it parsed the first time
      var ast := ParseTemplate(engine.parse, fs[file], file).value;
      var templateData := GetTemplateData(fs, readJson, file);
      if templateData.Failure? {
        assert effect == RenderEffect(dependencies.value, [], registered, Some(templateData.error));
        return Some(templateData.error);
      }
      var files := templateData.value.files;
      ghost var reported := dependencies.value + set f | f in files;
      AddEachFile(sink, files);
      assert sink.dependencies == old(sink.dependencies) + reported;
      var binary := engine.execute(ast, partials, templateData.value.data);
      if binary.Failure? {
        assert effect == RenderEffect(reported, [], registered, Some(RenderFailed(binary.error)));
        return Some(RenderFailed(binary.error));
      }
      assert effect == RenderEffect(reported, [Binary(OutputName, binary.value)], registered, None);
      sink.AddBinary(OutputName, binary.value);
      error := None;
    }
  }
}
