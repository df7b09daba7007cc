/** The scenarios of the repository's tests (dependencies, data, render),
    written out with small template sources and the statement lists they
    parse to. */
module Fixtures {
  import opened Wrappers
  import opened Handlebars
  import opened Paths
  import opened Resolver
  import opened DataFiles
  import opened HandlebarsPlugin
  import Errors

  /** A parser that knows a fixed set of sources and rejects every other. */
  function FixtureParser(asts: map<string, seq<Statement>>): Parser
  {
    source => if source in asts then Success(asts[source]) else Failure("Parse error")
  }

  const Asts: map<string, seq<Statement>> := map[
    "{{> a}} {{> b}}" := [Partial("a"), Other, Partial("b")],
    "{{> c}}" := [Partial("c")],
    "" := [],
    "{{> a}} {{> missing}}" := [Partial("a"), Other, Partial("missing")],
    "{{> a}} {{> index}}" := [Partial("a"), Other, Partial("index")]
  ]

  const ValidFiles: map<string, string> :=
    map["index.hbs" := "{{> a}} {{> b}}", "a.hbs" := "{{> c}}", "b.hbs" := "", "c.hbs" := ""]

  lemma ValidChainWalk()
    ensures var empty: map<string, string> := map[];
            Walk(ValidFiles, FixtureParser(Asts), [Partial("a"), Other, Partial("b")], State({}, empty)) ==
            Walked(State({"a.hbs", "c.hbs", "b.hbs"}, map["a" := "{{> c}}", "c" := "", "b" := ""]), None)
  {
    var fs := ValidFiles;
    var parse := FixtureParser(Asts);
    assert PartialPath("a") == "a.hbs" && PartialPath("b") == "b.hbs" && PartialPath("c") == "c.hbs";
    assert parse("{{> c}}") == Success([Partial("c")]);
    assert parse("") == Success([]);
    var r1 := map["a" := "{{> c}}"];
    var r2 := r1["c" := ""];
    var r3 := r2["b" := ""];
    assert r3 == map["a" := "{{> c}}", "c" := "", "b" := ""];
    var s2 := State({"a.hbs", "c.hbs"}, r2);
    assert Walk(fs, parse, [], s2) == Walked(s2, None);
    assert Walk(fs, parse, [Partial("c")], State({"a.hbs"}, r1)) == Walked(s2, None);
    var s3 := State({"a.hbs", "c.hbs", "b.hbs"}, r3);
    assert Walk(fs, parse, [], s3) == Walked(s3, None);
    assert Walk(fs, parse, [Partial("b")], s2) == Walked(s3, None);
    assert Walk(fs, parse, [Other, Partial("b")], s2) == Walked(s3, None);
    var body := [Partial("a"), Other, Partial("b")];
    assert body[1..] == [Other, Partial("b")];
    var empty: map<string, string> := map[];
    assert empty["a" := "{{> c}}"] == r1;
    assert {} + {"a.hbs"} == {"a.hbs"};
  }

  /** index names a and b, a names c: four files. */
  lemma ValidChain()
    ensures var d := Dependencies(ValidFiles, FixtureParser(Asts), "index.hbs", map[]);
            d.dependencies == Success({"index.hbs", "a.hbs", "b.hbs", "c.hbs"}) && |d.dependencies.value| == 4
  {
    var parse := FixtureParser(Asts);
    ValidChainWalk();
    assert parse("{{> a}} {{> b}}") == Success([Partial("a"), Other, Partial("b")]);
    assert ParseTemplate(parse, ValidFiles["index.hbs"], "index.hbs") == Success([Partial("a"), Other, Partial("b")]);
    assert {"a.hbs", "c.hbs", "b.hbs"} + {"index.hbs"} == {"index.hbs", "a.hbs", "b.hbs", "c.hbs"};
    assert |{"index.hbs", "a.hbs", "b.hbs", "c.hbs"}| == 4;
  }

  /** index names a and a partial without a file: two files, no rejection. */
  lemma MissingPartial()
    ensures var fs := map["index.hbs" := "{{> a}} {{> missing}}", "a.hbs" := ""];
            var d := Dependencies(fs, FixtureParser(Asts), "index.hbs", map[]);
            d.dependencies == Success({"index.hbs", "a.hbs"}) && |d.dependencies.value| == 2
  {
    var fs := map["index.hbs" := "{{> a}} {{> missing}}", "a.hbs" := ""];
    var parse := FixtureParser(Asts);
    assert PartialPath("a") == "a.hbs" && PartialPath("missing") == "missing.hbs";
    assert parse("") == Success([]);
    var empty: map<string, string> := map[];
    var s1 := State({"a.hbs"}, empty["a" := ""]);
    assert Walk(fs, parse, [], s1) == Walked(s1, None);
    assert Walk(fs, parse, [Partial("missing")], s1) == Walked(s1, None);
    assert Walk(fs, parse, [Other, Partial("missing")], s1) == Walked(s1, None);
    var body := [Partial("a"), Other, Partial("missing")];
    assert body[1..] == [Other, Partial("missing")];
    assert {} + {"a.hbs"} == {"a.hbs"};
    assert Walk(fs, parse, body, State({}, empty)) == Walked(s1, None);
    assert ParseTemplate(parse, fs["index.hbs"], "index.hbs") == Success(body);
    assert s1.visited + {"index.hbs"} == {"index.hbs", "a.hbs"};
  }

  /** index names a and itself, and so does a: the walk ends with two files. */
  lemma CircularPartials()
    ensures var fs := map["index.hbs" := "{{> a}} {{> index}}", "a.hbs" := "{{> a}} {{> index}}"];
            var d := Dependencies(fs, FixtureParser(Asts), "index.hbs", map[]);
            d.dependencies == Success({"index.hbs", "a.hbs"}) && |d.dependencies.value| == 2
  {
    var fs := map["index.hbs" := "{{> a}} {{> index}}", "a.hbs" := "{{> a}} {{> index}}"];
    var parse := FixtureParser(Asts);
    var body := [Partial("a"), Other, Partial("index")];
    assert body[1..] == [Other, Partial("index")];
    assert body[1..][1..] == [Partial("index")];
    assert PartialPath("a") == "a.hbs" && PartialPath("index") == "index.hbs";
    assert parse("{{> a}} {{> index}}") == Success(body);
    var empty: map<string, string> := map[];
    var r1 := empty["a" := "{{> a}} {{> index}}"];
    var r2 := r1["index" := "{{> a}} {{> index}}"];
    var s2 := State({"a.hbs", "index.hbs"}, r2);
    WalkOfInert(fs, parse, body, s2);
    assert Walk(fs, parse, [], s2) == Walked(s2, None);
    assert {"a.hbs"} + {"index.hbs"} == {"a.hbs", "index.hbs"};
    assert Walk(fs, parse, body, State({"a.hbs"} + {"index.hbs"}, r2)) == Walked(s2, None);
    assert Walk(fs, parse, [Partial("index")], State({"a.hbs"}, r1)) == Walked(s2, None);
    assert Walk(fs, parse, [Other, Partial("index")], State({"a.hbs"}, r1)) == Walked(s2, None);
    assert Walk(fs, parse, body, State({"a.hbs"}, r1)) == Walked(s2, None);
    assert Walk(fs, parse, [Partial("index")], s2) == Walked(s2, None);
    assert Walk(fs, parse, [Other, Partial("index")], s2) == Walked(s2, None);
    assert {} + {"a.hbs"} == {"a.hbs"};
    assert Walk(fs, parse, body, State({}, empty)) == Walked(s2, None);
    assert ParseTemplate(parse, fs["index.hbs"], "index.hbs") == Success(body);
    assert s2.visited + {"index.hbs"} == {"index.hbs", "a.hbs"};
  }

  const DataFixtureFiles: map<string, string> := map["test/index.hbs" := "", "test/index.json" := "{}"]

  function EmptyObject(text: string): Result<Json, string>
  {
    Success(JObject(map[]))
  }

  lemma DataFixtureDependencies()
    ensures var empty: map<string, string> := map[];
            Dependencies(DataFixtureFiles, FixtureParser(Asts), "test/index.hbs", empty) ==
              Resolution(Success({"test/index.hbs"}), empty)
  {
    var parse := FixtureParser(Asts);
    var empty: map<string, string> := map[];
    assert parse("") == Success([]);
    assert Walk(DataFixtureFiles, parse, [], State({}, empty)) == Walked(State({}, empty), None);
    assert ParseTemplate(parse, DataFixtureFiles["test/index.hbs"], "test/index.hbs") == Success([]);
    assert {} + {"test/index.hbs"} == {"test/index.hbs"};
  }

  lemma DataFixtureData()
    ensures TemplateDataOf(DataFixtureFiles, EmptyObject, "test/index.hbs") ==
              Success(TemplateData(["test/index.json"], JObject(map[])))
  {
    Paths.DataFileOfTemplate("test/", "index");
    DataTemplatePath();
    DataDataPath();
  }

  // The paths of the fixtures spelled out, one equation per lemma.

  lemma DataTemplatePath()
    ensures "test/" + "index" + Paths.TemplateExtension == "test/index.hbs"
  {
  }

  lemma DataDataPath()
    ensures "test/" + "index" + Paths.DataExtension == "test/index.json"
  {
  }

  /** A template with a data file next to it renders into one binary and
      reports two dependencies: itself and the data file. */
  lemma RenderWithData()
    ensures var engine := Engine(FixtureParser(Asts), (ast, partials, data) => Success("<div></div>"));
            var e := Rendering(DataFixtureFiles, engine, EmptyObject, "test/index.hbs", map[]);
            e.error == None && e.dependencies == {"test/index.hbs", "test/index.json"} &&
            |e.dependencies| == 2 && e.binaries == [Binary(OutputName, "<div></div>")]
  {
    DataFixtureDependencies();
    DataFixtureData();
    assert (set f | f in ["test/index.json"]) == {"test/index.json"};
    assert |{"test/index.hbs", "test/index.json"}| == 2;
  }

  /** A template without a data file next to it resolves with no files and
      null data, and does not reject. */
  lemma MissingData()
    ensures TemplateDataOf(map["test/missing.hbs" := ""], EmptyObject, "test/missing.hbs") ==
              Success(TemplateData([], JNull))
  {
    MissingDataFile();
    assert "test/missing.json" != "test/missing.hbs";
  }

  lemma MissingDataFile()
    ensures DataFile("test/missing.hbs") == "test/missing.json"
  {
    Paths.DataFileOfTemplate("test/", "missing");
    MissingTemplatePath();
    MissingDataPath();
  }

  lemma MissingTemplatePath()
    ensures "test/" + "missing" + Paths.TemplateExtension == "test/missing.hbs"
  {
  }

  lemma MissingDataPath()
    ensures "test/" + "missing" + Paths.DataExtension == "test/missing.json"
  {
  }

  lemma IndexDataFile()
    ensures DataFile("index.hbs") == "index.json"
  {
    Paths.DataFileOfTemplate("", "index");
    IndexTemplatePath();
    IndexDataPath();
  }

  lemma IndexTemplatePath()
    ensures "" + "index" + Paths.TemplateExtension == "index.hbs"
  {
  }

  lemma IndexDataPath()
    ensures "" + "index" + Paths.DataExtension == "index.json"
  {
  }

  const PlainFiles: map<string, string> := map["index.hbs" := "{{> c}}", "c.hbs" := ""]

  lemma PlainDependencies()
    ensures var empty: map<string, string> := map[];
            Dependencies(PlainFiles, FixtureParser(Asts), "index.hbs", empty) ==
              Resolution(Success({"index.hbs", "c.hbs"}), map["c" := ""])
  {
    var parse := FixtureParser(Asts);
    var empty: map<string, string> := map[];
    assert PartialPath("c") == "c.hbs";
    assert parse("{{> c}}") == Success([Partial("c")]);
    assert parse("") == Success([]);
    var s1 := State({"c.hbs"}, empty["c" := ""]);
    assert Walk(PlainFiles, parse, [], s1) == Walked(s1, None);
    assert {} + {"c.hbs"} == {"c.hbs"};
    assert Walk(PlainFiles, parse, [Partial("c")], State({}, empty)) == Walked(s1, None);
    assert ParseTemplate(parse, PlainFiles["index.hbs"], "index.hbs") == Success([Partial("c")]);
    assert s1.visited + {"index.hbs"} == {"index.hbs", "c.hbs"};
  }

  lemma PlainData()
    ensures TemplateDataOf(PlainFiles, EmptyObject, "index.hbs") == Success(TemplateData([], JNull))
  {
    IndexDataFile();
    assert "index.json" !in PlainFiles;
  }

  /** A template that includes one partial and has no data file renders into
      one binary and reports two dependencies: itself and the partial. */
  lemma RenderWithoutData()
    ensures var engine := Engine(FixtureParser(Asts), (ast, partials, data) => Success("<div></div>"));
            var e := Rendering(PlainFiles, engine, EmptyObject, "index.hbs", map[]);
            e.error == None && e.dependencies == {"index.hbs", "c.hbs"} &&
            |e.dependencies| == 2 && e.binaries == [Binary(OutputName, "<div></div>")] &&
            e.partials == map["c" := ""]
  {
    var engine := Engine(FixtureParser(Asts), (ast, partials, data) => Success("<div></div>"));
    var empty: map<string, string> := map[];
    PlainDependencies();
    PlainData();
    var files: seq<string> := [];
    assert (set f | f in files) == {};
    assert {"index.hbs", "c.hbs"} + {} == {"index.hbs", "c.hbs"};
    assert Rendering(PlainFiles, engine, EmptyObject, "index.hbs", empty) ==
           RenderEffect({"index.hbs", "c.hbs"}, [Binary(OutputName, "<div></div>")], map["c" := ""], None);
    TwoPaths("index.hbs", "c.hbs");
  }

  lemma TwoPaths(a: string, b: string)
    requires |a| != |b|
    ensures |{a, b}| == 2
  {
  }

  /** A template that does not parse rejects the render; nothing is
      reported. */
  lemma RenderWithError()
    ensures var engine := Engine(FixtureParser(Asts), (ast, partials, data) => Success("<div></div>"));
            var e := Rendering(map["error.hbs" := "{{#"], engine, EmptyObject, "error.hbs", map[]);
            e.error == Some(Errors.ParseFailed("error.hbs", "Parse error")) &&
            e.dependencies == {} && e.binaries == []
  {
    var fs := map["error.hbs" := "{{#"];
    var engine := Engine(FixtureParser(Asts), (ast, partials, data) => Success("<div></div>"));
    assert engine.parse("{{#") == Failure("Parse error");
    RenderingOfBrokenEntry(fs, engine, EmptyObject, "error.hbs", map[]);
  }
}
