/** `getTemplateData`: the optional JSON data file next to an entry template. */
module DataFiles {
  import opened Wrappers
  import opened Paths
  import opened Handlebars
  import opened Errors

  /** The `{files, data}` object `getTemplateData` resolves with. */
  datatype TemplateData = TemplateData(files: seq<string>, data: Json)

  /** What `getTemplateData(file)` resolves or rejects with, given the files
      that exist (path to text) and the JSON reader. A missing data file is
      not an error; one that exists but does not hold JSON is. */
  function TemplateDataOf(fs: map<string, string>, readJson: JsonReader, file: string): (r: Result<TemplateData, Error>)
    ensures DataFile(file) !in fs ==> r == Success(TemplateData([], JNull))
    ensures DataFile(file) in fs ==>
              if readJson(fs[DataFile(file)]).Success?
              then r == Success(TemplateData([DataFile(file)], readJson(fs[DataFile(file)]).value))
              else r == Failure(DataFailed(DataFile(file), readJson(fs[DataFile(file)]).error))
    ensures r.Success? ==> |r.value.files| <= 1 && forall f :: f in r.value.files ==> f == DataFile(file) && f in fs
  {
    var dataFile := DataFile(file);
    if dataFile !in fs then Success(TemplateData([], JNull))
    else
      match readJson(fs[dataFile])
      case Success(data) => Success(TemplateData([dataFile], data))
      case Failure(message) => Failure(DataFailed(dataFile, message))
  }

  /** The data file of `dir/stem.hbs` is `dir/stem.json`: it is listed when
      it exists, and otherwise the result is empty with null data. */
  lemma TemplateDataOfTemplate(fs: map<string, string>, readJson: JsonReader, dir: string, stem: string)
    requires dir == [] || dir[|dir| - 1] == Separator
    requires stem != [] && Separator !in stem
    ensures var r := TemplateDataOf(fs, readJson, dir + stem + TemplateExtension);
            var json := dir + stem + DataExtension;
            (json !in fs ==> r == Success(TemplateData([], JNull))) &&
            (json in fs && readJson(fs[json]).Success? ==> r == Success(TemplateData([json], readJson(fs[json]).value)))
  {
    DataFileOfTemplate(dir, stem);
  }
}
