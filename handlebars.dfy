/** What the plugin sees of the Handlebars library: the statements of a
    parsed template, the JSON values a template is executed against, and
    the parser and executor, which the model takes as given functions. */
module Handlebars {
  import opened Wrappers

  /** A top-level statement of a parsed template (`ast.body[i]`). Only a
      `PartialStatement` (`{{> name}}`) concerns the plugin; a block keeps
      its nested bodies, every other statement kind is `Other`, and `Null`
      stands for an absent entry in the list. */
  datatype Statement =
    | Partial(name: string)
    | Block(program: seq<Statement>, inverse: seq<Statement>)
    | Other
    | Null

  /** A parsed JSON document. */
  datatype Json =
    | JNull
    | JBool(b: bool)
    | JNumber(n: int)
    | JString(s: string)
    | JArray(items: seq<Json>)
    | JObject(fields: map<string, Json>)

  /** `handlebars.parse`: the statement list of a template's source, or the
      message of the exception it throws. */
  type Parser = string -> Result<seq<Statement>, string>

  /** `fs.readJSON` applied to a file's text: the document, or the message of
      the rejection. */
  type JsonReader = string -> Result<Json, string>

  /** One Handlebars instance as the plugin uses it: `parse`, and `execute`,
      which runs `compile(ast)` on some data with the partials registered at
      that time (name to raw source), yielding the rendered text or the
      message of the exception thrown. */
  datatype Engine = Engine(
    parse: Parser,
    execute: (seq<Statement>, map<string, string>, Json) -> Result<string, string>)
}
