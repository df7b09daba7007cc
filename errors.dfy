/** The ways a call of the plugin can reject. */
module Errors {

  datatype Error =
    | ReadFailed(path: string)                   // fs.readFile rejected: no such file
    | ParseFailed(file: string, message: string)  // the `{file, message}` object of `_parse`
    | DataFailed(file: string, message: string)   // fs.readJSON rejected on an existing data file
    | RenderFailed(message: string)               // the compiled template threw while executing
}
