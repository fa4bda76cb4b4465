/** The records of src/env/types.ts: a named set of variables and the result of reading a `.env` file. */
module EnvTypes {
  import opened Common
  import opened Headers

  /** A named environment; `variables` keeps the insertion order of the `Map` it is read into. */
  datatype Environment = Environment(name: string, variables: HeaderMap, filePath: Option<string>)

  /** A problem with one line of a `.env` file; `line` is 1-based. */
  datatype EnvironmentError = EnvironmentError(line: nat, message: string)

  /** What `EnvParser.parse` returns: an environment, or every error found. */
  datatype ParseEnvironmentResult =
    | Parsed(environment: Environment)
    | Failed(errors: seq<EnvironmentError>)
}
