/**
 The records the error filter works on: Ajv's error objects (`ErrorObject`),
 whose `params` may carry, for an `errorMessage` error, the original errors it
 replaces; and the `Violation` the filter hands to its callers.
 */
module ErrorModel {
  import opened Wrappers

  /** A JSON value carried through unchanged (schema fragments, data, keyword parameters). */
  datatype Json =
    | Null
    | Bool(b: bool)
    | Number(n: real)
    | Str(s: string)
    | Array(items: seq<Json>)
    | Object(members: seq<(string, Json)>)

  /**
   An error's `params`: `errors` is the list ajv-errors attaches to an
   `errorMessage` error (the originals it replaces); `fields` are the other,
   keyword-specific parameters.
   */
  datatype Params = Params(errors: Option<seq<Error>>, fields: seq<(string, Json)>)

  /** One Ajv error object. */
  datatype Error = Error(
    keyword: string,
    instancePath: string,
    schemaPath: string,
    params: Params,
    message: string,
    propertyName: Option<string>,
    schema: Option<Json>,
    parentSchema: Option<Json>,
    data: Option<Json>)

  /** What a violation keeps of its error besides the path and the message. */
  datatype Context = Context(
    params: Params,
    propertyName: Option<string>,
    schema: Option<Json>,
    parentSchema: Option<Json>,
    data: Option<Json>)

  /** The user-facing violation (`Violation`, src/validator.ts). */
  datatype Violation = Violation(path: string, message: string, context: Context)

  const ErrorMessageKeyword: string := "errorMessage"
  const OneOf: string := "oneOf"
  const AnyOf: string := "anyOf"
  const AllOf: string := "allOf"
  const If: string := "if"
  const Then: string := "then"
  const Else: string := "else"
}
