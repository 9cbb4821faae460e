/** The scalar values a request carries and the faults a request can run into.

    A request's input is a map from field name to value, as PHP's request
    array is. Laravel's default HTTP middleware trims strings and turns empty
    ones into null before validation runs, so a string value here is never
    empty. A numeric string such as "5" arrives as `Int(5)`. */
module Values {
  import opened Wrappers
  import opened Text

  type NonBlank = s: string | s != "" witness "x"

  /** An uploaded file as the validator and the upload helper see it: the
      extension of the client's file name, the extension guessed from the
      content, and the size in bytes. */
  datatype Upload = Upload(clientExtension: string, guessedExtension: string, sizeBytes: nat)

  datatype Value =
    | Null
    | Int(i: int)
    | Str(s: NonBlank)
    | File(upload: Upload)

  type Input = map<string, Value>

  /** PHP truthiness of a value: null, 0 and "0" are false. */
  predicate Truthy(v: Value) {
    match v
    case Null => false
    case Int(i) => i != 0
    case Str(s) => s != "0"
    case File(_) => true
  }

  /** `$request->field`: the value of a field, or null when it was not sent. */
  function Field(input: Input, key: string): (v: Value)
    ensures key !in input ==> v == Null
    ensures key in input ==> v == input[key]
  {
    if key in input then input[key] else Null
  }

  /** `$request->hasFile(key)`: the uploaded file under `key`, if there is one. */
  function FileOf(input: Input, key: string): (f: Option<Upload>)
    ensures f.Some? <==> key in input && input[key].File?
    ensures f.Some? ==> input[key] == File(f.value)
  {
    if key in input && input[key].File? then Some(input[key].upload) else None
  }

  /** What PHP's exception message would describe. */
  datatype Fault =
    | NoDefault(column: string)          // insert without a value for a NOT NULL column
    | NotNull(column: string)            // null written to a NOT NULL column
    | TooLong(column: string)            // string longer than the column's length
    | OutOfRange(column: string)         // a number outside an unsigned column's range
    | Invalid(column: string)            // a value the column type cannot hold
    | Duplicate(column: string)          // unique index violated
    | MissingReference(column: string)   // foreign key violated
    | UndefinedIndex(key: string)        // PHP read of an array key that is not there
    | EngineDown(detail: string)         // the database engine itself failed
    | NotWritable(path: string)          // the image could not be written

  /** The database engine, passed in: either it works, or `create` yields
      nothing (the branch Eloquent's `create` never takes in practice, since
      it always returns a model), or every query throws. */
  datatype Engine = Available | Refusing | Failing(detail: string)
}
