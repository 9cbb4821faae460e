/** The response envelopes of `ApiResponseHelper`. A response body is a JSON
    object, modelled as a map from key to JSON value; its `status` is one of
    two enum constants standing for the configured SUCCESS and FAIL codes,
    and messages are either literal text or keys of the translation
    catalogue. */
module ApiResponse {
  import opened Wrappers
  import opened Values
  import opened Schema
  import Validation

  datatype Status = SUCCESS | FAIL

  datatype MessageKey =
    | INTERNAL_SERVER_ERROR
    | CATEGORY_INSERTED | CATEGORY_FAILED | CATEGORY_UPDATED | CATEGORY_FETCHED | CATEGORY_NOT_FOUND
    | PRODUCT_INSERTED | PRODUCT_FAILED | PRODUCT_UPDATED | PRODUCT_FETCHED | PRODUCT_NOT_FOUND

  datatype Message = Localized(key: MessageKey) | Literal(text: string)

  datatype Json =
    | JNull
    | StatusJson(status: Status)
    | MessageJson(message: Message)
    | IdJson(id: int)
    | CategoryListJson(categories: seq<CategoryView>)
    | CategoryJson(category: CategoryView)
    | DropdownJson(items: seq<DropdownItem>)
    | ProductListJson(products: seq<ProductView>)
    | ProductJson(product: ProductView)
    | ErrorsJson(errors: Validation.Errors)
    | FaultJson(fault: Fault)

  /** A JSON response: its body and its HTTP status code. */
  datatype Envelope = Envelope(body: map<string, Json>, code: int)

  /** What a handler answers together with the store it leaves behind; no
      envelope at all stands for a PHP handler that returns null. */
  datatype Reply = Reply(response: Option<Envelope>, db: Db)

  const HTTP_OK: int := 200
  const HTTP_BAD_REQUEST: int := 400
  const HTTP_UNPROCESSABLE_ENTITY: int := 422
  const HTTP_INTERNAL_SERVER_ERROR: int := 500

  // ------------------------------------------------------------ readers

  /** The `status` member, when the body has a status there. */
  function StatusOf(e: Envelope): Option<Status> {
    if "status" in e.body && e.body["status"].StatusJson? then Some(e.body["status"].status) else None
  }

  /** The `message` member, when the body has a message there. */
  function MessageOf(e: Envelope): Option<Message> {
    if "message" in e.body && e.body["message"].MessageJson? then Some(e.body["message"].message) else None
  }

  /** The member under `key`, if any. */
  function Member(e: Envelope, key: string): Option<Json> {
    if key in e.body then Some(e.body[key]) else None
  }

  /** PHP's `$key == null`: a null key and the empty string both compare equal to null. */
  predicate NoKey(key: Option<string>) {
    key.None? || key.value == ""
  }

  // ------------------------------------------------------- constructors

  /** `success`: status SUCCESS and the message, plus the data under `key`
      unless the key is null. A key of "status" or "message" overwrites that
      member, since a later key wins in a PHP array literal. */
  function Success(message: Message := Literal("Success"), key: Option<string> := Some("data"),
                   data: Json := JNull, code: int := HTTP_OK): (e: Envelope)
    ensures e.code == code
    ensures NoKey(key) ==> e.body.Keys == {"status", "message"}
    ensures !NoKey(key) ==> e.body.Keys == {"status", "message", key.value} && Member(e, key.value) == Some(data)
    ensures NoKey(key) || key.value !in {"status", "message"} ==> StatusOf(e) == Some(SUCCESS) && MessageOf(e) == Some(message)
  {
    var base := map["status" := StatusJson(SUCCESS), "message" := MessageJson(message)];
    if NoKey(key) then Envelope(base, code) else Envelope(base[key.value := data], code)
  }

  /** `error`: status FAIL and the message, nothing else. */
  function Error(message: Message := Literal("Error"), code: int := HTTP_INTERNAL_SERVER_ERROR): (e: Envelope)
    ensures e.code == code && e.body.Keys == {"status", "message"}
    ensures StatusOf(e) == Some(FAIL) && MessageOf(e) == Some(message)
  {
    Envelope(map["status" := StatusJson(FAIL), "message" := MessageJson(message)], code)
  }

  /** `validationError`: FAIL, the fixed message, the field-keyed errors, 422. */
  function ValidationError(errors: Validation.Errors): (e: Envelope)
    ensures e.code == HTTP_UNPROCESSABLE_ENTITY && e.body.Keys == {"status", "message", "errors"}
    ensures StatusOf(e) == Some(FAIL) && MessageOf(e) == Some(Literal("Validation failed."))
    ensures Member(e, "errors") == Some(ErrorsJson(errors))
  {
    Envelope(map["status" := StatusJson(FAIL), "message" := MessageJson(Literal("Validation failed.")),
                 "errors" := ErrorsJson(errors)], HTTP_UNPROCESSABLE_ENTITY)
  }

  /** `internalServerError`: FAIL, the catalogue's generic message, the
      detail (null by default) under `error_message`, 500. */
  function InternalServerError(detail: Option<Fault> := None): (e: Envelope)
    ensures e.code == HTTP_INTERNAL_SERVER_ERROR && e.body.Keys == {"status", "message", "error_message"}
    ensures StatusOf(e) == Some(FAIL) && MessageOf(e) == Some(Localized(INTERNAL_SERVER_ERROR))
    ensures Member(e, "error_message") == Some(if detail.Some? then FaultJson(detail.value) else JNull)
  {
    Envelope(map["status" := StatusJson(FAIL), "message" := MessageJson(Localized(INTERNAL_SERVER_ERROR)),
                 "error_message" := if detail.Some? then FaultJson(detail.value) else JNull],
             HTTP_INTERNAL_SERVER_ERROR)
  }

  /** The reply carries an envelope whose status is SUCCESS. */
  predicate Succeeded(r: Reply) {
    r.response.Some? && StatusOf(r.response.value) == Some(SUCCESS)
  }

  /** The shape every lookup shares: the found data under `data` with the
      "fetched" message, or the "not found" message and no data member at
      all (a null key); both are successes with code 200. */
  function Fetch(found: bool, fetched: MessageKey, missing: MessageKey, data: Json): (e: Envelope)
    ensures e.code == HTTP_OK && StatusOf(e) == Some(SUCCESS)
    ensures found ==> MessageOf(e) == Some(Localized(fetched)) && Member(e, "data") == Some(data)
    ensures !found ==> MessageOf(e) == Some(Localized(missing)) && e.body.Keys == {"status", "message"}
  {
    if found then Success(Localized(fetched), Some("data"), data) else Success(Localized(missing), None)
  }

  // --------------------------------------------------------- properties

  /** With every argument left at its default, `success` answers 200 with a
      null `data` member. */
  lemma SuccessDefaults(message: Message)
    ensures Success(message).code == HTTP_OK
    ensures Member(Success(message), "data") == Some(JNull)
    ensures StatusOf(Success(message)) == Some(SUCCESS)
  {
  }

  /** Only a successful envelope says SUCCESS: the three failure shapes all
      say FAIL, and none of them carries a `data` member. */
  lemma FailuresNeverLookSuccessful(message: Message, code: int, errors: Validation.Errors, detail: Option<Fault>)
    ensures StatusOf(Error(message, code)) == Some(FAIL) && Member(Error(message, code), "data").None?
    ensures StatusOf(ValidationError(errors)) == Some(FAIL) && Member(ValidationError(errors), "data").None?
    ensures StatusOf(InternalServerError(detail)) == Some(FAIL) && Member(InternalServerError(detail), "data").None?
  {
  }

  /** A key that collides with "status" replaces the status member, so the
      body no longer reads as a success. */
  lemma StatusKeyOverwrites(message: Message, data: Json)
    requires !data.StatusJson?
    ensures StatusOf(Success(message, Some("status"), data)).None?
  {
  }
}
