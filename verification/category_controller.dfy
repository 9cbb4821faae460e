/** `CategoryManagementController` together with the form request in front
    of it: a request that fails its rule set is answered with the
    validation-error envelope before the controller runs; otherwise the
    validated data goes to the model, with the uploaded image (if any)
    saved first and its stored path put in place of the file. */
module CategoryController {
  import opened Wrappers
  import opened Text
  import opened Values
  import opened Schema
  import opened Validation
  import opened ApiResponse
  import FileUpload
  import Requests
  import CategoryModel

  /** The folder id a new row's image goes to: one more than the largest id
      in the table, or 1 when the table is empty (or its largest id is 0). */
  function NextDirectoryId(ids: seq<nat>): (n: nat)
    ensures n >= 1
    ensures forall x :: x in ids ==> x < n
    ensures n == 1 || n - 1 in ids
  {
    match MaxId(ids)
    case None => 1
    case Some(m) => if m == 0 then 1 else m + 1
  }

  /** PHP's string conversion of a value appended to a path; an id that
      passed validation is always an integer. */
  function PathSegment(v: Value): (s: string)
    ensures v.Int? && v.i >= 0 ==> s == NatToString(v.i) && AllDigits(s) && ParseNat(s) == v.i
    ensures v.Str? ==> s == v.s
  {
    match v
    case Int(i) => ParseIntToString(i); IntToString(i)
    case Str(s) => s
    case _ => ""
  }

  /** The folder an insert saves its image in. */
  function InsertFolder(db: Db): (folder: string)
    ensures IsPrefix(FileUpload.Destination()["category"], folder)
    ensures AllDigits(folder[|FileUpload.Destination()["category"]|..])
    ensures ParseNat(folder[|FileUpload.Destination()["category"]|..]) == NextDirectoryId(CategoryIds(db.categories))
  {
    ParseNatToString(NextDirectoryId(CategoryIds(db.categories)));
    FileUpload.Destination()["category"] + NatToString(NextDirectoryId(CategoryIds(db.categories)))
  }

  /** `insertCategoryData` after validation. Reading `max('id')` is a query,
      so an engine failure answers 500 before the image is written. */
  function InsertCategoryBody(db: Db, data: Input, upload: Option<Upload>, engine: Engine, token: string, fs: FileUpload.FileSystem): (r: Reply)
    ensures engine.Failing? ==> !Succeeded(r) && r.response.Some? && r.response.value.code == HTTP_INTERNAL_SERVER_ERROR
    ensures r.response.Some?
    ensures !Succeeded(r) ==> r.db == db
    ensures engine.Failing? ==> r.response == Some(CategoryModel.EngineFault(engine))
    ensures upload.Some? && !engine.Failing? && fs == FileUpload.Unwritable ==> r.response.value.code == HTTP_INTERNAL_SERVER_ERROR
    ensures Succeeded(r) <==>
      && engine == Available
      && FileUpload.AttachImage(data, "category_image", upload, InsertFolder(db), token, fs).Ok?
      && CreateCategoryRow(db, FileUpload.AttachImage(data, "category_image", upload, InsertFolder(db), token, fs).value).Ok?
    ensures Succeeded(r) ==> r.db == CreateCategoryRow(db, FileUpload.AttachImage(data, "category_image", upload, InsertFolder(db), token, fs).value).value.1
    ensures Succeeded(r) ==> r == CategoryModel.InsertCategory(db, FileUpload.AttachImage(data, "category_image", upload, InsertFolder(db), token, fs).value, engine)
  {
    if upload.Some? && engine.Failing? then Reply(Some(CategoryModel.EngineFault(engine)), db)
    else match FileUpload.AttachImage(data, "category_image", upload, InsertFolder(db), token, fs)
      case Err(fault) => Reply(Some(InternalServerError(Some(fault))), db)
      case Ok(data') => CategoryModel.InsertCategory(db, data', engine)
  }

  /** The route `insert_category`. */
  function InsertCategoryData(db: Db, input: Input, engine: Engine, token: string, fs: FileUpload.FileSystem): (r: Reply)
    ensures engine.Failing? ==> !Succeeded(r) && r.response.Some? && r.response.value.code in {HTTP_UNPROCESSABLE_ENTITY, HTTP_INTERNAL_SERVER_ERROR}
    ensures r.response.Some?
    ensures !Succeeded(r) ==> r.db == db
    ensures Validate(Requests.CategoryInsertRules(), input, db).Err? ==>
      r.response == Some(ValidationError(Validate(Requests.CategoryInsertRules(), input, db).error))
    ensures Validate(Requests.CategoryInsertRules(), input, db).Ok? ==>
      r == InsertCategoryBody(db, Validated(Requests.CategoryInsertRules(), input), FileOf(input, "category_image"), engine, token, fs)
  {
    Requests.InsertCategoryRoute(input);
    match Validate(Requests.CategoryRules(Requests.InsertCategoryPath, input), input, db)
    case Err(errors) => Reply(Some(ValidationError(errors)), db)
    case Ok(data) => InsertCategoryBody(db, data, FileOf(input, "category_image"), engine, token, fs)
  }

  /** The folder an update saves its image in: the request's id, not the
      row's. */
  function UpdateFolder(input: Input): (folder: string)
    ensures IsPrefix(FileUpload.Destination()["category"], folder)
    ensures Field(input, "id").Int? && Field(input, "id").i >= 0 ==>
      && AllDigits(folder[|FileUpload.Destination()["category"]|..])
      && ParseNat(folder[|FileUpload.Destination()["category"]|..]) == Field(input, "id").i
    ensures Field(input, "id").Str? ==> folder[|FileUpload.Destination()["category"]|..] == Field(input, "id").s
  {
    var folder := FileUpload.Destination()["category"] + PathSegment(Field(input, "id"));
    assert folder[|FileUpload.Destination()["category"]|..] == PathSegment(Field(input, "id"));
    folder
  }

  /** `updateCategoryData` after validation; no query runs before the
      image is written. */
  function UpdateCategoryBody(db: Db, input: Input, data: Input, engine: Engine, token: string, fs: FileUpload.FileSystem): (r: Reply)
    ensures engine.Failing? ==> !Succeeded(r) && r.response.Some? && r.response.value.code == HTTP_INTERNAL_SERVER_ERROR
    ensures !Succeeded(r) ==> r.db == db
    ensures FileOf(input, "category_image").None? ==> r == CategoryModel.UpdateCategory(db, data, engine)
    ensures Succeeded(r) <==>
      && FileUpload.AttachImage(data, "category_image", FileOf(input, "category_image"), UpdateFolder(input), token, fs).Ok?
      && Succeeded(CategoryModel.UpdateCategory(db, FileUpload.AttachImage(data, "category_image", FileOf(input, "category_image"), UpdateFolder(input), token, fs).value, engine))
    ensures Succeeded(r) ==> r == CategoryModel.UpdateCategory(db, FileUpload.AttachImage(data, "category_image", FileOf(input, "category_image"), UpdateFolder(input), token, fs).value, engine)
  {
    match FileUpload.AttachImage(data, "category_image", FileOf(input, "category_image"), UpdateFolder(input), token, fs)
    case Err(fault) => Reply(Some(InternalServerError(Some(fault))), db)
    case Ok(data') => CategoryModel.UpdateCategory(db, data', engine)
  }

  /** The route `update_category`. */
  function UpdateCategoryData(db: Db, input: Input, engine: Engine, token: string, fs: FileUpload.FileSystem): (r: Reply)
    ensures engine.Failing? ==> !Succeeded(r) && r.response.Some? && r.response.value.code in {HTTP_UNPROCESSABLE_ENTITY, HTTP_INTERNAL_SERVER_ERROR}
    ensures !Succeeded(r) ==> r.db == db
    ensures Validate(Requests.CategoryUpdateRules(input), input, db).Err? ==>
      r.response == Some(ValidationError(Validate(Requests.CategoryUpdateRules(input), input, db).error))
    ensures Validate(Requests.CategoryUpdateRules(input), input, db).Ok? ==>
      r == UpdateCategoryBody(db, input, Validated(Requests.CategoryUpdateRules(input), input), engine, token, fs)
  {
    Requests.UpdateCategoryRoute(input);
    match Validate(Requests.CategoryRules(Requests.UpdateCategoryPath, input), input, db)
    case Err(errors) => Reply(Some(ValidationError(errors)), db)
    case Ok(data) => UpdateCategoryBody(db, input, data, engine, token, fs)
  }

  /** The route `get_category_by_id`: the id must name an existing category. */
  function GetCategoryDataById(db: Db, input: Input, engine: Engine): (e: Envelope)
    ensures Validate(Requests.CategoryByIdRules(), input, db).Err? ==>
      e == ValidationError(Validate(Requests.CategoryByIdRules(), input, db).error)
    ensures Validate(Requests.CategoryByIdRules(), input, db).Ok? ==>
      e == CategoryModel.GetCategoryById(db, Field(input, "id"), engine)
  {
    Requests.CategoryByIdRoute(input);
    match Validate(Requests.CategoryRules(Requests.CategoryByIdPath, input), input, db)
    case Err(errors) => ValidationError(errors)
    case Ok(_) => CategoryModel.GetCategoryById(db, Field(input, "id"), engine)
  }
}
