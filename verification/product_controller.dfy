/** `ProductManagementController` together with its form request for the
    two writes, and the two reads that validate inline. An inline validator
    runs inside the controller's `try`, so an engine failure during its
    `exists` query answers 500 like any other fault. */
module ProductController {
  import opened Wrappers
  import opened Text
  import opened Values
  import opened Schema
  import opened Validation
  import opened ApiResponse
  import FileUpload
  import Requests
  import CategoryModel
  import ProductModel
  import CategoryController

  /** The folder an insert saves its image in: `max('id') + 1` of the product table. */
  function InsertFolder(db: Db): (folder: string)
    ensures IsPrefix(FileUpload.Destination()["product"], folder)
    ensures AllDigits(folder[|FileUpload.Destination()["product"]|..])
    ensures ParseNat(folder[|FileUpload.Destination()["product"]|..]) == CategoryController.NextDirectoryId(ProductIds(db.products))
  {
    ParseNatToString(CategoryController.NextDirectoryId(ProductIds(db.products)));
    FileUpload.Destination()["product"] + NatToString(CategoryController.NextDirectoryId(ProductIds(db.products)))
  }

  /** The folder an update saves its image in: the request's id. */
  function UpdateFolder(input: Input): (folder: string)
    ensures IsPrefix(FileUpload.Destination()["product"], folder)
    ensures Field(input, "id").Int? && Field(input, "id").i >= 0 ==>
      && AllDigits(folder[|FileUpload.Destination()["product"]|..])
      && ParseNat(folder[|FileUpload.Destination()["product"]|..]) == Field(input, "id").i
    ensures Field(input, "id").Str? ==> folder[|FileUpload.Destination()["product"]|..] == Field(input, "id").s
  {
    var folder := FileUpload.Destination()["product"] + CategoryController.PathSegment(Field(input, "id"));
    assert folder[|FileUpload.Destination()["product"]|..] == CategoryController.PathSegment(Field(input, "id"));
    folder
  }

  /** `insertProductData` after validation. */
  function InsertProductBody(db: Db, data: Input, upload: Option<Upload>, engine: Engine, token: string, fs: FileUpload.FileSystem): (r: Reply)
    ensures engine.Failing? ==> !Succeeded(r) && r.response.Some? && r.response.value.code == HTTP_INTERNAL_SERVER_ERROR
    ensures r.response.Some?
    ensures !Succeeded(r) ==> r.db == db
    ensures engine.Failing? ==> r.response == Some(CategoryModel.EngineFault(engine))
    ensures Succeeded(r) <==>
      && engine == Available
      && FileUpload.AttachImage(data, "product_image", upload, InsertFolder(db), token, fs).Ok?
      && CreateProductRow(db, FileUpload.AttachImage(data, "product_image", upload, InsertFolder(db), token, fs).value).Ok?
    ensures Succeeded(r) ==> r.db == CreateProductRow(db, FileUpload.AttachImage(data, "product_image", upload, InsertFolder(db), token, fs).value).value.1
    ensures Succeeded(r) ==> r == ProductModel.InsertProduct(db, FileUpload.AttachImage(data, "product_image", upload, InsertFolder(db), token, fs).value, engine)
  {
    if upload.Some? && engine.Failing? then Reply(Some(CategoryModel.EngineFault(engine)), db)
    else match FileUpload.AttachImage(data, "product_image", upload, InsertFolder(db), token, fs)
      case Err(fault) => Reply(Some(InternalServerError(Some(fault))), db)
      case Ok(data') => ProductModel.InsertProduct(db, data', engine)
  }

  /** The route `insert_product`. */
  function InsertProductData(db: Db, input: Input, engine: Engine, token: string, fs: FileUpload.FileSystem): (r: Reply)
    ensures engine.Failing? ==> !Succeeded(r) && r.response.Some? && r.response.value.code in {HTTP_UNPROCESSABLE_ENTITY, HTTP_INTERNAL_SERVER_ERROR}
    ensures r.response.Some?
    ensures !Succeeded(r) ==> r.db == db
    ensures Validate(Requests.ProductCreateRules(input), input, db).Err? ==>
      r.response == Some(ValidationError(Validate(Requests.ProductCreateRules(input), input, db).error))
    ensures Validate(Requests.ProductCreateRules(input), input, db).Ok? ==>
      r == InsertProductBody(db, Validated(Requests.ProductCreateRules(input), input), FileOf(input, "product_image"), engine, token, fs)
  {
    Requests.InsertProductRoute(input);
    var rules := Requests.ProductRules(Requests.InsertProductPath, input).value;
    match Validate(rules, input, db)
    case Err(errors) => Reply(Some(ValidationError(errors)), db)
    case Ok(data) => InsertProductBody(db, data, FileOf(input, "product_image"), engine, token, fs)
  }

  /** `updateProductData` after validation. */
  function UpdateProductBody(db: Db, input: Input, data: Input, engine: Engine, token: string, fs: FileUpload.FileSystem): (r: Reply)
    ensures engine.Failing? ==> !Succeeded(r) && r.response.Some? && r.response.value.code == HTTP_INTERNAL_SERVER_ERROR
    ensures !Succeeded(r) ==> r.db == db
    ensures FileOf(input, "product_image").None? ==> r == ProductModel.UpdateProduct(db, data, engine)
    ensures Succeeded(r) <==>
      && FileUpload.AttachImage(data, "product_image", FileOf(input, "product_image"), UpdateFolder(input), token, fs).Ok?
      && Succeeded(ProductModel.UpdateProduct(db, FileUpload.AttachImage(data, "product_image", FileOf(input, "product_image"), UpdateFolder(input), token, fs).value, engine))
    ensures Succeeded(r) ==> r == ProductModel.UpdateProduct(db, FileUpload.AttachImage(data, "product_image", FileOf(input, "product_image"), UpdateFolder(input), token, fs).value, engine)
  {
    match FileUpload.AttachImage(data, "product_image", FileOf(input, "product_image"), UpdateFolder(input), token, fs)
    case Err(fault) => Reply(Some(InternalServerError(Some(fault))), db)
    case Ok(data') => ProductModel.UpdateProduct(db, data', engine)
  }

  /** The route `update_product`. */
  function UpdateProductData(db: Db, input: Input, engine: Engine, token: string, fs: FileUpload.FileSystem): (r: Reply)
    ensures engine.Failing? ==> !Succeeded(r) && r.response.Some? && r.response.value.code in {HTTP_UNPROCESSABLE_ENTITY, HTTP_INTERNAL_SERVER_ERROR}
    ensures !Succeeded(r) ==> r.db == db
    ensures Validate(Requests.ProductUpdateRules(input), input, db).Err? ==>
      r.response == Some(ValidationError(Validate(Requests.ProductUpdateRules(input), input, db).error))
    ensures Validate(Requests.ProductUpdateRules(input), input, db).Ok? ==>
      r == UpdateProductBody(db, input, Validated(Requests.ProductUpdateRules(input), input), engine, token, fs)
  {
    Requests.UpdateProductRoute(input);
    var rules := Requests.ProductRules(Requests.UpdateProductPath, input).value;
    match Validate(rules, input, db)
    case Err(errors) => Reply(Some(ValidationError(errors)), db)
    case Ok(data) => UpdateProductBody(db, input, data, engine, token, fs)
  }

  /** `category_id` of the listing: `nullable|integer|exists:category_model,id`. */
  function ListingRules(): seq<FieldRule> {
    [Requests.CategoryIdRule(Nullable)]
  }

  /** `id` of the lookup: `required|integer|exists:product_model,id`. */
  function ByIdRules(): seq<FieldRule> {
    [Requests.IdRule(ProductTable)]
  }

  /** The route `get_product`: an optional category filter naming an
      existing category, then the listing. With the engine down, either
      the `exists` query or the listing fails, so the answer is 500. */
  function GetProduct(db: Db, input: Input, engine: Engine): (e: Envelope)
    ensures engine.Failing? ==> e == CategoryModel.EngineFault(engine)
    ensures !engine.Failing? ==>
      (e.code == HTTP_UNPROCESSABLE_ENTITY <==>
         !Requests.Omitted(input, "category_id") && !Requests.ExistingId(Field(input, "category_id"), CategoryTable, db))
    ensures !engine.Failing? && e.code != HTTP_UNPROCESSABLE_ENTITY ==>
      e == ProductModel.GetProductListing(db, Field(input, "category_id"), engine)
  {
    Requests.CategoryIdVerdict(Nullable, input, db);
    if engine.Failing? then CategoryModel.EngineFault(engine)
    else match Validate(ListingRules(), input, db)
      case Err(errors) => ValidationError(errors)
      case Ok(_) => ProductModel.GetProductListing(db, Field(input, "category_id"), engine)
  }

  /** The route `get_product_by_id`: a missing id fails validation without
      a query; a present one is looked up with `exists`, which fails with
      the engine. */
  function GetProductDataById(db: Db, input: Input, engine: Engine): (e: Envelope)
    ensures engine.Failing? && !Requests.Omitted(input, "id") ==> e == CategoryModel.EngineFault(engine)
    ensures Requests.Omitted(input, "id") ==> e.code == HTTP_UNPROCESSABLE_ENTITY
    ensures !engine.Failing? ==>
      (e.code == HTTP_UNPROCESSABLE_ENTITY <==> !Requests.ExistingId(Field(input, "id"), ProductTable, db))
    ensures !engine.Failing? && e.code != HTTP_UNPROCESSABLE_ENTITY ==>
      e == ProductModel.GetProductById(db, Field(input, "id"), engine)
  {
    Requests.IdVerdict(ProductTable, input, db);
    if engine.Failing? && !Requests.Omitted(input, "id") then CategoryModel.EngineFault(engine)
    else match Validate(ByIdRules(), input, db)
      case Err(errors) => ValidationError(errors)
      case Ok(_) => ProductModel.GetProductById(db, Field(input, "id"), engine)
  }
}
