/** What the routes promise across calls: the store stays well formed,
    nothing changes unless a write succeeds, a created row can be read
    back, a switched-off row leaves the listings, an update leaves what it
    was not given alone, and where the image-folder id and the per-category
    product-name uniqueness hold and where they do not. */
module Properties {
  import opened Wrappers
  import opened Text
  import opened Values
  import opened Schema
  import opened Validation
  import opened ApiResponse
  import CheckUnique
  import FileUpload
  import Requests
  import CategoryModel
  import ProductModel
  import CategoryController
  import ProductController

  // ------------------------------------------------ the store stays well formed

  lemma InsertCategoryDataKeepsWellFormed(db: Db, input: Input, engine: Engine, token: string, fs: FileUpload.FileSystem)
    requires WellFormed(db)
    ensures WellFormed(CategoryController.InsertCategoryData(db, input, engine, token, fs).db)
  {
    var r := CategoryController.InsertCategoryData(db, input, engine, token, fs);
    if Succeeded(r) {
      var data := Validated(Requests.CategoryInsertRules(), input);
      var data' := FileUpload.AttachImage(data, "category_image", FileOf(input, "category_image"), CategoryController.InsertFolder(db), token, fs).value;
      CreateCategoryRowKeepsWellFormed(db, data');
    }
  }

  lemma UpdateCategoryDataKeepsWellFormed(db: Db, input: Input, engine: Engine, token: string, fs: FileUpload.FileSystem)
    requires WellFormed(db)
    ensures WellFormed(CategoryController.UpdateCategoryData(db, input, engine, token, fs).db)
  {
    var r := CategoryController.UpdateCategoryData(db, input, engine, token, fs);
    if Succeeded(r) {
      var data := Validated(Requests.CategoryUpdateRules(input), input);
      var data' := FileUpload.AttachImage(data, "category_image", FileOf(input, "category_image"), CategoryController.UpdateFolder(input), token, fs).value;
      UpdateCategoryRowKeepsWellFormed(db, CategoryModel.Located(db, data').value, data');
    }
  }

  lemma InsertProductDataKeepsWellFormed(db: Db, input: Input, engine: Engine, token: string, fs: FileUpload.FileSystem)
    requires WellFormed(db)
    ensures WellFormed(ProductController.InsertProductData(db, input, engine, token, fs).db)
  {
    var r := ProductController.InsertProductData(db, input, engine, token, fs);
    if Succeeded(r) {
      var data := Validated(Requests.ProductCreateRules(input), input);
      var data' := FileUpload.AttachImage(data, "product_image", FileOf(input, "product_image"), ProductController.InsertFolder(db), token, fs).value;
      CreateProductRowKeepsWellFormed(db, data');
    }
  }

  lemma UpdateProductDataKeepsWellFormed(db: Db, input: Input, engine: Engine, token: string, fs: FileUpload.FileSystem)
    requires WellFormed(db)
    ensures WellFormed(ProductController.UpdateProductData(db, input, engine, token, fs).db)
  {
    var r := ProductController.UpdateProductData(db, input, engine, token, fs);
    if Succeeded(r) {
      var data := Validated(Requests.ProductUpdateRules(input), input);
      var data' := FileUpload.AttachImage(data, "product_image", FileOf(input, "product_image"), ProductController.UpdateFolder(input), token, fs).value;
      UpdateProductRowKeepsWellFormed(db, ProductModel.Located(db, data').value, data');
    }
  }

  // ---------------------------------------------------- read after write

  /** A category insert succeeds only on a request its rules accept. */
  lemma InsertCategorySuccessValidated(db: Db, input: Input, token: string, fs: FileUpload.FileSystem)
    requires Succeeded(CategoryController.InsertCategoryData(db, input, Available, token, fs))
    ensures Validate(Requests.CategoryInsertRules(), input, db).Ok?
    ensures "category_name" in input && input["category_name"].Str? && FileOf(input, "category_image").Some?
  {
    Requests.CategoryInsertAcceptance(input, db);
  }

  /** The validated insert data carries the name as sent and no status. */
  lemma CategoryInsertData(input: Input)
    requires "category_name" in input
    ensures var data := Validated(Requests.CategoryInsertRules(), input);
      "status" !in data && "category_name" in data && data["category_name"] == input["category_name"]
  {
    var rules := Requests.CategoryInsertRules();
    assert rules[0].field == "category_name";
    assert "status" !in Fields(rules);
  }

  /** The row a category create appends, read through the fill. */
  lemma CreatedCategory(db: Db, data: Input)
    requires CreateCategoryRow(db, data).Ok?
    requires "status" !in data && "category_name" in data && data["category_name"].Str?
    ensures var row := CreateCategoryRow(db, data).value.0;
      && row.name == data["category_name"].s
      && row.status == ON
      && ("category_image" in data && data["category_image"].Str? ==> row.image == Some(data["category_image"].s))
  {
  }

  /** A successful category insert appends one row: the next id, the
      requested name, status ON (the insert rules have no status field, so
      the column default applies) and the stored image path. */
  lemma InsertedCategoryRow(db: Db, input: Input, token: string, fs: FileUpload.FileSystem)
    requires Succeeded(CategoryController.InsertCategoryData(db, input, Available, token, fs))
    ensures var r := CategoryController.InsertCategoryData(db, input, Available, token, fs);
      && |r.db.categories| == |db.categories| + 1
      && r.db.categories[..|db.categories|] == db.categories
      && r.db.products == db.products
      && var row := r.db.categories[|db.categories|];
      && row.id == db.lastCategoryId + 1 == r.db.lastCategoryId
      && Field(input, "category_name").Str? && input["category_name"].s == row.name
      && row.status == ON
      && FileOf(input, "category_image").Some?
      && row.image == Some(FileUpload.InsertImage(FileOf(input, "category_image").value, CategoryController.InsertFolder(db), "category_image", true, token, fs).value)
      && Member(r.response.value, "category_id") == Some(IdJson(row.id))
      && r.db.categories == db.categories + [row]
  {
    var r := CategoryController.InsertCategoryData(db, input, Available, token, fs);
    InsertCategorySuccessValidated(db, input, token, fs);
    CategoryInsertData(input);
    var data := Validated(Requests.CategoryInsertRules(), input);
    var upload := FileOf(input, "category_image");
    var folder := CategoryController.InsertFolder(db);
    var data' := FileUpload.AttachImage(data, "category_image", upload, folder, token, fs).value;
    assert r == CategoryModel.InsertCategory(db, data', Available);
    CreatedCategory(db, data');
    var (row, db') := CreateCategoryRow(db, data').value;
    assert r.db.categories[..|db.categories|] == db.categories;
    assert r.db.categories[|db.categories|] == row;
  }

  /** A row appended with an id above every existing one is what a lookup
      of that id finds. */
  lemma AppendedCategoryIsFound(db: Db, row: Category, db': Db)
    requires WellFormed(db)
    requires row.id == db.lastCategoryId + 1
    requires db'.categories == db.categories + [row]
    ensures Member(CategoryModel.GetCategoryById(db', Int(row.id), Available), "data") == Some(CategoryJson(CategoryModel.View(row)))
  {
    var e := CategoryModel.GetCategoryById(db', Int(row.id), Available);
    assert db'.categories[|db.categories|] == row;
    var i :| 0 <= i < |db'.categories| && Int(row.id) == Int(db'.categories[i].id) && e.body["data"] == CategoryJson(CategoryModel.View(db'.categories[i]));
    assert i == |db.categories|;
  }

  /** Read after write: the id a category insert answers looks up the row
      it created, with the name sent and status ON. */
  lemma InsertedCategoryReadsBack(db: Db, input: Input, token: string, fs: FileUpload.FileSystem)
    requires WellFormed(db)
    requires Succeeded(CategoryController.InsertCategoryData(db, input, Available, token, fs))
    ensures var r := CategoryController.InsertCategoryData(db, input, Available, token, fs);
      && Member(r.response.value, "category_id") == Some(IdJson(db.lastCategoryId + 1))
      && var e := CategoryModel.GetCategoryById(r.db, Int(db.lastCategoryId + 1), Available);
         && Member(e, "data").Some?
         && e.body["data"].CategoryJson?
         && Field(input, "category_name").Str? && input["category_name"].s == e.body["data"].category.name
         && e.body["data"].category.status == ON
  {
    var r := CategoryController.InsertCategoryData(db, input, Available, token, fs);
    InsertedCategoryRow(db, input, token, fs);
    var row := r.db.categories[|db.categories|];
    AppendedCategoryIsFound(db, row, r.db);
  }

  // ------------------------------------------------- image folder versus id

  /** The folder id is never ahead of the id the store assigns: every id is
      at most the counter, so max + 1 is at most counter + 1. */
  lemma FolderIdNeverAhead(ids: seq<nat>, last: nat)
    requires forall x :: x in ids ==> x <= last
    ensures CategoryController.NextDirectoryId(ids) <= last + 1
  {
  }

  /** When the counter equals the largest id (or both are at zero), the
      folder id is exactly the id the store assigns. */
  lemma FolderIdInSync(ids: seq<nat>, last: nat)
    requires forall x :: x in ids ==> 1 <= x <= last
    requires (|ids| == 0 && last == 0) || last in ids
    ensures CategoryController.NextDirectoryId(ids) == last + 1
  {
  }

  /** The counter has handed out no id beyond the largest one in the table. */
  predicate CategoryCounterInSync(db: Db) {
    (|db.categories| == 0 && db.lastCategoryId == 0) || db.lastCategoryId in CategoryIds(db.categories)
  }

  /** With the counter in sync, the insert folder is named after the next
      id the store hands out. */
  lemma InSyncFolderIsNextId(db: Db)
    requires WellFormed(db) && CategoryCounterInSync(db)
    ensures CategoryController.InsertFolder(db) == FileUpload.Destination()["category"] + NatToString(db.lastCategoryId + 1)
  {
    var ids := CategoryIds(db.categories);
    forall x | x in ids ensures 1 <= x <= db.lastCategoryId {
      var k :| 0 <= k < |ids| && ids[k] == x;
      assert db.categories[k] in db.categories;
    }
    FolderIdInSync(ids, db.lastCategoryId);
  }

  /** With the counter in sync, a created category's image folder is named
      after its own id. */
  lemma InSyncFolderNamesTheRow(db: Db, input: Input, token: string, fs: FileUpload.FileSystem)
    requires WellFormed(db) && CategoryCounterInSync(db)
    requires Succeeded(CategoryController.InsertCategoryData(db, input, Available, token, fs))
    ensures var r := CategoryController.InsertCategoryData(db, input, Available, token, fs);
      CategoryController.InsertFolder(db) == FileUpload.Destination()["category"] + NatToString(r.db.categories[|db.categories|].id)
  {
    InsertedCategoryRow(db, input, token, fs);
    InSyncFolderIsNextId(db);
  }

  /** A table holding category 1 whose counter has already reached 3 (two
      rows created and removed outside these routes, say). */
  function DriftedStore(): Db {
    Db([Category(1, "Books", None, None, ON)], [], 3, 0)
  }

  /** An insert request for "Toys" with a PNG upload. */
  function ToysRequest(): Input {
    map["category_name" := Str("Toys"), "category_image" := File(Upload("png", "png", 1000))]
  }

  lemma DriftedStoreWellFormed()
    ensures WellFormed(DriftedStore())
    ensures CategoryNames(DriftedStore().categories) == ["Books"]
    ensures CategoryController.InsertFolder(DriftedStore()) == "uplode/category/2"
  {
    assert CategoryIds(DriftedStore().categories) == [1];
    assert NatToString(2) == "2";
  }

  /** The "if" direction of the insert rules' verdict. */
  lemma CategoryInsertAccepted(input: Input, db: Db)
    requires Requests.NameShaped(Field(input, "category_name"))
    requires Field(input, "category_name").s !in CategoryNames(db.categories)
    requires Requests.AcceptedUpload(Field(input, "category_image"), Requests.CategoryImageKb)
    requires Requests.Omitted(input, "parent_category")
    ensures Validate(Requests.CategoryInsertRules(), input, db).Ok?
  {
    Requests.CategoryInsertAcceptance(input, db);
  }

  lemma ToysRequestAccepted()
    ensures Validate(Requests.CategoryInsertRules(), ToysRequest(), DriftedStore()).Ok?
  {
    DriftedStoreWellFormed();
    assert Field(ToysRequest(), "category_name") == Str("Toys");
    assert "parent_category" !in ToysRequest();
    CategoryInsertAccepted(ToysRequest(), DriftedStore());
  }

  /** An insert the rules accept succeeds when its image can be stored
      and its row written. */
  lemma AcceptedInsertSucceeds(db: Db, input: Input, token: string, fs: FileUpload.FileSystem)
    requires Validate(Requests.CategoryInsertRules(), input, db).Ok?
    requires var d := FileUpload.AttachImage(Validated(Requests.CategoryInsertRules(), input), "category_image",
                                             FileOf(input, "category_image"), CategoryController.InsertFolder(db), token, fs);
      d.Ok? && CreateCategoryRow(db, d.value).Ok?
    ensures Succeeded(CategoryController.InsertCategoryData(db, input, Available, token, fs))
  {
  }

  /** The "Toys" row, with its image path, fits the drifted store. */
  lemma ToysRowWritable(token: string)
    requires |token| == 13
    ensures var d := FileUpload.AttachImage(Validated(Requests.CategoryInsertRules(), ToysRequest()), "category_image",
                                            FileOf(ToysRequest(), "category_image"), CategoryController.InsertFolder(DriftedStore()), token, FileUpload.Writable);
      d.Ok? && CreateCategoryRow(DriftedStore(), d.value).Ok?
  {
    var db := DriftedStore();
    var input := ToysRequest();
    DriftedStoreWellFormed();
    CategoryInsertData(input);
    var data := Validated(Requests.CategoryInsertRules(), input);
    var folder := CategoryController.InsertFolder(db);
    var data' := FileUpload.AttachImage(data, "category_image", FileOf(input, "category_image"), folder, token, FileUpload.Writable).value;
    assert |data'["category_image"].s| <= ImageLength;
    assert FillCategory(Category(4, "", None, None, ON), data').Ok?;
    CreatedCategory(db, data');
  }

  /** On the drifted store the insert succeeds (with a token as long as
      `uniqid()`'s 13 characters) and the row gets id 4, while its image
      goes to folder 2: the folder id is not the row's id. */
  lemma FolderIdCanDiffer(token: string)
    requires |token| == 13
    ensures var r := CategoryController.InsertCategoryData(DriftedStore(), ToysRequest(), Available, token, FileUpload.Writable);
      && Succeeded(r)
      && r.db.categories[1].id == 4
      && CategoryController.InsertFolder(DriftedStore()) == "uplode/category/2"
  {
    DriftedStoreWellFormed();
    ToysRequestAccepted();
    ToysRowWritable(token);
    AcceptedInsertSucceeds(DriftedStore(), ToysRequest(), token, FileUpload.Writable);
    InsertedCategoryRow(DriftedStore(), ToysRequest(), token, FileUpload.Writable);
  }

  // ------------------------------------ product names per category

  /** No two products of one category share a name. */
  predicate NamesUniquePerCategory(ps: seq<Product>) {
    forall i, j :: 0 <= i < j < |ps| && ps[i].categoryId == ps[j].categoryId ==> ps[i].name != ps[j].name
  }

  /** A product insert succeeds only on a request its rules accept. */
  lemma InsertProductSuccessValidated(db: Db, input: Input, engine: Engine, token: string, fs: FileUpload.FileSystem)
    requires Succeeded(ProductController.InsertProductData(db, input, engine, token, fs))
    ensures engine == Available
    ensures Validate(Requests.ProductCreateRules(input), input, db).Ok?
    ensures "product_name" in input && input["product_name"].Str?
    ensures "category_id" in input && input["category_id"].Int?
    ensures "product_description" in input
    ensures CheckUnique.Passes(UniqueRows(ProductTable, db), input["product_name"], CheckUnique.Scoped(input["category_id"]))
  {
    Requests.ProductCreateAcceptance(input, db);
  }

  /** The validated product data carries the fields as sent. */
  lemma ProductData(rules: seq<FieldRule>, input: Input, key: string)
    requires exists i :: 0 <= i < |rules| && rules[i].field == key
    requires key in input
    ensures var data := Validated(rules, input);
      key in data && data[key] == input[key]
  {
  }

  /** The row a product create appends, read through the fill. */
  lemma CreatedProduct(db: Db, data: Input)
    requires CreateProductRow(db, data).Ok?
    requires data["product_name"].Str? && data["category_id"].Int?
    ensures var row := CreateProductRow(db, data).value.0;
      row.name == data["product_name"].s && row.categoryId == data["category_id"].i
  {
  }

  /** A successful product insert writes the validated data, with the
      stored image path attached, and that data carries the name and the
      category as sent. */
  lemma InsertProductRoute(db: Db, input: Input, engine: Engine, token: string, fs: FileUpload.FileSystem)
    requires Succeeded(ProductController.InsertProductData(db, input, engine, token, fs))
    ensures var d := FileUpload.AttachImage(Validated(Requests.ProductCreateRules(input), input), "product_image",
                                            FileOf(input, "product_image"), ProductController.InsertFolder(db), token, fs);
      && d.Ok? && CreateProductRow(db, d.value).Ok?
      && ProductController.InsertProductData(db, input, engine, token, fs).db == CreateProductRow(db, d.value).value.1
      && "product_name" in input && input["product_name"].Str? && d.value["product_name"] == input["product_name"]
      && "category_id" in input && input["category_id"].Int? && d.value["category_id"] == input["category_id"]
  {
    InsertProductSuccessValidated(db, input, engine, token, fs);
    var rules := Requests.ProductCreateRules(input);
    assert rules[0].field == "product_name" && rules[3].field == "category_id";
    ProductData(rules, input, "product_name");
    ProductData(rules, input, "category_id");
  }

  /** A successful product insert appends one row with the name and the
      category sent. */
  lemma InsertedProductRow(db: Db, input: Input, engine: Engine, token: string, fs: FileUpload.FileSystem)
    requires Succeeded(ProductController.InsertProductData(db, input, engine, token, fs))
    ensures var r := ProductController.InsertProductData(db, input, engine, token, fs);
      && |r.db.products| == |db.products| + 1
      && r.db.products[..|db.products|] == db.products
      && "product_name" in input && input["product_name"].Str? && input["product_name"].s == r.db.products[|db.products|].name
      && "category_id" in input && input["category_id"] == Int(r.db.products[|db.products|].categoryId)
  {
    InsertProductRoute(db, input, engine, token, fs);
    var data' := FileUpload.AttachImage(Validated(Requests.ProductCreateRules(input), input), "product_image",
                                        FileOf(input, "product_image"), ProductController.InsertFolder(db), token, fs).value;
    CreatedProduct(db, data');
    var (row, db') := CreateProductRow(db, data').value;
    assert db'.products == db.products + [row];
    assert db'.products[..|db.products|] == db.products;
  }

  /** A product appended with an id above every existing one is what a
      lookup of that id finds, joined to its category's name. */
  lemma AppendedProductIsFound(db: Db, row: Product, db': Db)
    requires WellFormed(db)
    requires row.id == db.lastProductId + 1
    requires db'.products == db.products + [row]
    ensures Member(ProductModel.GetProductById(db', Int(row.id), Available), "data")
              == Some(ProductJson(ProductModel.JoinedView(row, ProductModel.CategoryNameOf(db'.categories, row.categoryId))))
  {
    var ids := ProductIds(db'.products);
    assert ids[|db.products|] == row.id;
  }

  /** The create rules have no status field, so the validated data never
      carries one. */
  lemma CreateRulesLeaveStatus(input: Input)
    ensures "status" !in Fields(Requests.ProductCreateRules(input))
  {
    var rules := Requests.ProductCreateRules(input);
    forall i | 0 <= i < |rules|
      ensures rules[i].field != "status"
    {
    }
  }

  /** A successful product insert appends one row: the next id, status ON
      (the column default, since the create rules have no status field), a
      category that exists; the categories stay as they were and the answer
      carries the new id. */
  lemma InsertedProductStored(db: Db, input: Input, token: string, fs: FileUpload.FileSystem)
    requires Succeeded(ProductController.InsertProductData(db, input, Available, token, fs))
    ensures var r := ProductController.InsertProductData(db, input, Available, token, fs);
      && |r.db.products| == |db.products| + 1
      && r.db.products == db.products + [r.db.products[|db.products|]]
      && r.db.categories == db.categories
      && r.db.products[|db.products|].id == db.lastProductId + 1
      && r.db.products[|db.products|].status == ON
      && r.db.products[|db.products|].categoryId in CategoryIds(db.categories)
      && Member(r.response.value, "product_id") == Some(IdJson(db.lastProductId + 1))
  {
    var r := ProductController.InsertProductData(db, input, Available, token, fs);
    InsertProductSuccessValidated(db, input, Available, token, fs);
    var rules := Requests.ProductCreateRules(input);
    var data := Validated(rules, input);
    var upload := FileOf(input, "product_image");
    assert r == ProductController.InsertProductBody(db, data, upload, Available, token, fs);
    var d := FileUpload.AttachImage(data, "product_image", upload, ProductController.InsertFolder(db), token, fs).value;
    assert r == ProductModel.InsertProduct(db, d, Available);
    CreateRulesLeaveStatus(input);
    assert "status" !in d;
    var (row, db') := CreateProductRow(db, d).value;
    assert r.db == db';
    assert db'.products[|db.products|] == row;
  }

  /** Read after write: the id a product insert answers looks up the row it
      created, with the name and category sent, the category's name joined
      in, and status ON. */
  lemma InsertedProductReadsBack(db: Db, input: Input, token: string, fs: FileUpload.FileSystem)
    requires WellFormed(db)
    requires Succeeded(ProductController.InsertProductData(db, input, Available, token, fs))
    ensures var r := ProductController.InsertProductData(db, input, Available, token, fs);
      && Member(r.response.value, "product_id") == Some(IdJson(db.lastProductId + 1))
      && var e := ProductModel.GetProductById(r.db, Int(db.lastProductId + 1), Available);
         && Member(e, "data").Some?
         && e.body["data"].ProductJson?
         && Field(input, "product_name").Str? && input["product_name"].s == e.body["data"].product.name
         && Field(input, "category_id") == Int(e.body["data"].product.categoryId)
         && e.body["data"].product.categoryName.Some?
         && e.body["data"].product.status == ON
  {
    var r := ProductController.InsertProductData(db, input, Available, token, fs);
    InsertedProductStored(db, input, token, fs);
    InsertedProductRow(db, input, Available, token, fs);
    var row := r.db.products[|db.products|];
    AppendedProductIsFound(db, row, r.db);
  }

  /** The create rules' scoped check keeps names unique per category: the
      new name is not yet used in the category the new row joins. */
  lemma InsertProductKeepsNamesUnique(db: Db, input: Input, engine: Engine, token: string, fs: FileUpload.FileSystem)
    requires NamesUniquePerCategory(db.products)
    ensures NamesUniquePerCategory(ProductController.InsertProductData(db, input, engine, token, fs).db.products)
  {
    var r := ProductController.InsertProductData(db, input, engine, token, fs);
    if Succeeded(r) {
      InsertProductSuccessValidated(db, input, engine, token, fs);
      InsertedProductRow(db, input, engine, token, fs);
      var ps := db.products;
      var ps' := r.db.products;
      var rows := UniqueRows(ProductTable, db);
      var rule := CheckUnique.Scoped(input["category_id"]);
      forall i, j | 0 <= i < j < |ps'| && ps'[i].categoryId == ps'[j].categoryId ensures ps'[i].name != ps'[j].name {
        if j == |ps| {
          assert ps'[i] == ps[i];
          assert !CheckUnique.Conflicts(rows[i], input["product_name"], rule);
        } else {
          assert ps'[i] == ps[i] && ps'[j] == ps[j];
        }
      }
    }
  }

  /** A product update succeeds only on a request its rules accept. */
  lemma UpdateProductSuccessValidated(db: Db, input: Input, engine: Engine, token: string, fs: FileUpload.FileSystem)
    requires Succeeded(ProductController.UpdateProductData(db, input, engine, token, fs))
    ensures Validate(Requests.ProductUpdateRules(input), input, db).Ok?
    ensures Requests.ExistingId(Field(input, "id"), ProductTable, db)
    ensures !Requests.Omitted(input, "product_name") ==>
      CheckUnique.Passes(UniqueRows(ProductTable, db), input["product_name"],
                         CheckUnique.Rule(Some(Field(input, "category_id")), input["id"]))
  {
    assert Validate(Requests.ProductUpdateRules(input), input, db).Ok?;
    AcceptedUpdateFacts(db, input);
  }

  /** A product update succeeds only with a string name and an integer
      category, when it sends them at all. */
  lemma UpdateProductSuccessShaped(db: Db, input: Input, engine: Engine, token: string, fs: FileUpload.FileSystem)
    requires Succeeded(ProductController.UpdateProductData(db, input, engine, token, fs))
    ensures !Requests.Omitted(input, "product_name") ==> input["product_name"].Str?
    ensures !Requests.Omitted(input, "category_id") ==> input["category_id"].Int?
    ensures "status" in input
  {
    UpdateProductSuccessValidated(db, input, engine, token, fs);
    AcceptedUpdateFacts(db, input);
  }

  /** What the update rules' acceptance says about the request. */
  lemma AcceptedUpdateFacts(db: Db, input: Input)
    requires Validate(Requests.ProductUpdateRules(input), input, db).Ok?
    ensures Requests.ExistingId(Field(input, "id"), ProductTable, db)
    ensures !Requests.Omitted(input, "product_name") ==>
      CheckUnique.Passes(UniqueRows(ProductTable, db), input["product_name"],
                         CheckUnique.Rule(Some(Field(input, "category_id")), input["id"]))
    ensures !Requests.Omitted(input, "product_name") ==> input["product_name"].Str?
    ensures !Requests.Omitted(input, "category_id") ==> input["category_id"].Int?
    ensures "status" in input
  {
    Requests.ProductUpdateAcceptance(input, db);
  }

  /** The data a product update hands to the model: the validated fields,
      with the stored image path in place of an upload. */
  function ProductUpdateSent(input: Input, token: string, fs: FileUpload.FileSystem): Input
    requires FileOf(input, "product_image").None? || fs == FileUpload.Writable
  {
    FileUpload.AttachImage(Validated(Requests.ProductUpdateRules(input), input), "product_image",
                           FileOf(input, "product_image"), ProductController.UpdateFolder(input), token, fs).value
  }

  /** A successful product update route is the model update of that data. */
  lemma UpdateProductRoute(db: Db, input: Input, engine: Engine, token: string, fs: FileUpload.FileSystem)
    requires Succeeded(ProductController.UpdateProductData(db, input, engine, token, fs))
    ensures FileOf(input, "product_image").None? || fs == FileUpload.Writable
    ensures ProductController.UpdateProductData(db, input, engine, token, fs) == ProductModel.UpdateProduct(db, ProductUpdateSent(input, token, fs), engine)
  {
    assert Validate(Requests.ProductUpdateRules(input), input, db).Ok?;
  }

  /** The data sent carries the request's fields as sent, and no image
      field unless the request has one. */
  lemma ProductUpdateData(input: Input, token: string, fs: FileUpload.FileSystem)
    requires FileOf(input, "product_image").None? || fs == FileUpload.Writable
    ensures var d := ProductUpdateSent(input, token, fs);
      && ("id" in d <==> "id" in input) && ("id" in d ==> d["id"] == input["id"])
      && ("product_name" in d <==> "product_name" in input) && ("product_name" in d ==> d["product_name"] == input["product_name"])
      && ("category_id" in d <==> "category_id" in input) && ("category_id" in d ==> d["category_id"] == input["category_id"])
      && ("product_description" in d <==> "product_description" in input)
      && ("product_description" in d ==> d["product_description"] == input["product_description"])
      && ("status" in d <==> "status" in input) && ("status" in d ==> d["status"] == input["status"])
      && ("product_image" in d <==> "product_image" in input)
      && (FileOf(input, "product_image").Some? ==>
            d["product_image"].Str?
            && d["product_image"].s == FileUpload.InsertImage(FileOf(input, "product_image").value, ProductController.UpdateFolder(input),
                                                             "product_image", true, token, fs).value)
  {
    var rules := Requests.ProductUpdateRules(input);
    assert rules[0].field == "id" && rules[1].field == "product_name" && rules[2].field == "product_image";
    assert rules[3].field == "product_description" && rules[4].field == "category_id" && rules[5].field == "status";
  }

  /** What a successful model-level product update does to the store. */
  lemma UpdateProductFrame(db: Db, data: Input, engine: Engine)
    requires Succeeded(ProductModel.UpdateProduct(db, data, engine))
    ensures ProductModel.Located(db, data).Some?
    ensures var r := ProductModel.UpdateProduct(db, data, engine);
      var i := ProductModel.Located(db, data).value;
      var before := db.products[i];
      && |r.db.products| == |db.products|
      && r.db.categories == db.categories
      && var after := r.db.products[i];
      && r.db.products == db.products[i := after]
      && after.id == before.id
      && ("product_name" in data ==> !data["product_name"].Null?)
      && ("category_id" in data ==> !data["category_id"].Null?)
      && ("product_name" in data && data["product_name"].Str? ==> after.name == data["product_name"].s)
      && ("product_name" !in data ==> after.name == before.name)
      && ("category_id" in data && data["category_id"].Int? ==> after.categoryId == data["category_id"].i)
      && ("category_id" !in data ==> after.categoryId == before.categoryId)
      && ("product_description" in data ==> LongText("product_description", data["product_description"]) == Ok(after.description))
      && ("product_description" !in data ==> after.description == before.description)
      && ("product_image" in data && data["product_image"].Str? ==> after.image == Some(data["product_image"].s))
      && ("product_image" !in data ==> after.image == before.image)
      && ("status" in data ==> StatusColumn(data["status"]) == Ok(after.status))
      && ("status" !in data ==> after.status == before.status)
  {
  }

  /** A successful product update rewrites exactly the row with the
      request's id: a field the request sends lands as sent, a field it
      leaves out keeps its value, and every other row stays as it was. */
  lemma UpdatedProductRow(db: Db, input: Input, engine: Engine, token: string, fs: FileUpload.FileSystem)
    requires Succeeded(ProductController.UpdateProductData(db, input, engine, token, fs))
    ensures ProductModel.Located(db, input).Some?
    ensures var r := ProductController.UpdateProductData(db, input, engine, token, fs);
      var i := ProductModel.Located(db, input).value;
      var before := db.products[i];
      && |r.db.products| == |db.products|
      && r.db.categories == db.categories
      && var after := r.db.products[i];
      && r.db.products == db.products[i := after]
      && after.id == before.id
      && ("product_name" in input ==> input["product_name"].Str? && input["product_name"].s == after.name)
      && ("product_name" !in input ==> after.name == before.name)
      && ("category_id" in input ==> input["category_id"] == Int(after.categoryId))
      && ("category_id" !in input ==> after.categoryId == before.categoryId)
      && ("product_description" in input ==> LongText("product_description", input["product_description"]) == Ok(after.description))
      && ("product_description" !in input ==> after.description == before.description)
      && ("product_image" !in input ==> after.image == before.image)
      && (FileOf(input, "product_image").Some? ==>
            after.image == Some(FileUpload.InsertImage(FileOf(input, "product_image").value, ProductController.UpdateFolder(input),
                                                       "product_image", true, token, fs).value))
      && "status" in input && StatusColumn(input["status"]) == Ok(after.status)
  {
    UpdateProductSuccessShaped(db, input, engine, token, fs);
    UpdateProductRoute(db, input, engine, token, fs);
    ProductUpdateData(input, token, fs);
    var data := ProductUpdateSent(input, token, fs);
    UpdateProductFrame(db, data, engine);
    assert ProductModel.Located(db, data) == ProductModel.Located(db, input);
  }

  /** Switching a product OFF takes it out of every product listing, filtered
      or not, while the lookup by id still finds it. */
  lemma SwitchedOffProductLeavesListing(db: Db, input: Input, engine: Engine, token: string, fs: FileUpload.FileSystem,
                                        categoryFilter: Value)
    requires WellFormed(db)
    requires Succeeded(ProductController.UpdateProductData(db, input, engine, token, fs))
    requires "status" in input && input["status"].Str? && input["status"].s == "OFF"
    ensures var r := ProductController.UpdateProductData(db, input, engine, token, fs);
      && "id" in input && input["id"].Int?
      && (forall v :: v in ProductModel.Listing(r.db, categoryFilter) ==> Int(v.id) != input["id"])
      && Member(ProductModel.GetProductById(r.db, input["id"], Available), "data").Some?
  {
    var r := ProductController.UpdateProductData(db, input, engine, token, fs);
    UpdatedProductRow(db, input, engine, token, fs);
    UpdateProductDataKeepsWellFormed(db, input, engine, token, fs);
    var i := ProductModel.Located(db, input).value;
    var ps := r.db.products;
    assert ps[i].status == OFF;
    assert input["id"] == Int(ps[i].id);
    ProductRowsWithIdAreThatRow(r.db, i);
    assert ps[i] in ps;
  }

  /** In a well-formed store the product at `i` is the only one with its id. */
  lemma ProductRowsWithIdAreThatRow(db: Db, i: nat)
    requires WellFormed(db) && i < |db.products|
    ensures forall p :: p in db.products && p.id == db.products[i].id ==> p == db.products[i]
  {
    var ids := ProductIds(db.products);
    forall p | p in db.products && p.id == db.products[i].id ensures p == db.products[i] {
      var k :| 0 <= k < |db.products| && db.products[k] == p;
      assert ids[k] == ids[i];
    }
  }

  /** Replacing one product keeps names unique per category when no other
      product of the new row's category has the new row's name. */
  lemma ReplaceKeepsNamesUnique(ps: seq<Product>, i: nat, after: Product)
    requires NamesUniquePerCategory(ps) && i < |ps|
    requires forall k :: 0 <= k < |ps| && k != i && ps[k].categoryId == after.categoryId ==> ps[k].name != after.name
    ensures NamesUniquePerCategory(ps[i := after])
  {
    var ps' := ps[i := after];
    forall a, b | 0 <= a < b < |ps'| && ps'[a].categoryId == ps'[b].categoryId ensures ps'[a].name != ps'[b].name {
      if a != i && b != i {
        assert ps'[a] == ps[a] && ps'[b] == ps[b];
      }
    }
  }

  /** What the update's scoped check rules out, row by row: with distinct
      positive ids, ignoring the updated row's id ignores that row only. */
  lemma ScopedCheckExcludesOthers(db: Db, i: nat, name: string, category: nat)
    requires WellFormed(db) && i < |db.products|
    requires name != ""
    requires CheckUnique.Passes(UniqueRows(ProductTable, db), Str(name), CheckUnique.Rule(Some(Int(category)), Int(db.products[i].id)))
    ensures forall k :: 0 <= k < |db.products| && k != i && db.products[k].categoryId == category ==> db.products[k].name != name
  {
    var ps := db.products;
    var rows := UniqueRows(ProductTable, db);
    var rule := CheckUnique.Rule(Some(Int(category)), Int(ps[i].id));
    assert ps[i] in ps;
    forall k | 0 <= k < |ps| && k != i && ps[k].categoryId == category ensures ps[k].name != name {
      assert !CheckUnique.Conflicts(rows[k], Str(name), rule);
      assert ProductIds(ps)[k] != ProductIds(ps)[i];
    }
  }

  /** An update that sends both the name and the category keeps names
      unique per category: the scoped check sees the category the row ends
      up in and ignores only the row itself. */
  lemma FullUpdateKeepsNamesUnique(db: Db, input: Input, engine: Engine, token: string, fs: FileUpload.FileSystem)
    requires WellFormed(db) && NamesUniquePerCategory(db.products)
    requires !Requests.Omitted(input, "product_name") && !Requests.Omitted(input, "category_id")
    ensures NamesUniquePerCategory(ProductController.UpdateProductData(db, input, engine, token, fs).db.products)
  {
    var r := ProductController.UpdateProductData(db, input, engine, token, fs);
    if Succeeded(r) {
      UpdateProductSuccessValidated(db, input, engine, token, fs);
      UpdatedProductRow(db, input, engine, token, fs);
      var i := ProductModel.Located(db, input).value;
      var after := r.db.products[i];
      ScopedCheckExcludesOthers(db, i, after.name, after.categoryId);
      ReplaceKeepsNamesUnique(db.products, i, after);
    }
  }

  /** Two categories; "Pen" and "Ink" in category 1. */
  function PenAndInk(): Db {
    Db([Category(1, "Stationery", None, None, ON), Category(2, "Office", None, None, ON)],
       [Product(1, "Pen", None, "blue", 1, ON), Product(2, "Ink", None, "black", 1, ON)], 2, 2)
  }

  /** Two categories; a "Pen" in each. */
  function PenInEach(): Db {
    Db([Category(1, "Stationery", None, None, ON), Category(2, "Office", None, None, ON)],
       [Product(1, "Pen", None, "blue", 1, ON), Product(2, "Pen", None, "black", 2, ON)], 2, 2)
  }

  lemma SampleStoresWellFormed()
    ensures WellFormed(PenAndInk()) && NamesUniquePerCategory(PenAndInk().products)
    ensures WellFormed(PenInEach()) && NamesUniquePerCategory(PenInEach().products)
    ensures CategoryIds(PenAndInk().categories) == [1, 2] && ProductIds(PenAndInk().products) == [1, 2]
    ensures CategoryIds(PenInEach().categories) == [1, 2] && ProductIds(PenInEach().products) == [1, 2]
  {
    assert CategoryIds(PenAndInk().categories) == [1, 2];
    assert CategoryNames(PenAndInk().categories) == ["Stationery", "Office"];
    assert ProductIds(PenAndInk().products) == [1, 2];
    assert ProductIds(PenInEach().products) == [1, 2];
  }

  /** Renaming "Ink" to "Pen" without sending `category_id`. */
  function RenameInk(): Input {
    map["id" := Int(2), "product_name" := Str("Pen"), "status" := Str("ON")]
  }

  /** Moving the second "Pen" to category 1 without sending its name. */
  function MovePen(): Input {
    map["id" := Int(2), "category_id" := Int(1), "status" := Str("ON")]
  }

  /** The "if" direction of the update rules' verdict, for a request
      without image or description. */
  lemma ProductUpdateAccepted(db: Db, input: Input)
    requires Requests.ExistingId(Field(input, "id"), ProductTable, db)
    requires !Requests.Omitted(input, "product_name") ==>
      && Requests.NameShaped(Field(input, "product_name"))
      && CheckUnique.Passes(UniqueRows(ProductTable, db), Field(input, "product_name"),
                            CheckUnique.Rule(Some(Field(input, "category_id")), Field(input, "id")))
    requires Requests.Omitted(input, "product_image") && Requests.Omitted(input, "product_description")
    requires !Requests.Omitted(input, "category_id") ==> Requests.ExistingId(Field(input, "category_id"), CategoryTable, db)
    requires Requests.StatusShaped(Field(input, "status"))
    ensures Validate(Requests.ProductUpdateRules(input), input, db).Ok?
  {
    Requests.ProductUpdateAcceptance(input, db);
  }

  lemma RenameInkAccepted()
    ensures Validate(Requests.ProductUpdateRules(RenameInk()), RenameInk(), PenAndInk()).Ok?
  {
    var db := PenAndInk();
    var rows := UniqueRows(ProductTable, db);
    var rule := CheckUnique.Rule(Some(Null), Int(2));
    assert TableIds(ProductTable, db) == [1, 2];
    assert FirstIndex([1, 2], Int(2)) == Some(1);
    forall k | 0 <= k < |rows| ensures !CheckUnique.Conflicts(rows[k], Str("Pen"), rule) {
      assert rows[k].scope == Int(db.products[k].categoryId);
    }
    ProductUpdateAccepted(db, RenameInk());
  }

  lemma MovePenAccepted()
    ensures Validate(Requests.ProductUpdateRules(MovePen()), MovePen(), PenInEach()).Ok?
  {
    var db := PenInEach();
    assert TableIds(ProductTable, db) == [1, 2];
    assert FirstIndex([1, 2], Int(2)) == Some(1);
    assert TableIds(CategoryTable, db) == [1, 2];
    assert FirstIndex([1, 2], Int(1)) == Some(0);
    ProductUpdateAccepted(db, MovePen());
  }

  /** An accepted update without an upload succeeds when the row write does. */
  lemma ProductUpdateSucceeds(db: Db, input: Input, token: string, fs: FileUpload.FileSystem)
    requires Validate(Requests.ProductUpdateRules(input), input, db).Ok?
    requires FileOf(input, "product_image").None?
    requires var d := ProductUpdateSent(input, token, fs);
      ProductModel.Located(db, d).Some? && UpdateProductRow(db, ProductModel.Located(db, d).value, d).Ok?
    ensures Succeeded(ProductController.UpdateProductData(db, input, Available, token, fs))
  {
  }

  /** Two rows in one category with one name break uniqueness. */
  lemma SharedNameBreaksUniqueness(ps: seq<Product>)
    requires |ps| == 2 && ps[0].categoryId == ps[1].categoryId && ps[0].name == ps[1].name
    ensures !NamesUniquePerCategory(ps)
  {
  }

  /** In a two-row store, an update of the second row that ends with the
      first row's name and category breaks uniqueness. */
  lemma SecondRowJoinsFirst(db: Db, input: Input, engine: Engine, token: string, fs: FileUpload.FileSystem)
    requires Succeeded(ProductController.UpdateProductData(db, input, engine, token, fs))
    requires |db.products| == 2 && ProductModel.Located(db, input) == Some(1)
    requires if "product_name" in input then input["product_name"].Str? && input["product_name"].s == db.products[0].name
             else db.products[1].name == db.products[0].name
    requires if "category_id" in input then input["category_id"] == Int(db.products[0].categoryId)
             else db.products[1].categoryId == db.products[0].categoryId
    ensures !NamesUniquePerCategory(ProductController.UpdateProductData(db, input, engine, token, fs).db.products)
  {
    UpdatedProductRow(db, input, engine, token, fs);
    SharedNameBreaksUniqueness(ProductController.UpdateProductData(db, input, engine, token, fs).db.products);
  }

  /** The data an update sends without an upload finds the second row and
      can be written to it. */
  predicate WritesSecondRow(db: Db, input: Input, token: string, fs: FileUpload.FileSystem) {
    && FileOf(input, "product_image").None?
    && var d := ProductUpdateSent(input, token, fs);
    && ProductModel.Located(db, d) == Some(1) && 1 < |db.products| && UpdateProductRow(db, 1, d).Ok?
  }

  /** In a two-row store, the update addresses the second row and ends it
      with the first row's name and category. */
  predicate EndsAsFirstRow(db: Db, input: Input) {
    && |db.products| == 2 && ProductModel.Located(db, input) == Some(1)
    && (if "product_name" in input then input["product_name"].Str? && input["product_name"].s == db.products[0].name
        else db.products[1].name == db.products[0].name)
    && (if "category_id" in input then input["category_id"] == Int(db.products[0].categoryId)
        else db.products[1].categoryId == db.products[0].categoryId)
  }


  /** An accepted update of the second row of a two-row store, written
      without an upload, that ends with the first row's name and category,
      succeeds and breaks uniqueness. */
  lemma SecondRowDuplicates(db: Db, input: Input, token: string, fs: FileUpload.FileSystem)
    requires Validate(Requests.ProductUpdateRules(input), input, db).Ok?
    requires WritesSecondRow(db, input, token, fs)
    requires EndsAsFirstRow(db, input)
    ensures var r := ProductController.UpdateProductData(db, input, Available, token, fs);
      Succeeded(r) && !NamesUniquePerCategory(r.db.products)
  {
    ProductUpdateSucceeds(db, input, token, fs);
    SecondRowJoinsFirst(db, input, Available, token, fs);
  }

  lemma RenameInkLocated(token: string, fs: FileUpload.FileSystem)
    ensures ProductModel.Located(PenAndInk(), ProductUpdateSent(RenameInk(), token, fs)) == Some(1)
  {
    ProductUpdateData(RenameInk(), token, fs);
    assert ProductIds(PenAndInk().products) == [1, 2];
    assert FirstIndex([1, 2], Int(2)) == Some(1);
  }

  lemma RenameInkWrites(token: string, fs: FileUpload.FileSystem)
    ensures WritesSecondRow(PenAndInk(), RenameInk(), token, fs)
  {
    assert "product_image" !in RenameInk();
    RenameInkLocated(token, fs);
    ProductUpdateData(RenameInk(), token, fs);
    assert CategoryIds(PenAndInk().categories) == [1, 2];
  }

  /** The request ends the second row as a "Pen" in category 1. */
  lemma RenameInkShape()
    ensures EndsAsFirstRow(PenAndInk(), RenameInk())
  {
    assert ProductIds(PenAndInk().products) == [1, 2];
    assert FirstIndex([1, 2], Int(2)) == Some(1);
  }


  /** The gap of an update that leaves out `category_id`: the name check is
      scoped by null, which matches no product, so "Ink" becomes a second
      "Pen" in category 1. */
  lemma RenameWithoutCategoryDuplicates(token: string, fs: FileUpload.FileSystem)
    ensures var r := ProductController.UpdateProductData(PenAndInk(), RenameInk(), Available, token, fs);
      Succeeded(r) && !NamesUniquePerCategory(r.db.products)
  {
    RenameInkAccepted();
    RenameInkWrites(token, fs);
    RenameInkShape();
    SecondRowDuplicates(PenAndInk(), RenameInk(), token, fs);
  }

  lemma MovePenLocated(token: string, fs: FileUpload.FileSystem)
    ensures ProductModel.Located(PenInEach(), ProductUpdateSent(MovePen(), token, fs)) == Some(1)
  {
    ProductUpdateData(MovePen(), token, fs);
    assert ProductIds(PenInEach().products) == [1, 2];
    assert FirstIndex([1, 2], Int(2)) == Some(1);
  }

  lemma MovePenWrites(token: string, fs: FileUpload.FileSystem)
    ensures WritesSecondRow(PenInEach(), MovePen(), token, fs)
  {
    assert "product_image" !in MovePen();
    MovePenLocated(token, fs);
    ProductUpdateData(MovePen(), token, fs);
    assert CategoryIds(PenInEach().categories) == [1, 2];
  }

  /** The request ends the second row as a "Pen" in category 1. */
  lemma MovePenShape()
    ensures EndsAsFirstRow(PenInEach(), MovePen())
  {
    assert ProductIds(PenInEach().products) == [1, 2];
    assert FirstIndex([1, 2], Int(2)) == Some(1);
  }


  /** The gap of an update that sends `category_id` but no name: the name
      is not checked at all, so the second "Pen" joins category 1, which
      already has one. */
  lemma MoveWithoutNameDuplicates(token: string, fs: FileUpload.FileSystem)
    ensures var r := ProductController.UpdateProductData(PenInEach(), MovePen(), Available, token, fs);
      Succeeded(r) && !NamesUniquePerCategory(r.db.products)
  {
    MovePenAccepted();
    MovePenWrites(token, fs);
    MovePenShape();
    SecondRowDuplicates(PenInEach(), MovePen(), token, fs);
  }

  // ------------------------------------------------------- category updates

  /** The data a category update hands to the model: the validated fields,
      with the stored image path in place of an upload. */
  function CategoryUpdateSent(input: Input, token: string, fs: FileUpload.FileSystem): Input
    requires FileOf(input, "category_image").None? || fs == FileUpload.Writable
  {
    FileUpload.AttachImage(Validated(Requests.CategoryUpdateRules(input), input), "category_image",
                           FileOf(input, "category_image"), CategoryController.UpdateFolder(input), token, fs).value
  }

  /** The data sent carries the request's fields as sent; the image field is
      the stored path when a file is attached, as sent otherwise, and absent
      when the request has none. */
  lemma CategoryUpdateData(input: Input, token: string, fs: FileUpload.FileSystem)
    requires FileOf(input, "category_image").None? || fs == FileUpload.Writable
    ensures var d := CategoryUpdateSent(input, token, fs);
      && ("id" in d <==> "id" in input) && ("id" in d ==> d["id"] == input["id"])
      && ("category_name" in d <==> "category_name" in input) && ("category_name" in d ==> d["category_name"] == input["category_name"])
      && ("parent_category" in d <==> "parent_category" in input) && ("parent_category" in d ==> d["parent_category"] == input["parent_category"])
      && ("status" in d <==> "status" in input) && ("status" in d ==> d["status"] == input["status"])
      && ("category_image" in d <==> "category_image" in input)
      && (FileOf(input, "category_image").None? && "category_image" in d ==> d["category_image"] == input["category_image"])
      && (FileOf(input, "category_image").Some? ==>
            d["category_image"].Str?
            && d["category_image"].s == FileUpload.InsertImage(FileOf(input, "category_image").value, CategoryController.UpdateFolder(input),
                                                              "category_image", true, token, fs).value)
  {
    var rules := Requests.CategoryUpdateRules(input);
    assert rules[0].field == "id" && rules[1].field == "category_name" && rules[2].field == "category_image";
    assert rules[3].field == "parent_category" && rules[4].field == "status";
  }

  /** A successful category update route is the model update of that data. */
  lemma UpdateCategoryRoute(db: Db, input: Input, engine: Engine, token: string, fs: FileUpload.FileSystem)
    requires Succeeded(CategoryController.UpdateCategoryData(db, input, engine, token, fs))
    ensures FileOf(input, "category_image").None? || fs == FileUpload.Writable
    ensures CategoryController.UpdateCategoryData(db, input, engine, token, fs) == CategoryModel.UpdateCategory(db, CategoryUpdateSent(input, token, fs), engine)
  {
    assert Validate(Requests.CategoryUpdateRules(input), input, db).Ok?;
  }

  /** A successful category update sent either no name, a null name or a
      string: the `string` rule refuses everything else. */
  lemma UpdateCategoryNameShaped(db: Db, input: Input, engine: Engine, token: string, fs: FileUpload.FileSystem)
    requires Succeeded(CategoryController.UpdateCategoryData(db, input, engine, token, fs))
    ensures !Requests.Omitted(input, "category_name") ==> input["category_name"].Str?
  {
    var rules := Requests.CategoryUpdateRules(input);
    assert Validate(rules, input, db).Ok?;
    assert FieldFailures(rules[1], input, db) == [];
    Requests.CategoryNameVerdict(Nullable, Field(input, "id"), input, db);
  }

  /** What a successful model-level category update does to the store. */
  lemma UpdateCategoryFrame(db: Db, data: Input, engine: Engine)
    requires Succeeded(CategoryModel.UpdateCategory(db, data, engine))
    ensures CategoryModel.Located(db, data).Some?
    ensures var r := CategoryModel.UpdateCategory(db, data, engine);
      var i := CategoryModel.Located(db, data).value;
      var before := db.categories[i];
      && |r.db.categories| == |db.categories|
      && r.db.products == db.products
      && var after := r.db.categories[i];
      && r.db.categories == db.categories[i := after]
      && after.id == before.id
      && ("category_name" in data && data["category_name"].Str? ==> after.name == data["category_name"].s)
      && ("category_name" !in data ==> after.name == before.name)
      && ("category_image" in data && data["category_image"].Str? ==> after.image == Some(data["category_image"].s))
      && ("category_image" in data && data["category_image"].Null? ==> after.image == None)
      && ("category_image" !in data ==> after.image == before.image)
      && ("category_name" in data ==> VarChar("category_name", NameLength, data["category_name"]) == Ok(after.name))
      && ("parent_category" in data ==> NullableUnsigned("parent_category", data["parent_category"]) == Ok(after.parent))
      && ("parent_category" !in data ==> after.parent == before.parent)
      && ("status" in data ==> StatusColumn(data["status"]) == Ok(after.status))
      && ("status" !in data ==> after.status == before.status)
  {
  }

  /** A successful category update rewrites exactly the row with the
      request's id: its id stays, a field the request sends lands as sent
      (an attached image as its stored path), a field it leaves out keeps
      its value, and every other row stays as it was. */
  lemma UpdatedCategoryRow(db: Db, input: Input, engine: Engine, token: string, fs: FileUpload.FileSystem)
    requires Succeeded(CategoryController.UpdateCategoryData(db, input, engine, token, fs))
    ensures CategoryModel.Located(db, input).Some?
    ensures var r := CategoryController.UpdateCategoryData(db, input, engine, token, fs);
      var i := CategoryModel.Located(db, input).value;
      var before := db.categories[i];
      && |r.db.categories| == |db.categories|
      && r.db.products == db.products
      && var after := r.db.categories[i];
      && r.db.categories == db.categories[i := after]
      && after.id == before.id
      && ("category_name" in input ==> input["category_name"].Str? && after.name == input["category_name"].s)
      && ("category_name" !in input ==> after.name == before.name)
      && ("category_image" in input && input["category_image"].Null? ==> after.image == None)
      && ("category_image" !in input ==> after.image == before.image)
      && (FileOf(input, "category_image").Some? ==>
            after.image == Some(FileUpload.InsertImage(FileOf(input, "category_image").value, CategoryController.UpdateFolder(input),
                                                       "category_image", true, token, fs).value))
      && ("parent_category" in input ==> NullableUnsigned("parent_category", input["parent_category"]) == Ok(after.parent))
      && ("parent_category" !in input ==> after.parent == before.parent)
      && ("status" in input ==> StatusColumn(input["status"]) == Ok(after.status))
      && ("status" !in input ==> after.status == before.status)
  {
    UpdateCategoryNameShaped(db, input, engine, token, fs);
    UpdateCategoryRoute(db, input, engine, token, fs);
    CategoryUpdateData(input, token, fs);
    var data := CategoryUpdateSent(input, token, fs);
    UpdateCategoryFrame(db, data, engine);
    assert CategoryModel.Located(db, data) == CategoryModel.Located(db, input);
  }

  /** Switching a category OFF takes it out of the listing and the dropdown,
      while the lookup by id still finds it. */
  lemma SwitchedOffLeavesListings(db: Db, input: Input, engine: Engine, token: string, fs: FileUpload.FileSystem)
    requires WellFormed(db)
    requires Succeeded(CategoryController.UpdateCategoryData(db, input, engine, token, fs))
    requires "status" in input && input["status"].Str? && input["status"].s == "OFF"
    ensures var r := CategoryController.UpdateCategoryData(db, input, engine, token, fs);
      && "id" in input && input["id"].Int?
      && (forall v :: v in CategoryModel.Listing(r.db) ==> Int(v.id) != input["id"])
      && (forall d :: d in CategoryModel.Dropdown(r.db) ==> Int(d.id) != input["id"])
      && Member(CategoryModel.GetCategoryById(r.db, input["id"], Available), "data").Some?
  {
    var r := CategoryController.UpdateCategoryData(db, input, engine, token, fs);
    UpdatedCategoryRow(db, input, engine, token, fs);
    UpdateCategoryDataKeepsWellFormed(db, input, engine, token, fs);
    var i := CategoryModel.Located(db, input).value;
    var cs := r.db.categories;
    assert cs[i].status == OFF;
    assert input["id"] == Int(cs[i].id);
    RowsWithIdAreThatRow(r.db, i);
  }

  /** In a well-formed store the row at `i` is the only one with its id. */
  lemma RowsWithIdAreThatRow(db: Db, i: nat)
    requires WellFormed(db) && i < |db.categories|
    ensures forall c :: c in db.categories && c.id == db.categories[i].id ==> c == db.categories[i]
  {
    var ids := CategoryIds(db.categories);
    forall c | c in db.categories && c.id == db.categories[i].id ensures c == db.categories[i] {
      var k :| 0 <= k < |db.categories| && db.categories[k] == c;
      assert ids[k] == ids[i];
    }
  }
}
