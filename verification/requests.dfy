/** The two form requests: each picks its rule set from the request path,
    and a failed validation answers with the validation-error envelope before
    the controller runs (`failedValidation`). The paths are the routes'
    URIs under the `api` prefix. */
module Requests {
  import opened Wrappers
  import opened Text
  import opened Values
  import opened Schema
  import opened Validation
  import CheckUnique

  const InsertCategoryPath := "api/insert_category"
  const UpdateCategoryPath := "api/update_category"
  const CategoryByIdPath := "api/get_category_by_id"
  const InsertProductPath := "api/insert_product"
  const UpdateProductPath := "api/update_product"

  /** `mimes:jpeg,png,jpg,gif,svg` of every image field. */
  const ImageMimes: set<string> := {"jpeg", "png", "jpg", "gif", "svg"}

  /** `in:ON,OFF` of every status field. */
  const StatusValues: set<string> := {"ON", "OFF"}

  /** Category image size bound: `max:2024` kilobytes. */
  const CategoryImageKb: nat := 2024
  /** Product image size bound: `max:2048` kilobytes. */
  const ProductImageKb: nat := 2048

  // ------------------------------------------------------- field rules

  function IdRule(table: Table): FieldRule {
    FieldRule("id", Required, [IsInteger, Exists(table)])
  }

  function CategoryNameRule(presence: Presence, ignore: Value): FieldRule {
    FieldRule("category_name", presence, [IsString, Max(NameLength), Unique(CategoryTable, CheckUnique.Rule(None, ignore))])
  }

  function CategoryImageRule(presence: Presence): FieldRule {
    FieldRule("category_image", presence, [IsFile, Mimes(ImageMimes), Max(CategoryImageKb)])
  }

  function ParentRule(): FieldRule {
    FieldRule("parent_category", Nullable, [IsInteger])
  }

  function StatusRule(presence: Presence): FieldRule {
    FieldRule("status", presence, [IsString, In(StatusValues)])
  }

  function ProductNameRule(presence: Presence, rule: CheckUnique.Rule): FieldRule {
    FieldRule("product_name", presence, [IsString, Max(NameLength), Unique(ProductTable, rule)])
  }

  function ProductImageRule(presence: Presence): FieldRule {
    FieldRule("product_image", presence, [IsImage, Mimes(ImageMimes), Max(ProductImageKb)])
  }

  function DescriptionRule(presence: Presence): FieldRule {
    FieldRule("product_description", presence, [IsString])
  }

  function CategoryIdRule(presence: Presence): FieldRule {
    FieldRule("category_id", presence, [IsInteger, Exists(CategoryTable)])
  }

  // ------------------------------------------------ CategoryManagementRequest

  /** The update rules; the name check ignores the row whose id the request carries. */
  function CategoryUpdateRules(input: Input): seq<FieldRule> {
    [ IdRule(CategoryTable),
      CategoryNameRule(Nullable, Field(input, "id")),
      CategoryImageRule(Nullable),
      ParentRule(),
      StatusRule(Nullable) ]
  }

  function CategoryByIdRules(): seq<FieldRule> {
    [ IdRule(CategoryTable) ]
  }

  /** The insert rules: there is no `status` rule, so validated insert data
      never carries a status. */
  function CategoryInsertRules(): seq<FieldRule> {
    [ CategoryNameRule(Required, Null),
      CategoryImageRule(Required),
      ParentRule() ]
  }

  /** Some rule for `field` makes it required. */
  predicate Demands(rules: seq<FieldRule>, field: string) {
    exists i :: 0 <= i < |rules| && rules[i].field == field && rules[i].presence == Required
  }

  /** `rules()`: "update" is looked for first, then "get_category_by_id";
      any other path gets the insert rules. An update path checks the id, the
      name, the image, the parent and the status, with only the id required;
      a lookup path checks the id alone; every other path requires a name and
      an image and never sees an id or a status. */
  function CategoryRules(path: string, input: Input): (rules: seq<FieldRule>)
    ensures Contains(path, "update") ==>
      Fields(rules) == {"id", "category_name", "category_image", "parent_category", "status"}
    ensures !Contains(path, "update") && Contains(path, "get_category_by_id") ==> Fields(rules) == {"id"}
    ensures !Contains(path, "update") && !Contains(path, "get_category_by_id") ==>
      Fields(rules) == {"category_name", "category_image", "parent_category"}
    ensures Demands(rules, "id") <==> Contains(path, "update") || Contains(path, "get_category_by_id")
    ensures Demands(rules, "category_name") <==> !Contains(path, "update") && !Contains(path, "get_category_by_id")
    ensures !Demands(rules, "status")
  {
    if Contains(path, "update") then
      var rules := CategoryUpdateRules(input);
      assert rules[0].field == "id" && rules[0].presence == Required;
      assert forall i :: 1 <= i < |rules| ==> rules[i].presence == Nullable;
      assert Fields(rules) == {rules[0].field, rules[1].field, rules[2].field, rules[3].field, rules[4].field};
      rules
    else if Contains(path, "get_category_by_id") then
      var rules := CategoryByIdRules();
      assert rules[0].field == "id" && rules[0].presence == Required;
      assert Fields(rules) == {rules[0].field};
      rules
    else
      var rules := CategoryInsertRules();
      assert rules[0].field == "category_name" && rules[0].presence == Required;
      assert Fields(rules) == {rules[0].field, rules[1].field, rules[2].field};
      rules
  }

  // ------------------------------------------------- ProductManagementRequest

  /** `onCreate`: the name is unique among the products of the request's
      `category_id`, with no id ignored. */
  function ProductCreateRules(input: Input): seq<FieldRule> {
    [ ProductNameRule(Required, CheckUnique.Scoped(Field(input, "category_id"))),
      ProductImageRule(Required),
      DescriptionRule(Required),
      CategoryIdRule(Required) ]
  }

  /** `onUpdate`: the name check is scoped by the request's `category_id`
      (null when the request leaves it out) and ignores the request's `id`. */
  function ProductUpdateRules(input: Input): seq<FieldRule> {
    [ IdRule(ProductTable),
      ProductNameRule(Nullable, CheckUnique.Rule(Some(Field(input, "category_id")), Field(input, "id"))),
      ProductImageRule(Nullable),
      DescriptionRule(Nullable),
      CategoryIdRule(Nullable),
      StatusRule(Required) ]
  }

  /** `rules()`: "insert" is looked for first, then "update", so a path holding
      both gets the create rules; any other path falls off the end of the PHP
      method, which returns no rule set. */
  function ProductRules(path: string, input: Input): (rules: Option<seq<FieldRule>>)
    ensures rules.Some? <==> Contains(path, "insert") || Contains(path, "update")
    ensures Contains(path, "insert") ==>
      && Fields(rules.value) == {"product_name", "product_image", "product_description", "category_id"}
      && Demands(rules.value, "product_name") && Demands(rules.value, "product_image")
      && Demands(rules.value, "product_description") && Demands(rules.value, "category_id")
    ensures !Contains(path, "insert") && Contains(path, "update") ==>
      && Fields(rules.value) == {"id", "product_name", "product_image", "product_description", "category_id", "status"}
      && Demands(rules.value, "id") && Demands(rules.value, "status")
      && !Demands(rules.value, "product_name") && !Demands(rules.value, "category_id")
  {
    if Contains(path, "insert") then
      var rules := ProductCreateRules(input);
      assert rules[0].field == "product_name" && rules[0].presence == Required;
      assert rules[1].field == "product_image" && rules[1].presence == Required;
      assert rules[2].field == "product_description" && rules[2].presence == Required;
      assert rules[3].field == "category_id" && rules[3].presence == Required;
      assert Fields(rules) == {rules[0].field, rules[1].field, rules[2].field, rules[3].field};
      Some(rules)
    else if Contains(path, "update") then
      var rules := ProductUpdateRules(input);
      assert rules[0].field == "id" && rules[0].presence == Required;
      assert rules[5].field == "status" && rules[5].presence == Required;
      assert forall i :: 1 <= i < 5 ==> rules[i].presence == Nullable;
      assert Fields(rules) == {rules[0].field, rules[1].field, rules[2].field, rules[3].field, rules[4].field, rules[5].field};
      Some(rules)
    else None
  }

  // ------------------------------------------------------ what they accept

  /** An upload the image rules accept: a file whose client extension is
      not a PHP one, whose content-guessed extension is among the listed
      ones and whose size is within the bound. */
  predicate AcceptedUpload(v: Value, limitKb: nat) {
    v.File? && !PhpUpload(v.upload) && v.upload.guessedExtension in ImageMimes && v.upload.sizeBytes <= limitKb * 1024
  }

  /** A name that is a string of at most 100 characters. */
  predicate NameShaped(v: Value) {
    v.Str? && |v.s| <= NameLength
  }

  /** An id that is a PHP integer naming an existing row of `table`. */
  predicate ExistingId(v: Value, table: Table, db: Db) {
    PhpInt(v) && FirstIndex(TableIds(table, db), v).Some?
  }

  predicate StatusShaped(v: Value) {
    v.Str? && v.s in StatusValues
  }

  /** The field is missing or null. */
  predicate Omitted(input: Input, key: string) {
    Field(input, key).Null?
  }

  lemma IdVerdict(table: Table, input: Input, db: Db)
    ensures FieldFailures(IdRule(table), input, db) == [] <==> ExistingId(Field(input, "id"), table, db)
  {
    FieldVerdict(IdRule(table), input, db);
  }

  lemma CategoryNameVerdict(presence: Presence, ignore: Value, input: Input, db: Db)
    ensures FieldFailures(CategoryNameRule(presence, ignore), input, db) == [] <==>
      if Omitted(input, "category_name") then presence == Nullable
      else NameShaped(Field(input, "category_name")) &&
           CheckUnique.Passes(UniqueRows(CategoryTable, db), Field(input, "category_name"), CheckUnique.Rule(None, ignore))
  {
    FieldVerdict(CategoryNameRule(presence, ignore), input, db);
  }

  lemma CategoryImageVerdict(presence: Presence, input: Input, db: Db)
    ensures FieldFailures(CategoryImageRule(presence), input, db) == [] <==>
      if Omitted(input, "category_image") then presence == Nullable
      else AcceptedUpload(Field(input, "category_image"), CategoryImageKb)
  {
    var v := Field(input, "category_image");
    assert "php" !in ImageMimes;
    assert Holds(Mimes(ImageMimes), v, false, db) <==> v.File? && !PhpUpload(v.upload) && v.upload.guessedExtension in ImageMimes;
    FieldVerdict(CategoryImageRule(presence), input, db);
  }

  lemma ParentVerdict(input: Input, db: Db)
    ensures FieldFailures(ParentRule(), input, db) == [] <==> Omitted(input, "parent_category") || PhpInt(Field(input, "parent_category"))
  {
    FieldVerdict(ParentRule(), input, db);
  }

  lemma StatusVerdict(presence: Presence, input: Input, db: Db)
    ensures FieldFailures(StatusRule(presence), input, db) == [] <==>
      if Omitted(input, "status") then presence == Nullable else StatusShaped(Field(input, "status"))
  {
    FieldVerdict(StatusRule(presence), input, db);
  }

  lemma ProductNameVerdict(presence: Presence, rule: CheckUnique.Rule, input: Input, db: Db)
    ensures FieldFailures(ProductNameRule(presence, rule), input, db) == [] <==>
      if Omitted(input, "product_name") then presence == Nullable
      else NameShaped(Field(input, "product_name")) &&
           CheckUnique.Passes(UniqueRows(ProductTable, db), Field(input, "product_name"), rule)
  {
    FieldVerdict(ProductNameRule(presence, rule), input, db);
  }

  lemma ProductImageVerdict(presence: Presence, input: Input, db: Db)
    ensures FieldFailures(ProductImageRule(presence), input, db) == [] <==>
      if Omitted(input, "product_image") then presence == Nullable
      else AcceptedUpload(Field(input, "product_image"), ProductImageKb)
  {
    var v := Field(input, "product_image");
    assert ImageMimes <= ImageExtensions;
    assert "php" !in ImageMimes && "php" !in ImageExtensions;
    assert Holds(Mimes(ImageMimes), v, false, db) <==> v.File? && !PhpUpload(v.upload) && v.upload.guessedExtension in ImageMimes;
    assert Holds(IsImage, v, false, db) <==> v.File? && !PhpUpload(v.upload) && v.upload.guessedExtension in ImageExtensions;
    FieldVerdict(ProductImageRule(presence), input, db);
  }

  lemma DescriptionVerdict(presence: Presence, input: Input, db: Db)
    ensures FieldFailures(DescriptionRule(presence), input, db) == [] <==>
      if Omitted(input, "product_description") then presence == Nullable
      else Field(input, "product_description").Str?
  {
    FieldVerdict(DescriptionRule(presence), input, db);
  }

  lemma CategoryIdVerdict(presence: Presence, input: Input, db: Db)
    ensures FieldFailures(CategoryIdRule(presence), input, db) == [] <==>
      if Omitted(input, "category_id") then presence == Nullable
      else ExistingId(Field(input, "category_id"), CategoryTable, db)
  {
    FieldVerdict(CategoryIdRule(presence), input, db);
  }

  /** The product create rules accept exactly the requests with a name of at
      most 100 characters not yet used in the request's category, an image
      upload of an accepted type within 2048 KB, a description string, and
      the id of an existing category. */
  lemma ProductCreateAcceptance(input: Input, db: Db)
    ensures Validate(ProductCreateRules(input), input, db).Ok? <==>
      && NameShaped(Field(input, "product_name"))
      && CheckUnique.Passes(UniqueRows(ProductTable, db), Field(input, "product_name"),
                            CheckUnique.Scoped(Field(input, "category_id")))
      && AcceptedUpload(Field(input, "product_image"), ProductImageKb)
      && Field(input, "product_description").Str?
      && ExistingId(Field(input, "category_id"), CategoryTable, db)
  {
    RunVerdict(ProductCreateRules(input), input, db);
    ProductNameVerdict(Required, CheckUnique.Scoped(Field(input, "category_id")), input, db);
    ProductImageVerdict(Required, input, db);
    DescriptionVerdict(Required, input, db);
    CategoryIdVerdict(Required, input, db);
  }

  /** The product update rules accept exactly the requests with the id of an
      existing product and a status of ON or OFF, whose other fields are each
      missing, null, or well formed; a supplied name must not be used by
      another product of the category named in the request (null matches
      no product), the product with the request's own id excepted. */
  lemma ProductUpdateAcceptance(input: Input, db: Db)
    ensures Validate(ProductUpdateRules(input), input, db).Ok? <==>
      && ExistingId(Field(input, "id"), ProductTable, db)
      && (!Omitted(input, "product_name") ==>
            && NameShaped(Field(input, "product_name"))
            && CheckUnique.Passes(UniqueRows(ProductTable, db), Field(input, "product_name"),
                                  CheckUnique.Rule(Some(Field(input, "category_id")), Field(input, "id"))))
      && (!Omitted(input, "product_image") ==> AcceptedUpload(Field(input, "product_image"), ProductImageKb))
      && (!Omitted(input, "product_description") ==> Field(input, "product_description").Str?)
      && (!Omitted(input, "category_id") ==> ExistingId(Field(input, "category_id"), CategoryTable, db))
      && StatusShaped(Field(input, "status"))
  {
    RunVerdict(ProductUpdateRules(input), input, db);
    IdVerdict(ProductTable, input, db);
    ProductNameVerdict(Nullable, CheckUnique.Rule(Some(Field(input, "category_id")), Field(input, "id")), input, db);
    ProductImageVerdict(Nullable, input, db);
    DescriptionVerdict(Nullable, input, db);
    CategoryIdVerdict(Nullable, input, db);
    StatusVerdict(Required, input, db);
  }

  /** The category insert rules accept exactly the requests with a name of at
      most 100 characters that no category holds, an image upload of an
      accepted type within 2024 KB, and a parent that is missing, null or an
      integer (whether that category exists is not checked). */
  lemma CategoryInsertAcceptance(input: Input, db: Db)
    ensures Validate(CategoryInsertRules(), input, db).Ok? <==>
      && NameShaped(Field(input, "category_name"))
      && Field(input, "category_name").s !in CategoryNames(db.categories)
      && AcceptedUpload(Field(input, "category_image"), CategoryImageKb)
      && (Omitted(input, "parent_category") || PhpInt(Field(input, "parent_category")))
  {
    RunVerdict(CategoryInsertRules(), input, db);
    CategoryNameVerdict(Required, Null, input, db);
    var name := Field(input, "category_name");
    if name.Str? {
      NameFreeAmongCategories(db, name.s, Null);
    }
    CategoryImageVerdict(Required, input, db);
    ParentVerdict(input, db);
  }

  /** The category update rules accept exactly the requests with the id of an
      existing category whose other fields are each missing, null, or well
      formed; a supplied name must not be held by any category other than
      the one with the request's id, and a supplied status must be ON or OFF. */
  lemma CategoryUpdateAcceptance(input: Input, db: Db)
    requires WellFormed(db)
    ensures Validate(CategoryUpdateRules(input), input, db).Ok? <==>
      && ExistingId(Field(input, "id"), CategoryTable, db)
      && (!Omitted(input, "category_name") ==>
            && NameShaped(Field(input, "category_name"))
            && forall i :: 0 <= i < |db.categories| && db.categories[i].name == Field(input, "category_name").s ==>
                 Field(input, "id") == Int(db.categories[i].id))
      && (!Omitted(input, "category_image") ==> AcceptedUpload(Field(input, "category_image"), CategoryImageKb))
      && (Omitted(input, "parent_category") || PhpInt(Field(input, "parent_category")))
      && (!Omitted(input, "status") ==> StatusShaped(Field(input, "status")))
  {
    var name := Field(input, "category_name");
    var id := Field(input, "id");
    RunVerdict(CategoryUpdateRules(input), input, db);
    IdVerdict(CategoryTable, input, db);
    CategoryNameVerdict(Nullable, id, input, db);
    if ExistingId(id, CategoryTable, db) && name.Str? {
      var k := FirstIndex(CategoryIds(db.categories), id).value;
      assert db.categories[k] in db.categories;
      NameFreeAmongCategories(db, name.s, id);
    }
    CategoryImageVerdict(Nullable, input, db);
    ParentVerdict(input, db);
    StatusVerdict(Nullable, input, db);
  }

  /** The unscoped uniqueness check on category names, read row by row. */
  lemma NameFreeAmongCategories(db: Db, name: NonBlank, ignore: Value)
    requires ignore.Null? || (ignore.Int? && ignore.i != 0)
    ensures CheckUnique.Passes(UniqueRows(CategoryTable, db), Str(name), CheckUnique.Rule(None, ignore)) <==>
      forall i :: 0 <= i < |db.categories| && db.categories[i].name == name ==> ignore == Int(db.categories[i].id)
  {
    var rows := UniqueRows(CategoryTable, db);
    assert forall i :: 0 <= i < |rows| ==> rows[i].value == db.categories[i].name && rows[i].id == db.categories[i].id;
  }

  // ------------------------------------------------------ path selection

  /** A path lacking one of the needle's characters cannot contain it. */
  lemma Absent(s: string, needle: string, k: nat)
    requires k < |needle| && needle[k] !in s
    ensures !Contains(s, needle)
  {
  }

  /** Each category route reaches the rule set meant for it. */
  lemma InsertCategoryRoute(input: Input)
    ensures CategoryRules(InsertCategoryPath, input) == CategoryInsertRules()
  {
    Absent(InsertCategoryPath, "update", 0);
    Absent(InsertCategoryPath, "get_category_by_id", 13);
  }

  lemma UpdateCategoryRoute(input: Input)
    ensures CategoryRules(UpdateCategoryPath, input) == CategoryUpdateRules(input)
  {
    assert OccursAt(UpdateCategoryPath, "update", 4);
  }

  lemma CategoryByIdRoute(input: Input)
    ensures CategoryRules(CategoryByIdPath, input) == CategoryByIdRules()
  {
    assert OccursAt(CategoryByIdPath, "get_category_by_id", 4);
    Absent(CategoryByIdPath, "update", 0);
  }

  /** Each product route reaches the rule set meant for it. */
  lemma InsertProductRoute(input: Input)
    ensures ProductRules(InsertProductPath, input) == Some(ProductCreateRules(input))
  {
    assert OccursAt(InsertProductPath, "insert", 4);
  }

  lemma UpdateProductRoute(input: Input)
    ensures ProductRules(UpdateProductPath, input) == Some(ProductUpdateRules(input))
  {
    assert OccursAt(UpdateProductPath, "update", 4);
    Absent(UpdateProductPath, "insert", 2);
  }
}
