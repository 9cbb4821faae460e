/** The two tables the migrations create, the storage-level constraints they
    declare (column lengths, NOT NULL, the enum, the unique index on category
    names, the foreign key from products to categories), and the row-level
    writes the database performs for Eloquent's `create` and `update`.

    Tables are sequences in insertion order; each keeps its AUTO_INCREMENT
    counter (the last id handed out), which is not always the largest id in
    the table. String columns compare by plain equality. */
module Schema {
  import opened Wrappers
  import opened Text
  import opened Values

  datatype OnOff = ON | OFF

  /** `string(..., 100)` of both name columns. */
  const NameLength: nat := 100
  /** `string(..., 255)` of both image columns. */
  const ImageLength: nat := 255
  /** The byte bound of MySQL's `text` type, the description column. */
  const TextBytes: nat := 65535
  /** The largest value of MySQL's `unsignedBigInteger`. */
  const UnsignedBigMax: nat := 0xFFFF_FFFF_FFFF_FFFF

  datatype Category = Category(
    id: nat,
    name: string,
    image: Option<string>,
    parent: Option<nat>,
    status: OnOff)

  datatype Product = Product(
    id: nat,
    name: string,
    image: Option<string>,
    description: string,
    categoryId: nat,
    status: OnOff)

  /** The store: both tables and their AUTO_INCREMENT counters. */
  datatype Db = Db(
    categories: seq<Category>,
    products: seq<Product>,
    lastCategoryId: nat,
    lastProductId: nat)

  /** The fields a category listing or lookup selects. */
  datatype CategoryView = CategoryView(id: nat, name: string, image: Option<string>, status: OnOff)

  /** The fields the dropdown selects. */
  datatype DropdownItem = DropdownItem(id: nat, name: string)

  /** The fields a product listing or lookup selects; `categoryName` is
      null when the left join finds no category. */
  datatype ProductView = ProductView(
    id: nat,
    name: string,
    image: Option<string>,
    description: string,
    categoryId: nat,
    categoryName: Option<string>,
    status: OnOff)

  // ---------------------------------------------------------------- columns

  predicate Distinct<T(==)>(s: seq<T>) {
    forall i, j :: 0 <= i < j < |s| ==> s[i] != s[j]
  }

  /** `a` is `b` with some elements left out and the rest kept in order. */
  predicate SubsequenceOf<T(==)>(a: seq<T>, b: seq<T>)
    decreases |b|
  {
    |a| == 0 || (|b| > 0 && ((a[0] == b[0] && SubsequenceOf(a[1..], b[1..])) || SubsequenceOf(a, b[1..])))
  }

  function CategoryIds(cs: seq<Category>): (ids: seq<nat>)
    ensures |ids| == |cs|
    ensures forall i :: 0 <= i < |cs| ==> ids[i] == cs[i].id
  {
    seq(|cs|, i requires 0 <= i < |cs| => cs[i].id)
  }

  function CategoryNames(cs: seq<Category>): (names: seq<string>)
    ensures |names| == |cs|
    ensures forall i :: 0 <= i < |cs| ==> names[i] == cs[i].name
  {
    seq(|cs|, i requires 0 <= i < |cs| => cs[i].name)
  }

  function ProductIds(ps: seq<Product>): (ids: seq<nat>)
    ensures |ids| == |ps|
    ensures forall i :: 0 <= i < |ps| ==> ids[i] == ps[i].id
  {
    seq(|ps|, i requires 0 <= i < |ps| => ps[i].id)
  }

  /** `where('id', $key)->first()`: the position of the first row whose id
      equals the requested value, if any. */
  function FirstIndex(ids: seq<nat>, key: Value): (r: Option<nat>)
    ensures r.Some? ==> r.value < |ids| && key == Int(ids[r.value])
    ensures r.Some? ==> forall j :: 0 <= j < r.value ==> key != Int(ids[j])
    ensures r.None? <==> forall j :: 0 <= j < |ids| ==> key != Int(ids[j])
  {
    if |ids| == 0 then None
    else if key == Int(ids[0]) then Some(0)
    else match FirstIndex(ids[1..], key)
      case None => None
      case Some(k) => Some(k + 1)
  }

  /** `max('id')`: null on an empty table, otherwise the largest id. */
  function MaxId(ids: seq<nat>): (r: Option<nat>)
    ensures r.None? <==> |ids| == 0
    ensures r.Some? ==> r.value in ids && forall x :: x in ids ==> x <= r.value
  {
    if |ids| == 0 then None
    else
      assert forall x :: x in ids ==> x == ids[0] || x in ids[1..];
      match MaxId(ids[1..])
      case None => Some(ids[0])
      case Some(m) => Some(if ids[0] < m then m else ids[0])
  }

  // ------------------------------------------------------- well-formedness

  predicate CategoryRowFits(c: Category) {
    && |c.name| <= NameLength
    && (c.image.Some? ==> |c.image.value| <= ImageLength)
  }

  predicate ProductRowFits(p: Product) {
    && |p.name| <= NameLength
    && (p.image.Some? ==> |p.image.value| <= ImageLength)
    && Utf8Length(p.description) <= TextBytes
  }

  /** What the database itself guarantees of every state it can be in:
      primary keys are distinct and issued by the counters, category names
      are unique, strings fit their columns, and every product's
      `category_id` names an existing category. Product names carry no
      storage-level uniqueness. */
  predicate WellFormed(db: Db) {
    && Distinct(CategoryIds(db.categories))
    && Distinct(CategoryNames(db.categories))
    && Distinct(ProductIds(db.products))
    && (forall c :: c in db.categories ==> 1 <= c.id <= db.lastCategoryId && CategoryRowFits(c))
    && (forall p :: p in db.products ==>
          && 1 <= p.id <= db.lastProductId
          && ProductRowFits(p)
          && p.categoryId in CategoryIds(db.categories))
  }

  // ------------------------------------------------------ column writes

  /** A NOT NULL `string(column, limit)`; an integer is stored as its decimal text. */
  function VarChar(column: string, limit: nat, v: Value): (r: Result<string, Fault>)
    ensures r.Ok? ==> |r.value| <= limit
    ensures v.Str? ==> (r.Ok? <==> |v.s| <= limit) && (r.Ok? ==> r.value == v.s)
    ensures v.Null? ==> r == Err(NotNull(column))
  {
    match v
    case Str(s) => if |s| <= limit then Ok(s) else Err(TooLong(column))
    case Int(i) => var s := IntToString(i); if |s| <= limit then Ok(s) else Err(TooLong(column))
    case Null => Err(NotNull(column))
    case File(_) => Err(Invalid(column))
  }

  /** A `nullable()` string column. */
  function NullableVarChar(column: string, limit: nat, v: Value): (r: Result<Option<string>, Fault>)
    ensures r.Ok? && r.value.Some? ==> |r.value.value| <= limit
    ensures v.Str? ==> (r.Ok? <==> |v.s| <= limit) && (r.Ok? ==> r.value == Some(v.s))
    ensures v.Null? ==> r == Ok(None)
  {
    if v.Null? then Ok(None) else var s :- VarChar(column, limit, v); Ok(Some(s))
  }

  /** A NOT NULL `text` column: at most 65,535 bytes of UTF-8, and strict
      mode refuses a longer value rather than cutting it. */
  function LongText(column: string, v: Value): (r: Result<string, Fault>)
    ensures r.Ok? ==> Utf8Length(r.value) <= TextBytes
    ensures v.Str? ==> (r.Ok? <==> Utf8Length(v.s) <= TextBytes) && (r.Ok? ==> r.value == v.s)
    ensures v.Str? && r.Err? ==> r.error == TooLong(column)
    ensures v.Null? ==> r == Err(NotNull(column))
  {
    match v
    case Str(s) => if Utf8Length(s) <= TextBytes then Ok(s) else Err(TooLong(column))
    case Int(i) => var s := IntToString(i); if Utf8Length(s) <= TextBytes then Ok(s) else Err(TooLong(column))
    case Null => Err(NotNull(column))
    case File(_) => Err(Invalid(column))
  }

  /** A NOT NULL `unsignedBigInteger` column. */
  function Unsigned(column: string, v: Value): (r: Result<nat, Fault>)
    ensures r.Ok? ==> r.value <= UnsignedBigMax
    ensures v.Int? ==> (r.Ok? <==> 0 <= v.i <= UnsignedBigMax) && (r.Ok? ==> r.value == v.i)
    ensures v.Null? ==> r == Err(NotNull(column))
    ensures !v.Int? && !v.Null? ==> r.Err?
  {
    match v
    case Int(i) => if 0 <= i <= UnsignedBigMax then Ok(i) else Err(OutOfRange(column))
    case Null => Err(NotNull(column))
    case _ => Err(Invalid(column))
  }

  /** A `nullable()` unsigned column. */
  function NullableUnsigned(column: string, v: Value): (r: Result<Option<nat>, Fault>)
    ensures r.Ok? && r.value.Some? ==> r.value.value <= UnsignedBigMax
    ensures v.Int? ==> (r.Ok? <==> 0 <= v.i <= UnsignedBigMax) && (r.Ok? ==> r.value == Some(v.i))
    ensures v.Null? ==> r == Ok(None)
  {
    if v.Null? then Ok(None) else var n :- Unsigned(column, v); Ok(Some(n))
  }

  /** `enum('status', ['ON', 'OFF'])`: any other value, null included, is refused. */
  function StatusColumn(v: Value): (r: Result<OnOff, Fault>)
    ensures r == Ok(ON) <==> v == Str("ON")
    ensures r == Ok(OFF) <==> v == Str("OFF")
  {
    match v
    case Str(s) => if s == "ON" then Ok(ON) else if s == "OFF" then Ok(OFF) else Err(Invalid("status"))
    case Null => Err(NotNull("status"))
    case _ => Err(Invalid("status"))
  }

  /** How one fillable attribute lands on a row: kept when not supplied,
      otherwise the column's conversion of the supplied value. */
  predicate Lands<T(==)>(attrs: Input, key: string, before: T, after: T, conv: Value -> Result<T, Fault>) {
    if key in attrs then conv(attrs[key]) == Ok(after) else after == before
  }

  /** Eloquent's mass assignment of the category fillable attributes
      (`category_name`, `category_image`, `parent_category`, `status`);
      every other key, `id` included, is ignored. */
  function FillCategory(row: Category, attrs: Input): (r: Result<Category, Fault>)
    ensures r.Ok? ==> r.value.id == row.id
    ensures r.Ok? ==> Lands(attrs, "category_name", row.name, r.value.name, v => VarChar("category_name", NameLength, v))
    ensures r.Ok? ==> Lands(attrs, "category_image", row.image, r.value.image, v => NullableVarChar("category_image", ImageLength, v))
    ensures r.Ok? ==> Lands(attrs, "parent_category", row.parent, r.value.parent, v => NullableUnsigned("parent_category", v))
    ensures r.Ok? ==> Lands(attrs, "status", row.status, r.value.status, StatusColumn)
    ensures r.Ok? ==> CategoryRowFits(r.value) || !CategoryRowFits(row)
  {
    var name :- if "category_name" in attrs then VarChar("category_name", NameLength, attrs["category_name"]) else Ok(row.name);
    var image :- if "category_image" in attrs then NullableVarChar("category_image", ImageLength, attrs["category_image"]) else Ok(row.image);
    var parent :- if "parent_category" in attrs then NullableUnsigned("parent_category", attrs["parent_category"]) else Ok(row.parent);
    var status :- if "status" in attrs then StatusColumn(attrs["status"]) else Ok(row.status);
    Ok(Category(row.id, name, image, parent, status))
  }

  /** Eloquent's mass assignment of the product fillable attributes
      (`product_name`, `product_image`, `product_description`,
      `category_id`, `status`). */
  function FillProduct(row: Product, attrs: Input): (r: Result<Product, Fault>)
    ensures r.Ok? ==> r.value.id == row.id
    ensures r.Ok? ==> Lands(attrs, "product_name", row.name, r.value.name, v => VarChar("product_name", NameLength, v))
    ensures r.Ok? ==> Lands(attrs, "product_image", row.image, r.value.image, v => NullableVarChar("product_image", ImageLength, v))
    ensures r.Ok? ==> Lands(attrs, "product_description", row.description, r.value.description, v => LongText("product_description", v))
    ensures r.Ok? ==> Lands(attrs, "category_id", row.categoryId, r.value.categoryId, v => Unsigned("category_id", v))
    ensures r.Ok? ==> Lands(attrs, "status", row.status, r.value.status, StatusColumn)
    ensures r.Ok? ==> ProductRowFits(r.value) || !ProductRowFits(row)
  {
    var name :- if "product_name" in attrs then VarChar("product_name", NameLength, attrs["product_name"]) else Ok(row.name);
    var image :- if "product_image" in attrs then NullableVarChar("product_image", ImageLength, attrs["product_image"]) else Ok(row.image);
    var description :- if "product_description" in attrs then LongText("product_description", attrs["product_description"]) else Ok(row.description);
    var categoryId :- if "category_id" in attrs then Unsigned("category_id", attrs["category_id"]) else Ok(row.categoryId);
    var status :- if "status" in attrs then StatusColumn(attrs["status"]) else Ok(row.status);
    Ok(Product(row.id, name, image, description, categoryId, status))
  }

  // ------------------------------------------------------- row writes

  /** `category_name` is held by a row other than the one at `except`
      (pass |names| or more to consider every row). */
  predicate NameHeldElsewhere(names: seq<string>, except: nat, name: string) {
    exists j :: 0 <= j < |names| && j != except && names[j] == name
  }

  /** Storage side of `CategoryManagementModel::create`: the row gets the
      next AUTO_INCREMENT id and the column defaults (no image, no parent,
      status ON) for whatever is not supplied; the name has no default and
      must not be taken. */
  function CreateCategoryRow(db: Db, attrs: Input): (r: Result<(Category, Db), Fault>)
    ensures "category_name" !in attrs ==> r == Err(NoDefault("category_name"))
    ensures r.Ok? ==> r.value.0.id == db.lastCategoryId + 1
    ensures r.Ok? ==> r.value.1 == db.(categories := db.categories + [r.value.0], lastCategoryId := r.value.0.id)
    ensures r.Ok? ==> FillCategory(Category(r.value.0.id, "", None, None, ON), attrs) == Ok(r.value.0)
    ensures r.Ok? ==> r.value.0.name !in CategoryNames(db.categories)
    ensures "category_name" in attrs && FillCategory(Category(db.lastCategoryId + 1, "", None, None, ON), attrs).Ok? ==>
              (r.Ok? <==> FillCategory(Category(db.lastCategoryId + 1, "", None, None, ON), attrs).value.name !in CategoryNames(db.categories))
  {
    if "category_name" !in attrs then Err(NoDefault("category_name"))
    else
      var row :- FillCategory(Category(db.lastCategoryId + 1, "", None, None, ON), attrs);
      if row.name in CategoryNames(db.categories) then Err(Duplicate("category_name"))
      else Ok((row, db.(categories := db.categories + [row], lastCategoryId := row.id)))
  }

  /** Storage side of `$category->update($attrs)` on the row at position `i`:
      the merged row replaces it, unless its name belongs to another row. */
  function UpdateCategoryRow(db: Db, i: nat, attrs: Input): (r: Result<Db, Fault>)
    requires i < |db.categories|
    ensures r.Ok? ==> FillCategory(db.categories[i], attrs).Ok?
    ensures r.Ok? ==> r.value == db.(categories := db.categories[i := FillCategory(db.categories[i], attrs).value])
    ensures r.Ok? ==> !NameHeldElsewhere(CategoryNames(db.categories), i, r.value.categories[i].name)
    ensures FillCategory(db.categories[i], attrs).Ok? ==>
              (r.Ok? <==> !NameHeldElsewhere(CategoryNames(db.categories), i, FillCategory(db.categories[i], attrs).value.name))
  {
    var row :- FillCategory(db.categories[i], attrs);
    if NameHeldElsewhere(CategoryNames(db.categories), i, row.name) then Err(Duplicate("category_name"))
    else Ok(db.(categories := db.categories[i := row]))
  }

  /** Storage side of `ProductManagementModel::create`: the next id, the
      defaults (no image, status ON), no default for name, description or
      category, and the foreign key must hold. Product names are not
      checked for uniqueness here. */
  function CreateProductRow(db: Db, attrs: Input): (r: Result<(Product, Db), Fault>)
    ensures "product_name" !in attrs || "product_description" !in attrs || "category_id" !in attrs ==> r.Err?
    ensures r.Ok? ==> r.value.0.id == db.lastProductId + 1
    ensures r.Ok? ==> r.value.1 == db.(products := db.products + [r.value.0], lastProductId := r.value.0.id)
    ensures r.Ok? ==> FillProduct(Product(r.value.0.id, "", None, "", 0, ON), attrs) == Ok(r.value.0)
    ensures r.Ok? ==> r.value.0.categoryId in CategoryIds(db.categories)
  {
    if "product_name" !in attrs then Err(NoDefault("product_name"))
    else if "product_description" !in attrs then Err(NoDefault("product_description"))
    else if "category_id" !in attrs then Err(NoDefault("category_id"))
    else
      var row :- FillProduct(Product(db.lastProductId + 1, "", None, "", 0, ON), attrs);
      if row.categoryId !in CategoryIds(db.categories) then Err(MissingReference("category_id"))
      else Ok((row, db.(products := db.products + [row], lastProductId := row.id)))
  }

  /** Storage side of `$product->update($attrs)` on the row at position `i`;
      only the foreign key is checked. */
  function UpdateProductRow(db: Db, i: nat, attrs: Input): (r: Result<Db, Fault>)
    requires i < |db.products|
    ensures r.Ok? ==> FillProduct(db.products[i], attrs).Ok?
    ensures r.Ok? ==> r.value == db.(products := db.products[i := FillProduct(db.products[i], attrs).value])
    ensures r.Ok? ==> r.value.products[i].categoryId in CategoryIds(db.categories)
  {
    var row :- FillProduct(db.products[i], attrs);
    if row.categoryId !in CategoryIds(db.categories) then Err(MissingReference("category_id"))
    else Ok(db.(products := db.products[i := row]))
  }

  // -------------------------------------------- the constraints are kept

  lemma {:induction false} CreateCategoryRowKeepsWellFormed(db: Db, attrs: Input)
    requires WellFormed(db)
    requires CreateCategoryRow(db, attrs).Ok?
    ensures WellFormed(CreateCategoryRow(db, attrs).value.1)
  {
    var (row, db') := CreateCategoryRow(db, attrs).value;
    var cs := db.categories;
    assert db'.categories == cs + [row];
    assert CategoryIds(db'.categories) == CategoryIds(cs) + [row.id];
    assert CategoryNames(db'.categories) == CategoryNames(cs) + [row.name];
    assert CategoryRowFits(row) by {
      assert CategoryRowFits(Category(row.id, "", None, None, ON));
    }
    forall p | p in db'.products ensures p.categoryId in CategoryIds(db'.categories) {
      var k :| 0 <= k < |cs| && CategoryIds(cs)[k] == p.categoryId;
      assert CategoryIds(db'.categories)[k] == p.categoryId;
    }
  }

  lemma {:induction false} UpdateCategoryRowKeepsWellFormed(db: Db, i: nat, attrs: Input)
    requires WellFormed(db)
    requires i < |db.categories|
    requires UpdateCategoryRow(db, i, attrs).Ok?
    ensures WellFormed(UpdateCategoryRow(db, i, attrs).value)
  {
    var db' := UpdateCategoryRow(db, i, attrs).value;
    var cs := db.categories;
    var row := db'.categories[i];
    assert CategoryIds(db'.categories) == CategoryIds(cs);
    assert CategoryNames(db'.categories) == CategoryNames(cs)[i := row.name];
    assert CategoryRowFits(row) by {
      assert cs[i] in cs;
    }
    forall c | c in db'.categories ensures 1 <= c.id <= db'.lastCategoryId && CategoryRowFits(c) {
      var k :| 0 <= k < |db'.categories| && db'.categories[k] == c;
      if k != i {
        assert cs[k] in cs;
      } else {
        assert cs[i] in cs;
      }
    }
  }

  lemma {:induction false} CreateProductRowKeepsWellFormed(db: Db, attrs: Input)
    requires WellFormed(db)
    requires CreateProductRow(db, attrs).Ok?
    ensures WellFormed(CreateProductRow(db, attrs).value.1)
  {
    var (row, db') := CreateProductRow(db, attrs).value;
    assert ProductIds(db'.products) == ProductIds(db.products) + [row.id];
    assert ProductRowFits(row) by {
      assert ProductRowFits(Product(row.id, "", None, "", 0, ON));
    }
  }

  lemma {:induction false} UpdateProductRowKeepsWellFormed(db: Db, i: nat, attrs: Input)
    requires WellFormed(db)
    requires i < |db.products|
    requires UpdateProductRow(db, i, attrs).Ok?
    ensures WellFormed(UpdateProductRow(db, i, attrs).value)
  {
    var db' := UpdateProductRow(db, i, attrs).value;
    var ps := db.products;
    assert ProductIds(db'.products) == ProductIds(ps);
    assert ProductRowFits(db'.products[i]) by {
      assert ps[i] in ps;
    }
    forall p | p in db'.products
      ensures 1 <= p.id <= db'.lastProductId && ProductRowFits(p) && p.categoryId in CategoryIds(db'.categories)
    {
      var k :| 0 <= k < |db'.products| && db'.products[k] == p;
      if k != i {
        assert ps[k] in ps;
      } else {
        assert ps[i] in ps;
      }
    }
  }
}
