/** `ProductManagementModel`: the insert and update handlers behind the
    product routes and the two joined reads. Both reads left-join
    `category_model` on `product_model.category_id = category_model.id`. */
module ProductModel {
  import opened Wrappers
  import opened Values
  import opened Schema
  import opened ApiResponse
  import CategoryModel

  /** A joined row: the product's columns and the category name found for it. */
  function JoinedView(p: Product, categoryName: Option<string>): ProductView {
    ProductView(p.id, p.name, p.image, p.description, p.categoryId, categoryName, p.status)
  }

  /** The names of every category with the given id, in table order. */
  function NamesWithId(cs: seq<Category>, id: nat): (names: seq<string>)
    ensures |names| <= |cs|
    ensures names == [] <==> forall j :: 0 <= j < |cs| ==> cs[j].id != id
    ensures names != [] ==> CategoryNameOf(cs, id) == Some(names[0])
  {
    if |cs| == 0 then []
    else
      var rest := NamesWithId(cs[1..], id);
      assert forall j :: 1 <= j < |cs| ==> cs[j] == cs[1..][j - 1];
      assert CategoryIds(cs)[1..] == CategoryIds(cs[1..]);
      if cs[0].id == id then [cs[0].name] + rest else rest
  }

  /** The left join of one product: a row per matching category, or a
      single row with a null category name when none matches. */
  function JoinOne(p: Product, cs: seq<Category>): (rows: seq<ProductView>)
    ensures |rows| >= 1
    ensures forall v :: v in rows ==> v.id == p.id && v.status == p.status && v.categoryId == p.categoryId
    ensures rows == [JoinedView(p, None)] <==> forall j :: 0 <= j < |cs| ==> cs[j].id != p.categoryId
    ensures rows[0] == JoinedView(p, CategoryNameOf(cs, p.categoryId))
  {
    var names := NamesWithId(cs, p.categoryId);
    if names == [] then [JoinedView(p, None)]
    else seq(|names|, i requires 0 <= i < |names| => JoinedView(p, Some(names[i])))
  }

  /** `leftjoin('category_model', ...)` over a sequence of products, in order. */
  function LeftJoin(ps: seq<Product>, cs: seq<Category>): (rows: seq<ProductView>)
    ensures |rows| >= |ps|
    ensures forall v :: v in rows ==> exists p :: p in ps && v.id == p.id && v.status == p.status && v.categoryId == p.categoryId
    ensures |ps| > 0 ==> rows[0] == JoinedView(ps[0], CategoryNameOf(cs, ps[0].categoryId))
  {
    if |ps| == 0 then []
    else
      var rest := LeftJoin(ps[1..], cs);
      assert forall p :: p in ps[1..] ==> p in ps;
      JoinOne(ps[0], cs) + rest
  }

  /** The category name a product shows when ids are unique: the name of
      the category its `category_id` names, if there is one. */
  function CategoryNameOf(cs: seq<Category>, id: nat): Option<string> {
    match FirstIndex(CategoryIds(cs), Int(id))
    case Some(k) => Some(cs[k].name)
    case None => None
  }

  /** With unique category ids, a category id matches at most one name. */
  lemma {:induction false} NamesWithUniqueId(cs: seq<Category>, id: nat)
    requires Distinct(CategoryIds(cs))
    ensures NamesWithId(cs, id) == (if CategoryNameOf(cs, id).Some? then [CategoryNameOf(cs, id).value] else [])
  {
    if |cs| > 0 {
      var tail := cs[1..];
      assert CategoryIds(tail) == CategoryIds(cs)[1..];
      NamesWithUniqueId(tail, id);
      if cs[0].id == id {
        assert forall j :: 0 <= j < |tail| ==> tail[j].id != id by {
          forall j | 0 <= j < |tail| ensures tail[j].id != id {
            assert CategoryIds(cs)[0] != CategoryIds(cs)[j + 1];
          }
        }
      } else {
        assert FirstIndex(CategoryIds(cs), Int(id)) ==
          (match FirstIndex(CategoryIds(tail), Int(id)) case None => None case Some(k) => Some(k + 1));
      }
    }
  }

  /** With unique category ids the left join neither drops nor repeats a
      product: row i is product i with its category's name, null when the
      category is gone. */
  lemma {:induction false} JoinIsOneToOne(ps: seq<Product>, cs: seq<Category>)
    requires Distinct(CategoryIds(cs))
    ensures |LeftJoin(ps, cs)| == |ps|
    ensures forall i :: 0 <= i < |ps| ==> LeftJoin(ps, cs)[i] == JoinedView(ps[i], CategoryNameOf(cs, ps[i].categoryId))
  {
    if |ps| > 0 {
      var tail := ps[1..];
      NamesWithUniqueId(cs, ps[0].categoryId);
      JoinIsOneToOne(tail, cs);
      var head := JoinOne(ps[0], cs);
      assert head == [JoinedView(ps[0], CategoryNameOf(cs, ps[0].categoryId))];
      var rows := LeftJoin(ps, cs);
      assert rows == head + LeftJoin(tail, cs);
      forall i | 1 <= i < |ps| ensures rows[i] == JoinedView(ps[i], CategoryNameOf(cs, ps[i].categoryId)) {
        assert rows[i] == LeftJoin(tail, cs)[i - 1];
        assert tail[i - 1] == ps[i];
      }
    }
  }

  /** The listing's filter: switched on, and in the requested category when
      the request names one (a falsy `category_id` filters nothing). */
  predicate Listed(p: Product, categoryFilter: Value) {
    p.status == ON && (Truthy(categoryFilter) ==> categoryFilter == Int(p.categoryId))
  }

  function ListedRows(ps: seq<Product>, categoryFilter: Value): (listed: seq<Product>)
    ensures |listed| <= |ps|
    ensures forall p :: p in listed <==> p in ps && Listed(p, categoryFilter)
    ensures forall p :: multiset(listed)[p] == if Listed(p, categoryFilter) then multiset(ps)[p] else 0
    ensures SubsequenceOf(listed, ps)
  {
    if |ps| == 0 then []
    else
      var rest := ListedRows(ps[1..], categoryFilter);
      assert ps == [ps[0]] + ps[1..];
      assert forall p :: p in ps <==> p == ps[0] || p in ps[1..];
      if Listed(ps[0], categoryFilter) then [ps[0]] + rest else rest
  }

  /** The products whose id equals the requested value. */
  function RowsWithId(ps: seq<Product>, id: Value): (found: seq<Product>)
    ensures |found| <= |ps|
    ensures forall p :: p in found <==> p in ps && id == Int(p.id)
    ensures forall p :: multiset(found)[p] == if id == Int(p.id) then multiset(ps)[p] else 0
    ensures SubsequenceOf(found, ps)
    ensures found != [] ==> FirstIndex(ProductIds(ps), id).Some? && found[0] == ps[FirstIndex(ProductIds(ps), id).value]
  {
    if |ps| == 0 then []
    else
      var rest := RowsWithId(ps[1..], id);
      assert ps == [ps[0]] + ps[1..];
      assert ProductIds(ps)[1..] == ProductIds(ps[1..]);
      assert forall p :: p in ps <==> p == ps[0] || p in ps[1..];
      if id == Int(ps[0].id) then [ps[0]] + rest else rest
  }

  // ------------------------------------------------------------- writes

  /** `insertProduct`: create the row and answer its new id under
      `product_id`; a falsy create answers 400 with PRODUCT_FAILED; any fault
      answers 500. Only a success changes the store. */
  function InsertProduct(db: Db, data: Input, engine: Engine): (r: Reply)
    ensures r.response.Some?
    ensures Succeeded(r) <==> engine == Available && CreateProductRow(db, data).Ok?
    ensures !Succeeded(r) ==> r.db == db
    ensures Succeeded(r) ==>
      && r.db == CreateProductRow(db, data).value.1
      && Member(r.response.value, "product_id") == Some(IdJson(db.lastProductId + 1))
      && MessageOf(r.response.value) == Some(Localized(PRODUCT_INSERTED))
    ensures engine.Failing? ==> r.response == Some(CategoryModel.EngineFault(engine))
    ensures engine == Refusing ==> r.response == Some(Error(Localized(PRODUCT_FAILED), HTTP_BAD_REQUEST))
    ensures engine == Available && CreateProductRow(db, data).Err? ==>
      r.response == Some(InternalServerError(Some(CreateProductRow(db, data).error)))
  {
    match engine
    case Failing(_) => Reply(Some(CategoryModel.EngineFault(engine)), db)
    case Refusing => Reply(Some(Error(Localized(PRODUCT_FAILED), HTTP_BAD_REQUEST)), db)
    case Available =>
      match CreateProductRow(db, data)
      case Err(fault) => Reply(Some(InternalServerError(Some(fault))), db)
      case Ok((row, db')) => Reply(Some(Success(Localized(PRODUCT_INSERTED), Some("product_id"), IdJson(row.id))), db')
  }

  /** `find($data['id'])` on the product table. */
  function Located(db: Db, data: Input): (i: Option<nat>)
    ensures i.Some? ==> "id" in data && i.value < |db.products| && data["id"] == Int(db.products[i.value].id)
    ensures i.Some? ==> forall j :: 0 <= j < i.value ==> data["id"] != Int(db.products[j].id)
    ensures i.None? <==> "id" !in data || forall j :: 0 <= j < |db.products| ==> data["id"] != Int(db.products[j].id)
  {
    if "id" in data then FirstIndex(ProductIds(db.products), data["id"]) else None
  }

  /** `updateProduct`: merge the data into the row with the data's id and
      echo that id under `product_id`; a missing `id` key is a fault (500),
      an id naming no row answers nothing. Only a success changes the store. */
  function UpdateProduct(db: Db, data: Input, engine: Engine): (r: Reply)
    ensures r.response.None? <==> !engine.Failing? && "id" in data && Located(db, data).None?
    ensures Succeeded(r) <==>
      !engine.Failing? && Located(db, data).Some? && UpdateProductRow(db, Located(db, data).value, data).Ok?
    ensures !Succeeded(r) ==> r.db == db
    ensures Succeeded(r) ==>
      && r.db == UpdateProductRow(db, Located(db, data).value, data).value
      && Member(r.response.value, "product_id") == Some(IdJson(data["id"].i))
      && MessageOf(r.response.value) == Some(Localized(PRODUCT_UPDATED))
    ensures engine.Failing? ==> r.response == Some(CategoryModel.EngineFault(engine))
    ensures !engine.Failing? && "id" !in data ==> r.response == Some(InternalServerError(Some(UndefinedIndex("id"))))
  {
    if engine.Failing? then Reply(Some(CategoryModel.EngineFault(engine)), db)
    else if "id" !in data then Reply(Some(InternalServerError(Some(UndefinedIndex("id")))), db)
    else match Located(db, data)
      case None => Reply(None, db)
      case Some(i) =>
        match UpdateProductRow(db, i, data)
        case Err(fault) => Reply(Some(InternalServerError(Some(fault))), db)
        case Ok(db') => Reply(Some(Success(Localized(PRODUCT_UPDATED), Some("product_id"), IdJson(data["id"].i))), db')
  }

  // -------------------------------------------------------------- reads

  /** The rows `getProductListing` returns for a category filter. */
  function Listing(db: Db, categoryFilter: Value): (vs: seq<ProductView>)
    ensures |vs| >= |ListedRows(db.products, categoryFilter)|
    ensures |ListedRows(db.products, categoryFilter)| > 0 ==>
      vs[0] == JoinedView(ListedRows(db.products, categoryFilter)[0],
                          CategoryNameOf(db.categories, ListedRows(db.products, categoryFilter)[0].categoryId))
    ensures forall v :: v in vs ==>
      && v.status == ON
      && (Truthy(categoryFilter) ==> categoryFilter == Int(v.categoryId))
      && exists p :: p in db.products && p.id == v.id && p.status == ON
  {
    LeftJoin(ListedRows(db.products, categoryFilter), db.categories)
  }

  /** The listing shows every listed product once, in table order, with its
      category's name (null when the category is gone), and nothing that is
      switched off or outside a requested category. */
  lemma ListingShowsListedOnce(db: Db, categoryFilter: Value)
    requires Distinct(CategoryIds(db.categories))
    ensures var listed := ListedRows(db.products, categoryFilter);
      && |Listing(db, categoryFilter)| == |listed|
      && forall i :: 0 <= i < |listed| ==>
           Listing(db, categoryFilter)[i] == JoinedView(listed[i], CategoryNameOf(db.categories, listed[i].categoryId))
    ensures forall v :: v in Listing(db, categoryFilter) ==>
      v.status == ON && (Truthy(categoryFilter) ==> categoryFilter == Int(v.categoryId))
  {
    var listed := ListedRows(db.products, categoryFilter);
    JoinIsOneToOne(listed, db.categories);
  }

  /** `getProductListing`: the joined rows of the listed products, or "not found". */
  function GetProductListing(db: Db, categoryFilter: Value, engine: Engine): (e: Envelope)
    ensures engine.Failing? ==> e == CategoryModel.EngineFault(engine)
    ensures !engine.Failing? ==> StatusOf(e) == Some(SUCCESS) && e.code == HTTP_OK
    ensures !engine.Failing? ==>
      (Member(e, "data").Some? <==> exists p :: p in db.products && Listed(p, categoryFilter))
    ensures !engine.Failing? && Member(e, "data").Some? ==> e.body["data"] == ProductListJson(Listing(db, categoryFilter))
  {
    if engine.Failing? then CategoryModel.EngineFault(engine)
    else
      var listed := ListedRows(db.products, categoryFilter);
      assert |listed| > 0 ==> listed[0] in listed;
      Fetch(|Listing(db, categoryFilter)| > 0, PRODUCT_FETCHED, PRODUCT_NOT_FOUND, ProductListJson(Listing(db, categoryFilter)))
  }

  /** `getProductByID`: the first joined row of the product with the
      requested id, whatever its status, or "not found". */
  function GetProductById(db: Db, id: Value, engine: Engine): (e: Envelope)
    ensures engine.Failing? ==> e == CategoryModel.EngineFault(engine)
    ensures !engine.Failing? ==> StatusOf(e) == Some(SUCCESS) && e.code == HTTP_OK
    ensures !engine.Failing? ==> (Member(e, "data").Some? <==> exists p :: p in db.products && id == Int(p.id))
    ensures !engine.Failing? && Member(e, "data").Some? ==>
      && FirstIndex(ProductIds(db.products), id).Some?
      && var p := db.products[FirstIndex(ProductIds(db.products), id).value];
         e.body["data"] == ProductJson(JoinedView(p, CategoryNameOf(db.categories, p.categoryId)))
  {
    if engine.Failing? then CategoryModel.EngineFault(engine)
    else
      var found := RowsWithId(db.products, id);
      var rows := LeftJoin(found, db.categories);
      assert |found| > 0 ==> found[0] in found;
      if |rows| > 0 then
        assert rows[0] in rows;
        Fetch(true, PRODUCT_FETCHED, PRODUCT_NOT_FOUND, ProductJson(rows[0]))
      else Fetch(false, PRODUCT_FETCHED, PRODUCT_NOT_FOUND, JNull)
  }
}
