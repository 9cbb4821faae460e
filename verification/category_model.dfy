/** `CategoryManagementModel`: the insert and update handlers behind the
    category routes and the three read queries. Every handler turns an
    engine failure into the internal-server-error envelope; reads never
    change the store, so they answer an envelope alone. */
module CategoryModel {
  import opened Wrappers
  import opened Values
  import opened Schema
  import opened ApiResponse

  /** The columns the listing and the lookup select. */
  function View(c: Category): CategoryView {
    CategoryView(c.id, c.name, c.image, c.status)
  }

  /** The columns the dropdown selects. */
  function Entry(c: Category): DropdownItem {
    DropdownItem(c.id, c.name)
  }

  /** `where('status', 'ON')`: the rows that are switched on, in table order. */
  function ActiveRows(cs: seq<Category>): (active: seq<Category>)
    ensures |active| <= |cs|
    ensures forall c :: c in active <==> c in cs && c.status == ON
    ensures forall c :: multiset(active)[c] == if c.status == ON then multiset(cs)[c] else 0
    ensures SubsequenceOf(active, cs)
  {
    if |cs| == 0 then []
    else
      var rest := ActiveRows(cs[1..]);
      assert cs == [cs[0]] + cs[1..];
      assert forall c :: c in cs <==> c == cs[0] || c in cs[1..];
      if cs[0].status == ON then [cs[0]] + rest else rest
  }

  /** The listing's columns of each row, in order. */
  function Views(cs: seq<Category>): (vs: seq<CategoryView>)
    ensures |vs| == |cs|
    ensures forall i :: 0 <= i < |cs| ==> vs[i] == View(cs[i])
  {
    seq(|cs|, i requires 0 <= i < |cs| => View(cs[i]))
  }

  /** The dropdown's columns of each row, in order. */
  function Entries(cs: seq<Category>): (items: seq<DropdownItem>)
    ensures |items| == |cs|
    ensures forall i :: 0 <= i < |cs| ==> items[i] == Entry(cs[i])
  {
    seq(|cs|, i requires 0 <= i < |cs| => Entry(cs[i]))
  }

  /** Every row has its view in `Views` and every view comes from a row. */
  lemma ViewsCover(cs: seq<Category>)
    ensures forall c :: c in cs ==> View(c) in Views(cs)
    ensures forall v :: v in Views(cs) ==> exists c :: c in cs && View(c) == v
  {
    var vs := Views(cs);
    forall c | c in cs ensures View(c) in vs {
      var i :| 0 <= i < |cs| && cs[i] == c;
      assert vs[i] == View(c);
    }
    forall v | v in vs ensures exists c :: c in cs && View(c) == v {
      var i := IndexOf(vs, v);
      assert cs[i] in cs;
    }
  }

  /** Every row has its entry in `Entries` and every entry comes from a row. */
  lemma EntriesCover(cs: seq<Category>)
    ensures forall c :: c in cs ==> Entry(c) in Entries(cs)
    ensures forall d :: d in Entries(cs) ==> exists c :: c in cs && Entry(c) == d
  {
    var items := Entries(cs);
    forall c | c in cs ensures Entry(c) in items {
      var i :| 0 <= i < |cs| && cs[i] == c;
      assert items[i] == Entry(c);
    }
    forall d | d in items ensures exists c :: c in cs && Entry(c) == d {
      var i := IndexOf(items, d);
      assert cs[i] in cs;
    }
  }

  /** The rows `getCategoryListing` returns: the switched-on rows, in table
      order, one view each. */
  function Listing(db: Db): (vs: seq<CategoryView>)
    ensures forall c :: c in db.categories && c.status == ON ==> View(c) in vs
    ensures forall v :: v in vs ==> v.status == ON && exists c :: c in db.categories && View(c) == v
    ensures vs == [] <==> forall c :: c in db.categories ==> c.status == OFF
    ensures |vs| == |ActiveRows(db.categories)|
    ensures forall i :: 0 <= i < |vs| ==> vs[i] == View(ActiveRows(db.categories)[i])
  {
    var active := ActiveRows(db.categories);
    ViewsCover(active);
    Views(active)
  }

  /** Position of a member of a sequence. */
  function IndexOf<T(==)>(s: seq<T>, x: T): (i: nat)
    requires x in s
    ensures i < |s| && s[i] == x
  {
    if s[0] == x then 0 else 1 + IndexOf(s[1..], x)
  }

  /** The rows `getCategoryDropdown` returns: the switched-on rows, in table
      order, one entry each. */
  function Dropdown(db: Db): (items: seq<DropdownItem>)
    ensures forall c :: c in db.categories && c.status == ON ==> Entry(c) in items
    ensures forall d :: d in items ==> exists c :: c in db.categories && c.status == ON && Entry(c) == d
    ensures items == [] <==> forall c :: c in db.categories ==> c.status == OFF
    ensures |items| == |ActiveRows(db.categories)|
    ensures forall i :: 0 <= i < |items| ==> items[i] == Entry(ActiveRows(db.categories)[i])
  {
    var active := ActiveRows(db.categories);
    EntriesCover(active);
    Entries(active)
  }

  /** The envelope of a query the engine fails. */
  function EngineFault(engine: Engine): (e: Envelope)
    requires engine.Failing?
    ensures StatusOf(e) == Some(FAIL) && e.code == HTTP_INTERNAL_SERVER_ERROR
    ensures Member(e, "error_message") == Some(FaultJson(EngineDown(engine.detail)))
  {
    InternalServerError(Some(EngineDown(engine.detail)))
  }

  // ------------------------------------------------------------- writes

  /** `insertCategory`: create the row and answer its new id under
      `category_id`; a falsy create answers 400 with CATEGORY_FAILED; any
      fault answers 500 with the fault as detail. Only a success changes
      the store. */
  function InsertCategory(db: Db, data: Input, engine: Engine): (r: Reply)
    ensures r.response.Some?
    ensures Succeeded(r) <==> engine == Available && CreateCategoryRow(db, data).Ok?
    ensures !Succeeded(r) ==> r.db == db
    ensures Succeeded(r) ==>
      && r.db == CreateCategoryRow(db, data).value.1
      && Member(r.response.value, "category_id") == Some(IdJson(db.lastCategoryId + 1))
      && MessageOf(r.response.value) == Some(Localized(CATEGORY_INSERTED))
    ensures engine.Failing? ==> r.response == Some(EngineFault(engine))
    ensures engine == Refusing ==> r.response == Some(Error(Localized(CATEGORY_FAILED), HTTP_BAD_REQUEST))
    ensures engine == Available && CreateCategoryRow(db, data).Err? ==>
      r.response == Some(InternalServerError(Some(CreateCategoryRow(db, data).error)))
  {
    match engine
    case Failing(_) => Reply(Some(EngineFault(engine)), db)
    case Refusing => Reply(Some(Error(Localized(CATEGORY_FAILED), HTTP_BAD_REQUEST)), db)
    case Available =>
      match CreateCategoryRow(db, data)
      case Err(fault) => Reply(Some(InternalServerError(Some(fault))), db)
      case Ok((row, db')) => Reply(Some(Success(Localized(CATEGORY_INSERTED), Some("category_id"), IdJson(row.id))), db')
  }

  /** `find($data['id'])`: the position of the row the data's id names. */
  function Located(db: Db, data: Input): (i: Option<nat>)
    ensures i.Some? ==> "id" in data && i.value < |db.categories| && data["id"] == Int(db.categories[i.value].id)
    ensures i.None? <==> "id" !in data || forall j :: 0 <= j < |db.categories| ==> data["id"] != Int(db.categories[j].id)
  {
    if "id" in data then FirstIndex(CategoryIds(db.categories), data["id"]) else None
  }

  /** `updateCategory`: merge the data into the row with the data's id and
      echo that id under `category_id`. Reading a missing `id` key is a fault
      (500); an id that names no row falls through the method, which answers
      nothing. Only a success changes the store. */
  function UpdateCategory(db: Db, data: Input, engine: Engine): (r: Reply)
    ensures r.response.None? <==> !engine.Failing? && "id" in data && Located(db, data).None?
    ensures Succeeded(r) <==>
      !engine.Failing? && Located(db, data).Some? && UpdateCategoryRow(db, Located(db, data).value, data).Ok?
    ensures !Succeeded(r) ==> r.db == db
    ensures Succeeded(r) ==>
      && r.db == UpdateCategoryRow(db, Located(db, data).value, data).value
      && Member(r.response.value, "category_id") == Some(IdJson(data["id"].i))
      && MessageOf(r.response.value) == Some(Localized(CATEGORY_UPDATED))
    ensures engine.Failing? ==> r.response == Some(EngineFault(engine))
    ensures !engine.Failing? && "id" !in data ==> r.response == Some(InternalServerError(Some(UndefinedIndex("id"))))
  {
    if engine.Failing? then Reply(Some(EngineFault(engine)), db)
    else if "id" !in data then Reply(Some(InternalServerError(Some(UndefinedIndex("id")))), db)
    else match Located(db, data)
      case None => Reply(None, db)
      case Some(i) =>
        match UpdateCategoryRow(db, i, data)
        case Err(fault) => Reply(Some(InternalServerError(Some(fault))), db)
        case Ok(db') => Reply(Some(Success(Localized(CATEGORY_UPDATED), Some("category_id"), IdJson(data["id"].i))), db')
  }

  // -------------------------------------------------------------- reads

  /** `getCategoryListing`: the switched-on categories, or "not found". */
  function GetCategoryListing(db: Db, engine: Engine): (e: Envelope)
    ensures engine.Failing? ==> e == EngineFault(engine)
    ensures !engine.Failing? ==> StatusOf(e) == Some(SUCCESS) && e.code == HTTP_OK
    ensures !engine.Failing? ==> (Member(e, "data").Some? <==> exists c :: c in db.categories && c.status == ON)
    ensures !engine.Failing? && Member(e, "data").Some? ==> e.body["data"] == CategoryListJson(Listing(db))
  {
    if engine.Failing? then EngineFault(engine)
    else Fetch(|Listing(db)| > 0, CATEGORY_FETCHED, CATEGORY_NOT_FOUND, CategoryListJson(Listing(db)))
  }

  /** `getCategoryByID`: the first row with the requested id, whatever its
      status, or "not found". */
  function GetCategoryById(db: Db, id: Value, engine: Engine): (e: Envelope)
    ensures engine.Failing? ==> e == EngineFault(engine)
    ensures !engine.Failing? ==> StatusOf(e) == Some(SUCCESS) && e.code == HTTP_OK
    ensures !engine.Failing? ==>
      (Member(e, "data").Some? <==> exists i :: 0 <= i < |db.categories| && id == Int(db.categories[i].id))
    ensures !engine.Failing? && Member(e, "data").Some? ==>
      exists i :: 0 <= i < |db.categories| && id == Int(db.categories[i].id) && e.body["data"] == CategoryJson(View(db.categories[i]))
  {
    if engine.Failing? then EngineFault(engine)
    else match FirstIndex(CategoryIds(db.categories), id)
      case Some(i) => Fetch(true, CATEGORY_FETCHED, CATEGORY_NOT_FOUND, CategoryJson(View(db.categories[i])))
      case None => Fetch(false, CATEGORY_FETCHED, CATEGORY_NOT_FOUND, JNull)
  }

  /** `getCategoryDropdown`: id and name of the switched-on categories, or "not found". */
  function GetCategoryDropdown(db: Db, engine: Engine): (e: Envelope)
    ensures engine.Failing? ==> e == EngineFault(engine)
    ensures !engine.Failing? ==> StatusOf(e) == Some(SUCCESS) && e.code == HTTP_OK
    ensures !engine.Failing? ==> (Member(e, "data").Some? <==> exists c :: c in db.categories && c.status == ON)
    ensures !engine.Failing? && Member(e, "data").Some? ==> e.body["data"] == DropdownJson(Dropdown(db))
  {
    if engine.Failing? then EngineFault(engine)
    else Fetch(|Dropdown(db)| > 0, CATEGORY_FETCHED, CATEGORY_NOT_FOUND, DropdownJson(Dropdown(db)))
  }
}
