/** The part of Laravel's validator the request classes use: each field has a
    presence rule (`required` or `nullable`) and a list of further checks.
    A `required` field that is missing or null fails with `Missing` and is
    not checked further; a `nullable` field that is missing or null is not
    checked at all; otherwise every check runs (no rule set here uses
    `bail`) and each failing one is reported under the field's name. */
module Validation {
  import opened Wrappers
  import opened Text
  import opened Values
  import opened Schema
  import CheckUnique

  datatype Presence = Required | Nullable

  datatype Table = CategoryTable | ProductTable

  datatype Check =
    | IsString                        // string
    | IsInteger                       // integer
    | IsFile                          // file
    | IsImage                         // image
    | Mimes(extensions: set<string>)  // mimes:...
    | Max(limit: nat)                 // max:n
    | In(options: set<string>)        // in:...
    | Exists(table: Table)            // exists:<table>,id
    | Unique(table: Table, rule: CheckUnique.Rule)  // uniqueness of the table's name column

  datatype FieldRule = FieldRule(field: string, presence: Presence, checks: seq<Check>)

  datatype Failure = Missing | Broke(check: Check)

  /** Field-keyed failures, as `$validator->errors()` groups them. */
  type Errors = map<string, seq<Failure>>

  /** PHP's integer range on a 64-bit build. */
  const PhpIntMin: int := -0x8000_0000_0000_0000
  const PhpIntMax: int := 0x7FFF_FFFF_FFFF_FFFF

  /** Laravel's `integer` rule (`FILTER_VALIDATE_INT`): an integer that a PHP
      integer can hold. */
  predicate PhpInt(v: Value) {
    v.Int? && PhpIntMin <= v.i <= PhpIntMax
  }

  /** The client extensions `mimes` refuses whatever the content, unless the
      rule lists "php" itself (`shouldBlockPhpUpload`). */
  const PhpExtensions: set<string> := {"php", "php3", "php4", "php5", "php7", "php8", "phtml", "phar"}

  /** The upload's client extension, trimmed and lower-cased, is a PHP one. */
  predicate PhpUpload(u: Upload) {
    Trim(AsciiLower(u.clientExtension)) in PhpExtensions
  }

  /** `mimes:...`: a file that is not a blocked PHP upload and whose
      content-guessed extension is listed. */
  predicate MimesAccept(v: Value, extensions: set<string>) {
    v.File? && ("php" in extensions || !PhpUpload(v.upload)) && v.upload.guessedExtension in extensions
  }

  /** A PHP upload fails `image` and every `mimes` list without "php",
      whatever its content. */
  lemma PhpUploadsRefused(u: Upload, extensions: set<string>, numeric: bool, db: Db)
    requires PhpUpload(u) && "php" !in extensions
    ensures !Holds(Mimes(extensions), File(u), numeric, db)
    ensures !Holds(IsImage, File(u), numeric, db)
  {
    assert !MimesAccept(File(u), extensions);
    assert "php" !in ImageExtensions;
    assert !MimesAccept(File(u), ImageExtensions);
  }

  /** The block reads the client extension case-blind and ignores
      surrounding blanks: "PHP " counts, whatever the content says. */
  lemma {:induction false} BlockIgnoresCaseAndBlanks(guessed: string, size: nat)
    ensures PhpUpload(Upload("PHP ", guessed, size))
  {
    var lower := AsciiLower("PHP ");
    AsciiLowerAt("PHP ", 0);
    AsciiLowerAt("PHP ", 1);
    AsciiLowerAt("PHP ", 2);
    AsciiLowerAt("PHP ", 3);
    assert lower == "php ";
    assert lower[..3] == "php";
    assert Trim(lower) == Trim("php") == "php";
  }

  /** The extensions Laravel's `image` rule accepts. */
  const ImageExtensions: set<string> := {"jpg", "jpeg", "png", "gif", "bmp", "svg", "webp"}

  /** The rows a uniqueness check reads: the name column, and the
      `category_id` scope for products. */
  function UniqueRows(table: Table, db: Db): (rows: seq<CheckUnique.ScopedRow>)
    ensures table == CategoryTable ==> (
      && |rows| == |db.categories|
      && forall i :: 0 <= i < |rows| ==> rows[i] == CheckUnique.ScopedRow(db.categories[i].id, db.categories[i].name, Null))
    ensures table == ProductTable ==> (
      && |rows| == |db.products|
      && forall i :: 0 <= i < |rows| ==> rows[i] == CheckUnique.ScopedRow(db.products[i].id, db.products[i].name, Int(db.products[i].categoryId)))
  {
    match table
    case CategoryTable =>
      seq(|db.categories|, i requires 0 <= i < |db.categories| =>
        CheckUnique.ScopedRow(db.categories[i].id, db.categories[i].name, Null))
    case ProductTable =>
      seq(|db.products|, i requires 0 <= i < |db.products| =>
        CheckUnique.ScopedRow(db.products[i].id, db.products[i].name, Int(db.products[i].categoryId)))
  }

  function TableIds(table: Table, db: Db): seq<nat> {
    match table
    case CategoryTable => CategoryIds(db.categories)
    case ProductTable => ProductIds(db.products)
  }

  /** Laravel's `max:n`: the number itself for a field with a numeric rule,
      the character count of a string, kilobytes of a file. */
  predicate SizeWithin(v: Value, limit: nat, numeric: bool) {
    match v
    case Int(i) => if numeric then i <= limit else |IntToString(i)| <= limit
    case Str(s) => |s| <= limit
    case File(u) => u.sizeBytes <= limit * 1024
    case Null => true
  }

  /** Whether one check accepts a present, non-null value. */
  predicate Holds(check: Check, v: Value, numeric: bool, db: Db) {
    match check
    case IsString => v.Str?
    case IsInteger => PhpInt(v)
    case IsFile => v.File?
    case IsImage => MimesAccept(v, ImageExtensions)
    case Mimes(extensions) => MimesAccept(v, extensions)
    case Max(limit) => SizeWithin(v, limit, numeric)
    case In(options) =>
      (match v
       case Str(s) => s in options
       case Int(i) => IntToString(i) in options
       case _ => false)
    case Exists(table) => FirstIndex(TableIds(table, db), v).Some?
    case Unique(table, rule) => CheckUnique.Passes(UniqueRows(table, db), v, rule)
  }

  /** The failing checks, in rule order. */
  function Broken(checks: seq<Check>, v: Value, numeric: bool, db: Db): (r: seq<Failure>)
    ensures r == [] <==> forall i :: 0 <= i < |checks| ==> Holds(checks[i], v, numeric, db)
    ensures forall f :: f in r ==> f.Broke? && f.check in checks && !Holds(f.check, v, numeric, db)
  {
    if |checks| == 0 then []
    else
      var rest := Broken(checks[1..], v, numeric, db);
      assert forall c :: c in checks[1..] ==> c in checks;
      if Holds(checks[0], v, numeric, db) then rest else [Broke(checks[0])] + rest
  }

  /** Everything reported against one field. */
  function FieldFailures(rule: FieldRule, input: Input, db: Db): (r: seq<Failure>)
    ensures Field(input, rule.field).Null? ==> (r == [] <==> rule.presence == Nullable)
    ensures !Field(input, rule.field).Null? ==>
      (r == [] <==> forall i :: 0 <= i < |rule.checks| ==> Holds(rule.checks[i], input[rule.field], IsInteger in rule.checks, db))
    ensures Field(input, rule.field).Null? && rule.presence == Required ==> r == [Missing]
  {
    if Field(input, rule.field).Null? then
      if rule.presence == Required then [Missing]
      else
        assert rule.presence == Nullable;
        []
    else Broken(rule.checks, input[rule.field], IsInteger in rule.checks, db)
  }

  /** The verdict on one field with up to three checks, spelled out check by check. */
  lemma FieldVerdict(rule: FieldRule, input: Input, db: Db)
    requires 1 <= |rule.checks| <= 3
    ensures Field(input, rule.field).Null? ==> (FieldFailures(rule, input, db) == [] <==> rule.presence == Nullable)
    ensures !Field(input, rule.field).Null? ==>
      var v := Field(input, rule.field);
      var numeric := IsInteger in rule.checks;
      (FieldFailures(rule, input, db) == [] <==>
        && Holds(rule.checks[0], v, numeric, db)
        && (|rule.checks| > 1 ==> Holds(rule.checks[1], v, numeric, db))
        && (|rule.checks| > 2 ==> Holds(rule.checks[2], v, numeric, db)))
  {
  }

  /** The error bag: every field with at least one failure. */
  function ErrorsOf(rules: seq<FieldRule>, input: Input, db: Db): (r: Errors)
    ensures r == map[] <==> forall i :: 0 <= i < |rules| ==> FieldFailures(rules[i], input, db) == []
    ensures forall k :: k in r ==> r[k] != [] && k in Fields(rules)
  {
    if |rules| == 0 then map[]
    else
      var rest := ErrorsOf(rules[1..], input, db);
      var failures := FieldFailures(rules[0], input, db);
      assert Fields(rules[1..]) <= Fields(rules) by {
        forall k | k in Fields(rules[1..]) ensures k in Fields(rules) {
          var i :| 0 <= i < |rules[1..]| && rules[1..][i].field == k;
          assert rules[i + 1].field == k;
        }
      }
      if failures == [] then
        assert forall i :: 1 <= i < |rules| ==> rules[i] == rules[1..][i - 1];
        rest
      else
        assert rules[0].field in Fields(rules);
        var r := rest[rules[0].field := failures];
        assert rules[0].field in r;
        r
  }

  function Fields(rules: seq<FieldRule>): set<string> {
    set i | 0 <= i < |rules| :: rules[i].field
  }

  /** `$request->validated()`: the input restricted to the fields that have rules. */
  function Validated(rules: seq<FieldRule>, input: Input): (data: Input)
    ensures forall k :: k in data <==> k in input && k in Fields(rules)
    ensures forall k :: k in data ==> data[k] == input[k]
  {
    map k | k in input && k in Fields(rules) :: input[k]
  }

  /** The verdict of a run over a fixed number of fields, field by field. */
  lemma RunVerdict(rules: seq<FieldRule>, input: Input, db: Db)
    requires 1 <= |rules| <= 6
    ensures Validate(rules, input, db).Ok? <==>
      && FieldFailures(rules[0], input, db) == []
      && (|rules| > 1 ==> FieldFailures(rules[1], input, db) == [])
      && (|rules| > 2 ==> FieldFailures(rules[2], input, db) == [])
      && (|rules| > 3 ==> FieldFailures(rules[3], input, db) == [])
      && (|rules| > 4 ==> FieldFailures(rules[4], input, db) == [])
      && (|rules| > 5 ==> FieldFailures(rules[5], input, db) == [])
  {
  }

  /** A validation run: the validated data, or the non-empty error bag. */
  function Validate(rules: seq<FieldRule>, input: Input, db: Db): (r: Result<Input, Errors>)
    ensures r.Ok? <==> forall i :: 0 <= i < |rules| ==> FieldFailures(rules[i], input, db) == []
    ensures r.Ok? ==> r.value == Validated(rules, input)
    ensures r.Err? ==> r.error != map[] && r.error.Keys <= Fields(rules)
  {
    var errors := ErrorsOf(rules, input, db);
    if errors == map[] then Ok(Validated(rules, input)) else Err(errors)
  }
}
