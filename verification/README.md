# Category and product catalogue: the validated write path and the read queries

This project models the core of a small Laravel catalogue API in Dafny. The
API has categories and products. Each product belongs to a category, and both
can be switched `ON` or `OFF`. The two database tables are pure values:
sequences of records plus the AUTO_INCREMENT counters. Every route is a pure
function from a store and a request to a reply and a new store. A reply is an
optional JSON envelope and the store after the call.

The modules follow the source files:

- `CheckUnique` models the scoped uniqueness rule (`CheckUnique::passes`). It
  only issues an `exists` query, so it is a predicate over the rows and cannot
  change the table.
- `Validation` is the part of Laravel's validator the rule sets use:
  - `required` and `nullable` presence;
  - the checks `string`, `integer`, `image`, `mimes`, `max`, `in`, `exists`
    and `unique`;
  - every check runs (there is no `bail`);
  - `validated()` keeps the ruled fields that are present.
- `Requests` holds the two FormRequests. The rule set is chosen from the
  request path, and the model proves which rules each route gets and exactly
  which requests each rule set accepts.
- `Schema` is the two migrations: column types and lengths, the unique category
  name, the `ON`/`OFF` enum with its default, and the foreign key. It also
  holds Eloquent's fill of the `$fillable` attributes and the storage side of
  `create` and `update`.
- `CategoryModel` and `ProductModel` are the Eloquent models: the
  insert/update handlers and the listing, lookup and dropdown queries. The
  product listing includes the status and category filter and the left join.
- `CategoryController` and `ProductController` cover:
  - the `max(id)+1` image folder on insert and the request-id folder on
    update;
  - image replacement only when a file is attached;
  - the inline validators of `getProduct` and `getProductDataByID`.
- `FileUpload` and `ApiResponse` are the two helpers: the stored image path,
  and the response envelopes.
- `Properties` relates the routes across calls:
  - the store stays well formed;
  - a created row reads back;
  - an update leaves alone the fields it was not given;
  - a switched-off category leaves the listing and the dropdown, and a
    switched-off product leaves the product listing;
  - the two places where the code's guarantees stop.

Three things the code takes from outside are parameters:

- the database engine. `Available` works, `Refusing` makes `create` return a
  falsy value, and `Failing(detail)` makes every query throw;
- the file system, which is writable or not;
- the `uniqid()` token.

Two gaps of the source are modelled as they are, not asserted away:

- **The image folder can name a different id than the row gets.** The insert
  folder comes from `max(id)+1`, and the row gets the AUTO_INCREMENT counter.
  They agree while the counter is in sync (`Properties.InSyncFolderNamesTheRow`).
  They differ once rows have been removed from the top of the table
  (`Properties.FolderIdCanDiffer`: the folder is `uplode/category/2`, the row
  gets id 4).
- **Per-category product-name uniqueness does not survive every update.** The
  update check is scoped by the request's `category_id`. When that field is
  omitted, the scope is null, which matches no product, so the check accepts
  any name. The model proves two such cases:
  - renaming a product to a name used in its own category
    (`Properties.RenameWithoutCategoryDuplicates`);
  - moving a product into a category that already holds its name, without
    sending the name (`Properties.MoveWithoutNameDuplicates`).

  An update that sends both the name and the category keeps names unique
  (`Properties.FullUpdateKeepsNamesUnique`).

The code infers the insert/update choice from the request path, by substring,
and the model follows the code. For example, a product path containing both "insert"
and "update" gets the create rules.

## Model

| member | source | states |
|---|---|---|
| CheckUnique.Passes | app/Rules/CheckUnique.php:73-84 | The rule passes exactly when no row has the value in the checked column and, if scoped, the given scope value, apart from the row whose id equals a truthy `exceptId`; a null scope matches only null |
| CheckUnique.SameValueSameScopeFails | app/Rules/CheckUnique.php:75-77 | Without an id to ignore, one row holding the same value in the same scope makes the rule fail |
| CheckUnique.OwnRowPasses | app/Rules/CheckUnique.php:79-81 | Ignoring a nonzero id k: if every row holding the value in the scope is row k, the rule passes, so a record can keep its own name |
| CheckUnique.OtherScopesIrrelevant | app/Rules/CheckUnique.php:77 | Adding rows from other scope values never changes the verdict |
| CheckUnique.FalsyExceptIdIgnoresNothing | app/Rules/CheckUnique.php:79 | A null or zero id to ignore excludes no row: the verdict is that of the rule without an exception, and fails exactly when some row matches value and scope |
| Requests.ProductRules | app/Http/Requests/ProductManagementRequest.php:28-36 | A rule set exists exactly when the path contains "insert" or "update"; with "insert" (tested first) it covers name, image, description and category id, all required; otherwise, with "update", it adds id and status, both required, and leaves name and category id optional |
| Requests.InsertProductRoute | app/Http/Requests/ProductManagementRequest.php:30-31 | The insert_product route gets the create rules |
| Requests.UpdateProductRoute | app/Http/Requests/ProductManagementRequest.php:32-33 | The update_product route gets the update rules |
| Requests.ProductCreateAcceptance | app/Http/Requests/ProductManagementRequest.php:37-50 | The create rules accept exactly: a name of at most 100 characters not used in the request's category, an upload of an accepted image type within 2048 KB whose client extension is not a PHP one, a description string, and an existing category id within PHP's 64-bit integer range |
| Requests.ProductUpdateAcceptance | app/Http/Requests/ProductManagementRequest.php:51-66 | The update rules accept exactly: an existing product id within PHP's 64-bit integer range and an ON/OFF status; name, image (never with a PHP client extension), description and category id each missing, null or well formed; a supplied name unused in the request's category (a null category matches nothing) apart from the request's own id |
| Requests.CategoryRules | app/Http/Requests/CategoryManagementRequest.php:31-55 | A path containing "update" gets rules for id, name, image, parent and status; failing that, one containing "get_category_by_id" gets the id alone; any other gets name, image and parent; the id is required exactly on the first two, the name exactly on the last, the status never |
| Requests.InsertCategoryRoute | app/Http/Requests/CategoryManagementRequest.php:49-54 | The insert_category route, holding neither "update" nor "get_category_by_id", gets the insert rules |
| Requests.UpdateCategoryRoute | app/Http/Requests/CategoryManagementRequest.php:31-44 | The update_category route gets the update rules |
| Requests.CategoryByIdRoute | app/Http/Requests/CategoryManagementRequest.php:45-48 | The get_category_by_id route gets the id-only rules |
| Requests.CategoryInsertAcceptance | app/Http/Requests/CategoryManagementRequest.php:49-54 | The insert rules accept exactly: a name of at most 100 characters that no category holds, an upload of an accepted image type within 2024 KB whose client extension is not a PHP one, and a parent that is missing, null or an integer within PHP's 64-bit range, with no existence check |
| Requests.CategoryUpdateAcceptance | app/Http/Requests/CategoryManagementRequest.php:31-44 | In a well-formed store the update rules accept exactly: an existing id; a supplied name held by no category except the one with the request's id; a well-formed image with no PHP client extension; an absent parent or an integer within PHP's 64-bit range; a supplied status of ON or OFF |
| Requests.NameFreeAmongCategories | app/Http/Requests/CategoryManagementRequest.php:39 | The unscoped name check with an ignored id passes exactly when every category holding the name has that id |
| Validation.Validate | app/Http/Requests/ProductManagementRequest.php:67-70 | Validation succeeds exactly when every field rule has no failure; success yields the validated data, failure a non-empty error map keyed by ruled fields |
| Validation.Validated | app/Http/Controllers/CategoryManagementController.php:33 | The validated data holds exactly the input fields that have a rule, with their input values |
| Validation.PhpUploadsRefused | app/Http/Requests/ProductManagementRequest.php:46 | An upload whose trimmed, lower-cased client extension is php, php3 to php8, phtml or phar fails both `image` and any `mimes` list that does not name php |
| Validation.BlockIgnoresCaseAndBlanks | app/Http/Requests/CategoryManagementRequest.php:52 | The PHP-upload block lower-cases and trims the client extension: "PHP " counts as a PHP extension |
| Validation.FieldFailures | app/Http/Requests/ProductManagementRequest.php:61-64 | A missing or null field fails only a required rule, with a single "missing" failure; a present field passes exactly when every check holds |
| Schema.FillCategory | app/Models/CategoryManagementModel.php:16-21 | Mass assignment never changes the id; each fillable field takes the stored form of the supplied value, or keeps its old value when not supplied |
| Schema.FillProduct | app/Models/ProductManagementModel.php:16-22 | Mass assignment never changes the id; each fillable field takes the stored form of the supplied value, or keeps its old value when not supplied; a description over 65,535 UTF-8 bytes is refused as too long |
| Schema.CreateCategoryRow | database/migrations/2025_07_30_145748_create_category_model_table.php:16-31 | A created category gets the next counter id and is appended; a missing name is an error; unsupplied columns take the defaults (no image, no parent, ON); creation succeeds exactly when the name is not already held |
| Schema.UpdateCategoryRow | database/migrations/2025_07_30_145748_create_category_model_table.php:18-20 | An update rewrites only the row at i with the merged values, and succeeds exactly when no other row holds the merged name |
| Schema.CreateProductRow | database/migrations/2025_07_31_140230_create_product_model_table.php:16-36 | A created product gets the next counter id and is appended; name, description and category id have no default; the category id must name an existing category; a description over 65,535 UTF-8 bytes is refused as too long |
| Schema.UpdateProductRow | database/migrations/2025_07_31_140230_create_product_model_table.php:26-35 | An update rewrites only the row at i with the merged values, whose category id must exist and whose description must fit the 65,535-byte `text` column |
| Schema.StatusColumn | database/migrations/2025_07_30_145748_create_category_model_table.php:27-29 | The status column stores ON exactly for "ON" and OFF exactly for "OFF" |
| Schema.VarChar | database/migrations/2025_07_30_145748_create_category_model_table.php:18-20 | A stored string never exceeds the column length; a string is stored exactly when it fits; null is refused |
| Schema.LongText | database/migrations/2025_07_31_140230_create_product_model_table.php:24-25 | A stored description never exceeds 65,535 UTF-8 bytes; a string is stored exactly when it fits, and a longer one is refused as too long (strict mode); null is refused |
| Schema.Unsigned | database/migrations/2025_07_31_140230_create_product_model_table.php:26-27 | An unsigned big integer column stores an integer exactly when it lies in 0..2^64-1; null and non-integers are refused |
| Schema.NullableUnsigned | database/migrations/2025_07_30_145748_create_category_model_table.php:24-26 | A nullable unsigned big integer column stores null as no value and an integer exactly when it lies in 0..2^64-1 |
| Schema.CreateCategoryRowKeepsWellFormed | database/migrations/2025_07_30_145748_create_category_model_table.php:16-31 | Creating a category keeps ids distinct, names unique, lengths within bounds and product references valid |
| Schema.UpdateCategoryRowKeepsWellFormed | database/migrations/2025_07_30_145748_create_category_model_table.php:18-20 | Updating a category keeps the store well formed |
| Schema.CreateProductRowKeepsWellFormed | database/migrations/2025_07_31_140230_create_product_model_table.php:26-35 | Creating a product keeps the store well formed, its category reference included |
| Schema.UpdateProductRowKeepsWellFormed | database/migrations/2025_07_31_140230_create_product_model_table.php:26-35 | Updating a product keeps the store well formed |
| CategoryModel.InsertCategory | app/Models/CategoryManagementModel.php:23-37 | Succeeds exactly when the engine works and the row can be created, answering the new id under `category_id`; a falsy create answers 400, a fault 500; only success changes the store |
| CategoryModel.UpdateCategory | app/Models/CategoryManagementModel.php:38-50 | Succeeds exactly when the id names a row and the merge fits, echoing the id under `category_id`; an unknown id answers nothing and a missing `id` key answers 500; only success changes the store |
| CategoryModel.Located | app/Models/CategoryManagementModel.php:41 | The row found has the data's id; none is found exactly when the id is missing or names no row |
| CategoryModel.ActiveRows | app/Models/CategoryManagementModel.php:55 | Exactly the rows with status ON, each as often as in the table and in table order (a subsequence of the table) |
| CategoryModel.Listing | app/Models/CategoryManagementModel.php:54-56 | One entry per ON row, in table order, projected to id, name, image and status; nothing else appears; the listing is empty exactly when every category is OFF |
| CategoryModel.Dropdown | app/Models/CategoryManagementModel.php:88-90 | One entry per ON row, in table order, as id and name, and nothing else; empty exactly when every category is OFF |
| CategoryModel.GetCategoryListing | app/Models/CategoryManagementModel.php:51-67 | A 200 success that carries data exactly when some category is ON, the data being the listing; a fault gives 500 |
| CategoryModel.GetCategoryById | app/Models/CategoryManagementModel.php:68-84 | A 200 success that carries data exactly when some row has the id, whatever its status, the data being that row's view; a fault gives 500 |
| CategoryModel.GetCategoryDropdown | app/Models/CategoryManagementModel.php:85-101 | A 200 success that carries data exactly when some category is ON, the data being the dropdown; a fault gives 500 |
| ProductModel.InsertProduct | app/Models/ProductManagementModel.php:24-38 | Succeeds exactly when the engine works and the row can be created, answering the new id under `product_id`; a falsy create answers 400, a fault 500; only success changes the store |
| ProductModel.UpdateProduct | app/Models/ProductManagementModel.php:39-51 | Succeeds exactly when the id names a row and the merge fits, echoing the id under `product_id`; an unknown id answers nothing; only success changes the store |
| ProductModel.ListedRows | app/Models/ProductManagementModel.php:57-60 | Exactly the ON products, and with a truthy filter only those of that category, each as often as in the table and in table order; a falsy filter applies no category condition |
| ProductModel.RowsWithId | app/Models/ProductManagementModel.php:76-78 | Exactly the products with the id, in table order, each as often as in the table; the first is the first product carrying that id |
| ProductModel.Located | app/Models/ProductManagementModel.php:42 | The row found is the first with the data's id; none is found exactly when the id is missing or names no row |
| ProductModel.JoinOne | app/Models/ProductManagementModel.php:56 | A left join never drops a product: it yields at least one row per product, and the product alone with a null name exactly when no category matches |
| ProductModel.LeftJoin | app/Models/ProductManagementModel.php:55-56 | No product is dropped: at least one row per product, each carrying a product's id, status and category id; the first row is the first product joined to its category's name |
| ProductModel.JoinIsOneToOne | app/Models/ProductManagementModel.php:55-56 | With unique category ids, the left join yields each product once, in order, with its category's name, or null when there is none |
| ProductModel.ListingShowsListedOnce | app/Models/ProductManagementModel.php:52-72 | The listing shows every listed product once, in table order, joined to its category's name, and nothing switched off or outside a requested category |
| ProductModel.Listing | app/Models/ProductManagementModel.php:53-60 | At least one row per listed product, led by the first listed product; every row is ON, within a truthy category filter, and belongs to a product of the table |
| ProductModel.GetProductListing | app/Models/ProductManagementModel.php:52-72 | A 200 success that carries data exactly when some product is listed under the filter, the data being the joined listing; a fault gives 500 |
| ProductModel.GetProductById | app/Models/ProductManagementModel.php:73-90 | A 200 success that carries data exactly when some product has the id, whatever its status, the data being the first product with that id joined to its category's name; a fault gives 500 |
| CategoryController.NextDirectoryId | app/Http/Controllers/CategoryManagementController.php:35-36 | The folder id is at least 1 and above every id; it is 1 or one past an existing id |
| CategoryController.InsertFolder | app/Http/Controllers/CategoryManagementController.php:35-39 | The insert folder is the category destination followed by the decimal text of the `max(id)+1` folder id, which reads back as that id |
| CategoryController.UpdateFolder | app/Http/Controllers/CategoryManagementController.php:80-84 | The update folder is the category destination followed by the request's id: its decimal text when a non-negative integer, the string itself when a string |
| CategoryController.PathSegment | app/Http/Controllers/CategoryManagementController.php:83 | A non-negative integer id interpolates as its decimal text, which reads back as the id; a string id interpolates as itself |
| CategoryController.InsertCategoryBody | app/Http/Controllers/CategoryManagementController.php:32-48 | Succeeds exactly when the engine works, the image is saved under the `max(id)+1` folder and the row with the stored path can be created; the result is then the model insert of that data; failures leave the store alone |
| CategoryController.InsertCategoryData | app/Http/Controllers/CategoryManagementController.php:30-49 | A request the insert rules reject answers their 422 envelope and changes nothing; an accepted one runs the insert body on the validated data |
| CategoryController.UpdateCategoryBody | app/Http/Controllers/CategoryManagementController.php:77-92 | Without a file the data goes to the model update unchanged; otherwise success means the image was saved under the request-id folder and the model update of the data with the stored path succeeded |
| CategoryController.UpdateCategoryData | app/Http/Controllers/CategoryManagementController.php:75-93 | A request the update rules reject answers their 422 envelope and changes nothing; an accepted one runs the update body on the validated data |
| CategoryController.GetCategoryDataById | app/Http/Controllers/CategoryManagementController.php:138-145 | A rejected id answers the 422 envelope; an accepted one answers the lookup by that id |
| ProductController.InsertFolder | app/Http/Controllers/ProductManagementController.php:37-41 | The insert folder is the product destination followed by the decimal text of the `max(id)+1` folder id, which reads back as that id |
| ProductController.UpdateFolder | app/Http/Controllers/ProductManagementController.php:84-87 | The update folder is the product destination followed by the request's id: its decimal text when a non-negative integer, the string itself when a string |
| ProductController.InsertProductBody | app/Http/Controllers/ProductManagementController.php:34-50 | Succeeds exactly when the engine works, the image is saved under the `max(id)+1` product folder and the row can be created; the result is then the model insert of that data |
| ProductController.InsertProductData | app/Http/Controllers/ProductManagementController.php:32-51 | A request the create rules reject answers their 422 envelope and changes nothing; an accepted one runs the insert body on the validated data |
| ProductController.UpdateProductBody | app/Http/Controllers/ProductManagementController.php:81-96 | Without a file the data goes to the model update unchanged; otherwise success means the image was saved under the request-id folder and the model update succeeded |
| ProductController.UpdateProductData | app/Http/Controllers/ProductManagementController.php:79-97 | A request the update rules reject answers their 422 envelope and changes nothing; an accepted one runs the update body on the validated data |
| ProductController.GetProduct | app/Http/Controllers/ProductManagementController.php:124-137 | The answer is 422 exactly when a category id is supplied and names no category; otherwise it is the listing filtered by that id; a fault gives 500 |
| ProductController.GetProductDataById | app/Http/Controllers/ProductManagementController.php:169-182 | A missing id answers 422; with a working engine the answer is 422 exactly when the id names no product, and otherwise the lookup by that id; a fault on a supplied id gives 500 |
| FileUpload.Destination | app/Http/Helpers/FileUploadHelper.php:9-16 | Exactly two folders, category at "uplode/category/" and product at "uplode/product/", each ending in "/" |
| FileUpload.FileName | app/Http/Helpers/FileUploadHelper.php:41-43 | The file name is "/", the module name, with the unique part on "_" and the token, then "." and the extension, and its length is the sum of those parts |
| FileUpload.FileNameSeparatesTokens | app/Http/Helpers/FileUploadHelper.php:41-43 | With the unique part on, two different tokens give two different file names for the same module and extension |
| FileUpload.InsertImage | app/Http/Helpers/FileUploadHelper.php:39-52 | The save fails exactly when the file system refuses it; the stored path starts with path + "/" + module name and ends with "." + the client extension |
| FileUpload.ImageLandsInPath | app/Http/Helpers/FileUploadHelper.php:43-45 | The directory of the stored path is exactly the folder given |
| FileUpload.TokensSeparatePaths | app/Http/Helpers/FileUploadHelper.php:41-43 | With the unique part on, two saves get the same path exactly when their tokens are equal |
| FileUpload.WithoutTokenPathsCoincide | app/Http/Helpers/FileUploadHelper.php:41-43 | With the unique part off, the path holds nothing between module name and extension, so every upload with the same extension gets the same path |
| FileUpload.AttachImage | app/Http/Controllers/ProductManagementController.php:36-46 | Without an upload the data is unchanged; with one, the image field alone becomes the stored path, and the step fails exactly when the file system refuses the write |
| ApiResponse.Success | app/Http/Helpers/ApiResponseHelper.php:22-35 | A null or empty key gives only status and message; another key adds the data under that key; status is SUCCESS unless the key is "status" or "message" |
| ApiResponse.Error | app/Http/Helpers/ApiResponseHelper.php:47-53 | Status FAIL with the message and the given code, and nothing else |
| ApiResponse.ValidationError | app/Http/Helpers/ApiResponseHelper.php:70-77 | Status FAIL, "Validation failed.", the field errors, code 422 |
| ApiResponse.InternalServerError | app/Http/Helpers/ApiResponseHelper.php:95-102 | Status FAIL, the internal-error message, the detail under `error_message`, code 500 |
| ApiResponse.Fetch | app/Models/CategoryManagementModel.php:57-63 | A lookup answers 200 SUCCESS: with the fetched message and the data when found, with the not-found message and no data member otherwise |
| ApiResponse.FailuresNeverLookSuccessful | app/Http/Helpers/ApiResponseHelper.php:47-102 | No failure envelope has status SUCCESS or a data member |
| ApiResponse.StatusKeyOverwrites | app/Http/Helpers/ApiResponseHelper.php:30-34 | A payload under the key "status" replaces the status member |
| Properties.InsertCategoryDataKeepsWellFormed | app/Http/Controllers/CategoryManagementController.php:30-49 | The insert route keeps the store well formed: unique ids and names, fitting columns, valid references |
| Properties.UpdateCategoryDataKeepsWellFormed | app/Http/Controllers/CategoryManagementController.php:75-93 | The update route keeps the store well formed |
| Properties.InsertProductDataKeepsWellFormed | app/Http/Controllers/ProductManagementController.php:32-51 | The insert route keeps the store well formed |
| Properties.UpdateProductDataKeepsWellFormed | app/Http/Controllers/ProductManagementController.php:79-97 | The update route keeps the store well formed |
| Properties.CategoryInsertData | app/Http/Requests/CategoryManagementRequest.php:50-54 | Validated insert data never carries a status, and carries the name as sent |
| Properties.InsertedCategoryRow | app/Http/Controllers/CategoryManagementController.php:30-49 | A successful insert appends one row with the counter's next id, the name sent, status ON and the stored image path, answers that id, and leaves products alone |
| Properties.InsertedCategoryReadsBack | app/Models/CategoryManagementModel.php:68-84 | After a successful insert, the lookup by the answered id finds the new category with the sent name and status ON |
| Properties.FolderIdNeverAhead | app/Http/Controllers/CategoryManagementController.php:35-36 | The folder id never exceeds the id the counter will hand out next |
| Properties.InSyncFolderNamesTheRow | app/Http/Controllers/CategoryManagementController.php:35-39 | With the counter in sync with the largest id, the image folder is named after the created row's own id |
| Properties.FolderIdCanDiffer | app/Http/Controllers/CategoryManagementController.php:35-43 | In a store whose counter is ahead of its largest id, an accepted insert succeeds with id 4 while its image goes to folder 2 |
| Properties.InsertProductSuccessValidated | app/Http/Requests/ProductManagementRequest.php:37-50 | A successful product insert had an accepted request whose name was unused in its category |
| Properties.InsertedProductRow | app/Http/Controllers/ProductManagementController.php:32-51 | A successful product insert appends one row with the name and category sent |
| Properties.InsertedProductStored | app/Http/Controllers/ProductManagementController.php:32-51 | A successful product insert appends one row with the counter's next id, status ON and an existing category, answers that id, and leaves categories alone |
| Properties.InsertedProductReadsBack | app/Models/ProductManagementModel.php:73-90 | After a successful product insert, the lookup by the answered id finds the new product with the sent name and category, its category's name joined in, and status ON |
| Properties.InsertProductKeepsNamesUnique | app/Http/Requests/ProductManagementRequest.php:40-48 | Product inserts keep names unique within each category |
| Properties.UpdatedProductRow | app/Models/ProductManagementModel.php:39-51 | A successful product update rewrites only the row with the request's id: the id stays; the name, category, description and the required status sent land; an attached image becomes its stored path; and the fields not sent keep their values |
| Properties.SwitchedOffProductLeavesListing | app/Http/Controllers/ProductManagementController.php:63-68 | After a product is switched OFF, no product listing shows it, whatever the category filter, while the lookup by id still finds it |
| Properties.UpdatedCategoryRow | app/Models/CategoryManagementModel.php:38-50 | A successful category update rewrites only the row with the request's id: the id stays; the name (always a string), the parent and the status sent land; an attached image becomes its stored path and a null image clears it; and the fields not sent keep their values |
| Properties.SwitchedOffLeavesListings | app/Models/CategoryManagementModel.php:51-101 | After a category is switched OFF, neither the listing nor the dropdown shows it, while the lookup by id still finds it |
| Properties.FullUpdateKeepsNamesUnique | app/Http/Requests/ProductManagementRequest.php:55-60 | An update that sends both a name and a category keeps names unique within each category |
| Properties.ScopedCheckExcludesOthers | app/Rules/CheckUnique.php:73-84 | A passing check scoped by a category and ignoring row i means no other product of that category holds the name |
| Properties.RenameWithoutCategoryDuplicates | app/Http/Requests/ProductManagementRequest.php:59 | An accepted update renaming a product to a name used in its own category, without sending the category, succeeds and leaves two products of one category with the same name |
| Properties.MoveWithoutNameDuplicates | app/Http/Requests/ProductManagementRequest.php:55-60 | An accepted update moving a product into a category that holds its name, without sending the name, succeeds and duplicates the name in that category |
| Properties.SecondRowDuplicates | app/Http/Requests/ProductManagementRequest.php:55-64 | Any accepted update that gives the second product the first one's name and category succeeds and breaks per-category uniqueness |

## Left out

- Image decoding, the 100×59 resize, directory creation and the write itself
  are not modelled. The file system is a parameter that is either writable or
  refuses the write.
- `uniqid()` is not modelled; it is the `token` parameter.
- An upload is a record with a client extension, a guessed extension and a
  size. Real content and mime sniffing are not modelled.
- The framework's handler for faults inside a FormRequest is not modelled.
  The validation queries are taken to work even when the engine is failing.
- The framework's handler for a path that reaches the product request with
  neither "insert" nor "update" is not modelled. There `rules()` returns
  nothing, and the model gives no rule set.
- The engine's answers are parameters: a failing engine stands for every
  exception the handlers catch.
- `Refusing` applies to `create` only. An Eloquent `update` on a found row
  is modelled as always reaching the store.
- Laravel's conversion of empty strings to null is assumed: a string value
  is never empty. A numeric string is taken as an integer.
- Requests.CategoryInsertAcceptance: a category name made only of digits
  arrives as an integer in the model and is rejected, where Laravel's `string`
  rule accepts the form field "123".
- Requests.CategoryUpdateAcceptance: the same holds for a digit-only
  category name sent on update.
- Requests.ProductCreateAcceptance: a digit-only product name or description
  arrives as an integer in the model and is rejected, where Laravel accepts it.
- Requests.ProductUpdateAcceptance: the same holds for a digit-only product
  name or description sent on update.
- The `image` rule is taken as it is before Laravel 12,
  accepting jpg, jpeg, png, gif, bmp, svg and webp. The routes file is the
  Laravel 10 skeleton (it refers to `RouteServiceProvider`) and the upload
  helper uses the Intervention Image 2 facade. Laravel 12 removed svg from
  `image` unless it is allowed explicitly; under that rule a product svg is
  refused.
- The 65,535-byte bound of the `text` description column counts UTF-8
  bytes, which assumes the utf8mb4 connection character set.
- Column collation, case-insensitive comparison and timestamps are not
  modelled. Names are compared by equality.
- Rows are returned in table order; the queries have no `ORDER BY`.
- The counters advance only on a successful create. MySQL also consumes ids
  on failed inserts.
- Deletes, including the cascade from a category to its products, are not
  modelled. No route deletes.
- Concurrency is not modelled: two inserts racing between `max(id)` and
  `create` are a single-request concern the model does not cover.
- Translated messages are tags, not the catalogue strings.
- JSON serialisation is not modelled: the envelope body is a map of JSON-like
  values.
- Routing is not modelled beyond the path literals that choose a rule set.
  `getCategory` and `getCategoryDropdown` are the model's listing and
  dropdown queries; their controller methods only delegate.
- `parent_category` is never checked against existing categories, and the
  model keeps it that way.
