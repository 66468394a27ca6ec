# CanadasMotorcycle cart, modelled in Dafny

The cart demo keeps one user's shopping cart in two MySQL tables, shows it
with prices and Québec taxes, and lets the user change the quantity of a line
through a form post or an asynchronous request. This project models the
parts of it that decide things, as pure Dafny functions, and proves what
they do:

- `Model` (`src/class.model.php`):
  - the cart read (the user-filtered `LEFT JOIN`) and the quantity update, over an in-memory table;
  - the quantity and subtotal of a cart;
  - GST (5 %) and QST (9.975 %), and the four formatted prices;
  - the table-name builder.
- `App` (`src/class.app.php`):
  - the validation store and the validation of a posted update;
  - the handler that decides whether to write;
  - the dispatcher's choice of endpoint and of response.
- `View` (`src/class.view.php`):
  - the view-data bag and its `array_merge`;
  - the figures `getViewData` puts in the bag;
  - the product-list markup;
  - the case-insensitive `{{key}}` substitution.
- `Autoload` (`autoload.php`): the file a class name is loaded from.

Helper modules:

- `Strings`: ASCII case mapping, PHP truthiness, and decimal digit strings.
- `Sums`: sums over sequences.
- `Money`:
  - money is held in integer cents and taxes as exact reals;
  - `number_format` rounds half away from zero and groups thousands with a space;
  - also the text MySQL and PHP give a price.
- `Bags`: PHP's ordered string-keyed arrays and `array_merge`.
- `Wrappers`: `Option`.

Where the program's behaviour may be unexpected, the model follows the
program:

- The displayed total is the rounded exact total. It can differ by a cent
  from the sum of the displayed parts (`Model.ShownTotalCanMissSumOfParts`).
- The update reports success whenever the statement runs, even when no row
  matched (`Model.UpdateSucceedsWithoutMatch`), although its docblock promises
  "True if updated" (class.model.php:477).
- The handler passes the validated strings to the model, not integers. The
  database reads each one through its leading digits (`Model.SqlInt`).
- `calculateTax` returns 0 for a subtotal of zero or less. A negative
  subtotal is passed through to the total unchanged.
- `submit_quantity` is not always dropped: a single newline survives the
  `/^$/` pattern. See Findings.
- The view's `cart_subtotal` adds prices without multiplying by quantities.
  The model's `getCartSubtotal` does multiply (`View.ViewSubtotalIgnoresQuantity`).

Things outside the program are parameters of the model:

- `statementOk` says whether the database accepted the update statement.
- `provision` stands for `provisionView`, which is not part of this model. It
  receives the table as it was before the write and the table after it.
- `dir` is the directory of the autoloader file.
- `DollarMode` chooses between PCRE's default `$`, which the code uses, and the
  end-only `$` of the `D` modifier.

## Model

| member | source | states |
|---|---|---|
| Model.CartData | CanadasMotorcycle/src/class.model.php:207-229 | every row returned belongs to the user and carries its joined product, or none when no product has its id; every cart row of the user appears; the result is empty exactly when the user has no rows |
| Model.CartDataOneItemPerRow | CanadasMotorcycle/src/class.model.php:210-220 | with product ids unique (they are the products table's primary key), the read returns each of the user's cart rows exactly as often as the table holds it, and no other row |
| Model.MatchingProductsAtMostOne | CanadasMotorcycle/src/class.model.php:215-217 | with unique product ids the join condition pairs a cart row with at most one product |
| Model.CartQuantity | CanadasMotorcycle/src/class.model.php:277-287 | the quantity of an empty cart is 0 and is never negative when no line is |
| Model.CartSubtotal | CanadasMotorcycle/src/class.model.php:259-269 | the subtotal of an empty cart is 0 and is never negative when no price or quantity is |
| Model.CartTotalsAppend | CanadasMotorcycle/src/class.model.php:259-287 | both aggregates add up over a cart split in two |
| Model.CartTotalsSingle | CanadasMotorcycle/src/class.model.php:259-287 | a one-line cart has that line's quantity and that line's price times its quantity, a NULL price counting as 0 |
| Model.TotalsIgnoreRowOrder | CanadasMotorcycle/src/class.model.php:259-287 | quantity and subtotal depend only on which rows the read returned, not on their order |
| Model.CalculateTax | CanadasMotorcycle/src/class.model.php:98-103 | no tax on a subtotal of zero or less; otherwise exactly the percentage of the subtotal; never negative for a non-negative rate |
| Model.FinalAmounts | CanadasMotorcycle/src/class.model.php:238-242 | for a positive subtotal GST is 5 % and QST 9.975 % of it, and for any other subtotal both are 0; the exact total is the subtotal plus both taxes, which for a positive subtotal is 114.975 % of it |
| Model.FinalPrices | CanadasMotorcycle/src/class.model.php:244-249 | the price list has exactly the keys cart_subtotal, cart_gst, cart_qst, cart_total, in that order, all strings |
| Model.FinalPricesShowRoundedAmounts | CanadasMotorcycle/src/class.model.php:238-249 | each displayed price reads back as the exact amount rounded half away from zero to the cent |
| Model.FinalPricesOfEmptyCart | CanadasMotorcycle/src/class.model.php:238-249 | an empty cart shows 0.00 for all four prices |
| Model.ShownTotalWithinOneCent | CanadasMotorcycle/src/class.model.php:240-249 | the displayed total is within one cent of the sum of the displayed subtotal and taxes |
| Model.ShownTotalCanMissSumOfParts | CanadasMotorcycle/src/class.model.php:240-249 | a subtotal of 0.10 shows taxes of 0.01 and 0.01 and a total of 0.11, not 0.12 |
| Model.SqlInt | CanadasMotorcycle/src/class.model.php:487-498 | a bound digit string is read as the number it spells |
| Model.UpdateProductQuantityInCart | CanadasMotorcycle/src/class.model.php:480-504 | the update succeeds exactly when the statement runs and the posted keys plus user_id are the four placeholders; on failure the table is unchanged; on success exactly the rows matching cart id, product id and user 1 get the posted quantity and nothing else changes; ids never change and other users' rows are untouched |
| Model.UpdateIdempotent | CanadasMotorcycle/src/class.model.php:487-498 | running the same update twice leaves the table as running it once |
| Model.UpdateSucceedsWithoutMatch | CanadasMotorcycle/src/class.model.php:498 | an update that matches no row still reports success and changes nothing |
| Model.AlphabetFilter | CanadasMotorcycle/src/class.model.php:83-88 | the result holds only Latin letters and is no longer than the input |
| Model.AlphabetFilterKeepsLetters | CanadasMotorcycle/src/class.model.php:83-88 | the result holds only Latin letters, and each letter as many times as the input does |
| Model.AlphabetFilterSingle | CanadasMotorcycle/src/class.model.php:83-88 | one character is kept exactly when it is a letter; with the append lemma this fixes the result, letters in their order |
| Model.AlphabetFilterOfLetters | CanadasMotorcycle/src/class.model.php:83-88 | a string of letters passes the filter unchanged |
| Model.AlphabetFilterAppend | CanadasMotorcycle/src/class.model.php:83-88 | filtering distributes over concatenation |
| Model.CapitalStringSplit | CanadasMotorcycle/src/class.model.php:114-120 | on a string of letters, the split is the split before each capital with empty pieces dropped |
| Model.CapitalPiecesConcat | CanadasMotorcycle/src/class.model.php:114-120 | the pieces of the split concatenate back to the input |
| Model.CapitalPiecesShape | CanadasMotorcycle/src/class.model.php:114-120 | every piece is non-empty, only a first piece may start with a non-capital, and no piece has a capital after its first character |
| Model.CapitalPiecesChars | CanadasMotorcycle/src/class.model.php:114-120 | every character of every piece comes from the input |
| Model.CapitalPiecesOfWord | CanadasMotorcycle/src/class.model.php:114-120 | a word with no capital after its first character is one piece |
| Model.CapitalPiecesAppend | CanadasMotorcycle/src/class.model.php:114-120 | splitting a string whose second part starts with a capital is splitting the parts separately |
| Model.NamespaceWords | CanadasMotorcycle/src/class.model.php:301-303 | the namespace splits into Canadas and Motorcycle |
| Model.JoinShape | CanadasMotorcycle/src/class.model.php:315 | joining letter words with _ gives letters with single underscores between non-empty words |
| Model.JoinContent | CanadasMotorcycle/src/class.model.php:315 | removing the underscores from the join gives back the words' letters |
| Model.GetFullTableName | CanadasMotorcycle/src/class.model.php:297-319 | a falsy name, or one with no letters, gives the empty table name |
| Model.GetFullTableNameShape | CanadasMotorcycle/src/class.model.php:297-319 | every table name is lower-case letters with single underscores between non-empty words, and without its underscores it is canadasmotorcycle followed by the lower-cased letters of the name |
| Model.TableNameOfLowerWord | CanadasMotorcycle/src/class.model.php:297-319 | a lower-case word w gives canadas_motorcycle_w |
| Model.ProductsTableName | CanadasMotorcycle/src/class.model.php:297-319 | products gives canadas_motorcycle_products |
| Model.CartTableName | CanadasMotorcycle/src/class.model.php:297-319 | cart gives canadas_motorcycle_cart |
| Model.TableNameOfFalsyNames | CanadasMotorcycle/src/class.model.php:301 | the empty name and "0" give the empty table name |
| Money.RoundHalfAway | CanadasMotorcycle/src/class.model.php:245-248 | the rounded cent is the nearest one, halves going away from zero |
| Money.RoundHalfAwaySymmetric | CanadasMotorcycle/src/class.model.php:245-248 | rounding a negated amount gives the negated rounding |
| Money.FormatCents | CanadasMotorcycle/src/class.model.php:245-248 | the text starts with a minus exactly for negative amounts and ends in a point and two digits |
| Money.FormatCentsGrouped | CanadasMotorcycle/src/class.model.php:245-248 | the whole units between the minus and the point have a space before every group of three digits counted from the right, and without the spaces are the decimal digits of the units |
| Money.FormatCentsRoundTrip | CanadasMotorcycle/src/class.model.php:245-248 | the formatted text parses back to the same number of cents |
| Money.NumberFormatNearest | CanadasMotorcycle/src/class.model.php:245-248 | the formatted amount is within half a cent of the exact one |
| Money.GroupThousandsSpaces | CanadasMotorcycle/src/class.model.php:245-248 | the integer part has a space exactly before each group of three digits counted from the right |
| Money.GroupThousandsDigits | CanadasMotorcycle/src/class.model.php:245-248 | removing the spaces gives back the digits |
| Bags.Merge | CanadasMotorcycle/src/class.view.php:132 | the merged keys are the old keys in their places, then the incoming keys the old array lacks, in the incoming order |
| Bags.MergeLookup | CanadasMotorcycle/src/class.view.php:132 | after a merge a key reads the incoming value if there is one and the old value otherwise |
| Bags.MergeKeys | CanadasMotorcycle/src/class.view.php:132 | a merge has exactly the keys of both arrays |
| Bags.MergeUnique | CanadasMotorcycle/src/class.view.php:132 | merging arrays with distinct keys gives an array with distinct keys |
| App.PatternOfFollowsStore | CanadasMotorcycle/src/class.app.php:231-239 | a key has a pattern exactly when the store lists it, and it is the pattern the store gives it |
| App.BlankInvalid | CanadasMotorcycle/src/class.app.php:146-150 | the fields keep their keys; a field that fails its pattern, or has none, becomes empty and the others keep their values |
| App.DropEmpty | CanadasMotorcycle/src/class.app.php:152-157 | exactly the fields whose value is not the empty string are kept, with their values |
| App.SurvivorsExact | CanadasMotorcycle/src/class.app.php:146-157 | a field survives validation exactly when it has a pattern, passes it, and is not empty; it keeps the posted string |
| App.ZeroQuantitySurvives | CanadasMotorcycle/src/class.app.php:152-157 | a quantity of "0" survives |
| App.IdFieldsExact | CanadasMotorcycle/src/class.app.php:234-235 | with an end-only $, cart_id and product_id accept exactly 1 to 11 digits |
| App.QuantityFieldExact | CanadasMotorcycle/src/class.app.php:236 | with an end-only $, quantity accepts exactly 1 or 2 digits |
| App.IdFieldsAcceptFinalNewline | CanadasMotorcycle/src/class.app.php:234-235 | as written, the id fields accept 1 to 11 digits with or without one final newline, so "12\n" passes |
| App.SubmitNeverSurvives | CanadasMotorcycle/src/class.app.php:237 | with an end-only $, submit_quantity never survives |
| App.NewlineSubmitSurvives | CanadasMotorcycle/src/class.app.php:237 | as written, a submit_quantity of one newline survives |
| App.SurvivorsAreRequired | CanadasMotorcycle/src/class.app.php:146-157 | with an end-only $, only cart_id, product_id and quantity can survive |
| App.HandleUpdate | CanadasMotorcycle/src/class.app.php:140-167 | the model is called, with the surviving strings, exactly when three fields survive; otherwise the result is false and the table is unchanged; a failed update never changes the table |
| App.HandleUpdateWritesOnlyValidRequests | CanadasMotorcycle/src/class.app.php:140-167 | with an end-only $, an update is written exactly when cart_id, product_id and quantity are all posted with valid values and the statement runs, and the model then receives exactly those three strings |
| App.NewlineSubmitBlocksValidUpdate | CanadasMotorcycle/src/class.app.php:140-167 | as written, a valid update whose submit_quantity is one newline is refused; with an end-only $ it goes through |
| App.Endpoint | CanadasMotorcycle/src/class.app.php:92-105 | a request has an endpoint exactly when its lower-cased method is whitelisted, and it is one of that method's endpoints |
| App.EndpointByMethod | CanadasMotorcycle/src/class.app.php:62-69 | GET in any case goes to cart, POST to update, every other method to nothing |
| App.IsXhr | CanadasMotorcycle/src/class.app.php:87-90 | a request is asynchronous exactly when HTTP_X_REQUESTED_WITH is set and truthy or X_REQUESTED_WITH lower-cases to xmlhttprequest |
| App.IsXhrExamples | CanadasMotorcycle/src/class.app.php:87-90 | "0" and "" in the first header do not count; any case of XMLHttpRequest in the second does |
| App.Dispatch | CanadasMotorcycle/src/class.app.php:84-133 | GET renders the cart, other methods do nothing, and neither writes; an update that succeeds sends what `provision` gives for the table before and after the write, without the product list, when asynchronous and redirects to ?cart otherwise; one that fails redirects to ?error and leaves the table |
| App.DispatchWritesOnlyValidPosts | CanadasMotorcycle/src/class.app.php:84-133 | with an end-only $, the table changes only for a POST whose three fields are valid and whose statement runs |
| View.ReplaceAbsent | CanadasMotorcycle/src/class.view.php:71 | text in which the search string does not occur, in any case, is left unchanged |
| View.ReplaceFirst | CanadasMotorcycle/src/class.view.php:71 | the text before the first case-insensitive occurrence is kept, the occurrence is replaced, and the rest is treated the same way |
| View.InjectAppend | CanadasMotorcycle/src/class.view.php:61-74 | injecting a bag is injecting its entries one after the other, in bag order |
| View.InjectWithoutBraces | CanadasMotorcycle/src/class.view.php:61-74 | a template without {{ is returned unchanged whatever the bag |
| View.InjectIgnoresCase | CanadasMotorcycle/src/class.view.php:65-71 | {{Cart_Count}} is replaced by the cart_count value |
| View.ListHtmlFramed | CanadasMotorcycle/src/class.view.php:34-54 | the list starts with the ul tag and ends with its closing tag; an empty cart gives just the two tags |
| View.ListHtmlAppend | CanadasMotorcycle/src/class.view.php:38-49 | the list of a cart split in two holds the first part's items, then the second's |
| View.ListItemsInOrder | CanadasMotorcycle/src/class.view.php:36-51 | the list holds exactly one li per item, the i-th item's in the i-th place |
| View.ItemHtmlOpensWithCartId | CanadasMotorcycle/src/class.view.php:39-40 | each item's markup opens with an li carrying its cart id |
| View.SetViewData | CanadasMotorcycle/src/class.view.php:129-134 | a non-array leaves the bag unchanged; an array is merged in, its keys overriding, existing keys keeping their places and its new keys following in its order |
| View.SetOnEmpty | CanadasMotorcycle/src/class.view.php:19-24 | setting data on the empty bag of a new view gives exactly that data |
| View.Tally | CanadasMotorcycle/src/class.view.php:107-112 | the loop's count is the cart quantity and its subtotal the sum of the prices |
| View.Figures | CanadasMotorcycle/src/class.view.php:114-118 | the figures have exactly the keys cart_count, cart_subtotal, cart_bag |
| View.SetFigures | CanadasMotorcycle/src/class.view.php:114-118 | after the merge the three keys read the given count, subtotal and list, the bag's own keys keep their places with the missing ones of the three appended in order, and every other key reads as before |
| View.GetViewData | CanadasMotorcycle/src/class.view.php:102-119 | the bag gains the three keys, reading user 1's cart quantity, the sum of its prices with quantity ignored, and its product list; existing keys keep their places with the missing ones of the three appended in order, and every other key is unchanged |
| View.ViewSubtotalOfSingleQuantities | CanadasMotorcycle/src/class.view.php:108-111 | when every quantity is 1, the view's subtotal equals the cart subtotal |
| View.ViewSubtotalIgnoresQuantity | CanadasMotorcycle/src/class.view.php:111 | two of one 1.00 product show a view subtotal of 1.00 against a cart subtotal of 2.00 |
| Autoload.ClassFile | CanadasMotorcycle/autoload.php:9-29 | a class gets a file exactly when its name starts with the namespace prefix, case-sensitively; the file is under the base directory, starts with class. and ends in .php |
| Autoload.ClassFileShape | CanadasMotorcycle/autoload.php:23-28 | between class. and .php the path holds the rest of the class name lower-cased, with / for each \ |
| Autoload.RelativeNameClean | CanadasMotorcycle/autoload.php:23-28 | the relative part of the path has no upper-case letter and no backslash |
| Autoload.ClassFileRoundTrip | CanadasMotorcycle/autoload.php:23-28 | a class whose name after the namespace is lower-case and has no / is recovered from its path |
| Autoload.ClassFileIgnoresCaseOfRest | CanadasMotorcycle/autoload.php:17-23 | two class names differing only in the case after the namespace load the same file |
| Autoload.ClassFileOfModel | CanadasMotorcycle/autoload.php:11-28 | the Model class loads from src/class.model.php |

## Left out

- Database connection, table creation, seeding and `setup`: database I/O,
  marker files on disk and `mt_rand`. The database is an in-memory table.
- The cart read returns rows in table order. The SQL has no `ORDER BY`, so the
  real order is the database's; `Model.TotalsIgnoreRowOrder` shows the
  figures do not depend on it.
- `SELECT *` with `FETCH_ASSOC` keeps the last of two same-named columns. The
  only such column is `product_id`. It matters only in the product list, where
  the model shows the products table's value (empty when no product matched).
- `header`, `exit`, `json_encode` and the superglobals. A request is a value
  and the response an `Outcome`.
- `trigger_error` notices: several endpoints for one method, and failed updates.
- `View::fetchView`, the template files, and the stub `render`, whose return
  value the dispatcher discards: GET yields `RenderCart`.
- `provisionView` is not part of this model. The dispatcher takes it as a
  function parameter, called with the table as the View read it in its
  constructor (before the write) and the table after the write.
- App.Dispatch: does not state whether the JSON reflects the new quantity,
  because that depends on whether `provisionView` re-reads the table after
  the write or reuses the data the View loaded before it.
- The autoloader's `file_exists` and `require`: only the path is computed.
- `app/app.js` (jQuery UI, animation, timers) and `app/index.php` (bootstrap).
- Binary floating point. Amounts are exact cents and reals.
  - `Money.FloatText` prints a sum of prices as PHP prints the double nearest it.
  - The model assumes the double sum equals the exact sum in cents.
- Integer widths: ids and quantities are unbounded integers. `INT(11)`
  and the `DECIMAL(6,2)` range are not enforced.
- A general PCRE engine: the four patterns are written out as predicates.
- Methods other than GET and POST: the whitelist lookup yields null, and under
  PHP 7 the dispatcher does nothing (`NoResponse`). PHP 8's `count(null)`
  raises a `TypeError` instead.
- Model.GetFullTableName: a non-empty name without letters gives "", the PHP 7
  reading of `array_merge` with null. PHP 8 raises a `TypeError` there instead.

## Findings

| source | as written | input that shows it | evidently intended | confidence | as-written member | corrected member |
|---|---|---|---|---|---|---|
| CanadasMotorcycle/src/class.app.php:237 | `/^$/` without the `D` modifier also matches a lone newline, so `submit_quantity` survives the filter and four fields remain | cart_id "1", product_id "2", quantity "3", submit_quantity "\n" | the submit field is always removed, and a valid update is written | not executed | App.NewlineSubmitBlocksValidUpdate | App.HandleUpdateWritesOnlyValidRequests |
| CanadasMotorcycle/src/class.app.php:234-235 | `/^[0-9]{1,11}$/` without `D` accepts digits followed by one newline | cart_id "12\n" | only 1 to 11 digits are accepted | not executed | App.IdFieldsAcceptFinalNewline | App.IdFieldsExact |
