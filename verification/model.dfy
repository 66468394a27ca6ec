/**
  The cart's data model (`Model` in the source): the two tables as
  in-memory sequences, the meaning of its two SQL statements over them,
  the cart aggregates, the two sales taxes, the price list shown to the
  customer, and the builder of table names.
 */
module Model {
  import opened Wrappers
  import opened Strings
  import opened Sums
  import opened Money
  import opened Bags

  /** General sales tax, in percent. */
  const GST: real := 5.0

  /** Quebec sales tax, in percent. */
  const QST: real := 9.975

  /** The single user every request acts for (`App::$userID`). */
  const UserId: int := 1

  /** A row of the products table; `price` is a nullable `DECIMAL(6,2)` held in cents. */
  datatype Product = Product(
    productId: int,
    name: string,
    description: Option<string>,
    price: Option<int>,
    imageUrl: string)

  /** A row of the cart table. */
  datatype CartRow = CartRow(cartId: int, userId: int, productId: int, quantity: int)

  /** A row of the cart read: a cart row and the product row it joined with, if any. */
  datatype CartItem = CartItem(row: CartRow, product: Option<Product>)

  // The cart read: `SELECT * FROM cart c LEFT JOIN products p
  // ON c.product_id = p.product_id WHERE c.user_id = $userID`.

  /** The product rows the join condition pairs with `row`, in table order. */
  function MatchingProducts(row: CartRow, products: seq<Product>): (r: seq<Product>)
    ensures forall i :: 0 <= i < |r| ==> r[i] in products && r[i].productId == row.productId
    ensures forall p :: p in products && p.productId == row.productId ==> p in r
    ensures (forall p :: p in products ==> p.productId != row.productId) ==> r == []
  {
    if products == [] then []
    else if products[0].productId == row.productId then [products[0]] + MatchingProducts(row, products[1..])
    else MatchingProducts(row, products[1..])
  }

  /**
    Whether an item of the join is consistent with the products table: the
    product it carries has the row's product id, and it carries none only
    when no product has that id.
   */
  predicate JoinedWith(item: CartItem, products: seq<Product>)
  {
    match item.product
    case Some(p) => p in products && p.productId == item.row.productId
    case None => forall q :: q in products ==> q.productId != item.row.productId
  }

  /** What the left join makes of one cart row: one item per matching product, or one with nulls. */
  function JoinRow(row: CartRow, products: seq<Product>): (r: seq<CartItem>)
    ensures |r| >= 1
    ensures forall i :: 0 <= i < |r| ==> r[i].row == row && JoinedWith(r[i], products)
  {
    var m := MatchingProducts(row, products);
    if m == [] then [CartItem(row, None)]
    else seq(|m|, i requires 0 <= i < |m| => CartItem(row, Some(m[i])))
  }

  /**
    `getCartData($userID)`: the joined rows of the user's cart lines, in
    table order. The source's query has no `ORDER BY`, so any permutation of
    this sequence is an equally valid answer (see `TotalsIgnoreRowOrder`).
   */
  function CartData(table: seq<CartRow>, products: seq<Product>, user: int): (r: seq<CartItem>)
    ensures forall i :: 0 <= i < |r| ==> r[i].row in table && r[i].row.userId == user && JoinedWith(r[i], products)
    ensures forall row :: row in table && row.userId == user ==> exists i :: 0 <= i < |r| && r[i].row == row
    ensures r == [] <==> forall row :: row in table ==> row.userId != user
  {
    if table == [] then []
    else
      var rest := CartData(table[1..], products, user);
      var here := if table[0].userId == user then JoinRow(table[0], products) else [];
      assert ReadOf(rest, table[1..], products, user);
      ReadAppend(table, products, user, here, rest);
      here + rest
  }

  /** The three facts `CartData` promises, bundled for its inductive step. */
  predicate ReadOf(r: seq<CartItem>, table: seq<CartRow>, products: seq<Product>, user: int)
  {
    ItemsFrom(r, table, products, user) && Covers(r, table, user) && (r == [] <==> NoRowsOf(table, user))
  }

  predicate ItemsFrom(r: seq<CartItem>, table: seq<CartRow>, products: seq<Product>, user: int)
  {
    forall i :: 0 <= i < |r| ==> r[i].row in table && r[i].row.userId == user && JoinedWith(r[i], products)
  }

  predicate Covers(r: seq<CartItem>, table: seq<CartRow>, user: int)
  {
    forall row :: row in table && row.userId == user ==> exists i :: 0 <= i < |r| && r[i].row == row
  }

  predicate NoRowsOf(table: seq<CartRow>, user: int)
  {
    forall row :: row in table ==> row.userId != user
  }

  lemma ReadAppend(table: seq<CartRow>, products: seq<Product>, user: int, here: seq<CartItem>, rest: seq<CartItem>)
    requires table != []
    requires here == (if table[0].userId == user then JoinRow(table[0], products) else [])
    requires ReadOf(rest, table[1..], products, user)
    ensures ReadOf(here + rest, table, products, user)
  {
    ItemsAppend(table, products, user, here, rest);
    CoversAppend(table, user, here, rest);
    assert table == [table[0]] + table[1..];
    assert NoRowsOf(table, user) <==> table[0].userId != user && NoRowsOf(table[1..], user);
  }

  lemma ItemsAppend(table: seq<CartRow>, products: seq<Product>, user: int, here: seq<CartItem>, rest: seq<CartItem>)
    requires table != []
    requires ItemsFrom(here, [table[0]], products, user)
    requires ItemsFrom(rest, table[1..], products, user)
    ensures ItemsFrom(here + rest, table, products, user)
  {
    var r := here + rest;
    forall i | 0 <= i < |r|
      ensures r[i].row in table && r[i].row.userId == user && JoinedWith(r[i], products)
    {
      if i < |here| {
        assert r[i] == here[i];
      } else {
        assert r[i] == rest[i - |here|];
      }
    }
  }

  lemma CoversAppend(table: seq<CartRow>, user: int, here: seq<CartItem>, rest: seq<CartItem>)
    requires table != []
    requires table[0].userId == user ==> |here| >= 1 && here[0].row == table[0]
    requires Covers(rest, table[1..], user)
    ensures Covers(here + rest, table, user)
  {
    var r := here + rest;
    forall row | row in table && row.userId == user
      ensures exists i :: 0 <= i < |r| && r[i].row == row
    {
      if row == table[0] {
        assert r[0].row == row;
      } else {
        assert row in table[1..];
        var i :| 0 <= i < |rest| && rest[i].row == row;
        assert r[|here| + i].row == row;
      }
    }
  }

  predicate UniqueProductIds(products: seq<Product>)
  {
    forall i, j :: 0 <= i < j < |products| ==> products[i].productId != products[j].productId
  }

  function RowsOf(items: seq<CartItem>): (r: seq<CartRow>)
    ensures |r| == |items|
    ensures forall i :: 0 <= i < |items| ==> r[i] == items[i].row
  {
    if items == [] then [] else [items[0].row] + RowsOf(items[1..])
  }

  lemma {:induction false} RowsOfAppend(a: seq<CartItem>, b: seq<CartItem>)
    ensures RowsOf(a + b) == RowsOf(a) + RowsOf(b)
  {
  }

  lemma {:induction false} MatchingProductsAtMostOne(row: CartRow, products: seq<Product>)
    requires UniqueProductIds(products)
    ensures |MatchingProducts(row, products)| <= 1
  {
    if products != [] {
      MatchingProductsAtMostOne(row, products[1..]);
      if products[0].productId == row.productId {
        forall p | p in products[1..]
          ensures p.productId != row.productId
        {
          var j :| 0 <= j < |products[1..]| && products[1..][j] == p;
          assert products[j + 1] == p;
        }
      }
    }
  }

  /**
    With the products' primary key in force, the read returns each of the
    user's cart rows exactly once and no other row.
   */
  lemma {:induction false} CartDataOneItemPerRow(table: seq<CartRow>, products: seq<Product>, user: int)
    requires UniqueProductIds(products)
    ensures forall row ::
      multiset(RowsOf(CartData(table, products, user)))[row] == (if row.userId == user then multiset(table)[row] else 0)
  {
    if table != [] {
      CartDataOneItemPerRow(table[1..], products, user);
      var here := RowsStep(table, products, user);
      CountsAdd(table, here, RowsOf(CartData(table[1..], products, user)), user);
    }
  }

  lemma CountsAdd(table: seq<CartRow>, here: seq<CartRow>, rest: seq<CartRow>, user: int)
    requires table != []
    requires here == (if table[0].userId == user then [table[0]] else [])
    requires forall row :: multiset(rest)[row] == (if row.userId == user then multiset(table[1..])[row] else 0)
    ensures forall row ::
      multiset(here + rest)[row] == (if row.userId == user then multiset(table)[row] else 0)
  {
    assert table == [table[0]] + table[1..];
  }

  /** One step of the read: the first cart row appears once if it is the user's, then the rest. */
  lemma RowsStep(table: seq<CartRow>, products: seq<Product>, user: int) returns (here: seq<CartRow>)
    requires table != [] && UniqueProductIds(products)
    ensures here == (if table[0].userId == user then [table[0]] else [])
    ensures RowsOf(CartData(table, products, user)) == here + RowsOf(CartData(table[1..], products, user))
  {
    here := if table[0].userId == user then [table[0]] else [];
    var items := if table[0].userId == user then JoinRow(table[0], products) else [];
    var rest := CartData(table[1..], products, user);
    assert CartData(table, products, user) == items + rest;
    RowsOfAppend(items, rest);
    if table[0].userId == user {
      MatchingProductsAtMostOne(table[0], products);
      assert RowsOf(items) == [table[0]];
    } else {
      assert RowsOf(items) == [];
    }
  }

  // Cart aggregates

  function QuantityOf(item: CartItem): int { item.row.quantity }

  /** `$cartItem['price']`: the joined product's price, with SQL `NULL` counting as 0. */
  function PriceOf(item: CartItem): int
  {
    match item.product
    case Some(p) => p.price.GetOr(0)
    case None => 0
  }

  function LineTotal(item: CartItem): int { PriceOf(item) * QuantityOf(item) }

  /** `getCartQuantity`: the number of articles in the cart. */
  function CartQuantity(items: seq<CartItem>): (r: int)
    ensures items == [] ==> r == 0
    ensures (forall i :: 0 <= i < |items| ==> items[i].row.quantity >= 0) ==> r >= 0
  {
    assert (forall i :: 0 <= i < |items| ==> items[i].row.quantity >= 0) ==> SumOf(items, QuantityOf) >= 0 by {
      if forall i :: 0 <= i < |items| ==> items[i].row.quantity >= 0 {
        SumOfNonNegative(items, QuantityOf);
      }
    }
    SumOf(items, QuantityOf)
  }

  /** `getCartSubtotal`: the cart's value before tax, in cents. */
  function CartSubtotal(items: seq<CartItem>): (r: int)
    ensures items == [] ==> r == 0
    ensures (forall i :: 0 <= i < |items| ==> PriceOf(items[i]) >= 0 && items[i].row.quantity >= 0) ==> r >= 0
  {
    assert (forall i :: 0 <= i < |items| ==> PriceOf(items[i]) >= 0 && items[i].row.quantity >= 0) ==>
      SumOf(items, LineTotal) >= 0 by {
      if forall i :: 0 <= i < |items| ==> PriceOf(items[i]) >= 0 && items[i].row.quantity >= 0 {
        SumOfNonNegative(items, LineTotal);
      }
    }
    SumOf(items, LineTotal)
  }

  /** Both aggregates add up over a cart split in two. */
  lemma CartTotalsAppend(a: seq<CartItem>, b: seq<CartItem>)
    ensures CartQuantity(a + b) == CartQuantity(a) + CartQuantity(b)
    ensures CartSubtotal(a + b) == CartSubtotal(a) + CartSubtotal(b)
  {
    SumOfAppend(a, b, QuantityOf);
    SumOfAppend(a, b, LineTotal);
  }

  /** A one-line cart: its quantity, and its price times its quantity. */
  lemma CartTotalsSingle(item: CartItem)
    ensures CartQuantity([item]) == item.row.quantity
    ensures CartSubtotal([item]) == PriceOf(item) * item.row.quantity
  {
    assert [item][1..] == [];
    assert SumOf([item], QuantityOf) == QuantityOf(item) + SumOf([], QuantityOf);
    assert SumOf([item], LineTotal) == LineTotal(item) + SumOf([], LineTotal);
  }

  /** The aggregates are the same whatever order the database returns the rows in. */
  lemma TotalsIgnoreRowOrder(a: seq<CartItem>, b: seq<CartItem>)
    requires multiset(a) == multiset(b)
    ensures CartQuantity(a) == CartQuantity(b)
    ensures CartSubtotal(a) == CartSubtotal(b)
  {
    SumOfPermutation(a, b, QuantityOf);
    SumOfPermutation(a, b, LineTotal);
  }

  // Taxes and the price list

  /** `calculateTax`: `pct` percent of a positive subtotal, nothing on a zero or negative one. */
  function CalculateTax(subtotal: int, pct: real): (r: real)
    ensures subtotal <= 0 ==> r == 0.0
    ensures subtotal > 0 ==> r * 100.0 == subtotal as real * pct
    ensures pct >= 0.0 ==> r >= 0.0
  {
    if subtotal > 0 then subtotal as real * (pct / 100.0) else 0.0
  }

  /** The exact amounts behind the price list, in cents, before any rounding. */
  datatype Amounts = Amounts(subtotal: real, gst: real, qst: real, total: real)

  function FinalAmounts(subtotal: int): (r: Amounts)
    ensures r.subtotal == subtotal as real
    ensures r.gst >= 0.0 && r.qst >= 0.0
    ensures subtotal > 0 ==> r.gst * 100.0 == subtotal as real * 5.0 && r.qst * 100.0 == subtotal as real * 9.975
    ensures r.total == r.subtotal + r.gst + r.qst
    ensures subtotal > 0 ==> r.total == subtotal as real * 1.14975
    ensures subtotal <= 0 ==> r.gst == 0.0 && r.qst == 0.0 && r.total == subtotal as real
  {
    var gst := CalculateTax(subtotal, GST);
    var qst := CalculateTax(subtotal, QST);
    Amounts(subtotal as real, gst, qst, subtotal as real + gst + qst)
  }

  const PriceKeys: seq<string> := ["cart_subtotal", "cart_gst", "cart_qst", "cart_total"]

  /**
    `getFinalPrices`: the subtotal, both taxes and the total, each rounded
    only when it is formatted.
   */
  function FinalPrices(subtotal: int): (r: Bag)
    ensures Keys(r) == PriceKeys
    ensures forall i :: 0 <= i < |r| ==> r[i].value.StrVal?
  {
    var a := FinalAmounts(subtotal);
    Formatted(PriceKeys, [a.subtotal, a.gst, a.qst, a.total])
  }

  /** Each key paired with its amount, formatted. */
  function Formatted(keys: seq<string>, amounts: seq<real>): (r: Bag)
    requires |keys| == |amounts|
    ensures Keys(r) == keys
    ensures forall i :: 0 <= i < |r| ==> r[i].value == StrVal(NumberFormat(amounts[i]))
  {
    if keys == [] then []
    else [Entry(keys[0], StrVal(NumberFormat(amounts[0])))] + Formatted(keys[1..], amounts[1..])
  }

  /** The amount a price-list entry shows, read back in cents. */
  function Shown(prices: Bag, i: nat): int
    requires i < |prices|
  {
    if prices[i].value.StrVal? then ParseAmount(prices[i].value.s).GetOr(0) else 0
  }

  /**
    Each entry of the price list shows its exact amount to the nearest cent:
    the subtotal itself, both taxes, and the unrounded total.
   */
  lemma FinalPricesShowRoundedAmounts(subtotal: int)
    ensures var r := FinalPrices(subtotal);
      && Shown(r, 0) == subtotal
      && Shown(r, 1) == RoundHalfAway(FinalAmounts(subtotal).gst)
      && Shown(r, 2) == RoundHalfAway(FinalAmounts(subtotal).qst)
      && Shown(r, 3) == RoundHalfAway(FinalAmounts(subtotal).total)
  {
    var a := FinalAmounts(subtotal);
    var r := FinalPrices(subtotal);
    assert RoundHalfAway(a.subtotal) == subtotal;
    ShownFormatted(r, 0, a.subtotal);
    ShownFormatted(r, 1, a.gst);
    ShownFormatted(r, 2, a.qst);
    ShownFormatted(r, 3, a.total);
  }

  /** An entry holding a formatted amount shows that amount to the nearest cent. */
  lemma ShownFormatted(prices: Bag, i: nat, x: real)
    requires i < |prices| && prices[i].value == StrVal(NumberFormat(x))
    ensures Shown(prices, i) == RoundHalfAway(x)
  {
    FormatCentsRoundTrip(RoundHalfAway(x));
  }

  /** An empty cart's price list reads zero everywhere. */
  lemma FinalPricesOfEmptyCart()
    ensures FinalPrices(CartSubtotal([])) == [
      Entry("cart_subtotal", StrVal("0.00")), Entry("cart_gst", StrVal("0.00")),
      Entry("cart_qst", StrVal("0.00")), Entry("cart_total", StrVal("0.00")) ]
  {
    var r := FinalPrices(CartSubtotal([]));
    var zero := ZeroFormatted();
    var expected := [Entry("cart_subtotal", zero), Entry("cart_gst", zero), Entry("cart_qst", zero), Entry("cart_total", zero)];
    assert |r| == |Keys(r)| == 4;
    forall i | 0 <= i < 4
      ensures r[i] == expected[i]
    {
      assert r[i].key == PriceKeys[i];
    }
    assert r == expected;
  }

  lemma ZeroFormatted() returns (zero: Value)
    ensures zero == StrVal(NumberFormat(0.0)) && zero == StrVal("0.00")
  {
    zero := StrVal(NumberFormat(0.0));
    assert NumberFormat(0.0) == "0.00";
  }

  /** The total shown never differs by more than a cent from the sum of the other three amounts shown. */
  lemma ShownTotalWithinOneCent(subtotal: int)
    ensures var r := FinalPrices(subtotal);
      -1 <= Shown(r, 3) - (Shown(r, 0) + Shown(r, 1) + Shown(r, 2)) <= 1
  {
    FinalPricesShowRoundedAmounts(subtotal);
  }

  /**
    Because only the total is rounded, not its parts, the total shown can
    be a cent below the sum of the parts shown: a 0.10 subtotal shows
    taxes of 0.01 and 0.01 but a total of 0.11.
   */
  lemma ShownTotalCanMissSumOfParts()
    ensures var r := FinalPrices(10);
      Shown(r, 0) == 10 && Shown(r, 1) == 1 && Shown(r, 2) == 1 && Shown(r, 3) == 11
  {
    FinalPricesShowRoundedAmounts(10);
    AmountsOfTenCents();
  }

  lemma AmountsOfTenCents()
    ensures RoundHalfAway(FinalAmounts(10).gst) == 1
    ensures RoundHalfAway(FinalAmounts(10).qst) == 1
    ensures RoundHalfAway(FinalAmounts(10).total) == 11
  {
    var a := FinalAmounts(10);
    assert a.gst == 0.5 && a.qst == 0.9975 && a.total == 11.4975;
  }

  // The quantity update: `UPDATE cart SET quantity = :quantity
  // WHERE cart_id = :cart_id AND user_id = :user_id AND product_id = :product_id`.

  /** The named placeholders of the update statement. */
  const UpdatePlaceholders: set<string> := {"cart_id", "user_id", "product_id", "quantity"}

  /**
    MySQL's reading of a bound string where an integer is expected: the
    number its leading decimal digits spell, 0 when it has none.
   */
  function SqlInt(s: string): (r: nat)
    ensures AllDigits(s) ==> r == DigitsToNat(s)
  {
    var d := LeadingDigits(s);
    assert AllDigits(s) ==> d == s by {
      if AllDigits(s) { LeadingDigitsOfDigits(s); }
    }
    DigitsToNat(d)
  }

  predicate Selected(row: CartRow, cartId: int, user: int, productId: int)
  {
    row.cartId == cartId && row.userId == user && row.productId == productId
  }

  function SetQuantity(table: seq<CartRow>, cartId: int, user: int, productId: int, quantity: int): seq<CartRow>
  {
    seq(|table|, i requires 0 <= i < |table| =>
      if Selected(table[i], cartId, user, productId) then table[i].(quantity := quantity) else table[i])
  }

  /**
    `updateProductQuantityInCart($postData)`: binds the posted strings and
    the fixed user to the statement and reports whether it executed. PDO
    refuses to execute when the bound names are not exactly the statement's
    placeholders; `statementOk` stands for the database accepting the
    statement. Success does not mean that a row changed.
   */
  function UpdateProductQuantityInCart(table: seq<CartRow>, postData: map<string, string>, statementOk: bool)
    : (r: (seq<CartRow>, bool))
    ensures r.1 <==> statementOk && postData.Keys + {"user_id"} == UpdatePlaceholders
    ensures !r.1 ==> r.0 == table
    ensures |r.0| == |table|
    ensures forall i :: 0 <= i < |table| ==>
      r.0[i].cartId == table[i].cartId && r.0[i].userId == table[i].userId && r.0[i].productId == table[i].productId
    ensures forall i :: 0 <= i < |table| && table[i].userId != UserId ==> r.0[i] == table[i]
    ensures r.1 ==> forall i :: 0 <= i < |table| ==>
      if Selected(table[i], SqlInt(postData["cart_id"]), UserId, SqlInt(postData["product_id"]))
      then r.0[i].quantity == SqlInt(postData["quantity"])
      else r.0[i] == table[i]
  {
    var bound := postData["user_id" := IntToText(UserId)];
    if statementOk && bound.Keys == UpdatePlaceholders then
      (SetQuantity(table, SqlInt(bound["cart_id"]), UserId, SqlInt(bound["product_id"]), SqlInt(bound["quantity"])), true)
    else (table, false)
  }

  /** Running the same update twice leaves the table as running it once. */
  lemma UpdateIdempotent(table: seq<CartRow>, postData: map<string, string>, statementOk: bool)
    ensures var once := UpdateProductQuantityInCart(table, postData, statementOk).0;
      UpdateProductQuantityInCart(once, postData, statementOk).0 == once
  {
  }

  /** The update reports success even when no row matches, and then changes nothing. */
  lemma UpdateSucceedsWithoutMatch()
    ensures var table := [CartRow(5, 2, 2, 1)];
      UpdateProductQuantityInCart(table, map["cart_id" := "5", "product_id" := "2", "quantity" := "3"], true)
        == (table, true)
  {
    var table := [CartRow(5, 2, 2, 1)];
    var post := map["cart_id" := "5", "product_id" := "2", "quantity" := "3"];
    var bound := post["user_id" := IntToText(UserId)];
    assert post.Keys + {"user_id"} == UpdatePlaceholders;
    assert bound.Keys == UpdatePlaceholders;
    var updated := SetQuantity(table, SqlInt(bound["cart_id"]), UserId, SqlInt(bound["product_id"]), SqlInt(bound["quantity"]));
    assert updated[0] == table[0];
    assert updated == table;
  }

  // Table names

  /** The namespace every table name is prefixed with (`__NAMESPACE__`), spelt as its two words. */
  const Namespace: string := "Canadas" + "Motorcycle"

  /** `alphabetFilter`: the Latin letters of `s`, in order. */
  function AlphabetFilter(s: string): (r: string)
    ensures |r| <= |s|
    ensures forall i :: 0 <= i < |r| ==> IsLetter(r[i])
  {
    if s == [] then []
    else (if IsLetter(s[0]) then [s[0]] else []) + AlphabetFilter(s[1..])
  }

  /** The filter keeps every letter as many times as the input has it, and nothing else. */
  lemma {:induction false} AlphabetFilterKeepsLetters(s: string)
    ensures forall i :: 0 <= i < |AlphabetFilter(s)| ==> IsLetter(AlphabetFilter(s)[i])
    ensures forall c :: IsLetter(c) ==> multiset(AlphabetFilter(s))[c] == multiset(s)[c]
  {
    if s != [] {
      AlphabetFilterKeepsLetters(s[1..]);
      assert s == [s[0]] + s[1..];
    }
  }

  /** One character passes the filter exactly when it is a letter. */
  lemma AlphabetFilterSingle(c: char)
    ensures AlphabetFilter([c]) == if IsLetter(c) then [c] else []
  {
    assert [c][1..] == [];
  }

  lemma {:induction false} AlphabetFilterOfLetters(s: string)
    requires forall i :: 0 <= i < |s| ==> IsLetter(s[i])
    ensures AlphabetFilter(s) == s
  {
    if s != [] {
      AlphabetFilterOfLetters(s[1..]);
      assert s == [s[0]] + s[1..];
    }
  }

  lemma {:induction false} AlphabetFilterAppend(a: string, b: string)
    ensures AlphabetFilter(a + b) == AlphabetFilter(a) + AlphabetFilter(b)
  {
    if a == [] {
      assert a + b == b;
    } else {
      assert (a + b)[0] == a[0];
      assert (a + b)[1..] == a[1..] + b;
      AlphabetFilterAppend(a[1..], b);
    }
  }

  function Concat(words: seq<string>): string
  {
    if words == [] then [] else words[0] + Concat(words[1..])
  }

  lemma {:induction false} ConcatAppend(a: seq<string>, b: seq<string>)
    ensures Concat(a + b) == Concat(a) + Concat(b)
  {
    if a == [] {
      assert a + b == b;
    } else {
      assert (a + b)[0] == a[0];
      assert (a + b)[1..] == a[1..] + b;
      ConcatAppend(a[1..], b);
    }
  }

  /** Puts `c` in front of the pieces of the rest of a string: alone if a capital follows, else joined to it. */
  function Attach(c: char, rest: seq<string>): seq<string>
  {
    if rest == [] || rest[0] == [] || IsUpper(rest[0][0]) then [[c]] + rest
    else [[c] + rest[0]] + rest[1..]
  }

  /**
    The pieces `preg_split('/(?=[A-Z])/', $s)` cuts `s` into, without the
    empty piece it yields when `s` starts with a capital.
   */
  function CapitalPieces(s: string): seq<string>
  {
    if s == [] then [] else Attach(s[0], CapitalPieces(s[1..]))
  }

  /** Gluing the pieces back together gives the string. */
  lemma {:induction false} CapitalPiecesConcat(s: string)
    ensures Concat(CapitalPieces(s)) == s
  {
    if s != [] {
      CapitalPiecesConcat(s[1..]);
      var rest := CapitalPieces(s[1..]);
      if !(rest == [] || rest[0] == [] || IsUpper(rest[0][0])) {
        assert Concat(rest) == rest[0] + Concat(rest[1..]);
        assert Concat(Attach(s[0], rest)) == ([s[0]] + rest[0]) + Concat(rest[1..]);
      }
      assert s == [s[0]] + s[1..];
    }
  }

  /** Piece `w` is not empty, has no capital after its first character, and begins with one unless it is the first. */
  predicate PieceShape(r: seq<string>, w: int)
    requires 0 <= w < |r|
  {
    && |r[w]| >= 1
    && (forall j :: 1 <= j < |r[w]| ==> !IsUpper(r[w][j]))
    && (w >= 1 ==> IsUpper(r[w][0]))
  }

  lemma {:induction false} CapitalPiecesShape(s: string)
    ensures forall w :: 0 <= w < |CapitalPieces(s)| ==> PieceShape(CapitalPieces(s), w)
  {
    if s != [] {
      CapitalPiecesShape(s[1..]);
      var rest := CapitalPieces(s[1..]);
      var r := CapitalPieces(s);
      if rest == [] || IsUpper(rest[0][0]) {
        assert r == [[s[0]]] + rest;
        forall w | 0 <= w < |r|
          ensures PieceShape(r, w)
        {
          if w >= 1 {
            assert r[w] == rest[w - 1];
            assert PieceShape(rest, w - 1);
          }
        }
      } else {
        assert PieceShape(rest, 0);
        assert r == [[s[0]] + rest[0]] + rest[1..];
        forall w | 0 <= w < |r|
          ensures PieceShape(r, w)
        {
          if w >= 1 {
            assert r[w] == rest[w];
            assert PieceShape(rest, w);
          } else {
            assert forall j :: 1 <= j < |r[0]| ==> r[0][j] == rest[0][j - 1];
          }
        }
      }
    }
  }

  /** Every character of every piece comes from the string. */
  lemma {:induction false} CapitalPiecesChars(s: string)
    ensures forall w, j :: 0 <= w < |CapitalPieces(s)| && 0 <= j < |CapitalPieces(s)[w]| ==>
      CapitalPieces(s)[w][j] in s
  {
    if s != [] {
      CapitalPiecesChars(s[1..]);
      var rest := CapitalPieces(s[1..]);
      var r := CapitalPieces(s);
      forall w, j | 0 <= w < |r| && 0 <= j < |r[w]|
        ensures r[w][j] in s
      {
        if rest == [] || rest[0] == [] || IsUpper(rest[0][0]) {
          if w >= 1 {
            assert r[w] == rest[w - 1];
            assert r[w][j] in s[1..];
          }
        } else {
          if w >= 1 {
            assert r[w] == rest[w];
            assert r[w][j] in s[1..];
          } else if j >= 1 {
            assert r[0][j] == rest[0][j - 1];
            assert r[0][j] in s[1..];
          }
        }
      }
    }
  }

  /**
    `capitalStringSplit`: the words of `s`, each beginning at a capital
    (the first may not); `array_filter` drops a first piece `"0"`, which
    only a string starting with that digit has.
   */
  function CapitalStringSplit(s: string): (r: seq<string>)
    ensures (forall i :: 0 <= i < |s| ==> IsLetter(s[i])) ==> r == CapitalPieces(s)
  {
    var p := CapitalPieces(s);
    assert p != [] && p[0] == "0" ==> s[0] == '0' by {
      if s != [] {
        assert p == Attach(s[0], CapitalPieces(s[1..]));
      }
    }
    if p != [] && p[0] == "0" then p[1..] else p
  }

  /** A word that has no capital after its first letter is not split. */
  lemma {:induction false} CapitalPiecesOfWord(w: string)
    requires |w| >= 1
    requires forall j :: 1 <= j < |w| ==> !IsUpper(w[j])
    ensures CapitalPieces(w) == [w]
  {
    if |w| == 1 {
      assert w[1..] == [];
      assert w == [w[0]];
    } else {
      CapitalPiecesOfWord(w[1..]);
      assert [w[0]] + w[1..] == w;
    }
  }

  /** A string is cut before a capital that follows a non-empty prefix. */
  lemma {:induction false} CapitalPiecesAppend(a: string, b: string)
    requires |a| >= 1 && |b| >= 1 && IsUpper(b[0])
    ensures CapitalPieces(a + b) == CapitalPieces(a) + CapitalPieces(b)
  {
    var s := a + b;
    var q := CapitalPieces(b);
    assert q == Attach(b[0], CapitalPieces(b[1..]));
    assert q != [] && q[0] != [] && q[0][0] == b[0];
    if |a| == 1 {
      assert s[1..] == b;
      assert CapitalPieces(s) == Attach(s[0], q);
      assert Attach(s[0], q) == [[s[0]]] + q;
      assert a[1..] == [];
      assert CapitalPieces(a) == Attach(a[0], []);
    } else {
      assert s[1..] == a[1..] + b;
      CapitalPiecesAppend(a[1..], b);
      var p := CapitalPieces(a[1..]);
      assert p == Attach(a[1], CapitalPieces(a[2..]));
      assert p != [];
      PlaceAttach(a[0], p, q);
      assert CapitalPieces(s) == Attach(s[0], p + q);
      assert CapitalPieces(a) == Attach(a[0], p);
    }
  }

  lemma PlaceAttach(c: char, p: seq<string>, q: seq<string>)
    requires p != []
    ensures Attach(c, p + q) == Attach(c, p) + q
  {
    assert (p + q)[0] == p[0];
    assert (p + q)[1..] == p[1..] + q;
  }

  /** `implode($sep, $words)`. */
  function Join(words: seq<string>, sep: char): string
  {
    if words == [] then []
    else if |words| == 1 then words[0]
    else words[0] + [sep] + Join(words[1..], sep)
  }

  /** Words of letters joined by single underscores. */
  predicate JoinedLetters(r: string)
  {
    && (forall i :: 0 <= i < |r| ==> IsLetter(r[i]) || r[i] == '_')
    && (r != [] ==> r[0] != '_' && r[|r| - 1] != '_')
    && (forall i :: 0 <= i < |r| - 1 && r[i] == '_' ==> r[i + 1] != '_')
  }

  /** Lower-case words of letters joined by single underscores. */
  predicate WellJoined(r: string)
  {
    && (forall i :: 0 <= i < |r| ==> IsLower(r[i]) || r[i] == '_')
    && (r != [] ==> r[0] != '_' && r[|r| - 1] != '_')
    && (forall i :: 0 <= i < |r| - 1 && r[i] == '_' ==> r[i + 1] != '_')
  }

  lemma LowerWellJoined(r: string)
    requires JoinedLetters(r)
    ensures WellJoined(Lower(r))
  {
  }

  predicate LetterWords(words: seq<string>)
  {
    && (forall w :: 0 <= w < |words| ==> |words[w]| >= 1)
    && (forall w, j :: 0 <= w < |words| && 0 <= j < |words[w]| ==> IsLetter(words[w][j]))
  }

  lemma {:induction false} JoinShape(words: seq<string>)
    requires LetterWords(words)
    ensures JoinedLetters(Join(words, '_'))
    ensures |words| >= 1 ==> |Join(words, '_')| >= 1
  {
    if |words| == 1 {
      assert Join(words, '_') == words[0];
    } else if |words| > 1 {
      assert LetterWords(words[1..]);
      JoinShape(words[1..]);
      var w := words[0];
      var rest := Join(words[1..], '_');
      var j := w + "_" + rest;
      assert Join(words, '_') == j;
      forall i | 0 <= i < |j|
        ensures IsLetter(j[i]) || j[i] == '_'
      {
        if i < |w| {
          assert j[i] == w[i];
        } else if i > |w| {
          assert j[i] == rest[i - |w| - 1];
        }
      }
      forall i | 0 <= i < |j| - 1 && j[i] == '_'
        ensures j[i + 1] != '_'
      {
        if i > |w| {
          assert j[i] == rest[i - |w| - 1];
          assert j[i + 1] == rest[i - |w|];
        } else if i == |w| {
          assert j[i + 1] == rest[0];
        }
      }
      assert j[|j| - 1] == rest[|rest| - 1];
      assert j[0] == w[0] && IsLetter(w[0]);
    }
  }

  lemma {:induction false} JoinContent(words: seq<string>)
    requires LetterWords(words)
    ensures RemoveChar(Join(words, '_'), '_') == Concat(words)
  {
    if |words| == 0 {
    } else if |words| == 1 {
      assert forall j :: 0 <= j < |words[0]| ==> IsLetter(words[0][j]);
      RemoveCharAbsent(words[0], '_');
      assert Concat(words) == words[0] + Concat([]);
    } else {
      assert LetterWords(words[1..]);
      JoinContent(words[1..]);
      var w := words[0];
      var rest := Join(words[1..], '_');
      assert Join(words, '_') == w + "_" + rest;
      assert forall j :: 0 <= j < |w| ==> IsLetter(w[j]);
      RemoveCharAppend(w + "_", rest, '_');
      RemoveCharAppend(w, "_", '_');
      RemoveCharAbsent(w, '_');
    }
  }

  /**
    `getFullTableName`: the namespace's words and the letters of `name` split
    at capitals, joined by `_` and lower-cased. A falsy name gives `""`, and so
    does a name with no letter, where `capitalStringSplit` returns null and the
    merge collapses (the behaviour of PHP 5 and 7).
   */
  function GetFullTableName(name: string): (r: string)
    ensures !Truthy(name) || AlphabetFilter(name) == [] ==> r == ""
  {
    if !Truthy(name) then ""
    else
      var letters := AlphabetFilter(name);
      if letters == [] then ""
      else Lower(Join(CapitalStringSplit(AlphabetFilter(Namespace)) + CapitalStringSplit(letters), '_'))
  }

  /**
    A table name is lower-case words of letters joined by single
    underscores, and spells the namespace followed by the letters of the
    requested name.
   */
  lemma GetFullTableNameShape(name: string)
    ensures WellJoined(GetFullTableName(name))
    ensures GetFullTableName(name) != "" ==>
      RemoveChar(GetFullTableName(name), '_') == "canadasmotorcycle" + Lower(AlphabetFilter(name))
  {
    if Truthy(name) && AlphabetFilter(name) != [] {
      FullTableNameShape(AlphabetFilter(name));
    }
  }

  lemma NamespaceWords()
    ensures CapitalStringSplit(AlphabetFilter(Namespace)) == ["Canadas", "Motorcycle"]
  {
    var a, b := "Canadas", "Motorcycle";
    NamespaceLetters(Namespace, a, b);
    NamespacePieces(Namespace, a, b);
    var f := AlphabetFilter(Namespace);
    assert forall i :: 0 <= i < |f| ==> IsLetter(f[i]);
    assert CapitalStringSplit(f) == CapitalPieces(f);
  }

  lemma NamespaceLetters(s: string, a: string, b: string)
    requires a == "Canadas" && b == "Motorcycle" && s == a + b
    ensures AlphabetFilter(s) == s
  {
    AlphabetFilterAppend(a, b);
    AlphabetFilterOfLetters(a);
    AlphabetFilterOfLetters(b);
  }

  lemma NamespacePieces(s: string, a: string, b: string)
    requires a == "Canadas" && b == "Motorcycle" && s == a + b
    ensures CapitalPieces(s) == [a, b]
  {
    CapitalPiecesAppend(a, b);
    CapitalPiecesOfWord(a);
    CapitalPiecesOfWord(b);
  }

  lemma FullTableNameShape(letters: string)
    requires letters != []
    requires forall i :: 0 <= i < |letters| ==> IsLetter(letters[i])
    ensures var words := CapitalStringSplit(AlphabetFilter(Namespace)) + CapitalStringSplit(letters);
      && WellJoined(Lower(Join(words, '_')))
      && RemoveChar(Lower(Join(words, '_')), '_') == "canadasmotorcycle" + Lower(letters)
  {
    NamespaceWords();
    var prefix := CapitalStringSplit(AlphabetFilter(Namespace));
    assert LetterWords(prefix);
    assert Concat(prefix) == Namespace by {
      assert Concat(prefix) == "Canadas" + Concat(["Motorcycle"]);
    }
    JoinedWordsShape(prefix, letters);
    LowerAppend(Namespace, letters);
    LowerNamespace(Namespace, "Canadas", "Motorcycle");
  }

  /** Joining a list of letter words followed by the pieces of a string of letters. */
  lemma JoinedWordsShape(prefix: seq<string>, letters: string)
    requires LetterWords(prefix)
    requires forall i :: 0 <= i < |letters| ==> IsLetter(letters[i])
    ensures var j := Join(prefix + CapitalPieces(letters), '_');
      && WellJoined(Lower(j))
      && RemoveChar(Lower(j), '_') == Lower(Concat(prefix) + letters)
  {
    var pieces := CapitalPieces(letters);
    var words := prefix + pieces;
    CapitalPiecesShape(letters);
    CapitalPiecesChars(letters);
    CapitalPiecesConcat(letters);
    assert LetterWords(words) by {
      forall w, j | 0 <= w < |words| && 0 <= j < |words[w]|
        ensures IsLetter(words[w][j])
      {
        if w >= |prefix| {
          assert words[w] == pieces[w - |prefix|];
          assert words[w][j] in letters;
        }
      }
      forall w | 0 <= w < |words|
        ensures |words[w]| >= 1
      {
        if w >= |prefix| {
          assert words[w] == pieces[w - |prefix|];
          assert PieceShape(pieces, w - |prefix|);
        }
      }
    }
    var j := Join(words, '_');
    JoinShape(words);
    LowerWellJoined(j);
    JoinContent(words);
    ConcatAppend(prefix, pieces);
    RemoveCharLower(j);
  }

  lemma LowerNamespace(s: string, a: string, b: string)
    requires a == "Canadas" && b == "Motorcycle" && s == a + b
    ensures Lower(s) == "canadasmotorcycle"
  {
    LowerAppend(a, b);
  }

  lemma {:induction false} RemoveCharLower(s: string)
    ensures RemoveChar(Lower(s), '_') == Lower(RemoveChar(s, '_'))
  {
    if s != [] {
      RemoveCharLower(s[1..]);
      assert Lower(s) == [LowerChar(s[0])] + Lower(s[1..]);
    }
  }

  /** A name of lower-case letters becomes the namespace's words followed by the name. */
  lemma TableNameOfLowerWord(name: string)
    requires |name| >= 1 && forall i :: 0 <= i < |name| ==> IsLower(name[i])
    ensures GetFullTableName(name) == "canadas_motorcycle_" + name
  {
    LowerWordIsOneWord(name);
    NamespaceWords();
    var words := ["Canadas", "Motorcycle", name];
    assert words == CapitalStringSplit(AlphabetFilter(Namespace)) + CapitalStringSplit(AlphabetFilter(name));
    JoinThree(name, words);
    LowerAppend("Canadas_Motorcycle_", name);
    LowerOfNoUpper(name);
  }

  lemma LowerWordIsOneWord(name: string)
    requires |name| >= 1 && forall i :: 0 <= i < |name| ==> IsLower(name[i])
    ensures Truthy(name) && AlphabetFilter(name) == name && CapitalStringSplit(name) == [name]
  {
    AlphabetFilterOfLetters(name);
    CapitalPiecesOfWord(name);
  }

  lemma JoinThree(name: string, words: seq<string>)
    requires words == ["Canadas", "Motorcycle", name]
    ensures Join(words, '_') == "Canadas_Motorcycle_" + name
  {
    assert words[1..][1..] == [name];
    assert Join(words[1..], '_') == "Motorcycle" + "_" + name;
  }

  /** The name of the products table. */
  lemma ProductsTableName()
    ensures GetFullTableName("products") == "canadas_motorcycle_products"
  {
    ProductsTableNameOf("products");
  }

  lemma ProductsTableNameOf(name: string)
    requires name == "products"
    ensures GetFullTableName(name) == "canadas_motorcycle_products"
  {
    TableNameOfLowerWord(name);
  }

  /** The name of the cart table. */
  lemma CartTableName()
    ensures GetFullTableName("cart") == "canadas_motorcycle_cart"
  {
    TableNameOfLowerWord("cart");
  }

  /** The falsy names give no table name. */
  lemma TableNameOfFalsyNames()
    ensures GetFullTableName("") == ""
    ensures GetFullTableName("0") == ""
  {
  }
}
