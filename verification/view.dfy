/**
  The view (`View` in the source): the key/value bag of view data, the
  figures and product list it is filled with, and the substitution of
  `{{key}}` placeholders. Template files and output buffering are not
  modelled; a template is the string it would produce.
 */
module View {
  import opened Wrappers
  import opened Strings
  import opened Sums
  import opened Bags
  import Money
  import Model

  // Case-insensitive replacement, as `str_ireplace` does it for one search string.

  /** Whether `s` starts with `pat`, ignoring letter case. */
  predicate StartsCaseless(s: string, pat: string)
    decreases |pat|
  {
    pat == [] || (|s| > 0 && LowerChar(s[0]) == LowerChar(pat[0]) && StartsCaseless(s[1..], pat[1..]))
  }

  lemma {:induction false} StartsCaselessLength(s: string, pat: string)
    requires StartsCaseless(s, pat)
    ensures |pat| <= |s|
    decreases |pat|
  {
    if pat != [] {
      StartsCaselessLength(s[1..], pat[1..]);
    }
  }

  /** Whether `pat` occurs at position `i` of `s`, ignoring letter case. */
  predicate MatchesAt(s: string, pat: string, i: nat)
  {
    i <= |s| && StartsCaseless(s[i..], pat)
  }

  predicate Occurs(s: string, pat: string)
  {
    exists i: nat :: i <= |s| && MatchesAt(s, pat, i)
  }

  /**
    Every occurrence of `pat` in `s`, in any letter case, replaced by `rep`,
    scanning from the left and never re-reading replaced text.
   */
  function ReplaceCaseless(s: string, pat: string, rep: string): string
    requires pat != []
    decreases |s|
  {
    if |s| < |pat| then s
    else if StartsCaseless(s, pat) then rep + ReplaceCaseless(s[|pat|..], pat, rep)
    else [s[0]] + ReplaceCaseless(s[1..], pat, rep)
  }

  lemma MatchesAtShift(s: string, pat: string, i: nat)
    requires |s| >= 1
    ensures MatchesAt(s[1..], pat, i) <==> MatchesAt(s, pat, i + 1)
  {
    if i <= |s[1..]| {
      assert s[1..][i..] == s[i + 1..];
    }
  }

  /** A string in which the pattern does not occur is left as it is. */
  lemma {:induction false} ReplaceAbsent(s: string, pat: string, rep: string)
    requires pat != [] && !Occurs(s, pat)
    ensures ReplaceCaseless(s, pat, rep) == s
  {
    if |s| >= |pat| {
      assert !MatchesAt(s, pat, 0);
      assert s[0..] == s;
      forall i: nat | i <= |s[1..]| ensures !MatchesAt(s[1..], pat, i) {
        MatchesAtShift(s, pat, i);
      }
      ReplaceAbsent(s[1..], pat, rep);
    }
  }

  /**
    The text before the first occurrence is kept, the occurrence becomes
    `rep`, and the scan resumes after it. With `ReplaceAbsent` this
    determines the replacement completely.
   */
  lemma {:induction false} ReplaceFirst(s: string, pat: string, rep: string, j: nat)
    requires pat != [] && MatchesAt(s, pat, j)
    requires forall i: nat :: i < j ==> !MatchesAt(s, pat, i)
    ensures j + |pat| <= |s|
    ensures ReplaceCaseless(s, pat, rep) == s[..j] + rep + ReplaceCaseless(s[j + |pat|..], pat, rep)
  {
    StartsCaselessLength(s[j..], pat);
    assert s[0..] == s;
    if j == 0 {
      assert s[..j] == [];
    } else {
      assert !MatchesAt(s, pat, 0);
      FirstMatchShift(s, pat, j);
      ReplaceFirst(s[1..], pat, rep, j - 1);
      assert s[1..][j - 1 + |pat|..] == s[j + |pat|..];
      StitchFirst(s, j, |pat|, rep, ReplaceCaseless(s[1..], pat, rep), ReplaceCaseless(s[j + |pat|..], pat, rep));
    }
  }

  lemma FirstMatchShift(s: string, pat: string, j: nat)
    requires 0 < j && MatchesAt(s, pat, j)
    requires forall i: nat :: i < j ==> !MatchesAt(s, pat, i)
    ensures MatchesAt(s[1..], pat, j - 1)
    ensures forall i: nat :: i < j - 1 ==> !MatchesAt(s[1..], pat, i)
  {
    MatchesAtShift(s, pat, j - 1);
    forall i: nat | i < j - 1 ensures !MatchesAt(s[1..], pat, i) {
      MatchesAtShift(s, pat, i);
    }
  }

  lemma StitchFirst(s: string, j: nat, n: nat, rep: string, rest: string, tail: string)
    requires 0 < j && j + n <= |s|
    requires rest == s[1..][..j - 1] + rep + tail
    ensures [s[0]] + rest == s[..j] + rep + tail
  {
    assert [s[0]] + s[1..][..j - 1] == s[..j];
  }

  /** Starting with `p + q` means starting with `p`. */
  lemma {:induction false} StartsCaselessPrefix(s: string, p: string, q: string)
    requires StartsCaseless(s, p + q)
    ensures StartsCaseless(s, p)
    decreases |p|
  {
    if p != [] {
      assert (p + q)[0] == p[0] && (p + q)[1..] == p[1..] + q;
      StartsCaselessPrefix(s[1..], p[1..], q);
    }
  }

  /** Equal lower-case forms mean a caseless start. */
  lemma {:induction false} StartsCaselessOfLower(s: string, pat: string)
    requires |pat| <= |s| && Lower(s[..|pat|]) == Lower(pat)
    ensures StartsCaseless(s, pat)
    decreases |pat|
  {
    if pat != [] {
      assert LowerChar(s[0]) == Lower(s[..|pat|])[0];
      assert s[1..][..|pat[1..]|] == s[..|pat|][1..];
      assert Lower(s[..|pat|])[1..] == Lower(s[1..][..|pat[1..]|]);
      assert Lower(pat)[1..] == Lower(pat[1..]);
      StartsCaselessOfLower(s[1..], pat[1..]);
    }
  }

  // Placeholder substitution

  /** The placeholder a template writes for `key`. */
  function Placeholder(key: string): (r: string)
    ensures |r| == |key| + 4 && r[..2] == "{{"
  {
    "{{" + key + "}}"
  }

  /**
    `injectViewData`: for each entry of the bag in order, every placeholder
    of its key, in any letter case, replaced by the value's text. A later
    entry sees the text the earlier ones produced.
   */
  function InjectViewData(contents: string, bag: Bag): string
    decreases |bag|
  {
    if bag == [] then contents
    else InjectViewData(ReplaceCaseless(contents, Placeholder(bag[0].key), ValueText(bag[0].value)), bag[1..])
  }

  /** Injecting a bag split in two is injecting the first part, then the second. */
  lemma {:induction false} InjectAppend(contents: string, a: Bag, b: Bag)
    ensures InjectViewData(contents, a + b) == InjectViewData(InjectViewData(contents, a), b)
    decreases |a|
  {
    if a == [] {
      assert a + b == b;
    } else {
      assert (a + b)[0] == a[0];
      assert (a + b)[1..] == a[1..] + b;
      var next := ReplaceCaseless(contents, Placeholder(a[0].key), ValueText(a[0].value));
      InjectAppend(next, a[1..], b);
    }
  }

  /** Wherever a placeholder occurs, `{{` occurs. */
  lemma PlaceholderNeedsBraces(s: string, key: string)
    requires Occurs(s, Placeholder(key))
    ensures Occurs(s, "{{")
  {
    var i: nat :| i <= |s| && MatchesAt(s, Placeholder(key), i);
    assert Placeholder(key) == "{{" + (key + "}}");
    StartsCaselessPrefix(s[i..], "{{", key + "}}");
    assert MatchesAt(s, "{{", i);
  }

  /** A template without `{{` comes out of the injection unchanged, whatever the bag. */
  lemma {:induction false} InjectWithoutBraces(contents: string, bag: Bag)
    requires !Occurs(contents, "{{")
    ensures InjectViewData(contents, bag) == contents
  {
    if bag != [] {
      var p := Placeholder(bag[0].key);
      if Occurs(contents, p) {
        PlaceholderNeedsBraces(contents, bag[0].key);
      }
      ReplaceAbsent(contents, p, ValueText(bag[0].value));
      InjectWithoutBraces(contents, bag[1..]);
    }
  }

  /**
    A single placeholder written in another letter case is still replaced:
    `n={{Cart_Count}}` with a count of 3 becomes `n=3`.
   */
  lemma InjectIgnoresCase(contents: string, key: string)
    requires contents == "n={{Cart_Count}}" && key == "cart_count"
    ensures InjectViewData(contents, [Entry(key, IntVal(3))]) == "n=3"
  {
    var p := Placeholder(key);
    var bag := [Entry(key, IntVal(3))];
    FoundAtTwo(contents, p);
    ReplaceFirst(contents, p, "3", 2);
    assert contents[2 + |p|..] == [] && contents[..2] == "n=";
    assert ValueText(IntVal(3)) == "3";
    assert bag[1..] == [];
  }

  lemma FoundAtTwo(contents: string, p: string)
    requires contents == "n={{Cart_Count}}" && p == "{{cart_count}}"
    ensures MatchesAt(contents, p, 2)
    ensures forall i: nat :: i < 2 ==> !MatchesAt(contents, p, i)
  {
    assert contents[2..][..|p|] == "{{Cart_Count}}";
    assert Lower("{{Cart_Count}}") == p;
    StartsCaselessOfLower(contents[2..], p);
    assert !MatchesAt(contents, p, 0) && !MatchesAt(contents, p, 1);
  }

  // The product list

  function Spaces(n: nat): (r: string)
    ensures |r| == n && forall i :: 0 <= i < n ==> r[i] == ' '
  {
    seq(n, _ => ' ')
  }

  const ListOpen: string := "<ul class=\"cart-product-list\">"
  const ListClose: string := "</ul>"

  /** A column of the joined product as the fetched row holds it: `NULL` prints as nothing. */
  function ProductText(item: Model.CartItem, column: Model.Product -> Option<string>): string
  {
    match item.product
    case Some(p) => column(p).GetOr("")
    case None => ""
  }

  /**
    The `<li>` of one cart item. The `product_id` shown is the product
    table's column, which `SELECT *` puts after the cart's, so it is empty
    when no product matched; the price is the `DECIMAL(6,2)` column's text.
    Nothing is escaped.
   */
  function ItemHtml(item: Model.CartItem): string
  {
    ItemOpen(item) + ItemBody(item)
  }

  /** The opening `<li>` tag, which carries the cart id. */
  function ItemOpen(item: Model.CartItem): string
  {
    "\n" + Spaces(16) + "<li id=\"cart-id-" + IntToText(item.row.cartId) + "\">"
  }

  function ItemBody(item: Model.CartItem): string
  {
    var image := ProductText(item, (p: Model.Product) => Some(p.imageUrl));
    var name := ProductText(item, (p: Model.Product) => Some(p.name));
    var productId := ProductText(item, (p: Model.Product) => Some(IntToText(p.productId)));
    var description := ProductText(item, (p: Model.Product) => p.description);
    var price := ProductText(item, (p: Model.Product) =>
      if p.price.Some? then Some(Money.DecimalColumnText(p.price.value)) else None);
    "\n" + Spaces(20) + "<img src=\"" + image + "\" alt=\"" + name + "\" />"
    + "\n" + Spaces(20) + "<div class=\"cart-product-info\" id=\"product-id-" + productId + "\">"
    + "\n" + Spaces(24) + "<h3 class=\"cart-product-name\"><a href=\"" + image + "\">" + name + "</a></h3>"
    + "\n" + Spaces(24) + "<div class=\"cart-product-description\">" + description + "</div>"
    + "\n" + Spaces(24) + "<div class=\"cart-product-price\">$" + price + "</div>"
    + "\n" + Spaces(24) + "<label class=\"cart-product-quantity\">Quantity: <input type=\"number\" min=\"0\" max=\"99\" value=\""
    + IntToText(item.row.quantity) + "\" /></label>"
    + "\n" + Spaces(20) + "</div>"
    + "\n" + Spaces(16) + "</li>"
  }

  /** The strings `render` gives the elements of `xs`, one after the other. */
  function Rendered<T>(xs: seq<T>, render: T -> string): string
  {
    if xs == [] then "" else render(xs[0]) + Rendered(xs[1..], render)
  }

  lemma {:induction false} RenderedAppend<T>(a: seq<T>, b: seq<T>, render: T -> string)
    ensures Rendered(a + b, render) == Rendered(a, render) + Rendered(b, render)
  {
    if a == [] {
      assert a + b == b;
    } else {
      assert (a + b)[0] == a[0];
      assert (a + b)[1..] == a[1..] + b;
      RenderedAppend(a[1..], b, render);
    }
  }

  lemma {:induction false} RenderedInOrder<T>(xs: seq<T>, render: T -> string)
    ensures Rendered(xs, render) == Model.Concat(seq(|xs|, i requires 0 <= i < |xs| => render(xs[i])))
  {
    var pieces := seq(|xs|, i requires 0 <= i < |xs| => render(xs[i]));
    if xs != [] {
      RenderedInOrder(xs[1..], render);
      assert pieces[1..] == seq(|xs[1..]|, i requires 0 <= i < |xs[1..]| => render(xs[1..][i]));
    }
  }

  lemma Framed(a: string, b: string, c: string)
    ensures (a + b + c)[..|a|] == a
    ensures (a + b + c)[|a + b|..] == c
  {
  }

  /** A list of the elements of `xs`: the opening tag, each element's markup in order, the closing tag. */
  function ListHtml<T>(xs: seq<T>, render: T -> string): string
  {
    ListOpen + Rendered(xs, render) + ListClose
  }

  /** The list opens with the `<ul>` tag and closes with `</ul>`; with no elements it is just the two. */
  lemma ListHtmlFramed<T>(xs: seq<T>, render: T -> string)
    ensures var r := ListHtml(xs, render);
      && |r| >= |ListOpen| + |ListClose|
      && r[..|ListOpen|] == ListOpen
      && r[|r| - |ListClose|..] == ListClose
      && (xs == [] ==> r == ListOpen + ListClose)
  {
    Framed(ListOpen, Rendered(xs, render), ListClose);
  }

  /** The list of a sequence split in two holds the first part's markup, then the second's. */
  lemma ListHtmlAppend<T>(a: seq<T>, b: seq<T>, render: T -> string)
    ensures ListHtml(a + b, render) == ListOpen + Rendered(a, render) + Rendered(b, render) + ListClose
  {
    RenderedAppend(a, b, render);
    Regroup(ListOpen, Rendered(a, render), Rendered(b, render), ListClose);
  }

  lemma Regroup(o: string, x: string, y: string, c: string)
    ensures o + (x + y) + c == o + x + y + c
  {
  }

  /** The list holds exactly the elements' markup, the `i`-th element's in the `i`-th place. */
  lemma ListItemsInOrder<T>(xs: seq<T>, render: T -> string)
    ensures ListHtml(xs, render) ==
      ListOpen + Model.Concat(seq(|xs|, i requires 0 <= i < |xs| => render(xs[i]))) + ListClose
  {
    RenderedInOrder(xs, render);
  }

  /** `buildHtmlProductList`: the cart items' `<li>`s inside the product list's `<ul>`. */
  function BuildHtmlProductList(items: seq<Model.CartItem>): string
  {
    ListHtml(items, ItemHtml)
  }

  /** Each item's `<li>` opens with its cart id. */
  lemma ItemHtmlOpensWithCartId(item: Model.CartItem)
    ensures ItemHtml(item)[..|ItemOpen(item)|] == ItemOpen(item)
  {
    Framed(ItemOpen(item), ItemBody(item), "");
  }

  // The view-data bag

  /** The argument of `setViewData`: an array, or any other value. */
  datatype ViewArg = ArrayArg(data: Bag) | NotArray

  /** `setViewData`: an array is merged in with `array_merge`; anything else is ignored. */
  function SetViewData(viewData: Bag, arg: ViewArg): (r: Bag)
    ensures arg.NotArray? ==> r == viewData
    ensures arg.ArrayArg? ==>
      forall k :: Lookup(r, k) == (if k in Keys(arg.data) then Lookup(arg.data, k) else Lookup(viewData, k))
    ensures arg.ArrayArg? ==> forall k :: k in Keys(r) <==> k in Keys(viewData) || k in Keys(arg.data)
    ensures |r| >= |viewData| && Keys(r)[..|viewData|] == Keys(viewData)
    ensures arg.ArrayArg? ==> Keys(r) == Keys(viewData) + Missing(Keys(arg.data), Keys(viewData))
  {
    match arg
    case NotArray => viewData
    case ArrayArg(data) =>
      assert forall k ::
        Lookup(Merge(viewData, data), k) == (if k in Keys(data) then Lookup(data, k) else Lookup(viewData, k)) by {
        forall k ensures Lookup(Merge(viewData, data), k) ==
          if k in Keys(data) then Lookup(data, k) else Lookup(viewData, k) {
          MergeLookup(viewData, data, k);
        }
      }
      Merge(viewData, data)
  }

  lemma {:induction false} FreshOfEmpty(b: Bag)
    ensures Fresh(b, []) == b
  {
    if b != [] {
      FreshOfEmpty(b[1..]);
    }
  }

  /** Setting data on an empty bag, as the constructor does, gives exactly that data. */
  lemma SetOnEmpty(data: Bag)
    ensures SetViewData([], ArrayArg(data)) == data
  {
    FreshOfEmpty(data);
  }

  /** The keys `getViewData` sets, in order. */
  const ViewKeys: seq<string> := ["cart_count", "cart_subtotal", "cart_bag"]

  /** `$cartItem['price']` added to a running sum: the joined price, `NULL` adding nothing. */
  function PriceTerm(item: Model.CartItem): int { Model.PriceOf(item) }

  /** The `foreach` of `getViewData`: running sums of the quantities and of the prices. */
  method Tally(cartData: seq<Model.CartItem>) returns (cartCount: int, cartSubTotal: int)
    ensures cartCount == Model.CartQuantity(cartData)
    ensures cartSubTotal == SumOf(cartData, PriceTerm)
  {
    cartCount := 0;
    cartSubTotal := 0;
    var i := 0;
    while i < |cartData|
      invariant 0 <= i <= |cartData|
      invariant cartCount == SumOf(cartData[..i], Model.QuantityOf)
      invariant cartSubTotal == SumOf(cartData[..i], PriceTerm)
    {
      assert cartData[..i + 1] == cartData[..i] + [cartData[i]];
      SumOfAppend(cartData[..i], [cartData[i]], Model.QuantityOf);
      SumOfAppend(cartData[..i], [cartData[i]], PriceTerm);
      cartCount := cartCount + cartData[i].row.quantity;
      cartSubTotal := cartSubTotal + Model.PriceOf(cartData[i]);
      i := i + 1;
    }
    assert cartData[..i] == cartData;
  }

  /** The array `getViewData` hands to `setViewData`. */
  function Figures(cartCount: int, cartSubTotal: int, cartBag: string): (r: Bag)
    ensures Keys(r) == ViewKeys
    ensures r[0].value == IntVal(cartCount) && r[1].value == DecimalVal(cartSubTotal) && r[2].value == StrVal(cartBag)
  {
    [Entry("cart_count", IntVal(cartCount)), Entry("cart_subtotal", DecimalVal(cartSubTotal)), Entry("cart_bag", StrVal(cartBag))]
  }

  /**
    `getViewData`: the figures merged into the bag. Existing entries keep
    their places; the three keys read the new figures.
   */
  method GetViewData(viewData: Bag, table: seq<Model.CartRow>, products: seq<Model.Product>) returns (r: Bag)
    ensures |r| >= |viewData| && Keys(r)[..|viewData|] == Keys(viewData)
    ensures Keys(r) == Keys(viewData) + Missing(ViewKeys, Keys(viewData))
    ensures forall k :: k in ViewKeys ==> k in Keys(r)
    ensures forall k :: k !in ViewKeys ==> Lookup(r, k) == Lookup(viewData, k)
    ensures Lookup(r, "cart_count") == Some(IntVal(Model.CartQuantity(Model.CartData(table, products, 1))))
    ensures Lookup(r, "cart_subtotal") == Some(DecimalVal(SumOf(Model.CartData(table, products, 1), PriceTerm)))
    ensures Lookup(r, "cart_bag") == Some(StrVal(BuildHtmlProductList(Model.CartData(table, products, 1))))
  {
    var cartData := Model.CartData(table, products, 1);
    var cartCount, cartSubTotal := Tally(cartData);
    r := SetFigures(viewData, cartCount, cartSubTotal, BuildHtmlProductList(cartData));
  }

  /**
    The three figures set on a bag: they are found under their keys, the
    bag's own keys keep their places, and nothing else changes.
   */
  function SetFigures(viewData: Bag, count: int, subtotal: int, list: string): (r: Bag)
    ensures |r| >= |viewData| && Keys(r)[..|viewData|] == Keys(viewData)
    ensures Keys(r) == Keys(viewData) + Missing(ViewKeys, Keys(viewData))
    ensures forall k :: k in ViewKeys ==> k in Keys(r)
    ensures forall k :: k !in ViewKeys ==> Lookup(r, k) == Lookup(viewData, k)
    ensures Lookup(r, "cart_count") == Some(IntVal(count))
    ensures Lookup(r, "cart_subtotal") == Some(DecimalVal(subtotal))
    ensures Lookup(r, "cart_bag") == Some(StrVal(list))
  {
    var data := Figures(count, subtotal, list);
    ViewKeysLookup(data);
    SetViewData(viewData, ArrayArg(data))
  }

  lemma ViewKeysLookup(data: Bag)
    requires Keys(data) == ViewKeys
    ensures forall k :: k in Keys(data) <==> k in ViewKeys
    ensures Lookup(data, "cart_count") == Some(data[0].value)
    ensures Lookup(data, "cart_subtotal") == Some(data[1].value)
    ensures Lookup(data, "cart_bag") == Some(data[2].value)
  {
    assert data[0].key == "cart_count";
    assert data[1].key == "cart_subtotal";
    assert data[2].key == "cart_bag";
  }

  /**
    The view's subtotal is the sum of the prices, the cart's
    (`getCartSubtotal`) the sum of price times quantity: they agree when every
    quantity is 1.
   */
  lemma {:induction false} ViewSubtotalOfSingleQuantities(items: seq<Model.CartItem>)
    requires forall i :: 0 <= i < |items| ==> items[i].row.quantity == 1
    ensures SumOf(items, PriceTerm) == Model.CartSubtotal(items)
  {
    if items != [] {
      ViewSubtotalOfSingleQuantities(items[1..]);
      assert items == [items[0]] + items[1..];
      Model.CartTotalsAppend([items[0]], items[1..]);
      Model.CartTotalsSingle(items[0]);
    }
  }

  /** Two of one 1.00 product: the view shows a subtotal of 1.00, the cart 2.00. */
  lemma ViewSubtotalIgnoresQuantity()
    ensures var items := [Model.CartItem(Model.CartRow(1, 1, 1, 2), Some(Model.Product(1, "p", None, Some(100), "i")))];
      SumOf(items, PriceTerm) == 100 && Model.CartSubtotal(items) == 200
  {
    var items := [Model.CartItem(Model.CartRow(1, 1, 1, 2), Some(Model.Product(1, "p", None, Some(100), "i")))];
    Model.CartTotalsSingle(items[0]);
    assert SumOf(items[1..], PriceTerm) == 0;
  }
}
