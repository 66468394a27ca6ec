/**
  The request controller (`App` in the source): validation of the posted
  quantity update, the decision to write, and the choice of response.
  The request is an explicit value and the response an `Outcome`; headers,
  `exit` and JSON encoding are not modelled.
 */
module App {
  import opened Wrappers
  import opened Strings
  import opened Bags
  import Model

  /** The patterns of the validation store. */
  datatype Pattern =
    | Digits(min: nat, max: nat)  // `/^[0-9]{min,max}$/`
    | Empty                       // `/^$/`

  /**
    How the pattern's closing `$` behaves. PCRE's default, which the source
    uses, also matches just before a final newline; with the `D` modifier
    it matches only at the very end.
   */
  datatype DollarMode = FinalNewlineAllowed | EndOnly

  /** `validationStore()`: the posted fields of an update and their patterns, in order. */
  const ValidationStore: seq<(string, Pattern)> := [
    ("cart_id", Digits(1, 11)),
    ("product_id", Digits(1, 11)),
    ("quantity", Digits(1, 2)),
    ("submit_quantity", Empty)
  ]

  /** The three fields the update statement needs. */
  const RequiredFields: set<string> := {"cart_id", "product_id", "quantity"}

  function PatternOf(key: string): (r: Option<Pattern>)
    ensures r.Some? <==> key in RequiredFields || key == "submit_quantity"
  {
    if key == "cart_id" || key == "product_id" then Some(Digits(1, 11))
    else if key == "quantity" then Some(Digits(1, 2))
    else if key == "submit_quantity" then Some(Empty)
    else None
  }

  lemma PatternOfFollowsStore(key: string)
    ensures PatternOf(key).Some? <==> exists i :: 0 <= i < |ValidationStore| && ValidationStore[i].0 == key
    ensures forall i :: 0 <= i < |ValidationStore| && ValidationStore[i].0 == key ==>
      PatternOf(key) == Some(ValidationStore[i].1)
  {
    if PatternOf(key).Some? {
      var i := if key == "cart_id" then 0 else if key == "product_id" then 1 else if key == "quantity" then 2 else 3;
      assert ValidationStore[i].0 == key;
    }
  }

  /** The pattern matched against the whole of `s`, with no newline allowance. */
  predicate WholeMatch(p: Pattern, s: string)
  {
    match p
    case Digits(min, max) => min <= |s| <= max && AllDigits(s)
    case Empty => s == ""
  }

  /** `preg_match` of an anchored pattern under the given meaning of `$`. */
  predicate Matches(p: Pattern, s: string, mode: DollarMode)
  {
    || WholeMatch(p, s)
    || (mode == FinalNewlineAllowed && |s| >= 1 && s[|s| - 1] == '\n' && WholeMatch(p, s[..|s| - 1]))
  }

  /**
    Whether a posted field passes: a key with no pattern is looked up as
    `null`, and `preg_match` with a null pattern fails.
   */
  predicate Passes(key: string, value: string, mode: DollarMode)
  {
    match PatternOf(key)
    case Some(p) => Matches(p, value, mode)
    case None => false
  }

  /** The `array_walk` step: every field that fails its pattern is set to the empty string. */
  function BlankInvalid(post: map<string, string>, mode: DollarMode): (r: map<string, string>)
    ensures r.Keys == post.Keys
    ensures forall k :: k in post ==> r[k] == (if Passes(k, post[k], mode) then post[k] else "")
  {
    map k | k in post :: if Passes(k, post[k], mode) then post[k] else ""
  }

  /** The `array_filter` step: drops the fields whose value is exactly `""`. */
  function DropEmpty(fields: map<string, string>): (r: map<string, string>)
    ensures r.Keys <= fields.Keys
    ensures forall k :: k in r ==> r[k] == fields[k]
    ensures forall k :: k in fields ==> (k in r <==> fields[k] != "")
  {
    map k | k in fields && fields[k] != "" :: fields[k]
  }

  /** The fields that survive validation, still as the posted strings. */
  function Survivors(post: map<string, string>, mode: DollarMode): map<string, string>
  {
    DropEmpty(BlankInvalid(post, mode))
  }

  /** A field survives exactly when it passes its pattern and is not empty; its value is the one posted. */
  lemma SurvivorsExact(post: map<string, string>, mode: DollarMode, k: string)
    ensures k in Survivors(post, mode) <==> k in post && Passes(k, post[k], mode) && post[k] != ""
    ensures k in Survivors(post, mode) ==> Survivors(post, mode)[k] == post[k]
  {
  }

  /** A `"0"` quantity is a valid value and is not thrown away with the blanks. */
  lemma ZeroQuantitySurvives(post: map<string, string>, mode: DollarMode)
    requires "quantity" in post && post["quantity"] == "0"
    ensures "quantity" in Survivors(post, mode) && Survivors(post, mode)["quantity"] == "0"
  {
    assert WholeMatch(Digits(1, 2), "0");
  }

  /** With `$` matching only at the end, the id fields accept exactly one to eleven digits. */
  lemma IdFieldsExact(key: string, v: string)
    requires key == "cart_id" || key == "product_id"
    ensures Passes(key, v, EndOnly) <==> 1 <= |v| <= 11 && AllDigits(v)
  {
  }

  /** With `$` matching only at the end, the quantity accepts exactly one or two digits. */
  lemma QuantityFieldExact(v: string)
    ensures Passes("quantity", v, EndOnly) <==> 1 <= |v| <= 2 && AllDigits(v)
  {
  }

  /**
    As written, the id fields also accept their digits followed by one
    newline: `"12\n"` passes as a `cart_id`.
   */
  lemma IdFieldsAcceptFinalNewline(key: string, v: string)
    requires key == "cart_id" || key == "product_id"
    ensures Passes(key, v, FinalNewlineAllowed) <==>
      (1 <= |v| <= 11 && AllDigits(v)) || (2 <= |v| <= 12 && v[|v| - 1] == '\n' && AllDigits(v[..|v| - 1]))
    ensures Passes(key, "12\n", FinalNewlineAllowed) && !Passes(key, "12\n", EndOnly)
  {
    var s := "12\n";
    assert s[..|s| - 1] == "12";
    assert AllDigits("12");
    assert !IsDigit(s[2]);
  }

  /** With `$` matching only at the end, `submit_quantity` is dropped whatever its value. */
  lemma SubmitNeverSurvives(post: map<string, string>)
    ensures "submit_quantity" !in Survivors(post, EndOnly)
  {
  }

  /** Only the three required fields can survive when `$` matches only at the end. */
  lemma SurvivorsAreRequired(post: map<string, string>)
    ensures Survivors(post, EndOnly).Keys <= RequiredFields
  {
    forall k | k in Survivors(post, EndOnly)
      ensures k in RequiredFields
    {
      SurvivorsExact(post, EndOnly, k);
    }
  }

  /**
    As written, a `submit_quantity` of a single newline matches `/^$/`, is
    not blank, and survives.
   */
  lemma NewlineSubmitSurvives(post: map<string, string>)
    requires "submit_quantity" in post && post["submit_quantity"] == "\n"
    ensures "submit_quantity" in Survivors(post, FinalNewlineAllowed)
  {
    var s := "\n";
    assert s[..|s| - 1] == "";
  }

  /**
    `handleUpdateCartQuantityPost`: validates the posted fields and, when
    exactly `count(validationStore) - 1` survive, hands the surviving
    strings to the model's update. Returns the table afterwards and the
    update's result.
   */
  function HandleUpdate(table: seq<Model.CartRow>, post: map<string, string>, mode: DollarMode, statementOk: bool)
    : (r: (seq<Model.CartRow>, bool))
    ensures |Survivors(post, mode)| != |ValidationStore| - 1 ==> r == (table, false)
    ensures |Survivors(post, mode)| == |ValidationStore| - 1 ==>
      r == Model.UpdateProductQuantityInCart(table, Survivors(post, mode), statementOk)
    ensures !r.1 ==> r.0 == table
  {
    var fields := Survivors(post, mode);
    if |fields| == |ValidationStore| - 1 then Model.UpdateProductQuantityInCart(table, fields, statementOk)
    else (table, false)
  }

  /**
    With `$` matching only at the end, an update is written exactly when the
    three required fields are posted with valid values and the statement
    runs; the model then receives those three fields as posted strings.
   */
  lemma HandleUpdateWritesOnlyValidRequests(table: seq<Model.CartRow>, post: map<string, string>, statementOk: bool)
    ensures HandleUpdate(table, post, EndOnly, statementOk).1 <==>
      statementOk && forall k :: k in RequiredFields ==> k in post && Passes(k, post[k], EndOnly)
    ensures HandleUpdate(table, post, EndOnly, statementOk).1 ==>
      Survivors(post, EndOnly) == map k | k in RequiredFields :: post[k]
  {
    var fields := Survivors(post, EndOnly);
    HandleUpdateSucceeds(table, post, EndOnly, statementOk);
    SurvivorsAreRequired(post);
    RequiredFieldsFacts();
    SurvivorsOfValid(post);
    if fields.Keys != RequiredFields {
      StrictSubsetSmaller(fields.Keys, RequiredFields);
    }
  }

  /** The handler reports success exactly when three fields survive, they are the statement's, and it runs. */
  lemma HandleUpdateSucceeds(table: seq<Model.CartRow>, post: map<string, string>, mode: DollarMode, statementOk: bool)
    ensures HandleUpdate(table, post, mode, statementOk).1 <==>
      && statementOk
      && |Survivors(post, mode)| == |ValidationStore| - 1
      && Survivors(post, mode).Keys + {"user_id"} == Model.UpdatePlaceholders
  {
  }

  /** The surviving keys are all three required ones exactly when the three are posted with valid values. */
  lemma SurvivorsOfValid(post: map<string, string>)
    ensures Survivors(post, EndOnly).Keys >= RequiredFields <==>
      forall k :: k in RequiredFields ==> k in post && Passes(k, post[k], EndOnly)
    ensures forall k :: k in Survivors(post, EndOnly) ==> Survivors(post, EndOnly)[k] == post[k]
  {
    forall k | k in RequiredFields
      ensures k in Survivors(post, EndOnly) <==> k in post && Passes(k, post[k], EndOnly)
    {
      SurvivorsExact(post, EndOnly, k);
    }
  }

  lemma RequiredFieldsFacts()
    ensures |RequiredFields| == |ValidationStore| - 1
    ensures RequiredFields + {"user_id"} == Model.UpdatePlaceholders
    ensures |RequiredFields + {"submit_quantity"}| == |ValidationStore|
  {
  }

  lemma StrictSubsetSmaller<T>(a: set<T>, b: set<T>)
    requires a < b
    ensures |a| < |b|
  {
    if b - a == {} {
      forall y | y in b ensures y in a {
        assert y !in b - a;
      }
      assert false;
    }
    assert b == a + (b - a);
  }

  /**
    As written, a valid update whose `submit_quantity` is a single newline
    is refused: four fields survive instead of three. With `$` matching
    only at the end the same request is written.
   */
  lemma NewlineSubmitBlocksValidUpdate(table: seq<Model.CartRow>, post: map<string, string>, statementOk: bool)
    requires forall k :: k in RequiredFields ==> k in post && Passes(k, post[k], EndOnly)
    requires "submit_quantity" in post && post["submit_quantity"] == "\n"
    ensures HandleUpdate(table, post, FinalNewlineAllowed, statementOk) == (table, false)
    ensures HandleUpdate(table, post, EndOnly, statementOk).1 == statementOk
  {
    HandleUpdateWritesOnlyValidRequests(table, post, statementOk);
    NewlineSubmitKeepsFourFields(post);
    RequiredFieldsFacts();
    SubsetNotLarger(RequiredFields + {"submit_quantity"}, Survivors(post, FinalNewlineAllowed).Keys);
  }

  /** As written, the three valid fields and a newline `submit_quantity` all survive. */
  lemma NewlineSubmitKeepsFourFields(post: map<string, string>)
    requires forall k :: k in RequiredFields ==> k in post && Passes(k, post[k], EndOnly)
    requires "submit_quantity" in post && post["submit_quantity"] == "\n"
    ensures RequiredFields + {"submit_quantity"} <= Survivors(post, FinalNewlineAllowed).Keys
  {
    var asWritten := Survivors(post, FinalNewlineAllowed);
    forall k | k in RequiredFields + {"submit_quantity"} ensures k in asWritten {
      SurvivorsExact(post, FinalNewlineAllowed, k);
      if k == "submit_quantity" {
        NewlineSubmitSurvives(post);
      } else {
        assert Passes(k, post[k], EndOnly);
      }
    }
  }

  lemma SubsetNotLarger<T>(a: set<T>, b: set<T>)
    requires a <= b
    ensures |a| <= |b|
  {
    assert b == a + (b - a);
  }

  // Dispatch

  /** A request as the dispatcher sees it: method, the two XHR headers when set, and the posted fields. */
  datatype Request = Request(
    verb: string,
    httpXRequestedWith: Option<string>,
    xRequestedWith: Option<string>,
    post: map<string, string>)

  /** What the dispatcher does with a request. */
  datatype Outcome =
    | RenderCart              // the cart view is rendered
    | SendJson(data: Bag)     // the provisioned view data, sent as JSON
    | Redirect(location: string)
    | NoResponse              // the method has no whitelisted endpoint

  /** The whitelist of endpoints per lower-cased request method. */
  function Endpoints(verb: string): Option<seq<string>>
  {
    if verb == "get" then Some(["cart"])
    else if verb == "post" then Some(["update"])
    else None
  }

  /**
    The endpoint a request is served by: the first whitelisted one for its
    method, `cart` when that one is falsy; none when the method has no
    whitelist entry.
   */
  function Endpoint(verb: string): (r: Option<string>)
    ensures r.Some? <==> Endpoints(Lower(verb)).Some?
    ensures r.Some? ==> r.value in Endpoints(Lower(verb)).value
  {
    match Endpoints(Lower(verb))
    case None => None
    case Some(eps) =>
      var first := if eps == [] || !Truthy(eps[0]) then "cart" else eps[0];
      if first in eps then Some(first) else None
  }

  /** A GET, in any letter case, is always served by `cart`, and a POST by `update`. */
  lemma EndpointByMethod(verb: string)
    ensures Lower(verb) == "get" ==> Endpoint(verb) == Some("cart")
    ensures Lower(verb) == "post" ==> Endpoint(verb) == Some("update")
    ensures Lower(verb) != "get" && Lower(verb) != "post" ==> Endpoint(verb) == None
  {
  }

  /**
    Whether the request is asynchronous: `HTTP_X_REQUESTED_WITH` set to any
    truthy value, or `X_REQUESTED_WITH` equal to `xmlhttprequest` in any case.
   */
  function IsXhr(httpXRequestedWith: Option<string>, xRequestedWith: Option<string>): (r: bool)
    ensures httpXRequestedWith.Some? && Truthy(httpXRequestedWith.value) ==> r
    ensures xRequestedWith.Some? && Lower(xRequestedWith.value) == "xmlhttprequest" ==> r
    ensures r ==> ((httpXRequestedWith.Some? && Truthy(httpXRequestedWith.value))
      || (xRequestedWith.Some? && Lower(xRequestedWith.value) == "xmlhttprequest"))
  {
    var first := httpXRequestedWith.Some? && Truthy(Lower(httpXRequestedWith.value));
    assert first <==> httpXRequestedWith.Some? && Truthy(httpXRequestedWith.value) by {
      if httpXRequestedWith.Some? { TruthyLower(httpXRequestedWith.value); }
    }
    || first
    || (xRequestedWith.Some? && Lower(xRequestedWith.value) == "xmlhttprequest")
  }

  /** Neither header set, or only falsy values in the first: a synchronous request. */
  lemma IsXhrExamples()
    ensures IsXhr(Some("XMLHttpRequest"), None)
    ensures IsXhr(Some("anything"), None)
    ensures !IsXhr(Some("0"), None) && !IsXhr(Some(""), None) && !IsXhr(None, None)
    ensures IsXhr(None, Some("XMLHTTPREQUEST")) && !IsXhr(None, Some("fetch"))
  {
    assert Lower("XMLHTTPREQUEST") == "xmlhttprequest";
    assert Lower("fetch") == "fetch";
  }

  /**
    `dispatcher()`: routes the request and returns the table afterwards and
    the outcome. `provisionView` is not part of this model; `provision`
    stands for it. It is given the table as it was when the View filled its
    data in its constructor, before the write, and the table after the
    write, since which of the two it reads is not visible here.
   */
  function Dispatch(
    req: Request, table: seq<Model.CartRow>, mode: DollarMode, statementOk: bool,
    provision: (seq<Model.CartRow>, seq<Model.CartRow>, bool) -> Bag)
    : (r: (seq<Model.CartRow>, Outcome))
    ensures Endpoint(req.verb) != Some("update") ==> r.0 == table
    ensures Endpoint(req.verb) == Some("cart") <==> r.1 == RenderCart
    ensures Endpoint(req.verb) == None <==> r.1 == NoResponse
    ensures Endpoint(req.verb) == Some("update") ==>
      var (after, ok) := HandleUpdate(table, req.post, mode, statementOk);
      && r.0 == after
      && (ok && IsXhr(req.httpXRequestedWith, req.xRequestedWith) ==> r.1 == SendJson(provision(table, after, false)))
      && (ok && !IsXhr(req.httpXRequestedWith, req.xRequestedWith) ==> r.1 == Redirect("?cart"))
      && (!ok ==> r.1 == Redirect("?error") && r.0 == table)
  {
    match Endpoint(req.verb)
    case None => (table, NoResponse)
    case Some(endpoint) =>
      if endpoint == "cart" then (table, RenderCart)
      else
        var (after, ok) := HandleUpdate(table, req.post, mode, statementOk);
        if ok then
          if IsXhr(req.httpXRequestedWith, req.xRequestedWith) then (after, SendJson(provision(table, after, false)))
          else (after, Redirect("?cart"))
        else (table, Redirect("?error"))
  }

  /**
    A request changes the table only when it is a POST whose three required
    fields are valid and whose statement runs; otherwise the table is left
    as it was (with `$` matching only at the end).
   */
  lemma DispatchWritesOnlyValidPosts(
    req: Request, table: seq<Model.CartRow>, statementOk: bool,
    provision: (seq<Model.CartRow>, seq<Model.CartRow>, bool) -> Bag)
    ensures var r := Dispatch(req, table, EndOnly, statementOk, provision);
      r.0 != table ==>
        && Lower(req.verb) == "post"
        && statementOk
        && (forall k :: k in RequiredFields ==> k in req.post && Passes(k, req.post[k], EndOnly))
  {
    EndpointByMethod(req.verb);
    HandleUpdateWritesOnlyValidRequests(table, req.post, statementOk);
  }
}
