/**
  PHP's ordered associative array with string keys, as the cart uses it for
  its view-data bag and for the price list: a sequence of key/value entries
  in insertion order, where a lookup finds the first entry with the key.
 */
module Bags {
  import opened Wrappers
  import opened Strings
  import opened Money

  /** The values the cart stores: integers, float sums of prices (in cents) and strings. */
  datatype Value = IntVal(i: int) | DecimalVal(cents: int) | StrVal(s: string)

  datatype Entry = Entry(key: string, value: Value)

  type Bag = seq<Entry>

  /** PHP's conversion of a stored value to a string. */
  function ValueText(v: Value): string
  {
    match v
    case IntVal(i) => IntToText(i)
    case DecimalVal(c) => FloatText(c)
    case StrVal(s) => s
  }

  function Keys(b: Bag): (r: seq<string>)
    ensures |r| == |b|
    ensures forall i :: 0 <= i < |b| ==> r[i] == b[i].key
  {
    if b == [] then [] else [b[0].key] + Keys(b[1..])
  }

  lemma KeysAppend(a: Bag, b: Bag)
    ensures Keys(a + b) == Keys(a) + Keys(b)
  {
    assert forall i :: 0 <= i < |a + b| ==> Keys(a + b)[i] == (Keys(a) + Keys(b))[i];
  }

  predicate UniqueKeys(b: Bag)
  {
    forall i, j :: 0 <= i < j < |b| ==> b[i].key != b[j].key
  }

  /** `$b[$k]` when `isset`: the value of the first entry with key `k`. */
  function Lookup(b: Bag, k: string): (r: Option<Value>)
    ensures r.None? <==> k !in Keys(b)
    ensures r.Some? ==> Entry(k, r.value) in b
  {
    if b == [] then None
    else if b[0].key == k then Some(b[0].value)
    else Lookup(b[1..], k)
  }

  lemma {:induction false} LookupAppend(a: Bag, b: Bag, k: string)
    ensures Lookup(a + b, k) == if k in Keys(a) then Lookup(a, k) else Lookup(b, k)
  {
    if a == [] {
      assert a + b == b;
    } else {
      assert (a + b)[0] == a[0];
      assert (a + b)[1..] == a[1..] + b;
      LookupAppend(a[1..], b, k);
    }
  }

  /** The entries of `a`, each taking the value `b` gives its key when `b` has it. */
  function Overlay(a: Bag, b: Bag): (r: Bag)
    ensures Keys(r) == Keys(a)
  {
    if a == [] then []
    else [Entry(a[0].key, Lookup(b, a[0].key).GetOr(a[0].value))] + Overlay(a[1..], b)
  }

  /** The entries of `b` whose keys `a` does not have, in `b`'s order. */
  function Fresh(b: Bag, a: Bag): (r: Bag)
    ensures forall i :: 0 <= i < |r| ==> r[i] in b && r[i].key !in Keys(a)
  {
    if b == [] then []
    else if b[0].key in Keys(a) then Fresh(b[1..], a)
    else [b[0]] + Fresh(b[1..], a)
  }

  /** The keys of `ks` that `present` lacks, in the order of `ks`. */
  function Missing(ks: seq<string>, present: seq<string>): seq<string>
  {
    if ks == [] then [] else (if ks[0] in present then [] else [ks[0]]) + Missing(ks[1..], present)
  }

  lemma {:induction false} KeysFresh(b: Bag, a: Bag)
    ensures Keys(Fresh(b, a)) == Missing(Keys(b), Keys(a))
  {
    if b != [] {
      KeysFresh(b[1..], a);
      assert Keys(b)[1..] == Keys(b[1..]);
      if b[0].key !in Keys(a) {
        assert Keys([b[0]] + Fresh(b[1..], a)) == [b[0].key] + Keys(Fresh(b[1..], a));
      }
    }
  }

  /**
    `array_merge($a, $b)` for string keys: `a`'s keys keep their places, a
    key of `b` overrides the value in place, and `b`'s other keys follow.
   */
  function Merge(a: Bag, b: Bag): (r: Bag)
    ensures |r| >= |a|
    ensures Keys(r) == Keys(a) + Missing(Keys(b), Keys(a))
  {
    var o := Overlay(a, b);
    var f := Fresh(b, a);
    KeysFresh(b, a);
    KeysAppend(o, f);
    o + f
  }

  lemma {:induction false} LookupOverlay(a: Bag, b: Bag, k: string)
    ensures Lookup(Overlay(a, b), k) ==
      if k !in Keys(a) then None else if k in Keys(b) then Lookup(b, k) else Lookup(a, k)
  {
    if a != [] {
      LookupOverlay(a[1..], b, k);
    }
  }

  lemma {:induction false} LookupFresh(b: Bag, a: Bag, k: string)
    ensures Lookup(Fresh(b, a), k) == if k in Keys(a) then None else Lookup(b, k)
  {
    if b != [] {
      LookupFresh(b[1..], a, k);
    }
  }

  /** After a merge, a key reads the incoming value if there is one and the old value otherwise. */
  lemma MergeLookup(a: Bag, b: Bag, k: string)
    ensures Lookup(Merge(a, b), k) == if k in Keys(b) then Lookup(b, k) else Lookup(a, k)
  {
    LookupAppend(Overlay(a, b), Fresh(b, a), k);
    LookupOverlay(a, b, k);
    LookupFresh(b, a, k);
  }

  /** A merge has exactly the keys of both arrays. */
  lemma MergeKeys(a: Bag, b: Bag, k: string)
    ensures k in Keys(Merge(a, b)) <==> k in Keys(a) || k in Keys(b)
  {
    MergeLookup(a, b, k);
  }

  lemma {:induction false} FreshUnique(b: Bag, a: Bag)
    requires UniqueKeys(b)
    ensures UniqueKeys(Fresh(b, a))
    ensures forall k :: k in Keys(Fresh(b, a)) ==> k in Keys(b)
  {
    if b != [] {
      HeadKeyFresh(b);
      FreshUnique(b[1..], a);
      var rest := Fresh(b[1..], a);
      assert Keys(b) == [b[0].key] + Keys(b[1..]);
      if b[0].key !in Keys(a) {
        UniqueCons(b[0], rest);
        assert Keys([b[0]] + rest) == [b[0].key] + Keys(rest);
      }
    }
  }

  lemma HeadKeyFresh(b: Bag)
    requires b != [] && UniqueKeys(b)
    ensures UniqueKeys(b[1..]) && b[0].key !in Keys(b[1..])
  {
    forall i | 0 <= i < |b[1..]|
      ensures Keys(b[1..])[i] != b[0].key
    {
      assert Keys(b[1..])[i] == b[i + 1].key;
    }
  }

  lemma UniqueCons(e: Entry, rest: Bag)
    requires UniqueKeys(rest) && e.key !in Keys(rest)
    ensures UniqueKeys([e] + rest)
  {
    var r := [e] + rest;
    forall i, j | 0 <= i < j < |r|
      ensures r[i].key != r[j].key
    {
      if i == 0 {
        assert r[j].key == Keys(rest)[j - 1];
      } else {
        assert r[i] == rest[i - 1] && r[j] == rest[j - 1];
      }
    }
  }

  /** Merging two arrays with distinct keys gives an array with distinct keys. */
  lemma MergeUnique(a: Bag, b: Bag)
    requires UniqueKeys(a) && UniqueKeys(b)
    ensures UniqueKeys(Merge(a, b))
  {
    var o := Overlay(a, b);
    var f := Fresh(b, a);
    FreshUnique(b, a);
    var r := o + f;
    forall i, j | 0 <= i < j < |r|
      ensures r[i].key != r[j].key
    {
      if j < |o| {
        assert Keys(o)[i] == Keys(a)[i] && Keys(o)[j] == Keys(a)[j];
      } else if i < |o| {
        assert Keys(o)[i] == Keys(a)[i];
        assert f[j - |o|].key !in Keys(a);
      }
    }
  }
}
