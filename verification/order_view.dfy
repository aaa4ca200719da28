/** The per-order accessor: for each product of the order's product
    relation, its `quantity` field minus what THIS order's items reserve
    under that name, keeping only positive results.  The reserved quantities
    come from a dictionary built over the order's items, so when two items
    share a name the later one replaces the earlier one.  The database
    returns the items and the products in no particular order; the model
    takes both in the sequence given.  Neither other
    orders nor the order's dates play any part. */
module OrderView {
  import opened Rental

  /** The dictionary from product name to the quantity of the last item of
      that name. */
  function OrderedQuantities(items: seq<Item>): (m: map<Name, nat>)
    ensures forall n :: n in m <==> exists k :: 0 <= k < |items| && items[k].product.name == n
  {
    if |items| == 0 then map[]
    else
      var init := items[..|items| - 1];
      var last := items[|items| - 1];
      assert forall k :: 0 <= k < |init| ==> init[k] == items[k];
      OrderedQuantities(init)[last.product.name := last.quantity]
  }

  /** The item index whose quantity a name's entry holds: the last item
      with that name. */
  predicate LastWithName(items: seq<Item>, n: Name, k: int)
  {
    && 0 <= k < |items|
    && items[k].product.name == n
    && forall j :: k < j < |items| ==> items[j].product.name != n
  }

  /** Each entry holds the quantity of the last item with its name. */
  lemma {:induction false} OrderedQuantitiesLastWins(items: seq<Item>)
    ensures forall n :: n in OrderedQuantities(items) ==>
              exists k :: LastWithName(items, n, k) && OrderedQuantities(items)[n] == items[k].quantity
  {
    if |items| > 0 {
      var init := items[..|items| - 1];
      var last := items[|items| - 1];
      OrderedQuantitiesLastWins(init);
      var m := OrderedQuantities(items);
      forall n | n in m
        ensures exists k :: LastWithName(items, n, k) && m[n] == items[k].quantity
      {
        if n == last.product.name {
          assert LastWithName(items, n, |items| - 1);
        } else {
          var mi := OrderedQuantities(init);
          assert n in mi && m[n] == mi[n];
          var k :| LastWithName(init, n, k) && mi[n] == init[k].quantity;
          assert init[k] == items[k];
          assert forall j :: k < j < |init| ==> init[j] == items[j];
          assert LastWithName(items, n, k);
        }
      }
    }
  }

  /** The reserved quantity looked up with default 0. */
  function OrderedQuantity(ordered: map<Name, nat>, n: Name): nat
  {
    if n in ordered then ordered[n] else 0
  }

  /** Each product with its quantity minus the ordered quantity, kept only
      when positive. */
  function Remaining(products: seq<Product>, ordered: map<Name, nat>): (r: seq<Availability>)
    ensures forall k :: 0 <= k < |r| ==> r[k].quantity > 0
    ensures |r| <= |products|
  {
    if |products| == 0 then []
    else
      var p := products[0];
      var free := p.quantity - OrderedQuantity(ordered, p.name);
      var rest := Remaining(products[1..], ordered);
      if free > 0 then [Availability(p.name, free)] + rest else rest
  }

  /** The accessor on one order. */
  function AvailableProductsOfOrder(o: Order): (r: seq<Availability>)
    ensures forall k :: 0 <= k < |r| ==> r[k].quantity > 0
    ensures |r| <= |o.products|
  {
    Remaining(o.products, OrderedQuantities(o.items))
  }

  /** The availability entry a product would get. */
  function EntryFor(p: Product, ordered: map<Name, nat>): Availability
  {
    Availability(p.name, p.quantity - OrderedQuantity(ordered, p.name))
  }

  /** The entry every product would get, one per product, in relation order. */
  function Entries(products: seq<Product>, ordered: map<Name, nat>): (r: seq<Availability>)
    ensures |r| == |products|
    ensures forall i :: 0 <= i < |products| ==> r[i] == EntryFor(products[i], ordered)
  {
    seq(|products|, i requires 0 <= i < |products| => EntryFor(products[i], ordered))
  }

  /** Number of products with units left after the order's reservation. */
  function FreeCount(products: seq<Product>, ordered: map<Name, nat>): nat
  {
    if |products| == 0 then 0
    else (if EntryFor(products[0], ordered).quantity > 0 then 1 else 0) + FreeCount(products[1..], ordered)
  }

  /** The report is a subsequence of the per-product entries that has one
      element for each product with units left; with the positivity of every
      reported quantity, this fixes the list: exactly the positive entries,
      one per product, in relation order, even when products share a name. */
  lemma {:induction false} RemainingIsFreeEntries(products: seq<Product>, ordered: map<Name, nat>)
    ensures IsSubsequence(Remaining(products, ordered), Entries(products, ordered))
    ensures |Remaining(products, ordered)| == FreeCount(products, ordered)
  {
    if |products| > 0 {
      var rest := Remaining(products[1..], ordered);
      var all := Entries(products, ordered);
      RemainingIsFreeEntries(products[1..], ordered);
      assert all[0] == EntryFor(products[0], ordered);
      assert all[1..] == Entries(products[1..], ordered);
      if EntryFor(products[0], ordered).quantity > 0 {
        var r := [EntryFor(products[0], ordered)] + rest;
        assert Remaining(products, ordered) == r;
        assert r[0] == all[0] && r[1..] == rest;
      } else {
        assert Remaining(products, ordered) == rest;
      }
    }
  }

  lemma {:induction false} RemainingSound(products: seq<Product>, ordered: map<Name, nat>)
    ensures forall a :: a in Remaining(products, ordered) ==>
              exists i :: 0 <= i < |products| && a == EntryFor(products[i], ordered)
  {
    if |products| > 0 {
      var rest := Remaining(products[1..], ordered);
      RemainingSound(products[1..], ordered);
      forall a | a in Remaining(products, ordered)
        ensures exists i :: 0 <= i < |products| && a == EntryFor(products[i], ordered)
      {
        if a in rest {
          var i :| 0 <= i < |products[1..]| && a == EntryFor(products[1..][i], ordered);
          assert products[1..][i] == products[i + 1];
        } else {
          assert a == EntryFor(products[0], ordered);
        }
      }
    }
  }

  lemma {:induction false} RemainingComplete(products: seq<Product>, ordered: map<Name, nat>)
    ensures forall i :: 0 <= i < |products| && EntryFor(products[i], ordered).quantity > 0 ==>
              EntryFor(products[i], ordered) in Remaining(products, ordered)
  {
    if |products| > 0 {
      RemainingComplete(products[1..], ordered);
      forall i | 0 <= i < |products| && EntryFor(products[i], ordered).quantity > 0
        ensures EntryFor(products[i], ordered) in Remaining(products, ordered)
      {
        if i > 0 {
          assert products[1..][i - 1] == products[i];
        }
      }
    }
  }

  function ProductNames(products: seq<Product>): (r: seq<Name>)
    ensures |r| == |products|
    ensures forall i :: 0 <= i < |products| ==> r[i] == products[i].name
  {
    if |products| == 0 then [] else [products[0].name] + ProductNames(products[1..])
  }

  lemma {:induction false} RemainingOrdered(products: seq<Product>, ordered: map<Name, nat>)
    ensures IsSubsequence(NamesOf(Remaining(products, ordered)), ProductNames(products))
  {
    if |products| > 0 {
      var rest := Remaining(products[1..], ordered);
      RemainingOrdered(products[1..], ordered);
      assert ProductNames(products)[1..] == ProductNames(products[1..]);
      var p := products[0];
      if p.quantity - OrderedQuantity(ordered, p.name) > 0 {
        assert NamesOf([Availability(p.name, p.quantity - OrderedQuantity(ordered, p.name))] + rest)[1..] == NamesOf(rest);
      }
    }
  }

  /** The accessor reports each product of the relation, in relation order,
      with its quantity minus the order's own reservation under its name
      (0 when no item has the name), exactly when that is positive. */
  lemma AvailableProductsOfOrderSpec(o: Order)
    ensures forall a :: a in AvailableProductsOfOrder(o) ==> a.quantity > 0
    ensures forall a :: a in AvailableProductsOfOrder(o) ==>
              exists i :: 0 <= i < |o.products| && a == EntryFor(o.products[i], OrderedQuantities(o.items))
    ensures forall i :: 0 <= i < |o.products| && EntryFor(o.products[i], OrderedQuantities(o.items)).quantity > 0 ==>
              EntryFor(o.products[i], OrderedQuantities(o.items)) in AvailableProductsOfOrder(o)
    ensures IsSubsequence(NamesOf(AvailableProductsOfOrder(o)), ProductNames(o.products))
    ensures IsSubsequence(AvailableProductsOfOrder(o), Entries(o.products, OrderedQuantities(o.items)))
    ensures |AvailableProductsOfOrder(o)| == FreeCount(o.products, OrderedQuantities(o.items))
  {
    var ordered := OrderedQuantities(o.items);
    RemainingIsFreeEntries(o.products, ordered);
    RemainingSound(o.products, ordered);
    RemainingComplete(o.products, ordered);
    RemainingOrdered(o.products, ordered);
    forall a | a in AvailableProductsOfOrder(o) ensures a.quantity > 0 {
      var k :| 0 <= k < |AvailableProductsOfOrder(o)| && AvailableProductsOfOrder(o)[k] == a;
    }
  }

  /** The reservation under a name is the quantity of the LAST item with
      that name; earlier items of the same name are overwritten, not added. */
  lemma LastItemDecides(items: seq<Item>, k: nat)
    requires k < |items|
    requires forall j :: k < j < |items| ==> items[j].product.name != items[k].product.name
    ensures OrderedQuantity(OrderedQuantities(items), items[k].product.name) == items[k].quantity
  {
    var n := items[k].product.name;
    var m := OrderedQuantities(items);
    assert n in m;
    OrderedQuantitiesLastWins(items);
    var k' :| LastWithName(items, n, k') && m[n] == items[k'].quantity;
    assert k' == k;
  }

  /** A product none of whose name appears among the order's items keeps its
      full quantity, and is listed when that quantity is positive. */
  lemma UnorderedProductKeepsFullQuantity(o: Order, i: nat)
    requires i < |o.products|
    requires forall k :: 0 <= k < |o.items| ==> o.items[k].product.name != o.products[i].name
    requires o.products[i].quantity > 0
    ensures Availability(o.products[i].name, o.products[i].quantity) in AvailableProductsOfOrder(o)
  {
    var ordered := OrderedQuantities(o.items);
    assert o.products[i].name !in ordered;
    AvailableProductsOfOrderSpec(o);
  }
}
