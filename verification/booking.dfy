/** The line items a booking creates.  The form lists the selected product
    names (a name may be selected more than once) and, per name, a parsed
    quantity field that defaults to 0.  For each selected name, in order, an
    item is created when the quantity is positive and some product row
    carries the name; the item references the row the database returns
    first, which for an unordered query is the row with the smallest
    primary key. */
module Booking {
  import opened Rental
  import opened ProductCatalog

  /** The quantity the form asks for under name `n`; a missing field is 0. */
  function Requested(parsed: map<Name, int>, n: Name): int
  {
    if n in parsed then parsed[n] else 0
  }

  /** A selected name yields an item. */
  predicate Bookable(rows: seq<Product>, parsed: map<Name, int>, n: Name)
  {
    Requested(parsed, n) > 0 && Carries(rows, n)
  }

  /** The row named `n` with the smallest primary key (the earliest such row
      on equal keys), or None when no row carries the name. */
  function FirstRow(rows: seq<Product>, n: Name): (r: Option<Product>)
    ensures r.None? <==> !Carries(rows, n)
    ensures r.Some? ==> r.value in rows && r.value.name == n
    ensures r.Some? ==> forall i :: 0 <= i < |rows| && rows[i].name == n ==> r.value.id <= rows[i].id
  {
    if |rows| == 0 then None
    else
      var rest := FirstRow(rows[1..], n);
      assert forall i :: 1 <= i < |rows| ==> rows[i] == rows[1..][i - 1];
      assert Carries(rows, n) <==> rows[0].name == n || Carries(rows[1..], n) by {
        if Carries(rows, n) && rows[0].name != n {
          var i :| 0 <= i < |rows| && rows[i].name == n;
          assert rows[1..][i - 1].name == n;
        }
        if Carries(rows[1..], n) {
          var i :| 0 <= i < |rows[1..]| && rows[1..][i].name == n;
          assert rows[i + 1].name == n;
        }
      }
      if rows[0].name != n then rest
      else if rest.Some? && rest.value.id < rows[0].id then rest
      else Some(rows[0])
  }

  /** Primary keys increase along the rows. */
  predicate KeyOrdered(rows: seq<Product>)
  {
    forall i, j :: 0 <= i < j < |rows| ==> rows[i].id < rows[j].id
  }

  /** When the rows are listed in primary-key order, the selected row is the
      first one carrying the name. */
  lemma FirstRowInKeyOrder(rows: seq<Product>, n: Name)
    requires KeyOrdered(rows)
    requires Carries(rows, n)
    ensures FirstRow(rows, n) == Some(rows[FirstIndex(rows, n)])
  {
    var p := FirstRow(rows, n).value;
    var f := FirstIndex(rows, n);
    var i :| 0 <= i < |rows| && rows[i] == p;
    assert p.id <= rows[f].id;
    assert i == f;
  }

  function ItemNames(items: seq<Item>): (r: seq<Name>)
    ensures |r| == |items|
    ensures forall k :: 0 <= k < |items| ==> r[k] == items[k].product.name
  {
    if |items| == 0 then [] else [items[0].product.name] + ItemNames(items[1..])
  }

  /** The items created for the selected names, in selection order. */
  function BookingItems(rows: seq<Product>, selected: seq<Name>, parsed: map<Name, int>): (r: seq<Item>)
    ensures forall k :: 0 <= k < |r| ==>
              && r[k].quantity > 0
              && r[k].quantity == Requested(parsed, r[k].product.name)
              && FirstRow(rows, r[k].product.name) == Some(r[k].product)
  {
    if |selected| == 0 then []
    else
      var n := selected[0];
      var rest := BookingItems(rows, selected[1..], parsed);
      var q := Requested(parsed, n);
      if q > 0 && FirstRow(rows, n).Some? then
        var r := [Item(FirstRow(rows, n).value, q)] + rest;
        assert forall k :: 1 <= k < |r| ==> r[k] == rest[k - 1];
        r
      else
        rest
  }

  /** Each name is booked once per selection when it is bookable, and never
      otherwise. */
  lemma {:induction false} BookingItemsCount(rows: seq<Product>, selected: seq<Name>, parsed: map<Name, int>)
    ensures forall n :: multiset(ItemNames(BookingItems(rows, selected, parsed)))[n] ==
              if Bookable(rows, parsed, n) then multiset(selected)[n] else 0
  {
    if |selected| > 0 {
      var n := selected[0];
      var rest := BookingItems(rows, selected[1..], parsed);
      BookingItemsCount(rows, selected[1..], parsed);
      assert selected == [n] + selected[1..];
      assert multiset(selected) == multiset{n} + multiset(selected[1..]);
      var q := Requested(parsed, n);
      if q > 0 && FirstRow(rows, n).Some? {
        var r := [Item(FirstRow(rows, n).value, q)] + rest;
        assert ItemNames(r) == [n] + ItemNames(rest);
      }
    }
  }

  /** The items follow the order of the selection. */
  lemma {:induction false} BookingItemsOrdered(rows: seq<Product>, selected: seq<Name>, parsed: map<Name, int>)
    ensures IsSubsequence(ItemNames(BookingItems(rows, selected, parsed)), selected)
  {
    if |selected| > 0 {
      var n := selected[0];
      var rest := BookingItems(rows, selected[1..], parsed);
      BookingItemsOrdered(rows, selected[1..], parsed);
      var q := Requested(parsed, n);
      if q > 0 && FirstRow(rows, n).Some? {
        var r := [Item(FirstRow(rows, n).value, q)] + rest;
        assert ItemNames(r)[1..] == ItemNames(rest);
      }
    }
  }

  /** The order a booking creates: the submitted range and the created
      items; its product relation is left empty. */
  function Book(rows: seq<Product>, startDate: Day, endDate: Day, selected: seq<Name>, parsed: map<Name, int>): (r: Order)
    ensures r.startDate == startDate && r.endDate == endDate && r.products == []
    ensures forall k :: 0 <= k < |r.items| ==> r.items[k].product in rows && r.items[k].quantity > 0
  {
    Order(startDate, endDate, [], BookingItems(rows, selected, parsed))
  }

  /** Booking only creates items that reference existing product rows, so a
      ledger whose items all reference rows keeps that property. */
  lemma BookingKeepsReferences(rows: seq<Product>, orders: seq<Order>, startDate: Day, endDate: Day,
                               selected: seq<Name>, parsed: map<Name, int>)
    requires ItemsReferenceRows(rows, orders)
    ensures ItemsReferenceRows(rows, orders + [Book(rows, startDate, endDate, selected, parsed)])
  {
    var all := orders + [Book(rows, startDate, endDate, selected, parsed)];
    forall i, k | 0 <= i < |all| && 0 <= k < |all[i].items| ensures all[i].items[k].product in rows {
      if i < |orders| {
        assert all[i] == orders[i];
      } else {
        var items := BookingItems(rows, selected, parsed);
        assert all[i].items == items;
        assert FirstRow(rows, items[k].product.name) == Some(items[k].product);
      }
    }
  }
}
