/** A product row's reserved units over a date range: the sum of the
    quantities of the line items that reference this row (by primary key) and
    whose order's range meets the query range; 0 when nothing matches. */
module ProductQuery {
  import opened Rental
  import opened Ledger

  /** Units reserved by `items` for the row with primary key `id`. */
  function ItemsSumById(items: seq<Item>, id: int): (r: nat)
    ensures (forall k :: 0 <= k < |items| ==> items[k].product.id != id) ==> r == 0
  {
    if |items| == 0 then 0
    else
      assert forall k :: 1 <= k < |items| ==> items[1..][k - 1] == items[k];
      (if items[0].product.id == id then items[0].quantity else 0) + ItemsSumById(items[1..], id)
  }

  /** The units of row `p` ordered by orders whose range meets [lo, hi]. */
  function QuantityOrderedForDate(orders: seq<Order>, p: Product, lo: Day, hi: Day): (r: nat)
    ensures (forall i :: 0 <= i < |orders| ==> !Overlaps(orders[i], lo, hi)) ==> r == 0
    ensures (forall i, k :: 0 <= i < |orders| && 0 <= k < |orders[i].items| ==> orders[i].items[k].product.id != p.id) ==> r == 0
  {
    if |orders| == 0 then 0
    else
      assert forall i :: 1 <= i < |orders| ==> orders[1..][i - 1] == orders[i];
      (if Overlaps(orders[0], lo, hi) then ItemsSumById(orders[0].items, p.id) else 0)
      + QuantityOrderedForDate(orders[1..], p, lo, hi)
  }

  /** An item of some order is counted for row `p` over [lo, hi]. */
  predicate Counted(orders: seq<Order>, p: Product, lo: Day, hi: Day, i: int, k: int)
    requires 0 <= i < |orders| && 0 <= k < |orders[i].items|
  {
    Overlaps(orders[i], lo, hi) && orders[i].items[k].product.id == p.id
  }

  lemma {:induction false} ItemsSumByIdZero(items: seq<Item>, id: int)
    ensures ItemsSumById(items, id) == 0 <==>
              forall k :: 0 <= k < |items| && items[k].product.id == id ==> items[k].quantity == 0
  {
    if |items| > 0 {
      ItemsSumByIdZero(items[1..], id);
      assert forall k :: 1 <= k < |items| ==> items[k] == items[1..][k - 1];
    }
  }

  /** The query is 0 exactly when every counted item has quantity 0; in
      particular it is 0 when no item is counted. */
  lemma {:induction false} QueryZeroIffNothingCounted(orders: seq<Order>, p: Product, lo: Day, hi: Day)
    ensures QuantityOrderedForDate(orders, p, lo, hi) == 0 <==>
              forall i, k :: 0 <= i < |orders| && 0 <= k < |orders[i].items| && Counted(orders, p, lo, hi, i, k) ==>
                orders[i].items[k].quantity == 0
  {
    if |orders| > 0 {
      QueryZeroIffNothingCounted(orders[1..], p, lo, hi);
      ItemsSumByIdZero(orders[0].items, p.id);
      assert forall i :: 1 <= i < |orders| ==> orders[i] == orders[1..][i - 1];
      forall i, k | 1 <= i < |orders| && 0 <= k < |orders[i].items|
        ensures Counted(orders, p, lo, hi, i, k) == Counted(orders[1..], p, lo, hi, i - 1, k)
      {
      }
    }
  }

  /** Widening the query range never lowers the result. */
  lemma {:induction false} WideningNeverDecreases(orders: seq<Order>, p: Product, lo: Day, hi: Day, lo': Day, hi': Day)
    requires lo' <= lo && hi <= hi'
    ensures QuantityOrderedForDate(orders, p, lo, hi) <= QuantityOrderedForDate(orders, p, lo', hi')
  {
    if |orders| > 0 {
      WideningNeverDecreases(orders[1..], p, lo, hi, lo', hi');
    }
  }

  /** For a one-day range the overlap test is the inclusive containment test
      of the availability pages. */
  lemma OneDayOverlapIsTouch(o: Order, d: Day)
    ensures Overlaps(o, d, d) <==> Touches(o, d)
  {
  }

  /** Summed over all rows named `n`: the units the items reserve. */
  function PooledItems(rows: seq<Product>, items: seq<Item>, n: Name): nat
  {
    if |rows| == 0 then 0
    else (if rows[0].name == n then ItemsSumById(items, rows[0].id) else 0) + PooledItems(rows[1..], items, n)
  }

  /** Summed over all rows named `n`: the one-day query of each row. */
  function PooledQuery(rows: seq<Product>, orders: seq<Order>, d: Day, n: Name): nat
  {
    if |rows| == 0 then 0
    else (if rows[0].name == n then QuantityOrderedForDate(orders, rows[0], d, d) else 0) + PooledQuery(rows[1..], orders, d, n)
  }

  lemma {:induction false} PooledItemsSplit(rows: seq<Product>, items: seq<Item>, n: Name)
    requires |items| > 0
    ensures PooledItems(rows, items, n) == PooledItems(rows, items[..1], n) + PooledItems(rows, items[1..], n)
  {
    if |rows| > 0 {
      PooledItemsSplit(rows[1..], items, n);
      assert items[..1][0] == items[0] && items[..1][1..] == [];
      assert ItemsSumById(items[..1], rows[0].id) == (if items[0].product.id == rows[0].id then items[0].quantity else 0);
    }
  }

  lemma {:induction false} PooledItemsNoSuchId(rows: seq<Product>, it: Item, n: Name)
    requires forall j :: 0 <= j < |rows| ==> rows[j].id != it.product.id
    ensures PooledItems(rows, [it], n) == 0
  {
    if |rows| > 0 {
      PooledItemsNoSuchId(rows[1..], it, n);
      assert [it][0] == it && [it][1..] == [];
      assert ItemsSumById([it], rows[0].id) == 0;
    }
  }

  /** With unique primary keys, a single item referencing one of the rows
      is counted once, under its own row's name. */
  lemma {:induction false} PooledItemsSingle(rows: seq<Product>, it: Item, n: Name)
    requires UniqueIds(rows)
    requires it.product in rows
    ensures PooledItems(rows, [it], n) == if it.product.name == n then it.quantity else 0
  {
    assert [it][0] == it && [it][1..] == [];
    assert ItemsSumById([it], rows[0].id) == (if it.product.id == rows[0].id then it.quantity else 0);
    var rest := rows[1..];
    assert UniqueIds(rest) by {
      forall i, j | 0 <= i < j < |rest| ensures rest[i].id != rest[j].id {
        assert rest[i] == rows[i + 1] && rest[j] == rows[j + 1];
      }
    }
    if rows[0] == it.product {
      assert forall j :: 0 <= j < |rest| ==> rest[j].id != it.product.id by {
        forall j | 0 <= j < |rest| ensures rest[j].id != it.product.id {
          assert rest[j] == rows[j + 1];
        }
      }
      PooledItemsNoSuchId(rest, it, n);
    } else {
      var m :| 0 <= m < |rows| && rows[m] == it.product;
      assert m > 0;
      assert rest[m - 1] == it.product;
      assert rows[0].id != it.product.id;
      PooledItemsSingle(rest, it, n);
    }
  }

  /** Pooling the rows named `n` recovers the by-name sum of the items. */
  lemma {:induction false} PooledItemsByName(rows: seq<Product>, items: seq<Item>, n: Name)
    requires UniqueIds(rows)
    requires forall k :: 0 <= k < |items| ==> items[k].product in rows
    ensures PooledItems(rows, items, n) == ItemsSum(items, n)
  {
    if |items| == 0 {
      PooledItemsEmpty(rows, items, n);
    } else {
      PooledItemsSplit(rows, items, n);
      assert items[..1] == [items[0]];
      PooledItemsSingle(rows, items[0], n);
      assert forall k :: 1 <= k < |items| ==> items[k] == items[1..][k - 1];
      PooledItemsByName(rows, items[1..], n);
    }
  }

  lemma {:induction false} PooledItemsEmpty(rows: seq<Product>, items: seq<Item>, n: Name)
    requires |items| == 0
    ensures PooledItems(rows, items, n) == 0
  {
    if |rows| > 0 {
      PooledItemsEmpty(rows[1..], items, n);
    }
  }

  lemma {:induction false} PooledQueryEmpty(rows: seq<Product>, orders: seq<Order>, d: Day, n: Name)
    requires |orders| == 0
    ensures PooledQuery(rows, orders, d, n) == 0
  {
    if |rows| > 0 {
      PooledQueryEmpty(rows[1..], orders, d, n);
    }
  }

  lemma {:induction false} PooledQuerySplit(rows: seq<Product>, orders: seq<Order>, d: Day, n: Name)
    requires |orders| > 0
    ensures PooledQuery(rows, orders, d, n) ==
              (if Touches(orders[0], d) then PooledItems(rows, orders[0].items, n) else 0)
              + PooledQuery(rows, orders[1..], d, n)
  {
    if |rows| > 0 {
      PooledQuerySplit(rows[1..], orders, d, n);
    }
  }

  /** The availability pages' reserved units of name `n` on day `d` equal the
      sum, over the product rows named `n`, of each row's one-day query,
      provided primary keys are unique and every item references a row. */
  lemma {:induction false} PagesAgreeWithRowQueries(rows: seq<Product>, orders: seq<Order>, d: Day, n: Name)
    requires UniqueIds(rows)
    requires ItemsReferenceRows(rows, orders)
    ensures PooledQuery(rows, orders, d, n) == Reserved(orders, d, n)
  {
    if |orders| == 0 {
      PooledQueryEmpty(rows, orders, d, n);
    } else {
      PooledQuerySplit(rows, orders, d, n);
      assert forall k :: 0 <= k < |orders[0].items| ==> orders[0].items[k].product in rows;
      PooledItemsByName(rows, orders[0].items, n);
      assert ItemsReferenceRows(rows, orders[1..]) by {
        forall i, k | 0 <= i < |orders[1..]| && 0 <= k < |orders[1..][i].items|
          ensures orders[1..][i].items[k].product in rows
        {
          assert orders[1..][i] == orders[i + 1];
        }
      }
      PagesAgreeWithRowQueries(rows, orders[1..], d, n);
    }
  }
}
