/** Reference definitions of the reserved quantities: plain sums over the
    line items, independent of how the pages accumulate them. */
module Ledger {
  import opened Rental

  /** Units reserved by `items` for products named `n`. */
  function ItemsSum(items: seq<Item>, n: Name): nat
  {
    if |items| == 0 then 0
    else (if items[0].product.name == n then items[0].quantity else 0) + ItemsSum(items[1..], n)
  }

  /** Units of products named `n` reserved on day `d` by the orders touching `d`. */
  function Reserved(orders: seq<Order>, d: Day, n: Name): nat
  {
    if |orders| == 0 then 0
    else (if Touches(orders[0], d) then ItemsSum(orders[0].items, n) else 0) + Reserved(orders[1..], d, n)
  }

  lemma {:induction false} ReservedAppend(a: seq<Order>, b: seq<Order>, d: Day, n: Name)
    ensures Reserved(a + b, d, n) == Reserved(a, d, n) + Reserved(b, d, n)
  {
    if |a| > 0 {
      assert (a + b)[1..] == a[1..] + b;
      ReservedAppend(a[1..], b, d, n);
    } else {
      assert a + b == b;
    }
  }

  /** Reserved quantities are zero when no order touches the day. */
  lemma {:induction false} ReservedUntouched(orders: seq<Order>, d: Day, n: Name)
    requires forall i :: 0 <= i < |orders| ==> !Touches(orders[i], d)
    ensures Reserved(orders, d, n) == 0
  {
    if |orders| > 0 {
      ReservedUntouched(orders[1..], d, n);
    }
  }
}
