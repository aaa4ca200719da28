/** The data shapes of the rental application: product rows, orders with their
    date range, the line items an order holds, and the per-name availability
    entries the pages display.  Calendar dates are day numbers. */
module Rental {

  type Name = string
  type Day = int

  /** One row of the product table.  Several rows may carry the same name. */
  datatype Product = Product(id: int, name: Name, quantity: nat)

  /** A line item: the product row it references and the reserved units. */
  datatype Item = Item(product: Product, quantity: nat)

  /** An order spanning the inclusive range [startDate, endDate].  `products`
      is the order's many-to-many product relation and `items` its line
      items; the two are independent. */
  datatype Order = Order(startDate: Day, endDate: Day, products: seq<Product>, items: seq<Item>)

  /** One entry of an availability list: a product name and its free units. */
  datatype Availability = Availability(name: Name, quantity: int)

  /** One group of the catalog: a distinct product name and how many rows carry it. */
  datatype CatalogEntry = CatalogEntry(name: Name, count: nat)

  datatype Option<+T> = None | Some(value: T)

  /** A computation that either succeeds or stops on a dictionary lookup of
      a missing key. */
  datatype Result<+T> = Ok(value: T) | KeyError(key: Name)

  /** The order's range contains day `d`, both ends included.  Only an
      order whose range is not reversed touches any day. */
  predicate Touches(o: Order, d: Day)
    ensures Touches(o, d) ==> o.startDate <= o.endDate
  {
    o.startDate <= d && d <= o.endDate
  }

  /** The order's range meets the query range [lo, hi]: the order starts no
      later than the range ends and ends no earlier than it starts.  An
      order touching a day of the range overlaps it. */
  predicate Overlaps(o: Order, lo: Day, hi: Day)
    ensures (exists d :: lo <= d <= hi && Touches(o, d)) ==> Overlaps(o, lo, hi)
  {
    o.startDate <= hi && o.endDate >= lo
  }

  /** When neither range is reversed, overlapping means sharing a day. */
  lemma OverlapIsSharedDay(o: Order, lo: Day, hi: Day)
    requires lo <= hi && o.startDate <= o.endDate
    ensures Overlaps(o, lo, hi) <==> exists d :: lo <= d <= hi && Touches(o, d)
  {
    if Overlaps(o, lo, hi) {
      var d := if lo <= o.startDate then o.startDate else lo;
      assert lo <= d <= hi && Touches(o, d);
    }
  }

  /** A reversed order overlaps a range while sharing no day with it. */
  lemma ReversedOrderOverlaps()
    ensures Overlaps(Order(4, 2, [], []), 2, 4)
    ensures !exists d :: 2 <= d <= 4 && Touches(Order(4, 2, [], []), d)
  {
  }

  /** Some product row carries the name `n`. */
  predicate Carries(rows: seq<Product>, n: Name)
  {
    exists i :: 0 <= i < |rows| && rows[i].name == n
  }

  /** No two product rows share a primary key. */
  predicate UniqueIds(rows: seq<Product>)
  {
    forall i, j :: 0 <= i < j < |rows| ==> rows[i].id != rows[j].id
  }

  /** Every line item of every order references one of the product rows. */
  predicate ItemsReferenceRows(rows: seq<Product>, orders: seq<Order>)
  {
    forall i, k :: 0 <= i < |orders| && 0 <= k < |orders[i].items| ==> orders[i].items[k].product in rows
  }

  function NamesOf(entries: seq<Availability>): (r: seq<Name>)
    ensures |r| == |entries|
    ensures forall i :: 0 <= i < |entries| ==> r[i] == entries[i].name
  {
    if |entries| == 0 then [] else [entries[0].name] + NamesOf(entries[1..])
  }

  /** `xs` is obtained from `ys` by deleting elements, order kept. */
  predicate IsSubsequence<T(==)>(xs: seq<T>, ys: seq<T>)
    decreases |ys|
  {
    if |xs| == 0 then true
    else if |ys| == 0 then false
    else (xs[0] == ys[0] && IsSubsequence(xs[1..], ys[1..])) || IsSubsequence(xs, ys[1..])
  }

  predicate Distinct<T(==)>(xs: seq<T>)
  {
    forall i, j :: 0 <= i < j < |xs| ==> xs[i] != xs[j]
  }

  lemma {:induction false} SubsequenceMembers<T>(xs: seq<T>, ys: seq<T>)
    requires IsSubsequence(xs, ys)
    ensures forall x :: x in xs ==> x in ys
    decreases |ys|
  {
    if |xs| == 0 {
    } else if IsSubsequence(xs, ys[1..]) {
      SubsequenceMembers(xs, ys[1..]);
    } else {
      SubsequenceMembers(xs[1..], ys[1..]);
      assert forall x :: x in xs ==> x == xs[0] || x in xs[1..];
    }
  }

  lemma {:induction false} SubsequenceOfDistinct<T>(xs: seq<T>, ys: seq<T>)
    requires IsSubsequence(xs, ys)
    requires Distinct(ys)
    ensures Distinct(xs)
    decreases |ys|
  {
    if |xs| == 0 {
    } else if IsSubsequence(xs, ys[1..]) {
      SubsequenceOfDistinct(xs, ys[1..]);
    } else {
      SubsequenceOfDistinct(xs[1..], ys[1..]);
      SubsequenceMembers(xs[1..], ys[1..]);
      assert xs[0] !in ys[1..];
      forall i, j | 0 <= i < j < |xs|
        ensures xs[i] != xs[j]
      {
        if i == 0 {
          assert xs[j] == xs[1..][j - 1];
        } else {
          assert xs[i] == xs[1..][i - 1] && xs[j] == xs[1..][j - 1];
        }
      }
    }
  }
}
