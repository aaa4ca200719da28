/** The availability page's window: the per-day list computed for every date
    of a window and collected into a dictionary keyed by date.  The page uses
    365 consecutive days from today; the model takes any sequence of days.
    A failure on any day fails the whole page. */
module WindowView {
  import opened Rental
  import opened ProductCatalog
  import opened DayView

  /** Number of days the pages look ahead. */
  const WindowLength: nat := 365

  /** The window of `n` consecutive days starting at `today`. */
  function Upcoming(today: Day, n: nat): (r: seq<Day>)
    ensures |r| == n
    ensures forall i :: 0 <= i < n ==> r[i] == today + i
  {
    seq(n, i => today + i)
  }

  /** Stores each date's list under that date, from the first date on. */
  function FillWindow(byDate: map<Day, seq<Availability>>, rows: seq<Product>, orders: seq<Order>, dates: seq<Day>)
    : (r: Result<map<Day, seq<Availability>>>)
    decreases |dates|
    ensures r.Ok? ==> forall d :: d in r.value <==> d in byDate || d in dates
    ensures r.KeyError? ==> exists i :: 0 <= i < |dates| && DayAvailability(rows, orders, dates[i]).KeyError?
  {
    if |dates| == 0 then Ok(byDate)
    else
      match DayAvailability(rows, orders, dates[0])
      case KeyError(k) => KeyError(k)
      case Ok(day) => FillWindow(byDate[dates[0] := day], rows, orders, dates[1..])
  }

  /** The availability dictionary of a window. */
  function Window(rows: seq<Product>, orders: seq<Order>, dates: seq<Day>): (r: Result<map<Day, seq<Availability>>>)
    ensures r.Ok? ==> forall d :: d in r.value <==> d in dates
  {
    FillWindow(map d | d in dates :: [], rows, orders, dates)
  }

  /** Every date is stored with its own day's list; dates already present
      and not revisited keep their entry; the fill fails exactly when some
      date's list does, with that date's error. */
  lemma {:induction false} FillWindowSpec(byDate: map<Day, seq<Availability>>, rows: seq<Product>, orders: seq<Order>, dates: seq<Day>)
    decreases |dates|
    ensures FillWindow(byDate, rows, orders, dates).Ok? <==>
              forall i :: 0 <= i < |dates| ==> DayAvailability(rows, orders, dates[i]).Ok?
    ensures FillWindow(byDate, rows, orders, dates).Ok? ==>
              forall d :: d in FillWindow(byDate, rows, orders, dates).value <==> d in byDate || d in dates
    ensures FillWindow(byDate, rows, orders, dates).Ok? ==>
              forall d :: d in dates ==> DayAvailability(rows, orders, d) == Ok(FillWindow(byDate, rows, orders, dates).value[d])
    ensures FillWindow(byDate, rows, orders, dates).Ok? ==>
              forall d :: d in byDate && d !in dates ==> FillWindow(byDate, rows, orders, dates).value[d] == byDate[d]
    ensures FillWindow(byDate, rows, orders, dates).KeyError? ==>
              exists i :: 0 <= i < |dates| && DayAvailability(rows, orders, dates[i]) == KeyError(FillWindow(byDate, rows, orders, dates).key)
  {
    if |dates| > 0 {
      var d := dates[0];
      assert forall i :: 1 <= i < |dates| ==> dates[i] == dates[1..][i - 1];
      assert forall e :: e in dates <==> e == d || e in dates[1..];
      match DayAvailability(rows, orders, d)
      case KeyError(k) =>
      case Ok(day) => FillWindowSpec(byDate[d := day], rows, orders, dates[1..]);
    }
  }

  /** The window holds one entry per distinct date, each entry the list of
      that date alone, and fails exactly when some date's list fails. */
  lemma WindowSpec(rows: seq<Product>, orders: seq<Order>, dates: seq<Day>)
    ensures Window(rows, orders, dates).Ok? <==> forall i :: 0 <= i < |dates| ==> DayAvailability(rows, orders, dates[i]).Ok?
    ensures Window(rows, orders, dates).Ok? ==> forall d :: d in Window(rows, orders, dates).value <==> d in dates
    ensures Window(rows, orders, dates).Ok? ==>
              forall d :: d in Window(rows, orders, dates).value ==> DayAvailability(rows, orders, d) == Ok(Window(rows, orders, dates).value[d])
    ensures Window(rows, orders, dates).KeyError? ==>
              exists i :: 0 <= i < |dates| && DayAvailability(rows, orders, dates[i]) == KeyError(Window(rows, orders, dates).key)
  {
    FillWindowSpec(map d | d in dates :: [], rows, orders, dates);
  }

  /** The days from `lo` on, `n` of them, as a set. */
  function DaySpan(lo: Day, n: nat): (r: set<Day>)
    ensures forall d :: d in r <==> lo <= d < lo + n
    ensures |r| == n
  {
    if n == 0 then {}
    else
      var r := DaySpan(lo, n - 1);
      assert lo + n - 1 !in r;
      r + {lo + n - 1}
  }

  /** The window of `n` consecutive days from `today` has exactly those
      days as keys. */
  lemma {:induction false} UpcomingWindowKeys(rows: seq<Product>, orders: seq<Order>, today: Day, n: nat)
    ensures Window(rows, orders, Upcoming(today, n)).Ok? ==>
              && Window(rows, orders, Upcoming(today, n)).value.Keys == DaySpan(today, n)
              && |Window(rows, orders, Upcoming(today, n)).value| == n
  {
    var dates := Upcoming(today, n);
    if Window(rows, orders, dates).Ok? {
      var keys := Window(rows, orders, dates).value.Keys;
      forall d ensures d in dates <==> today <= d < today + n {
        if today <= d < today + n {
          assert dates[d - today] == d;
        }
      }
      assert keys == DaySpan(today, n);
    }
  }

  /** The page's window has exactly one entry for each of the 365 days from
      today on, and nothing else. */
  lemma WindowOneEntryPerDay(rows: seq<Product>, orders: seq<Order>, today: Day)
    requires Window(rows, orders, Upcoming(today, WindowLength)).Ok?
    ensures Window(rows, orders, Upcoming(today, WindowLength)).value.Keys == DaySpan(today, WindowLength)
    ensures |Window(rows, orders, Upcoming(today, WindowLength)).value| == WindowLength
  {
    UpcomingWindowKeys(rows, orders, today, WindowLength);
  }

  /** The index page's innermost loop: adds each item of one order to the
      reservation dictionary in place. */
  method IndexReserveItems(reserved: map<Name, nat>, items: seq<Item>) returns (r: Result<map<Name, nat>>)
    ensures r == ReserveItems(reserved, items)
  {
    var acc: map<Name, nat> := reserved;
    var k := 0;
    while k < |items|
      invariant 0 <= k <= |items|
      invariant ReserveItems(acc, items[k..]) == ReserveItems(reserved, items)
    {
      var item := items[k];
      assert items[k..][0] == item && items[k..][1..] == items[k + 1..];
      var n := item.product.name;
      if n !in acc {
        return KeyError(n);
      }
      acc := acc[n := acc[n] + item.quantity];
      k := k + 1;
    }
    assert items[k..] == [];
    return Ok(acc);
  }

  /** The index page's loop over the orders whose range contains `d`,
      starting from the dictionary `start`. */
  method IndexReserveOrders(start: map<Name, nat>, orders: seq<Order>, d: Day) returns (r: Result<map<Name, nat>>)
    ensures r == ReserveOrders(start, orders, d)
  {
    var reserved: map<Name, nat> := start;
    var j := 0;
    while j < |orders|
      invariant 0 <= j <= |orders|
      invariant ReserveOrders(reserved, orders[j..], d) == ReserveOrders(start, orders, d)
    {
      var o := orders[j];
      ReserveOrdersStepAt(reserved, orders, j, d);
      if Touches(o, d) {
        var step := IndexReserveItems(reserved, o.items);
        if step.KeyError? {
          return KeyError(step.key);
        }
        reserved := step.value;
      }
      j := j + 1;
    }
    assert orders[j..] == [];
    return Ok(reserved);
  }

  /** The window as the index page computes it: a loop over the dates that
      fills a dictionary keyed by date; it yields the same result as the
      availability page. */
  method IndexWindow(rows: seq<Product>, orders: seq<Order>, dates: seq<Day>) returns (r: Result<map<Day, seq<Availability>>>)
    ensures r == Window(rows, orders, dates)
  {
    var cat := Catalog(rows);
    var byDate: map<Day, seq<Availability>> := map d | d in dates :: [];
    var i := 0;
    while i < |dates|
      invariant 0 <= i <= |dates|
      invariant FillWindow(byDate, rows, orders, dates[i..]) == Window(rows, orders, dates)
    {
      var d := dates[i];
      assert dates[i..][0] == d && dates[i..][1..] == dates[i + 1..];
      var reserved := IndexReserveOrders(ZeroReservations(cat), orders, d);
      if reserved.KeyError? {
        return KeyError(reserved.key);
      }
      byDate := byDate[d := Offer(cat, reserved.value)];
      i := i + 1;
    }
    assert dates[i..] == [];
    return Ok(byDate);
  }
}
