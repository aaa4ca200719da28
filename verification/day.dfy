/** The body of the per-date loop of the availability page: a dictionary of
    reserved units keyed by the catalog names, filled from the line items of
    the orders touching the date, then turned into the list of names that
    still have free units.  Adding to a key that is not in the dictionary is
    the dictionary's KeyError. */
module DayView {
  import opened Rental
  import opened ProductCatalog
  import opened Ledger

  /** A name appears among the availability entries. */
  predicate Listed(entries: seq<Availability>, n: Name)
  {
    exists k :: 0 <= k < |entries| && entries[k].name == n
  }

  /** Some line item of an order touching `d` references a product named `n`. */
  predicate NamedOnDay(orders: seq<Order>, d: Day, n: Name)
  {
    exists i, k :: 0 <= i < |orders| && Touches(orders[i], d) && 0 <= k < |orders[i].items|
                   && orders[i].items[k].product.name == n
  }

  /** The starting dictionary: every catalog name reserved zero times. */
  function ZeroReservations(cat: seq<CatalogEntry>): (m: map<Name, nat>)
    ensures forall n :: n in m <==> exists i :: 0 <= i < |cat| && cat[i].name == n
    ensures forall n :: n in m ==> m[n] == 0
  {
    var names := EntryNames(cat);
    assert forall n :: n in names <==> exists i :: 0 <= i < |cat| && cat[i].name == n;
    map n | n in names :: 0
  }

  /** Adds each item's quantity under its product's name, stopping on the
      first name that is not a key. */
  function ReserveItems(acc: map<Name, nat>, items: seq<Item>): (r: Result<map<Name, nat>>)
    ensures r.Ok? <==> forall k :: 0 <= k < |items| ==> items[k].product.name in acc
    ensures r.Ok? ==> r.value.Keys == acc.Keys
    ensures r.Ok? ==> forall n :: n in acc ==> r.value[n] == acc[n] + ItemsSum(items, n)
    ensures r.KeyError? ==> r.key !in acc && exists k :: 0 <= k < |items| && items[k].product.name == r.key
  {
    if |items| == 0 then Ok(acc)
    else
      var n := items[0].product.name;
      if n !in acc then KeyError(n)
      else
        var r := ReserveItems(acc[n := acc[n] + items[0].quantity], items[1..]);
        assert forall k :: 1 <= k < |items| ==> items[k] == items[1..][k - 1];
        r
  }

  /** Runs `ReserveItems` over the items of every order whose range contains `d`. */
  function ReserveOrders(acc: map<Name, nat>, orders: seq<Order>, d: Day): (r: Result<map<Name, nat>>)
    ensures r.Ok? <==> forall n :: NamedOnDay(orders, d, n) ==> n in acc
    ensures r.Ok? ==> r.value.Keys == acc.Keys
    ensures r.Ok? ==> forall n :: n in acc ==> r.value[n] == acc[n] + Reserved(orders, d, n)
    ensures r.KeyError? ==> r.key !in acc && NamedOnDay(orders, d, r.key)
  {
    if |orders| == 0 then Ok(acc)
    else
      var o := orders[0];
      assert forall n :: NamedOnDay(orders, d, n) <==>
          (Touches(o, d) && exists k :: 0 <= k < |o.items| && o.items[k].product.name == n)
          || NamedOnDay(orders[1..], d, n) by {
        forall n ensures NamedOnDay(orders, d, n) ==>
            (Touches(o, d) && exists k :: 0 <= k < |o.items| && o.items[k].product.name == n)
            || NamedOnDay(orders[1..], d, n) {
          if NamedOnDay(orders, d, n) {
            var i, k :| 0 <= i < |orders| && Touches(orders[i], d) && 0 <= k < |orders[i].items|
                        && orders[i].items[k].product.name == n;
            if i > 0 {
              assert orders[1..][i - 1] == orders[i];
            }
          }
        }
        forall n | NamedOnDay(orders[1..], d, n) ensures NamedOnDay(orders, d, n) {
          var i, k :| 0 <= i < |orders[1..]| && Touches(orders[1..][i], d) && 0 <= k < |orders[1..][i].items|
                      && orders[1..][i].items[k].product.name == n;
          assert orders[i + 1] == orders[1..][i];
        }
      }
      if Touches(o, d) then
        match ReserveItems(acc, o.items)
        case KeyError(k) => KeyError(k)
        case Ok(acc') => ReserveOrders(acc', orders[1..], d)
      else ReserveOrders(acc, orders[1..], d)
  }

  /** One step of `ReserveOrders`: the first order's items are added when
      it touches `d`, and the rest of the orders follow. */
  lemma ReserveOrdersStep(acc: map<Name, nat>, orders: seq<Order>, d: Day)
    requires |orders| > 0
    ensures !Touches(orders[0], d) ==> ReserveOrders(acc, orders, d) == ReserveOrders(acc, orders[1..], d)
    ensures Touches(orders[0], d) && ReserveItems(acc, orders[0].items).KeyError? ==>
              ReserveOrders(acc, orders, d) == KeyError(ReserveItems(acc, orders[0].items).key)
    ensures Touches(orders[0], d) && ReserveItems(acc, orders[0].items).Ok? ==>
              ReserveOrders(acc, orders, d) == ReserveOrders(ReserveItems(acc, orders[0].items).value, orders[1..], d)
  {
  }

  /** `ReserveOrdersStep` at position `j` of the orders. */
  lemma ReserveOrdersStepAt(acc: map<Name, nat>, orders: seq<Order>, j: nat, d: Day)
    requires j < |orders|
    ensures !Touches(orders[j], d) ==> ReserveOrders(acc, orders[j..], d) == ReserveOrders(acc, orders[j + 1..], d)
    ensures Touches(orders[j], d) && ReserveItems(acc, orders[j].items).KeyError? ==>
              ReserveOrders(acc, orders[j..], d) == KeyError(ReserveItems(acc, orders[j].items).key)
    ensures Touches(orders[j], d) && ReserveItems(acc, orders[j].items).Ok? ==>
              ReserveOrders(acc, orders[j..], d) == ReserveOrders(ReserveItems(acc, orders[j].items).value, orders[j + 1..], d)
  {
    assert orders[j..][0] == orders[j] && orders[j..][1..] == orders[j + 1..];
    ReserveOrdersStep(acc, orders[j..], d);
  }

  /** Free units of a catalog entry: its row count minus its reserved units. */
  function Free(e: CatalogEntry, reserved: map<Name, nat>): int
    requires e.name in reserved
  {
    e.count - reserved[e.name]
  }

  /** Keeps, in catalog order, each entry with free units, reporting them. */
  function Offer(cat: seq<CatalogEntry>, reserved: map<Name, nat>): (r: seq<Availability>)
    requires forall i :: 0 <= i < |cat| ==> cat[i].name in reserved
    ensures forall k :: 0 <= k < |r| ==> r[k].quantity > 0
  {
    if |cat| == 0 then []
    else
      var rest := Offer(cat[1..], reserved);
      if Free(cat[0], reserved) > 0 then [Availability(cat[0].name, Free(cat[0], reserved))] + rest
      else rest
  }

  /** Every reported entry is a catalog entry with exactly its free units. */
  lemma {:induction false} OfferSound(cat: seq<CatalogEntry>, reserved: map<Name, nat>)
    requires forall i :: 0 <= i < |cat| ==> cat[i].name in reserved
    ensures forall a :: a in Offer(cat, reserved) ==>
              exists i :: 0 <= i < |cat| && a == Availability(cat[i].name, Free(cat[i], reserved))
  {
    if |cat| > 0 {
      var rest := Offer(cat[1..], reserved);
      OfferSound(cat[1..], reserved);
      forall a | a in Offer(cat, reserved)
        ensures exists i :: 0 <= i < |cat| && a == Availability(cat[i].name, Free(cat[i], reserved))
      {
        if a in rest {
          var i :| 0 <= i < |cat[1..]| && a == Availability(cat[1..][i].name, Free(cat[1..][i], reserved));
          assert cat[1..][i] == cat[i + 1];
        } else {
          assert a == Availability(cat[0].name, Free(cat[0], reserved));
        }
      }
    }
  }

  /** Every catalog entry with free units is reported. */
  lemma {:induction false} OfferComplete(cat: seq<CatalogEntry>, reserved: map<Name, nat>)
    requires forall i :: 0 <= i < |cat| ==> cat[i].name in reserved
    ensures forall i :: 0 <= i < |cat| && Free(cat[i], reserved) > 0 ==>
              Availability(cat[i].name, Free(cat[i], reserved)) in Offer(cat, reserved)
  {
    if |cat| > 0 {
      OfferComplete(cat[1..], reserved);
      forall i | 0 <= i < |cat| && Free(cat[i], reserved) > 0
        ensures Availability(cat[i].name, Free(cat[i], reserved)) in Offer(cat, reserved)
      {
        if i > 0 {
          assert cat[1..][i - 1] == cat[i];
        }
      }
    }
  }

  /** The reported names keep catalog order. */
  lemma {:induction false} OfferOrdered(cat: seq<CatalogEntry>, reserved: map<Name, nat>)
    requires forall i :: 0 <= i < |cat| ==> cat[i].name in reserved
    ensures IsSubsequence(NamesOf(Offer(cat, reserved)), EntryNames(cat))
  {
    if |cat| > 0 {
      var r := Offer(cat, reserved);
      var rest := Offer(cat[1..], reserved);
      OfferOrdered(cat[1..], reserved);
      assert EntryNames(cat)[1..] == EntryNames(cat[1..]);
      if Free(cat[0], reserved) > 0 {
        assert NamesOf(r)[1..] == NamesOf(rest);
      }
    }
  }

  /** The reservation dictionary of day `d`: keyed by the catalog names,
      holding each name's reserved units. */
  ghost predicate DayReservations(rows: seq<Product>, orders: seq<Order>, d: Day, reserved: map<Name, nat>)
  {
    && (forall n :: n in reserved <==> Carries(rows, n))
    && (forall n :: n in reserved ==> reserved[n] == Reserved(orders, d, n))
  }

  /** The dictionary a successful day computation ends with is the day's
      reservation dictionary. */
  lemma ReservationsOfDay(rows: seq<Product>, orders: seq<Order>, d: Day)
    requires ReserveOrders(ZeroReservations(Catalog(rows)), orders, d).Ok?
    ensures DayReservations(rows, orders, d, ReserveOrders(ZeroReservations(Catalog(rows)), orders, d).value)
  {
    var cat := Catalog(rows);
    var zero := ZeroReservations(cat);
    var reserved := ReserveOrders(zero, orders, d).value;
    assert forall n :: n in zero <==> Carries(rows, n);
    assert reserved.Keys == zero.Keys;
    assert forall n :: n in reserved ==> reserved[n] == zero[n] + Reserved(orders, d, n);
  }

  lemma CatalogKeyed(rows: seq<Product>, orders: seq<Order>, d: Day, reserved: map<Name, nat>)
    requires DayReservations(rows, orders, d, reserved)
    ensures forall i :: 0 <= i < |Catalog(rows)| ==> Catalog(rows)[i].name in reserved
  {
  }

  /** Each entry of the day's offer carries its row count minus its reservations. */
  lemma OfferQuantities(rows: seq<Product>, orders: seq<Order>, d: Day, reserved: map<Name, nat>)
    requires DayReservations(rows, orders, d, reserved)
    requires forall i :: 0 <= i < |Catalog(rows)| ==> Catalog(rows)[i].name in reserved
    ensures forall a :: a in Offer(Catalog(rows), reserved) ==>
              a.quantity == RowCount(rows, a.name) - Reserved(orders, d, a.name)
  {
    var cat := Catalog(rows);
    OfferSound(cat, reserved);
    forall a | a in Offer(cat, reserved) ensures a.quantity == RowCount(rows, a.name) - Reserved(orders, d, a.name) {
      var i :| 0 <= i < |cat| && a == Availability(cat[i].name, Free(cat[i], reserved));
    }
  }

  /** Every name in the day's offer has free units. */
  lemma OfferListsOnlyFree(rows: seq<Product>, orders: seq<Order>, d: Day, reserved: map<Name, nat>)
    requires DayReservations(rows, orders, d, reserved)
    requires forall i :: 0 <= i < |Catalog(rows)| ==> Catalog(rows)[i].name in reserved
    ensures forall n :: Listed(Offer(Catalog(rows), reserved), n) ==>
              Carries(rows, n) && RowCount(rows, n) - Reserved(orders, d, n) > 0
  {
    var cat := Catalog(rows);
    var offer := Offer(cat, reserved);
    OfferSound(cat, reserved);
    forall n | Listed(offer, n) ensures Carries(rows, n) && RowCount(rows, n) - Reserved(orders, d, n) > 0 {
      var k :| 0 <= k < |offer| && offer[k].name == n;
      assert offer[k] in offer;
      var i :| 0 <= i < |cat| && offer[k] == Availability(cat[i].name, Free(cat[i], reserved));
    }
  }

  /** Every carried name with free units is in the day's offer. */
  lemma OfferListsAllFree(rows: seq<Product>, orders: seq<Order>, d: Day, reserved: map<Name, nat>)
    requires DayReservations(rows, orders, d, reserved)
    requires forall i :: 0 <= i < |Catalog(rows)| ==> Catalog(rows)[i].name in reserved
    ensures forall n :: Carries(rows, n) && RowCount(rows, n) - Reserved(orders, d, n) > 0 ==>
              Listed(Offer(Catalog(rows), reserved), n)
  {
    var cat := Catalog(rows);
    var offer := Offer(cat, reserved);
    OfferComplete(cat, reserved);
    forall n | Carries(rows, n) && RowCount(rows, n) - Reserved(orders, d, n) > 0 ensures Listed(offer, n) {
      var i :| 0 <= i < |cat| && cat[i].name == n;
      var a := Availability(n, Free(cat[i], reserved));
      assert a in offer;
      var k :| 0 <= k < |offer| && offer[k] == a;
    }
  }

  /** A name is in the day's offer exactly when it has free units. */
  lemma OfferListsFree(rows: seq<Product>, orders: seq<Order>, d: Day, reserved: map<Name, nat>)
    requires DayReservations(rows, orders, d, reserved)
    requires forall i :: 0 <= i < |Catalog(rows)| ==> Catalog(rows)[i].name in reserved
    ensures forall n :: Listed(Offer(Catalog(rows), reserved), n) <==>
              Carries(rows, n) && RowCount(rows, n) - Reserved(orders, d, n) > 0
  {
    OfferListsOnlyFree(rows, orders, d, reserved);
    OfferListsAllFree(rows, orders, d, reserved);
  }

  /** The availability list of day `d`: catalog names with free units left.
      It fails exactly when an order touching `d` has an item whose name no
      product row carries. */
  function DayAvailability(rows: seq<Product>, orders: seq<Order>, d: Day): (r: Result<seq<Availability>>)
    ensures r.Ok? <==> forall n :: NamedOnDay(orders, d, n) ==> Carries(rows, n)
    ensures r.KeyError? ==> !Carries(rows, r.key) && NamedOnDay(orders, d, r.key)
  {
    var cat := Catalog(rows);
    match ReserveOrders(ZeroReservations(cat), orders, d)
    case KeyError(k) => KeyError(k)
    case Ok(reserved) => Ok(Offer(cat, reserved))
  }

  /** On success, a name is listed exactly when some row carries it and its
      row count exceeds its reserved units on `d`. */
  lemma DayListsFreeNames(rows: seq<Product>, orders: seq<Order>, d: Day)
    requires DayAvailability(rows, orders, d).Ok?
    ensures forall n :: Listed(DayAvailability(rows, orders, d).value, n) <==>
              Carries(rows, n) && RowCount(rows, n) - Reserved(orders, d, n) > 0
  {
    var cat := Catalog(rows);
    var reserved := ReserveOrders(ZeroReservations(cat), orders, d).value;
    ReservationsOfDay(rows, orders, d);
    CatalogKeyed(rows, orders, d, reserved);
    OfferListsFree(rows, orders, d, reserved);
  }

  /** On success, each listed quantity is the name's row count minus its
      reserved units on `d`, and is positive. */
  lemma DayQuantities(rows: seq<Product>, orders: seq<Order>, d: Day)
    requires DayAvailability(rows, orders, d).Ok?
    ensures forall a :: a in DayAvailability(rows, orders, d).value ==>
              a.quantity == RowCount(rows, a.name) - Reserved(orders, d, a.name) && a.quantity > 0
  {
    var cat := Catalog(rows);
    var reserved := ReserveOrders(ZeroReservations(cat), orders, d).value;
    ReservationsOfDay(rows, orders, d);
    CatalogKeyed(rows, orders, d, reserved);
    OfferQuantities(rows, orders, d, reserved);
    var offer := Offer(cat, reserved);
    forall a | a in offer ensures a.quantity > 0 {
      var k :| 0 <= k < |offer| && offer[k] == a;
    }
  }

  /** On success, the listed names keep catalog order and never repeat. */
  lemma DayOrdered(rows: seq<Product>, orders: seq<Order>, d: Day)
    requires DayAvailability(rows, orders, d).Ok?
    ensures IsSubsequence(NamesOf(DayAvailability(rows, orders, d).value), Names(rows))
    ensures Distinct(NamesOf(DayAvailability(rows, orders, d).value))
  {
    var cat := Catalog(rows);
    var reserved := ReserveOrders(ZeroReservations(cat), orders, d).value;
    ReservationsOfDay(rows, orders, d);
    CatalogKeyed(rows, orders, d, reserved);
    OfferOrdered(cat, reserved);
    CatalogNames(rows);
    SubsequenceOfDistinct(NamesOf(Offer(cat, reserved)), Names(rows));
  }

  /** On success, the list names exactly the catalog names whose row count
      exceeds their reserved units on `d`, each with the difference, in
      catalog order and without repetition. */
  lemma DayAvailabilitySpec(rows: seq<Product>, orders: seq<Order>, d: Day)
    requires DayAvailability(rows, orders, d).Ok?
    ensures forall n :: Listed(DayAvailability(rows, orders, d).value, n) <==>
              Carries(rows, n) && RowCount(rows, n) - Reserved(orders, d, n) > 0
    ensures forall a :: a in DayAvailability(rows, orders, d).value ==>
              a.quantity == RowCount(rows, a.name) - Reserved(orders, d, a.name) && a.quantity > 0
    ensures IsSubsequence(NamesOf(DayAvailability(rows, orders, d).value), Names(rows))
    ensures Distinct(NamesOf(DayAvailability(rows, orders, d).value))
  {
    DayListsFreeNames(rows, orders, d);
    DayQuantities(rows, orders, d);
    DayOrdered(rows, orders, d);
  }
}

/** Properties of one day's availability list relating different ledgers. */
module DayLaws {
  import opened Rental
  import opened ProductCatalog
  import opened Ledger
  import opened DayView

  /** The catalog at full stock: every name with its row count. */
  function FullStock(cat: seq<CatalogEntry>): (r: seq<Availability>)
    ensures |r| == |cat|
    ensures forall i :: 0 <= i < |cat| ==> r[i] == Availability(cat[i].name, cat[i].count)
  {
    if |cat| == 0 then [] else [Availability(cat[0].name, cat[0].count)] + FullStock(cat[1..])
  }

  lemma {:induction false} OfferNothingReserved(cat: seq<CatalogEntry>, reserved: map<Name, nat>)
    requires forall i :: 0 <= i < |cat| ==> cat[i].name in reserved && reserved[cat[i].name] == 0 && cat[i].count > 0
    ensures Offer(cat, reserved) == FullStock(cat)
  {
    if |cat| > 0 {
      assert forall i :: 1 <= i < |cat| ==> cat[1..][i - 1] == cat[i];
      OfferNothingReserved(cat[1..], reserved);
    }
  }

  /** With no order touching `d`, every catalog name is available with its
      full row count, in catalog order. */
  lemma NoOrderTouchingFullStock(rows: seq<Product>, orders: seq<Order>, d: Day)
    requires forall i :: 0 <= i < |orders| ==> !Touches(orders[i], d)
    ensures DayAvailability(rows, orders, d) == Ok(FullStock(Catalog(rows)))
  {
    var cat := Catalog(rows);
    var zero := ZeroReservations(cat);
    assert forall n :: !NamedOnDay(orders, d, n);
    var reserved := ReserveOrders(zero, orders, d).value;
    forall n ensures Reserved(orders, d, n) == 0 {
      ReservedUntouched(orders, d, n);
    }
    assert forall i :: 0 <= i < |cat| ==> cat[i].name in zero by {
      forall i | 0 <= i < |cat| ensures cat[i].name in zero {
        assert exists j :: 0 <= j < |cat| && cat[j].name == cat[i].name;
      }
    }
    OfferNothingReserved(cat, reserved);
  }

  lemma {:induction false} ReserveSkipsUntouched(acc: map<Name, nat>, pre: seq<Order>, o: Order, post: seq<Order>, d: Day)
    requires !Touches(o, d)
    ensures ReserveOrders(acc, pre + [o] + post, d) == ReserveOrders(acc, pre + post, d)
  {
    if |pre| == 0 {
      assert (pre + [o] + post)[1..] == post;
      assert pre + post == post;
    } else {
      assert (pre + [o] + post)[0] == pre[0] && (pre + post)[0] == pre[0];
      assert (pre + [o] + post)[1..] == pre[1..] + [o] + post;
      assert (pre + post)[1..] == pre[1..] + post;
      if Touches(pre[0], d) {
        match ReserveItems(acc, pre[0].items)
        case KeyError(k) =>
        case Ok(acc') => ReserveSkipsUntouched(acc', pre[1..], o, post, d);
      } else {
        ReserveSkipsUntouched(acc, pre[1..], o, post, d);
      }
    }
  }

  /** An order whose range does not contain `d` has no effect on `d`, wherever
      it sits in the ledger. */
  lemma UntouchedOrderIrrelevant(rows: seq<Product>, pre: seq<Order>, o: Order, post: seq<Order>, d: Day)
    requires !Touches(o, d)
    ensures DayAvailability(rows, pre + [o] + post, d) == DayAvailability(rows, pre + post, d)
  {
    ReserveSkipsUntouched(ZeroReservations(Catalog(rows)), pre, o, post, d);
  }

  /** Every item of a touching order references a product row, so the
      dictionary lookup never fails. */
  lemma ReferencedItemsNeverFail(rows: seq<Product>, orders: seq<Order>, d: Day)
    requires ItemsReferenceRows(rows, orders)
    ensures DayAvailability(rows, orders, d).Ok?
  {
    forall n | NamedOnDay(orders, d, n) ensures Carries(rows, n) {
      var i, k :| 0 <= i < |orders| && Touches(orders[i], d) && 0 <= k < |orders[i].items|
                  && orders[i].items[k].product.name == n;
      var p := orders[i].items[k].product;
      assert p in rows;
      var j :| 0 <= j < |rows| && rows[j] == p;
    }
  }

  /** More orders never free up units: every name still available after
      adding orders was available before, with at least as many units. */
  lemma MoreOrdersNeverMoreFree(rows: seq<Product>, orders: seq<Order>, extra: seq<Order>, d: Day)
    requires DayAvailability(rows, orders, d).Ok?
    requires DayAvailability(rows, orders + extra, d).Ok?
    ensures forall a :: a in DayAvailability(rows, orders + extra, d).value ==>
              exists b :: b in DayAvailability(rows, orders, d).value && b.name == a.name && b.quantity >= a.quantity
  {
    var before := DayAvailability(rows, orders, d).value;
    var after := DayAvailability(rows, orders + extra, d).value;
    DayAvailabilitySpec(rows, orders, d);
    DayAvailabilitySpec(rows, orders + extra, d);
    forall a | a in after
      ensures exists b :: b in before && b.name == a.name && b.quantity >= a.quantity
    {
      ReservedAppend(orders, extra, d, a.name);
      var k :| 0 <= k < |after| && after[k] == a;
      assert Listed(after, a.name);
      assert Listed(before, a.name);
      var j :| 0 <= j < |before| && before[j].name == a.name;
      assert before[j] in before;
    }
  }
}
