/** Worked examples and facts that connect the booking, the pages and the
    per-order accessor. */
module Scenarios {
  import opened Rental
  import opened ProductCatalog
  import opened Ledger
  import opened DayView
  import opened DayLaws
  import opened Booking
  import opened OrderView

  /** An order made by booking has an empty product relation, so the
      per-order accessor lists nothing for it, whatever its items. */
  lemma BookedOrderListsNothing(rows: seq<Product>, startDate: Day, endDate: Day,
                                selected: seq<Name>, parsed: map<Name, int>)
    ensures AvailableProductsOfOrder(Book(rows, startDate, endDate, selected, parsed)) == []
  {
  }

  const OneTent := [Product(1, "Tent", 10)]

  lemma OneTentCatalog()
    ensures Catalog(OneTent) == [CatalogEntry("Tent", 1)]
  {
    assert OneTent[..0] == [];
    assert Names(OneTent) == ["Tent"];
    assert RowCount(OneTent, "Tent") == 1;
  }

  /** The stock of a name is its number of rows, not the rows' quantity
      field: one row named Tent with quantity 10 offers a single unit. */
  lemma StockIsRowCount()
    ensures DayAvailability(OneTent, [], 0) == Ok([Availability("Tent", 1)])
  {
    NoOrderTouchingFullStock(OneTent, [], 0);
    OneTentCatalog();
    assert FullStock([CatalogEntry("Tent", 1)]) == [Availability("Tent", 1)];
  }

  const TwoTentsOneTable := [Product(1, "Tent", 0), Product(2, "Tent", 0), Product(3, "Table", 0)]
  const BothTents := [Order(1, 3, [], [Item(Product(1, "Tent", 0), 2)])]

  lemma TwoTentsOneTableNames()
    ensures Names(TwoTentsOneTable) == ["Tent", "Table"]
  {
    var rows := TwoTentsOneTable;
    assert rows[..2][..1] == [Product(1, "Tent", 0)];
    assert rows[..2][..1][..0] == [];
    assert Names(rows[..2][..1]) == ["Tent"];
    assert Names(rows[..2]) == ["Tent"];
  }

  lemma TwoTentsOneTableCounts()
    ensures RowCount(TwoTentsOneTable, "Tent") == 2
    ensures RowCount(TwoTentsOneTable, "Table") == 1
  {
    var rows := TwoTentsOneTable;
    assert "Tent" != "Table";
    assert rows[..2][..1] == [Product(1, "Tent", 0)];
    assert rows[..2][..1][..0] == [];
    assert RowCount(rows[..2][..1], "Tent") == 1;
    assert RowCount(rows[..2][..1], "Table") == 0;
  }

  lemma BothTentsReserved()
    ensures Reserved(BothTents, 2, "Tent") == 2
    ensures Reserved(BothTents, 2, "Table") == 0
  {
    assert "Tent" != "Table";
  }

  /** Two Tent rows and one Table row; one order holds both Tents on days 1
      to 3.  On day 2 the Tent is fully booked and omitted; only the Table is
      offered. */
  lemma FullyBookedNameIsOmitted()
    ensures DayAvailability(TwoTentsOneTable, BothTents, 2) == Ok([Availability("Table", 1)])
  {
    var rows := TwoTentsOneTable;
    var orders := BothTents;
    TwoTentsOneTableNames();
    TwoTentsOneTableCounts();
    BothTentsReserved();
    ReferencedItemsNeverFail(rows, orders, 2);
    DayAvailabilitySpec(rows, orders, 2);
    var r := DayAvailability(rows, orders, 2).value;
    assert !Listed(r, "Tent");
    assert Listed(r, "Table");
    OnlyTable(r);
  }

  lemma OnlyTable(r: seq<Availability>)
    requires IsSubsequence(NamesOf(r), ["Tent", "Table"])
    requires !Listed(r, "Tent") && Listed(r, "Table")
    requires forall a :: a in r ==> a.name == "Table" ==> a.quantity == 1
    ensures r == [Availability("Table", 1)]
  {
    SubsequenceMembers(NamesOf(r), ["Tent", "Table"]);
    assert forall k :: 0 <= k < |r| ==> r[k].name == "Table" by {
      forall k | 0 <= k < |r| ensures r[k].name == "Table" {
        assert NamesOf(r)[k] in ["Tent", "Table"];
      }
    }
    SubsequenceOfDistinct(NamesOf(r), ["Tent", "Table"]);
    var k :| 0 <= k < |r| && r[k].name == "Table";
    assert |r| == 1;
    assert r[0] in r;
  }

  /** Two chair rows in an order's relation are reported separately, one
      entry per row, not merged under their shared name. */
  lemma SharedNameListedPerProduct()
    ensures AvailableProductsOfOrder(Order(0, 0, [Product(1, "Chair", 1), Product(2, "Chair", 1)], []))
            == [Availability("Chair", 1), Availability("Chair", 1)]
  {
  }

  /** The later item of a name replaces the earlier one: items of 2 and 3
      Tents against a Tent of quantity 10 leave 7, not 5. */
  lemma LaterItemReplacesEarlier()
    ensures AvailableProductsOfOrder(
              Order(0, 0, [Product(1, "Tent", 10)],
                    [Item(Product(1, "Tent", 10), 2), Item(Product(1, "Tent", 10), 3)]))
            == [Availability("Tent", 7)]
  {
    var items := [Item(Product(1, "Tent", 10), 2), Item(Product(1, "Tent", 10), 3)];
    assert items[..1] == [Item(Product(1, "Tent", 10), 2)];
    assert OrderedQuantities(items) == map["Tent" := 3];
  }
}
