/** The product catalog as the pages see it: the product rows grouped by name,
    each group carrying the NUMBER OF ROWS with that name (a count
    aggregation over the name column), not the rows' `quantity` field.  The
    database returns the groups in an unspecified order; the model fixes the
    order in which each name first occurs among the rows. */
module ProductCatalog {
  import opened Rental

  /** Number of product rows named `n`: the stock the availability pages use. */
  function RowCount(rows: seq<Product>, n: Name): (r: nat)
    ensures r <= |rows|
  {
    if |rows| == 0 then 0
    else RowCount(rows[..|rows| - 1], n) + (if rows[|rows| - 1].name == n then 1 else 0)
  }

  lemma {:induction false} RowCountPositive(rows: seq<Product>, n: Name)
    ensures RowCount(rows, n) > 0 <==> Carries(rows, n)
  {
    if |rows| > 0 {
      var init := rows[..|rows| - 1];
      RowCountPositive(init, n);
      if Carries(init, n) {
        var i :| 0 <= i < |init| && init[i].name == n;
        assert rows[i].name == n;
      }
      if Carries(rows, n) && rows[|rows| - 1].name != n {
        var i :| 0 <= i < |rows| && rows[i].name == n;
        assert init[i].name == n;
      }
    }
  }

  /** Index of the first row named `n`. */
  function FirstIndex(rows: seq<Product>, n: Name): (r: nat)
    requires Carries(rows, n)
    ensures r < |rows| && rows[r].name == n
    ensures forall j :: 0 <= j < r ==> rows[j].name != n
  {
    var init := rows[..|rows| - 1];
    if Carries(init, n) then FirstIndex(init, n)
    else
      assert forall j :: 0 <= j < |init| ==> rows[j].name != n by {
        forall j | 0 <= j < |init| ensures rows[j].name != n {
          assert init[j] == rows[j];
        }
      }
      |rows| - 1
  }

  /** A name is carried by a non-empty row sequence exactly when it is
      carried by all rows but the last, or is the last row's name. */
  lemma CarriesInit(rows: seq<Product>)
    requires |rows| > 0
    ensures forall n :: Carries(rows, n) <==> Carries(rows[..|rows| - 1], n) || n == rows[|rows| - 1].name
  {
    var init := rows[..|rows| - 1];
    forall n | Carries(init, n) ensures Carries(rows, n) {
      var i :| 0 <= i < |init| && init[i].name == n;
      assert rows[i].name == n;
    }
    forall n | Carries(rows, n) && n != rows[|rows| - 1].name ensures Carries(init, n) {
      var i :| 0 <= i < |rows| && rows[i].name == n;
      assert init[i].name == n;
    }
  }

  /** The distinct product names, in order of first occurrence. */
  function Names(rows: seq<Product>): (r: seq<Name>)
    ensures Distinct(r)
    ensures forall n :: n in r <==> Carries(rows, n)
  {
    if |rows| == 0 then []
    else
      var r := Names(rows[..|rows| - 1]);
      var last := rows[|rows| - 1].name;
      CarriesInit(rows);
      if last in r then r else r + [last]
  }

  /** The grouped names follow the order in which each name first occurs
      among the rows. */
  lemma {:induction false} NamesFirstOccurrence(rows: seq<Product>)
    ensures forall i, j :: 0 <= i < j < |Names(rows)| ==>
              FirstIndex(rows, Names(rows)[i]) < FirstIndex(rows, Names(rows)[j])
  {
    if |rows| > 0 {
      var init := rows[..|rows| - 1];
      var last := rows[|rows| - 1].name;
      var r := Names(init);
      NamesFirstOccurrence(init);
      CarriesInit(rows);
      assert forall n :: n in r ==> FirstIndex(rows, n) == FirstIndex(init, n);
      if last !in r {
        assert FirstIndex(rows, last) == |rows| - 1;
        assert Names(rows) == r + [last];
      }
    }
  }

  /** The grouped catalog: one entry per distinct name with its row count. */
  function Catalog(rows: seq<Product>): (r: seq<CatalogEntry>)
    ensures forall i, j :: 0 <= i < j < |r| ==> r[i].name != r[j].name
    ensures forall n :: (exists i :: 0 <= i < |r| && r[i].name == n) <==> Carries(rows, n)
    ensures forall i :: 0 <= i < |r| ==> r[i].count == RowCount(rows, r[i].name) && r[i].count > 0
    ensures forall i :: 0 <= i < |r| ==> Carries(rows, r[i].name)
  {
    var names := Names(rows);
    var r := seq(|names|, i requires 0 <= i < |names| => CatalogEntry(names[i], RowCount(rows, names[i])));
    assert forall n :: (exists i :: 0 <= i < |r| && r[i].name == n) ==> n in names;
    assert forall n :: n in names ==> exists i :: 0 <= i < |r| && r[i].name == n by {
      forall n | n in names ensures exists i :: 0 <= i < |r| && r[i].name == n {
        var i :| 0 <= i < |names| && names[i] == n;
        assert r[i].name == n;
      }
    }
    assert forall i :: 0 <= i < |r| ==> r[i].count > 0 by {
      forall i | 0 <= i < |r| ensures r[i].count > 0 {
        RowCountPositive(rows, names[i]);
      }
    }
    r
  }

  lemma CatalogNames(rows: seq<Product>)
    ensures EntryNames(Catalog(rows)) == Names(rows)
  {
  }

  function EntryNames(cat: seq<CatalogEntry>): (r: seq<Name>)
    ensures |r| == |cat|
    ensures forall i :: 0 <= i < |cat| ==> r[i] == cat[i].name
  {
    if |cat| == 0 then [] else [cat[0].name] + EntryNames(cat[1..])
  }
}
