/** `countries_with_stock`: the available accounts of one type, grouped by
    country, each group reported as (country, count, minimum price), the
    groups in ascending country order. */
module Stock {
  import opened Schema

  datatype StockRow = StockRow(country: string, count: nat, minPrice: Money)

  /** Strict order of SQLite's default BINARY collation: code point by code
      point, a proper prefix first. */
  predicate Below(a: string, b: string)
    decreases |a|
  {
    if a == [] then b != []
    else if b == [] then false
    else a[0] < b[0] || (a[0] == b[0] && Below(a[1..], b[1..]))
  }

  lemma {:induction false} BelowIrreflexive(a: string)
    ensures !Below(a, a)
    decreases |a|
  {
    if a != [] {
      BelowIrreflexive(a[1..]);
    }
  }

  lemma {:induction false} BelowTransitive(a: string, b: string, c: string)
    requires Below(a, b) && Below(b, c)
    ensures Below(a, c)
    decreases |a|
  {
    if a != [] && a[0] == b[0] && b[0] == c[0] {
      BelowTransitive(a[1..], b[1..], c[1..]);
    }
  }

  lemma {:induction false} BelowTotal(a: string, b: string)
    requires a != b
    ensures Below(a, b) || Below(b, a)
    decreases |a|
  {
    if a != [] && b != [] && a[0] == b[0] {
      assert a == [a[0]] + a[1..] && b == [b[0]] + b[1..];
      BelowTotal(a[1..], b[1..]);
    }
  }

  /** ORDER BY country ASC over distinct countries. */
  predicate Ascending(rows: seq<StockRow>) {
    forall i, j | 0 <= i < j < |rows| :: Below(rows[i].country, rows[j].country)
  }

  /** The WHERE clause: an available account of the requested type. */
  predicate Listed(a: Account, accountType: string) {
    a.accountType == accountType && a.status == Available
  }

  /** COUNT(*) of one group: how many listed accounts are in `country`. */
  ghost function StockCount(accounts: seq<Account>, accountType: string, country: string): nat {
    if accounts == [] then 0
    else
      var last := accounts[|accounts| - 1];
      StockCount(accounts[..|accounts| - 1], accountType, country)
        + (if Listed(last, accountType) && last.country == country then 1 else 0)
  }

  function Min(x: Money, y: Money): Money {
    if x <= y then x else y
  }

  /** MIN(price) of one non-empty group. */
  ghost function StockMin(accounts: seq<Account>, accountType: string, country: string): Money
    requires StockCount(accounts, accountType, country) > 0
  {
    var last := accounts[|accounts| - 1];
    var older := accounts[..|accounts| - 1];
    if !(Listed(last, accountType) && last.country == country) then StockMin(older, accountType, country)
    else if StockCount(older, accountType, country) == 0 then last.price
    else Min(StockMin(older, accountType, country), last.price)
  }

  /** The row the query reports for `country`, or none for a country without stock. */
  ghost function Expected(accounts: seq<Account>, accountType: string, country: string): Option<StockRow> {
    if StockCount(accounts, accountType, country) == 0 then None
    else Some(StockRow(country, StockCount(accounts, accountType, country), StockMin(accounts, accountType, country)))
  }

  /** The first row for `country`. */
  function Lookup(rows: seq<StockRow>, country: string): (r: Option<StockRow>)
    ensures r.Some? ==> r.value in rows && r.value.country == country
  {
    if rows == [] then None
    else if rows[0].country == country then Some(rows[0])
    else Lookup(rows[1..], country)
  }

  /** A group's row after one more account of `country` at `price` is counted. */
  function Bumped(row: Option<StockRow>, country: string, price: Money): StockRow {
    match row
    case None => StockRow(country, 1, price)
    case Some(x) => StockRow(country, x.count + 1, Min(x.minPrice, price))
  }

  /** Counts one listed account into ascending rows: bumps its country's row,
      or inserts a new row at its place in the order. */
  function Tally(rows: seq<StockRow>, country: string, price: Money): seq<StockRow> {
    if rows == [] then [StockRow(country, 1, price)]
    else if rows[0].country == country then [Bumped(Some(rows[0]), country, price)] + rows[1..]
    else if Below(country, rows[0].country) then [StockRow(country, 1, price)] + rows
    else [rows[0]] + Tally(rows[1..], country, price)
  }

  lemma {:induction false} TallyCorrect(rows: seq<StockRow>, country: string, price: Money)
    requires Ascending(rows)
    ensures Ascending(Tally(rows, country, price))
    ensures forall c :: (Lookup(Tally(rows, country, price), c) ==
      if c == country then Some(Bumped(Lookup(rows, country), country, price)) else Lookup(rows, c))
    ensures forall x | x in Tally(rows, country, price) :: x.country == country || x in rows
  {
    var r := Tally(rows, country, price);
    if rows == [] {
    } else if rows[0].country == country {
      forall c ensures Lookup(r, c) == (if c == country then Some(Bumped(Lookup(rows, country), country, price)) else Lookup(rows, c)) {
        if c != country {
          assert r[1..] == rows[1..];
        }
      }
    } else if Below(country, rows[0].country) {
      forall j | 0 <= j < |rows| ensures Below(country, rows[j].country) && rows[j].country != country {
        if j > 0 {
          BelowTransitive(country, rows[0].country, rows[j].country);
        }
        BelowIrreflexive(country);
      }
      assert Lookup(rows, country).None?;
      assert Ascending(r);
      forall c ensures Lookup(r, c) == (if c == country then Some(Bumped(Lookup(rows, country), country, price)) else Lookup(rows, c)) {
        assert r[1..] == rows;
      }
    } else {
      var tail := Tally(rows[1..], country, price);
      TallyCorrect(rows[1..], country, price);
      assert r == [rows[0]] + tail && r[1..] == tail;
      BelowTotal(country, rows[0].country);
      forall j | 0 <= j < |tail| ensures Below(rows[0].country, tail[j].country) {
        assert tail[j] in tail;
        if tail[j].country != country {
          var k :| 0 <= k < |rows[1..]| && rows[1..][k] == tail[j];
          assert rows[k + 1] == tail[j];
        }
      }
      assert Ascending(r);
      forall x | x in r ensures x.country == country || x in rows {
        if x != rows[0] {
          assert x in tail;
        }
      }
    }
  }

  /** `countries_with_stock(account_type)`, built by counting the accounts
      one at a time in table order. */
  function CountriesWithStock(accounts: seq<Account>, accountType: string): (r: seq<StockRow>)
    ensures Ascending(r)
  {
    if accounts == [] then []
    else
      var rows := CountriesWithStock(accounts[..|accounts| - 1], accountType);
      var last := accounts[|accounts| - 1];
      if Listed(last, accountType) then
        TallyCorrect(rows, last.country, last.price);
        Tally(rows, last.country, last.price)
      else rows
  }

  /** The grouping is exact: rows are in strictly ascending country order and
      the row for each country is its (count, minimum price), or absent when
      the country has no listed account. */
  lemma {:induction false} CountriesWithStockCorrect(accounts: seq<Account>, accountType: string)
    ensures Ascending(CountriesWithStock(accounts, accountType))
    ensures forall c :: Lookup(CountriesWithStock(accounts, accountType), c) == Expected(accounts, accountType, c)
  {
    if accounts != [] {
      var older := accounts[..|accounts| - 1];
      var last := accounts[|accounts| - 1];
      CountriesWithStockCorrect(older, accountType);
      var rows := CountriesWithStock(older, accountType);
      if Listed(last, accountType) {
        TallyCorrect(rows, last.country, last.price);
        forall c ensures Lookup(CountriesWithStock(accounts, accountType), c) == Expected(accounts, accountType, c) {
          ExpectedStep(accounts, accountType, c);
        }
      } else {
        forall c ensures Lookup(CountriesWithStock(accounts, accountType), c) == Expected(accounts, accountType, c) {
          ExpectedStep(accounts, accountType, c);
        }
      }
    }
  }

  /** How one more account at the end changes a country's expected row. */
  lemma ExpectedStep(accounts: seq<Account>, accountType: string, country: string)
    requires accounts != []
    ensures var last := accounts[|accounts| - 1];
      Expected(accounts, accountType, country) ==
        if Listed(last, accountType) && last.country == country
        then Some(Bumped(Expected(accounts[..|accounts| - 1], accountType, country), country, last.price))
        else Expected(accounts[..|accounts| - 1], accountType, country)
  {
  }

  /** Under ascending order, a country's row is found at its own position. */
  lemma {:induction false} LookupFindsRow(rows: seq<StockRow>, i: nat)
    requires Ascending(rows) && i < |rows|
    ensures Lookup(rows, rows[i].country) == Some(rows[i])
  {
    if i > 0 {
      BelowIrreflexive(rows[0].country);
      assert Below(rows[0].country, rows[i].country);
      assert Ascending(rows[1..]);
      LookupFindsRow(rows[1..], i - 1);
    }
  }

  lemma {:induction false} LookupMissing(rows: seq<StockRow>, country: string)
    requires Lookup(rows, country).None?
    ensures forall i | 0 <= i < |rows| :: rows[i].country != country
  {
    if rows != [] {
      LookupMissing(rows[1..], country);
      assert forall i | 1 <= i < |rows| :: rows[i] == rows[1..][i - 1];
    }
  }

  /** Each group's count is the number of listed accounts of that country,
      and its price is one of theirs and no greater than any of theirs. */
  lemma {:induction false} StockMinIsMinimum(accounts: seq<Account>, accountType: string, country: string)
    requires StockCount(accounts, accountType, country) > 0
    ensures exists i | 0 <= i < |accounts| :: Listed(accounts[i], accountType) && accounts[i].country == country
                                               && accounts[i].price == StockMin(accounts, accountType, country)
    ensures forall i | 0 <= i < |accounts| && Listed(accounts[i], accountType) && accounts[i].country == country ::
              StockMin(accounts, accountType, country) <= accounts[i].price
  {
    var n := |accounts| - 1;
    var older := accounts[..n];
    assert forall i | 0 <= i < n :: accounts[i] == older[i];
    if StockCount(older, accountType, country) > 0 {
      StockMinIsMinimum(older, accountType, country);
      var k :| 0 <= k < n && Listed(older[k], accountType) && older[k].country == country
               && older[k].price == StockMin(older, accountType, country);
      if StockMin(accounts, accountType, country) != older[k].price {
        assert accounts[n].price == StockMin(accounts, accountType, country);
      }
    } else {
      StockCountZero(older, accountType, country);
    }
  }

  /** A country has no group exactly when it has no listed account. */
  lemma {:induction false} StockCountZero(accounts: seq<Account>, accountType: string, country: string)
    ensures StockCount(accounts, accountType, country) == 0 <==>
      forall i | 0 <= i < |accounts| :: !(Listed(accounts[i], accountType) && accounts[i].country == country)
  {
    if accounts != [] {
      var n := |accounts| - 1;
      StockCountZero(accounts[..n], accountType, country);
      assert forall i | 0 <= i < n :: accounts[i] == accounts[..n][i];
    }
  }

  /** What the caller sees: one row per country with stock, in strictly
      ascending country order, each with its exact count and minimum price. */
  lemma CountriesWithStockRows(accounts: seq<Account>, accountType: string)
    ensures Ascending(CountriesWithStock(accounts, accountType))
    ensures forall i | 0 <= i < |CountriesWithStock(accounts, accountType)| ::
      var row := CountriesWithStock(accounts, accountType)[i];
      && row.count == StockCount(accounts, accountType, row.country) > 0
      && row.minPrice == StockMin(accounts, accountType, row.country)
    ensures forall c :: StockCount(accounts, accountType, c) > 0 <==>
      exists i | 0 <= i < |CountriesWithStock(accounts, accountType)| :: CountriesWithStock(accounts, accountType)[i].country == c
  {
    var rows := CountriesWithStock(accounts, accountType);
    CountriesWithStockCorrect(accounts, accountType);
    forall i | 0 <= i < |rows|
      ensures rows[i].count == StockCount(accounts, accountType, rows[i].country) > 0
      ensures rows[i].minPrice == StockMin(accounts, accountType, rows[i].country)
    {
      LookupFindsRow(rows, i);
      assert Lookup(rows, rows[i].country) == Expected(accounts, accountType, rows[i].country);
    }
    forall c ensures StockCount(accounts, accountType, c) > 0 <==> exists i | 0 <= i < |rows| :: rows[i].country == c {
      assert Lookup(rows, c) == Expected(accounts, accountType, c);
      if StockCount(accounts, accountType, c) > 0 {
        var k := LookupIndex(rows, c);
      } else {
        LookupMissing(rows, c);
      }
    }
  }

  lemma {:induction false} LookupIndex(rows: seq<StockRow>, country: string) returns (k: nat)
    requires Lookup(rows, country).Some?
    ensures k < |rows| && rows[k].country == country
  {
    if rows[0].country == country {
      k := 0;
    } else {
      k := LookupIndex(rows[1..], country);
      k := k + 1;
    }
  }
}
