/** The read-only queries of `Database` as functions of the tables they
    read: point lookups by id, the balance read, and the two searches that
    pick the oldest matching account and the newest matching purchase. */
module Queries {
  import opened Schema

  /** `get_balance`: the stored balance, or 0 for a user with no row. */
  function GetBalance(users: map<UserId, User>, uid: UserId): (r: Money)
    ensures uid in users ==> r == users[uid].balance
    ensures uid !in users ==> r == 0
  {
    if uid in users then users[uid].balance else 0
  }

  /** `account_by_id`: the row whose id is `id`, if any. */
  function AccountById(accounts: seq<Account>, id: int): (r: Option<Account>)
    ensures r.None? <==> forall i | 0 <= i < |accounts| :: accounts[i].id != id
    ensures r.Some? ==> r.value in accounts && r.value.id == id
  {
    if accounts == [] then None
    else if accounts[0].id == id then Some(accounts[0])
    else AccountById(accounts[1..], id)
  }

  /** With ids 1..n the lookup is by position. */
  lemma AccountByIdIsRow(accounts: seq<Account>, id: int)
    requires forall i | 0 <= i < |accounts| :: accounts[i].id == i + 1
    ensures 1 <= id <= |accounts| ==> AccountById(accounts, id) == Some(accounts[id - 1])
    ensures !(1 <= id <= |accounts|) ==> AccountById(accounts, id) == None
  {
    var r := AccountById(accounts, id);
    if r.Some? {
      var k :| 0 <= k < |accounts| && accounts[k] == r.value;
      assert k == id - 1;
    }
  }

  /** `get_deposit_request`: the request whose id is `id`, if any. */
  function GetDepositRequest(deposits: seq<DepositRequest>, id: int): (r: Option<DepositRequest>)
    ensures r.None? <==> forall i | 0 <= i < |deposits| :: deposits[i].id != id
    ensures r.Some? ==> r.value in deposits && r.value.id == id
  {
    if deposits == [] then None
    else if deposits[0].id == id then Some(deposits[0])
    else GetDepositRequest(deposits[1..], id)
  }

  /** The WHERE clause of `first_available_for_country`. */
  predicate OnSale(a: Account, accountType: string, country: string) {
    a.accountType == accountType && a.country == country && a.status == Available
  }

  /** `first_available_for_country`: among the available accounts of the
      type whose country is the lower-cased query, the one with the least
      id (ORDER BY id ASC LIMIT 1); none only when there is no such account. */
  function FirstAvailableForCountry(accounts: seq<Account>, accountType: string, country: string): (r: Option<Account>)
    ensures r.None? <==> forall i | 0 <= i < |accounts| :: !OnSale(accounts[i], accountType, Lower(country))
    ensures r.Some? ==> r.value in accounts && OnSale(r.value, accountType, Lower(country))
    ensures r.Some? ==> forall i | 0 <= i < |accounts| && OnSale(accounts[i], accountType, Lower(country)) ::
                          r.value.id <= accounts[i].id
  {
    if accounts == [] then None
    else
      var older := FirstAvailableForCountry(accounts[..|accounts| - 1], accountType, country);
      var last := accounts[|accounts| - 1];
      assert accounts == accounts[..|accounts| - 1] + [last];
      if !OnSale(last, accountType, Lower(country)) then older
      else if older.None? || last.id < older.value.id then Some(last)
      else older
  }

  /** The `SELECT ... WHERE number = ? ORDER BY id DESC LIMIT 1` of
      `set_otp_and_get_user`: the purchase of that number with the largest id. */
  function LatestPurchaseOf(purchases: seq<PurchaseRecord>, number: string): (r: Option<PurchaseRecord>)
    ensures r.None? <==> forall i | 0 <= i < |purchases| :: purchases[i].number != number
    ensures r.Some? ==> r.value in purchases && r.value.number == number
    ensures r.Some? ==> forall i | 0 <= i < |purchases| && purchases[i].number == number :: purchases[i].id <= r.value.id
  {
    if purchases == [] then None
    else
      var earlier := LatestPurchaseOf(purchases[..|purchases| - 1], number);
      var last := purchases[|purchases| - 1];
      assert purchases == purchases[..|purchases| - 1] + [last];
      if last.number != number then earlier
      else if earlier.None? || earlier.value.id < last.id then Some(last)
      else earlier
  }
}
