/** The rows of the five tables the bot keeps (users, accounts, purchases,
    deposit_requests, problems), the whole store as one value, and the
    invariant the store keeps. Money is an integer count of the smallest
    currency unit; timestamps are not modelled. */
module Schema {

  datatype Option<+T> = None | Some(value: T)

  type UserId = int

  /** An amount in the smallest currency unit. */
  type Money = int

  /** A row of `users`; the balance column defaults to 0. */
  datatype User = User(username: Option<string>, firstName: Option<string>, balance: Money)

  datatype AccountStatus = Available | Sold

  /** A row of `accounts`: a sellable number of some type and country. */
  datatype Account = Account(
    id: int,
    number: string,
    country: string,
    price: Money,
    accountType: string,
    status: AccountStatus,
    addedBy: UserId)

  datatype PurchaseStatus = PendingOtp | OtpSent

  /** A row of `purchases`: a copy of the sold account's fields taken at the sale. */
  datatype PurchaseRecord = PurchaseRecord(
    id: int,
    userId: UserId,
    accountId: int,
    number: string,
    country: string,
    price: Money,
    accountType: string,
    otp: Option<string>,
    status: PurchaseStatus)

  datatype DepositStatus = Pending | Approved | Denied | Credited

  /** A row of `deposit_requests`. */
  datatype DepositRequest = DepositRequest(
    id: int,
    userId: UserId,
    screenshot: Option<string>,
    details: string,
    status: DepositStatus,
    reviewedBy: Option<UserId>,
    creditedAmount: Option<Money>)

  datatype ProblemStatus = Open | Closed

  /** A row of `problems`. */
  datatype Problem = Problem(id: int, userId: UserId, message: string, status: ProblemStatus)

  /** The five tables. */
  datatype Tables = Tables(
    users: map<UserId, User>,
    accounts: seq<Account>,
    purchases: seq<PurchaseRecord>,
    deposits: seq<DepositRequest>,
    problems: seq<Problem>)

  /** The store right after the tables are created. */
  function EmptyTables(): Tables {
    Tables(map[], [], [], [], [])
  }

  /** Every id column is AUTOINCREMENT and no row is ever deleted, so the
      k-th row (counting from 0) of each table has id k + 1. */
  ghost predicate WellFormed(t: Tables) {
    && (forall i | 0 <= i < |t.accounts| :: t.accounts[i].id == i + 1)
    && (forall i | 0 <= i < |t.purchases| :: t.purchases[i].id == i + 1)
    && (forall i | 0 <= i < |t.deposits| :: t.deposits[i].id == i + 1)
    && (forall i | 0 <= i < |t.problems| :: t.problems[i].id == i + 1)
  }

  function LowerChar(c: char): char {
    if 'A' <= c <= 'Z' then (c as int + 32) as char else c
  }

  /** Python's `str.lower()`, restricted to the ASCII letters. */
  function Lower(s: string): (r: string)
    ensures |r| == |s|
    ensures forall i | 0 <= i < |s| :: r[i] == LowerChar(s[i])
  {
    if s == [] then [] else [LowerChar(s[0])] + Lower(s[1..])
  }

  /** Lower-casing twice is lower-casing once, so a country stored by
      `add_account` and then looked up again is normalised the same way. */
  lemma LowerIdempotent(s: string)
    ensures Lower(Lower(s)) == Lower(s)
  {
    var once, twice := Lower(s), Lower(Lower(s));
    assert forall i | 0 <= i < |s| :: twice[i] == LowerChar(LowerChar(s[i])) == once[i];
  }
}
