/** Each mutating method of `Database` as a function from the tables before
    the call to the tables after it (and the value the method returns). The
    SQL UPDATE statements become row-by-row maps over a table, INSERT with
    an AUTOINCREMENT id becomes an append of a row whose id is one more than
    the number of rows. */
module Ledger {
  import opened Schema
  import opened Queries

  /** `upsert_user`: insert the user with balance 0, or update only the
      display fields of an existing row. */
  function UpsertUser(s: Tables, uid: UserId, username: Option<string>, firstName: Option<string>): (s': Tables)
    ensures s' == s.(users := s'.users)
    ensures s'.users.Keys == s.users.Keys + {uid}
    ensures s'.users[uid].username == username && s'.users[uid].firstName == firstName
    ensures GetBalance(s'.users, uid) == GetBalance(s.users, uid)
    ensures forall u | u in s.users && u != uid :: s'.users[u] == s.users[u]
  {
    var row := if uid in s.users then s.users[uid].(username := username, firstName := firstName)
               else User(username, firstName, 0);
    s.(users := s.users[uid := row])
  }

  /** `add_account`: a new available account with the next id and the
      country lower-cased. */
  function AddAccount(s: Tables, number: string, country: string, price: Money, accountType: string, addedBy: UserId): (s': Tables)
    ensures s' == s.(accounts := s'.accounts)
    ensures |s'.accounts| == |s.accounts| + 1 && s'.accounts[..|s.accounts|] == s.accounts
    ensures var a := s'.accounts[|s.accounts|];
      && a.number == number && a.country == Lower(country) && a.price == price
      && a.accountType == accountType && a.status == Available && a.addedBy == addedBy
    ensures WellFormed(s) ==> WellFormed(s') && forall i | 0 <= i < |s.accounts| :: s.accounts[i].id < s'.accounts[|s.accounts|].id
  {
    var a := Account(|s.accounts| + 1, number, Lower(country), price, accountType, Available, addedBy);
    s.(accounts := s.accounts + [a])
  }

  /** `set_balance`: insert the user with this balance, or overwrite the
      balance of an existing row (its display fields stay). */
  function SetBalance(s: Tables, uid: UserId, amount: Money): (s': Tables)
    ensures s' == s.(users := s'.users)
    ensures s'.users.Keys == s.users.Keys + {uid}
    ensures GetBalance(s'.users, uid) == amount
    ensures uid in s.users ==> s'.users[uid] == s.users[uid].(balance := amount)
    ensures uid !in s.users ==> s'.users[uid] == User(None, None, amount)
    ensures forall u | u in s.users && u != uid :: s'.users[u] == s.users[u]
  {
    var row := if uid in s.users then s.users[uid].(balance := amount) else User(None, None, amount);
    s.(users := s.users[uid := row])
  }

  /** `credit_balance`: read the balance (0 if no row), then set it to that plus `amount`. */
  function CreditBalance(s: Tables, uid: UserId, amount: Money): (s': Tables)
    ensures s' == s.(users := s'.users)
    ensures s'.users.Keys == s.users.Keys + {uid}
    ensures GetBalance(s'.users, uid) == GetBalance(s.users, uid) + amount
    ensures uid in s.users ==> s'.users[uid] == s.users[uid].(balance := s.users[uid].balance + amount)
    ensures uid !in s.users ==> s'.users[uid] == User(None, None, amount)
    ensures forall u | u in s.users && u != uid :: s'.users[u] == s.users[u]
  {
    SetBalance(s, uid, GetBalance(s.users, uid) + amount)
  }

  /** UPDATE accounts SET status = 'sold' WHERE id = ? */
  function MarkSold(accounts: seq<Account>, id: int): seq<Account> {
    seq(|accounts|, i requires 0 <= i < |accounts| =>
      if accounts[i].id == id then accounts[i].(status := Sold) else accounts[i])
  }

  /** The purchase row `purchase` inserts: the buyer and a copy of the account's fields. */
  function Receipt(id: int, uid: UserId, a: Account): PurchaseRecord {
    PurchaseRecord(id, uid, a.id, a.number, a.country, a.price, a.accountType, None, PendingOtp)
  }

  /** `purchase(user_id, account)`: nothing happens and None is returned when
      the balance is below the price; otherwise the buyer's row (if it exists)
      is debited by the price, every row with the account's id is marked sold
      (whatever its status was), and a purchase is recorded whose id is returned. */
  function Purchase(s: Tables, uid: UserId, a: Account): (out: (Tables, Option<int>))
    ensures out.1.None? <==> GetBalance(s.users, uid) < a.price
    ensures out.1.None? ==> out.0 == s
    ensures out.1.Some? ==>
      var s' := out.0;
      && out.1.value == |s.purchases| + 1
      && s'.deposits == s.deposits && s'.problems == s.problems
      && (uid in s.users ==> s'.users == s.users[uid := s.users[uid].(balance := s.users[uid].balance - a.price)])
      && (uid in s.users ==> GetBalance(s'.users, uid) == GetBalance(s.users, uid) - a.price)
      && (uid !in s.users ==> s'.users == s.users)
      && |s'.accounts| == |s.accounts|
      && (forall i | 0 <= i < |s.accounts| && s.accounts[i].id == a.id :: s'.accounts[i] == s.accounts[i].(status := Sold))
      && (forall i | 0 <= i < |s.accounts| && s.accounts[i].id != a.id :: s'.accounts[i] == s.accounts[i])
      && s'.purchases == s.purchases + [Receipt(out.1.value, uid, a)]
    ensures out.1.Some? && WellFormed(s) ==> forall i | 0 <= i < |s.purchases| :: s.purchases[i].id < out.1.value
    ensures WellFormed(s) ==> WellFormed(out.0)
  {
    if GetBalance(s.users, uid) < a.price then (s, None)
    else
      var users := if uid in s.users then s.users[uid := s.users[uid].(balance := s.users[uid].balance - a.price)] else s.users;
      var id := |s.purchases| + 1;
      (s.(users := users, accounts := MarkSold(s.accounts, a.id), purchases := s.purchases + [Receipt(id, uid, a)]), Some(id))
  }

  /** UPDATE purchases SET otp = ?, status = 'otp_sent' WHERE id = ? */
  function DeliverOtp(purchases: seq<PurchaseRecord>, id: int, otp: string): seq<PurchaseRecord> {
    seq(|purchases|, i requires 0 <= i < |purchases| =>
      if purchases[i].id == id then purchases[i].(otp := Some(otp), status := OtpSent) else purchases[i])
  }

  /** `set_otp_and_get_user(number, otp)`: the latest purchase of the number
      gets the OTP and status `otp_sent`; its id and buyer are returned. */
  function SetOtpAndGetUser(s: Tables, number: string, otp: string): (out: (Tables, Option<(int, UserId)>))
    ensures out.1.None? <==> forall i | 0 <= i < |s.purchases| :: s.purchases[i].number != number
    ensures out.1.None? ==> out.0 == s
    ensures out.1.Some? ==>
      var (pid, buyer) := out.1.value;
      var s' := out.0;
      && s' == s.(purchases := s'.purchases)
      && |s'.purchases| == |s.purchases|
      && (exists i | 0 <= i < |s.purchases| :: s.purchases[i].id == pid && s.purchases[i].userId == buyer && s.purchases[i].number == number)
      && (forall i | 0 <= i < |s.purchases| && s.purchases[i].number == number :: s.purchases[i].id <= pid)
      && (forall i | 0 <= i < |s.purchases| && s.purchases[i].id == pid ::
            s'.purchases[i] == s.purchases[i].(otp := Some(otp), status := OtpSent))
      && (forall i | 0 <= i < |s.purchases| && s.purchases[i].id != pid :: s'.purchases[i] == s.purchases[i])
    ensures WellFormed(s) ==> WellFormed(out.0)
  {
    match LatestPurchaseOf(s.purchases, number)
    case None => (s, None)
    case Some(p) => (s.(purchases := DeliverOtp(s.purchases, p.id, otp)), Some((p.id, p.userId)))
  }

  /** `add_problem`: a new open problem with the next id. */
  function AddProblem(s: Tables, uid: UserId, message: string): (s': Tables)
    ensures s' == s.(problems := s'.problems)
    ensures s'.problems == s.problems + [Problem(|s.problems| + 1, uid, message, Open)]
    ensures WellFormed(s) ==> WellFormed(s')
  {
    s.(problems := s.problems + [Problem(|s.problems| + 1, uid, message, Open)])
  }

  /** `create_deposit_request`: a new pending request with the next id, which is returned. */
  function CreateDepositRequest(s: Tables, uid: UserId, details: string, screenshot: Option<string>): (out: (Tables, int))
    ensures out.0 == s.(deposits := out.0.deposits)
    ensures out.0.deposits == s.deposits + [DepositRequest(out.1, uid, screenshot, details, Pending, None, None)]
    ensures WellFormed(s) ==> WellFormed(out.0) && forall i | 0 <= i < |s.deposits| :: s.deposits[i].id < out.1
  {
    var id := |s.deposits| + 1;
    (s.(deposits := s.deposits + [DepositRequest(id, uid, screenshot, details, Pending, None, None)]), id)
  }

  /** The WHERE clause of `mark_deposit_decision`. */
  predicate Reviewable(r: DepositRequest, id: int) {
    r.id == id && r.status == Pending
  }

  /** UPDATE deposit_requests SET status = ?, reviewed_by = ? WHERE id = ? AND status = 'pending' */
  function Decide(deposits: seq<DepositRequest>, id: int, owner: UserId, status: DepositStatus): seq<DepositRequest> {
    seq(|deposits|, i requires 0 <= i < |deposits| =>
      if Reviewable(deposits[i], id) then deposits[i].(status := status, reviewedBy := Some(owner)) else deposits[i])
  }

  /** `mark_deposit_decision`: only a pending request changes; the result is
      true exactly when a row changed. */
  function MarkDepositDecision(s: Tables, id: int, owner: UserId, status: DepositStatus): (out: (Tables, bool))
    ensures out.1 <==> exists i | 0 <= i < |s.deposits| :: Reviewable(s.deposits[i], id)
    ensures !out.1 ==> out.0 == s
    ensures out.0 == s.(deposits := out.0.deposits) && |out.0.deposits| == |s.deposits|
    ensures forall i | 0 <= i < |s.deposits| && Reviewable(s.deposits[i], id) ::
      out.0.deposits[i] == s.deposits[i].(status := status, reviewedBy := Some(owner))
    ensures forall i | 0 <= i < |s.deposits| && !Reviewable(s.deposits[i], id) :: out.0.deposits[i] == s.deposits[i]
    ensures WellFormed(s) ==> WellFormed(out.0)
  {
    var applied := exists i | 0 <= i < |s.deposits| :: Reviewable(s.deposits[i], id);
    var s' := s.(deposits := Decide(s.deposits, id, owner, status));
    assert !applied ==> s'.deposits == s.deposits;
    (s', applied)
  }

  /** The three answers of `apply_deposit_credit`: None, -1, or the owner's id. */
  datatype CreditOutcome = NotFound | AlreadyCredited | CreditedTo(userId: UserId)

  /** UPDATE deposit_requests SET status = 'credited', reviewed_by = ?, credited_amount = ? WHERE id = ? */
  function MarkCredited(deposits: seq<DepositRequest>, id: int, owner: UserId, amount: Money): seq<DepositRequest> {
    seq(|deposits|, i requires 0 <= i < |deposits| =>
      if deposits[i].id == id then deposits[i].(status := Credited, reviewedBy := Some(owner), creditedAmount := Some(amount))
      else deposits[i])
  }

  /** `apply_deposit_credit`: an unknown id and an already credited request
      change nothing; any other request (pending, approved or denied) has its
      amount added to its owner's balance and is marked credited. */
  function ApplyDepositCredit(s: Tables, id: int, owner: UserId, amount: Money): (out: (Tables, CreditOutcome))
    ensures out.1.NotFound? <==> forall i | 0 <= i < |s.deposits| :: s.deposits[i].id != id
    ensures out.1.AlreadyCredited? <==> GetDepositRequest(s.deposits, id).Some? && GetDepositRequest(s.deposits, id).value.status == Credited
    ensures !out.1.CreditedTo? ==> out.0 == s
    ensures out.1.CreditedTo? ==>
      var beneficiary := out.1.userId;
      var s' := out.0;
      && GetDepositRequest(s.deposits, id).Some? && GetDepositRequest(s.deposits, id).value.userId == beneficiary
      && s'.accounts == s.accounts && s'.purchases == s.purchases && s'.problems == s.problems
      && s'.users.Keys == s.users.Keys + {beneficiary}
      && GetBalance(s'.users, beneficiary) == GetBalance(s.users, beneficiary) + amount
      && (beneficiary in s.users ==>
            s'.users[beneficiary] == s.users[beneficiary].(balance := s.users[beneficiary].balance + amount))
      && (beneficiary !in s.users ==> s'.users[beneficiary] == User(None, None, amount))
      && (forall u | u in s.users && u != beneficiary :: s'.users[u] == s.users[u])
      && |s'.deposits| == |s.deposits|
      && (forall i | 0 <= i < |s.deposits| && s.deposits[i].id == id ::
            s'.deposits[i] == s.deposits[i].(status := Credited, reviewedBy := Some(owner), creditedAmount := Some(amount)))
      && (forall i | 0 <= i < |s.deposits| && s.deposits[i].id != id :: s'.deposits[i] == s.deposits[i])
    ensures WellFormed(s) ==> WellFormed(out.0)
  {
    match GetDepositRequest(s.deposits, id)
    case None => (s, NotFound)
    case Some(r) =>
      if r.status == Credited then (s, AlreadyCredited)
      else
        var s1 := CreditBalance(s, r.userId, amount);
        (s1.(deposits := MarkCredited(s1.deposits, id, owner, amount)), CreditedTo(r.userId))
  }

  /** UPDATE problems SET status = 'closed' WHERE id = ? */
  function Close(problems: seq<Problem>, id: int): seq<Problem> {
    seq(|problems|, i requires 0 <= i < |problems| =>
      if problems[i].id == id then problems[i].(status := Closed) else problems[i])
  }

  /** `solve_problem`: close the problem; true when a row with that id exists
      (SQLite counts a matched row even if it was already closed). */
  function SolveProblem(s: Tables, id: int): (out: (Tables, bool))
    ensures out.1 <==> exists i | 0 <= i < |s.problems| :: s.problems[i].id == id
    ensures out.0 == s.(problems := out.0.problems) && |out.0.problems| == |s.problems|
    ensures forall i | 0 <= i < |s.problems| ::
      out.0.problems[i] == if s.problems[i].id == id then s.problems[i].(status := Closed) else s.problems[i]
    ensures WellFormed(s) ==> WellFormed(out.0)
  {
    (s.(problems := Close(s.problems, id)), exists i | 0 <= i < |s.problems| :: s.problems[i].id == id)
  }

  // ---- Properties that relate several calls ----

  /** A second decision on a request finds it no longer pending: it returns
      false and changes nothing. */
  lemma SecondDecisionRejected(s: Tables, id: int, owner: UserId, status: DepositStatus, owner': UserId, status': DepositStatus)
    requires status != Pending
    requires MarkDepositDecision(s, id, owner, status).1
    ensures var s1 := MarkDepositDecision(s, id, owner, status).0;
      MarkDepositDecision(s1, id, owner', status') == (s1, false)
  {
    var s1 := MarkDepositDecision(s, id, owner, status).0;
    assert forall i | 0 <= i < |s1.deposits| :: !Reviewable(s1.deposits[i], id);
  }

  /** Crediting twice credits once: the second call answers AlreadyCredited
      and leaves the tables as the first call left them. */
  lemma {:induction false} CreditAppliesOnce(s: Tables, id: int, owner: UserId, amount: Money, owner': UserId, amount': Money)
    ensures var (s1, o1) := ApplyDepositCredit(s, id, owner, amount);
      var (s2, o2) := ApplyDepositCredit(s1, id, owner', amount');
      && s2 == s1
      && (o1.NotFound? <==> o2.NotFound?)
      && (!o1.NotFound? ==> o2 == AlreadyCredited)
  {
    var (s1, o1) := ApplyDepositCredit(s, id, owner, amount);
    if o1.CreditedTo? {
      var r := GetDepositRequest(s1.deposits, id);
      var k :| 0 <= k < |s.deposits| && s.deposits[k].id == id;
      assert s1.deposits[k].id == id;
      assert r.Some?;
      var j :| 0 <= j < |s1.deposits| && s1.deposits[j] == r.value;
      assert r.value.status == Credited;
    }
  }

  /** Closing a problem twice is closing it once. */
  lemma SolveIdempotent(s: Tables, id: int)
    ensures var (s1, ok1) := SolveProblem(s, id);
      SolveProblem(s1, id) == (s1, ok1)
  {
    var (s1, ok1) := SolveProblem(s, id);
    assert Close(s1.problems, id) == s1.problems;
  }

  /** A deposit is credited to whoever filed it, even after it was denied:
      only an earlier credit blocks a credit. */
  lemma DeniedRequestStillCreditable(s: Tables, uid: UserId, details: string, owner: UserId, amount: Money)
    requires WellFormed(s)
    ensures var (s1, id) := CreateDepositRequest(s, uid, details, None);
      var s2 := MarkDepositDecision(s1, id, owner, Denied).0;
      var (s3, o) := ApplyDepositCredit(s2, id, owner, amount);
      o == CreditedTo(uid) && GetBalance(s3.users, uid) == GetBalance(s.users, uid) + amount
  {
    var (s1, id) := CreateDepositRequest(s, uid, details, None);
    var s2 := MarkDepositDecision(s1, id, owner, Denied).0;
    var n := |s.deposits|;
    assert s1.deposits[n].id == id;
    assert forall i | 0 <= i < n :: s1.deposits[i].id != id;
    assert s2.deposits[n] == s1.deposits[n].(status := Denied, reviewedBy := Some(owner));
    assert forall i | 0 <= i < n :: s2.deposits[i].id != id;
    var r := GetDepositRequest(s2.deposits, id);
    var j :| 0 <= j < |s2.deposits| && s2.deposits[j] == r.value;
    assert j == n;
  }
}
