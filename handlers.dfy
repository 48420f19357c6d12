/** The handler-level guards that decide whether a store call happens at
    all (the owner allow-list, `buy_now`'s availability check, `/add`'s
    amount check), and what they buy: in any sequence of handled requests
    no two purchases are of the same account. */
module Handlers {
  import opened Schema
  import opened Queries
  import opened Ledger

  /** OWNER_IDS */
  const OwnerIds: set<UserId> := {6710777832, 8394041476, 8396616795, 8498330921, 8595642160}

  /** DEPOSIT_REVIEW_OWNER_ID */
  const DepositReviewOwnerId: UserId := 8394041476

  /** `is_owner`: membership in the fixed allow-list of five ids. */
  predicate IsOwner(uid: UserId): (r: bool)
    ensures r <==> uid == 6710777832 || uid == 8394041476 || uid == 8396616795
                   || uid == 8498330921 || uid == 8595642160
  {
    uid in OwnerIds
  }

  /** The deposit handlers admit `DEPOSIT_REVIEW_OWNER_ID` or an owner; the
      review owner is itself an owner, so their gate is exactly `is_owner`. */
  predicate MayReviewDeposits(uid: UserId): (r: bool)
    ensures r <==> IsOwner(uid)
  {
    uid == DepositReviewOwnerId || IsOwner(uid)
  }

  datatype BuyOutcome = NotAvailable | InsufficientBalance(balance: Money, price: Money) | Purchased(purchaseId: int)

  /** `buy_now`: look the account up; a missing or no longer available
      account is refused without calling `purchase`. */
  function BuyNow(s: Tables, uid: UserId, accountId: int): (out: (Tables, BuyOutcome))
    ensures !out.1.Purchased? ==> out.0 == s
    ensures out.1.InsufficientBalance? ==> out.1.balance == GetBalance(s.users, uid) < out.1.price
    ensures out.1.InsufficientBalance? ==>
      && AccountById(s.accounts, accountId).Some?
      && AccountById(s.accounts, accountId).value.status == Available
      && out.1.price == AccountById(s.accounts, accountId).value.price
    ensures (&& AccountById(s.accounts, accountId).Some?
             && AccountById(s.accounts, accountId).value.status == Available
             && AccountById(s.accounts, accountId).value.price <= GetBalance(s.users, uid)) ==> out.1.Purchased?
    ensures out.1.Purchased? ==> AccountById(s.accounts, accountId).Some?
    ensures out.1.Purchased? ==>
      var a := AccountById(s.accounts, accountId).value;
      && a.status == Available && a.price <= GetBalance(s.users, uid)
      && out == (Ledger.Purchase(s, uid, a).0, Purchased(|s.purchases| + 1))
    ensures WellFormed(s) ==> WellFormed(out.0)
  {
    match AccountById(s.accounts, accountId)
    case None => (s, NotAvailable)
    case Some(a) =>
      if a.status != Available then (s, NotAvailable)
      else
        var (s', pid) := Ledger.Purchase(s, uid, a);
        if pid.None? then (s, InsufficientBalance(GetBalance(s.users, uid), a.price))
        else (s', Purchased(pid.value))
  }

  /** With ids 1..n: the purchase is refused as unavailable exactly when no
      account has that id or that account is already sold. */
  lemma BuyNowRefusesUnavailable(s: Tables, uid: UserId, accountId: int)
    requires WellFormed(s)
    ensures BuyNow(s, uid, accountId).1.NotAvailable? <==>
      !(1 <= accountId <= |s.accounts| && s.accounts[accountId - 1].status == Available)
  {
    AccountByIdIsRow(s.accounts, accountId);
  }

  /** With ids 1..n, an available account is bought exactly when the
      buyer's balance covers its price. */
  lemma BuyNowSucceedsWhenCovered(s: Tables, uid: UserId, accountId: int)
    requires WellFormed(s) && 1 <= accountId <= |s.accounts| && s.accounts[accountId - 1].status == Available
    ensures BuyNow(s, uid, accountId).1.Purchased? <==> s.accounts[accountId - 1].price <= GetBalance(s.users, uid)
  {
    AccountByIdIsRow(s.accounts, accountId);
  }

  datatype AddOutcome = Ignored | InvalidAmount | Credit(outcome: CreditOutcome)

  /** `/add <deposit_id> <amount>`: silently ignored for anyone but the
      review owner and the owners; an amount of 0 or less is refused before
      the store is touched; otherwise `apply_deposit_credit` runs. */
  function AddDepositCmd(s: Tables, actor: UserId, id: int, amount: Money): (out: (Tables, AddOutcome))
    ensures !MayReviewDeposits(actor) ==> out == (s, Ignored)
    ensures MayReviewDeposits(actor) && amount <= 0 ==> out == (s, InvalidAmount)
    ensures MayReviewDeposits(actor) && amount > 0 ==>
      out == (ApplyDepositCredit(s, id, actor, amount).0, Credit(ApplyDepositCredit(s, id, actor, amount).1))
    ensures out.1.Credit? && out.1.outcome.CreditedTo? ==>
      GetBalance(out.0.users, out.1.outcome.userId) > GetBalance(s.users, out.1.outcome.userId)
  {
    if !MayReviewDeposits(actor) then (s, Ignored)
    else if amount <= 0 then (s, InvalidAmount)
    else
      var (s', o) := ApplyDepositCredit(s, id, actor, amount);
      (s', Credit(o))
  }

  /** One request the bot handles that reaches the store. Admin requests
      carry the sender, checked against the allow-list as the handlers do. */
  datatype Step =
    | Start(uid: UserId, username: Option<string>, firstName: Option<string>)
    | Buy(uid: UserId, accountId: int)
    | AddStock(actor: UserId, accountType: string, number: string, country: string, price: Money)
    | SetBalanceCmd(actor: UserId, uid: UserId, amount: Money)
    | CreditCmd(actor: UserId, uid: UserId, amount: Money)
    | SubmitDeposit(uid: UserId, details: string, screenshot: Option<string>)
    | Review(actor: UserId, id: int, approve: bool)
    | AddDeposit(actor: UserId, id: int, amount: Money)
    | SetOtp(actor: UserId, number: string, otp: string)
    | Report(uid: UserId, message: string)
    | Solve(actor: UserId, id: int)

  /** The requests that only an owner may make (the deposit review gate is
      the same allow-list, by `MayReviewDeposits`). */
  predicate Admin(step: Step) {
    step.AddStock? || step.SetBalanceCmd? || step.CreditCmd? || step.Review?
    || step.AddDeposit? || step.SetOtp? || step.Solve?
  }

  /** The tables after one handled request: an admin request from anyone
      but an owner changes nothing, and no request breaks the id layout. */
  function Apply(s: Tables, step: Step): (r: Tables)
    ensures Admin(step) && !IsOwner(step.actor) ==> r == s
    ensures WellFormed(s) ==> WellFormed(r)
  {
    match step
    case Start(uid, username, firstName) => UpsertUser(s, uid, username, firstName)
    case Buy(uid, accountId) => BuyNow(s, uid, accountId).0
    case AddStock(actor, t, number, country, price) =>
      if IsOwner(actor) then AddAccount(s, number, country, price, t, actor) else s
    case SetBalanceCmd(actor, uid, amount) => if IsOwner(actor) then SetBalance(s, uid, amount) else s
    case CreditCmd(actor, uid, amount) => if IsOwner(actor) then CreditBalance(s, uid, amount) else s
    case SubmitDeposit(uid, details, screenshot) => CreateDepositRequest(s, uid, details, screenshot).0
    case Review(actor, id, approve) =>
      if MayReviewDeposits(actor) then MarkDepositDecision(s, id, actor, if approve then Approved else Denied).0 else s
    case AddDeposit(actor, id, amount) => AddDepositCmd(s, actor, id, amount).0
    case SetOtp(actor, number, otp) => if IsOwner(actor) then SetOtpAndGetUser(s, number, otp).0 else s
    case Report(uid, message) => AddProblem(s, uid, message)
    case Solve(actor, id) => if IsOwner(actor) then SolveProblem(s, id).0 else s
  }

  /** The tables after handling the requests in order: a run of admin
      requests from non-owners changes nothing, and the id layout holds
      throughout. */
  function Run(s: Tables, steps: seq<Step>): (r: Tables)
    ensures (forall i | 0 <= i < |steps| :: Admin(steps[i]) && !IsOwner(steps[i].actor)) ==> r == s
    ensures WellFormed(s) ==> WellFormed(r)
    decreases |steps|
  {
    if steps == [] then s else Run(Apply(s, steps[0]), steps[1..])
  }

  /** Purchase `p` is a copy of account `a`. */
  predicate Copies(p: PurchaseRecord, a: Account) {
    p.accountId == a.id && p.number == a.number && p.country == a.country
    && p.price == a.price && p.accountType == a.accountType
  }

  /** Every purchase copies an account that is now sold. */
  ghost predicate BoughtAreSold(accounts: seq<Account>, purchases: seq<PurchaseRecord>) {
    forall i | 0 <= i < |purchases| ::
      1 <= purchases[i].accountId <= |accounts|
      && accounts[purchases[i].accountId - 1].status == Sold
      && Copies(purchases[i], accounts[purchases[i].accountId - 1])
  }

  /** No two purchases are of the same account. */
  ghost predicate BoughtOnce(purchases: seq<PurchaseRecord>) {
    forall i, j | 0 <= i < j < |purchases| :: purchases[i].accountId != purchases[j].accountId
  }

  /** The status of the account at position `k`. */
  function StatusAt(accounts: seq<Account>, k: nat): AccountStatus
    requires k < |accounts|
  {
    accounts[k].status
  }

  /** Every sold account was bought. (Stated through `StatusAt`, so that it
      and `BoughtAreSold` cannot instantiate each other without end.) */
  ghost predicate SoldWereBought(accounts: seq<Account>, purchases: seq<PurchaseRecord>) {
    forall k: nat | k < |accounts| && StatusAt(accounts, k) == Sold ::
      exists i | 0 <= i < |purchases| :: purchases[i].accountId == k + 1
  }

  /** The sales invariant: every purchase copies a sold account, no two
      purchases are of the same account, and every sold account was bought. */
  ghost predicate SalesConsistent(s: Tables) {
    && WellFormed(s)
    && BoughtAreSold(s.accounts, s.purchases)
    && BoughtOnce(s.purchases)
    && SoldWereBought(s.accounts, s.purchases)
  }

  lemma EmptyIsConsistent()
    ensures SalesConsistent(EmptyTables())
  {
  }

  /** Selling the available account at position `k` and recording a copy
      of it keeps the three sales properties. */
  lemma {:induction false} SellKeepsSales(accounts: seq<Account>, purchases: seq<PurchaseRecord>, k: nat, p: PurchaseRecord)
    requires forall i | 0 <= i < |accounts| :: accounts[i].id == i + 1
    requires BoughtAreSold(accounts, purchases) && BoughtOnce(purchases) && SoldWereBought(accounts, purchases)
    requires k < |accounts| && accounts[k].status == Available && Copies(p, accounts[k])
    ensures var accounts' := accounts[k := accounts[k].(status := Sold)];
      && BoughtAreSold(accounts', purchases + [p])
      && BoughtOnce(purchases + [p])
      && SoldWereBought(accounts', purchases + [p])
  {
    var accounts' := accounts[k := accounts[k].(status := Sold)];
    var purchases' := purchases + [p];
    var n := |purchases|;
    forall i | 0 <= i < n ensures purchases[i].accountId != k + 1 {
      assert accounts[purchases[i].accountId - 1].status == Sold;
    }
    forall i | 0 <= i < |purchases'|
      ensures 1 <= purchases'[i].accountId <= |accounts'|
      ensures accounts'[purchases'[i].accountId - 1].status == Sold
      ensures Copies(purchases'[i], accounts'[purchases'[i].accountId - 1])
    {
      if i < n {
        assert purchases'[i] == purchases[i];
      }
    }
    forall j: nat | j < |accounts'| && StatusAt(accounts', j) == Sold
      ensures exists i | 0 <= i < |purchases'| :: purchases'[i].accountId == j + 1
    {
      if j == k {
        assert purchases'[n].accountId == j + 1;
      } else {
        assert StatusAt(accounts, j) == Sold;
        var i :| 0 <= i < n && purchases[i].accountId == j + 1;
        assert purchases'[i] == purchases[i];
      }
    }
  }

  /** A guarded purchase keeps the invariant: the account was available, so
      no earlier purchase is of it, and it is now sold and bought once. */
  lemma {:induction false} BuyNowKeepsSales(s: Tables, uid: UserId, accountId: int)
    requires SalesConsistent(s)
    ensures SalesConsistent(BuyNow(s, uid, accountId).0)
  {
    var (s', o) := BuyNow(s, uid, accountId);
    if o.Purchased? {
      AccountByIdIsRow(s.accounts, accountId);
      var k := accountId - 1;
      var a := s.accounts[k];
      var p := Receipt(|s.purchases| + 1, uid, a);
      assert s'.purchases == s.purchases + [p];
      assert s'.accounts == s.accounts[k := a.(status := Sold)];
      SellKeepsSales(s.accounts, s.purchases, k, p);
    }
  }

  /** Adding stock keeps the invariant: the new account is available. */
  lemma AddAccountKeepsSales(s: Tables, number: string, country: string, price: Money, accountType: string, addedBy: UserId)
    requires SalesConsistent(s)
    ensures SalesConsistent(AddAccount(s, number, country, price, accountType, addedBy))
  {
    var s' := AddAccount(s, number, country, price, accountType, addedBy);
    assert forall k | 0 <= k < |s.accounts| :: s'.accounts[k] == s.accounts[k];
    forall k: nat | k < |s'.accounts| && StatusAt(s'.accounts, k) == Sold
      ensures exists i | 0 <= i < |s'.purchases| :: s'.purchases[i].accountId == k + 1
    {
      assert StatusAt(s.accounts, k) == Sold;
    }
  }

  /** The sales properties read only the copied fields of a purchase. */
  lemma {:induction false} SalesIgnoreOtp(accounts: seq<Account>, purchases: seq<PurchaseRecord>, purchases': seq<PurchaseRecord>)
    requires BoughtAreSold(accounts, purchases) && BoughtOnce(purchases) && SoldWereBought(accounts, purchases)
    requires |purchases'| == |purchases|
    requires forall i | 0 <= i < |purchases| :: purchases'[i] == purchases[i].(otp := purchases'[i].otp, status := purchases'[i].status)
    ensures BoughtAreSold(accounts, purchases') && BoughtOnce(purchases') && SoldWereBought(accounts, purchases')
  {
    forall i | 0 <= i < |purchases| ensures purchases'[i].accountId == purchases[i].accountId {
    }
    forall j: nat | j < |accounts| && StatusAt(accounts, j) == Sold
      ensures exists i | 0 <= i < |purchases'| :: purchases'[i].accountId == j + 1
    {
      var i :| 0 <= i < |purchases| && purchases[i].accountId == j + 1;
      assert purchases'[i].accountId == j + 1;
    }
  }

  /** Delivering an OTP keeps the invariant: it touches only the otp and status of a purchase. */
  lemma SetOtpKeepsSales(s: Tables, number: string, otp: string)
    requires SalesConsistent(s)
    ensures SalesConsistent(SetOtpAndGetUser(s, number, otp).0)
  {
    var s' := SetOtpAndGetUser(s, number, otp).0;
    SalesIgnoreOtp(s.accounts, s.purchases, s'.purchases);
  }

  lemma {:induction false} StepKeepsSales(s: Tables, step: Step)
    requires SalesConsistent(s)
    ensures SalesConsistent(Apply(s, step))
  {
    match step
    case Buy(uid, accountId) => BuyNowKeepsSales(s, uid, accountId);
    case AddStock(actor, t, number, country, price) =>
      if IsOwner(actor) { AddAccountKeepsSales(s, number, country, price, t, actor); }
    case SetOtp(actor, number, otp) =>
      if IsOwner(actor) { SetOtpKeepsSales(s, number, otp); }
    case _ =>
  }

  /** In any sequential run of handled requests from a consistent store, the
      store stays consistent: no account is ever bought twice. */
  lemma {:induction false} RunKeepsSales(s: Tables, steps: seq<Step>)
    requires SalesConsistent(s)
    ensures SalesConsistent(Run(s, steps))
    decreases |steps|
  {
    if steps != [] {
      StepKeepsSales(s, steps[0]);
      RunKeepsSales(Apply(s, steps[0]), steps[1..]);
    }
  }

  /** Buying an account that is already sold is refused and changes nothing,
      so its price is never debited a second time. */
  lemma {:induction false} SecondBuyRefused(s: Tables, uid: UserId, accountId: int, uid': UserId)
    requires WellFormed(s)
    requires BuyNow(s, uid, accountId).1.Purchased?
    ensures var s1 := BuyNow(s, uid, accountId).0;
      BuyNow(s1, uid', accountId) == (s1, NotAvailable)
  {
    var s1 := BuyNow(s, uid, accountId).0;
    AccountByIdIsRow(s.accounts, accountId);
    AccountByIdIsRow(s1.accounts, accountId);
  }

  /** Without the guard in `buy_now`, `purchase` sells an account twice:
      two purchases of one account, and two debits. */
  lemma UnguardedPurchaseSellsTwice()
    ensures var a := Account(1, "1", "in", 10, "telegram", Available, 0);
      var s0 := Tables(map[7 := User(None, None, 30)], [a], [], [], []);
      var s1 := Ledger.Purchase(s0, 7, a).0;
      var s2 := Ledger.Purchase(s1, 7, a).0;
      && SalesConsistent(s0) && SalesConsistent(s1) && !SalesConsistent(s2)
      && GetBalance(s2.users, 7) == 10
  {
    var a := Account(1, "1", "in", 10, "telegram", Available, 0);
    var s0 := Tables(map[7 := User(None, None, 30)], [a], [], [], []);
    var s1 := Ledger.Purchase(s0, 7, a).0;
    var s2 := Ledger.Purchase(s1, 7, a).0;
    assert s1.purchases[0].accountId == 1;
    assert s2.purchases[0].accountId == s2.purchases[1].accountId;
  }

  /** FIFO: once the oldest available account of a (type, country) is
      bought, the same query yields the next oldest one. */
  lemma {:induction false} FifoAfterSale(s: Tables, uid: UserId, accountType: string, country: string)
    requires WellFormed(s)
    requires FirstAvailableForCountry(s.accounts, accountType, country).Some?
    requires BuyNow(s, uid, FirstAvailableForCountry(s.accounts, accountType, country).value.id).1.Purchased?
    ensures var first := FirstAvailableForCountry(s.accounts, accountType, country).value;
      var s1 := BuyNow(s, uid, first.id).0;
      var next := FirstAvailableForCountry(s1.accounts, accountType, country);
      && (next.None? <==> forall i | 0 <= i < |s.accounts| && s.accounts[i].id != first.id ::
                             !OnSale(s.accounts[i], accountType, Lower(country)))
      && (next.Some? ==> first.id < next.value.id && next.value in s.accounts
                          && forall i | 0 <= i < |s.accounts| && s.accounts[i].id != first.id && OnSale(s.accounts[i], accountType, Lower(country)) ::
                               next.value.id <= s.accounts[i].id)
  {
    var first := FirstAvailableForCountry(s.accounts, accountType, country).value;
    var s1 := BuyNow(s, uid, first.id).0;
    AccountByIdIsRow(s.accounts, first.id);
    var next := FirstAvailableForCountry(s1.accounts, accountType, country);
    assert forall i | 0 <= i < |s.accounts| && s.accounts[i].id != first.id :: s1.accounts[i] == s.accounts[i];
    if next.Some? {
      var k :| 0 <= k < |s1.accounts| && s1.accounts[k] == next.value;
      assert s1.accounts[k] == s.accounts[k];
      var f :| 0 <= f < |s.accounts| && s.accounts[f] == first;
      assert f == first.id - 1;
      assert k != f;
      assert OnSale(s.accounts[k], accountType, Lower(country));
    }
  }
}
