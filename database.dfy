/** The `Database` object: the five tables as fields, each mutating method
    updating them in place, step by step as the SQL statements do, and
    proved to leave exactly the tables that the matching `Ledger` function
    describes. Then the two handlers whose guards decide whether the store is
    called at all. */
module Store {
  import opened Schema
  import opened Queries
  import Ledger
  import Handlers

  class Database {
    var users: map<UserId, User>
    var accounts: seq<Account>
    var purchases: seq<PurchaseRecord>
    var deposits: seq<DepositRequest>
    var problems: seq<Problem>

    /** The tables as one value. */
    function Contents(): Tables
      reads this
    {
      Tables(users, accounts, purchases, deposits, problems)
    }

    ghost predicate Valid()
      reads this
    {
      WellFormed(Contents())
    }

    /** `Database(path)` followed by `init()`: the five tables, empty. */
    constructor ()
      ensures Valid() && Contents() == EmptyTables()
    {
      users, accounts, purchases, deposits, problems := map[], [], [], [], [];
    }

    method UpsertUser(uid: UserId, username: Option<string>, firstName: Option<string>)
      requires Valid()
      modifies this
      ensures Valid()
      ensures Contents() == Ledger.UpsertUser(old(Contents()), uid, username, firstName)
    {
      if uid in users {
        users := users[uid := users[uid].(username := username, firstName := firstName)];
      } else {
        users := users[uid := User(username, firstName, 0)];
      }
    }

    method AddAccount(number: string, country: string, price: Money, accountType: string, addedBy: UserId)
      requires Valid()
      modifies this
      ensures Valid()
      ensures Contents() == Ledger.AddAccount(old(Contents()), number, country, price, accountType, addedBy)
    {
      var id := |accounts| + 1;
      accounts := accounts + [Account(id, number, Lower(country), price, accountType, Available, addedBy)];
    }

    method SetBalance(uid: UserId, amount: Money)
      requires Valid()
      modifies this
      ensures Valid()
      ensures Contents() == Ledger.SetBalance(old(Contents()), uid, amount)
    {
      if uid in users {
        users := users[uid := users[uid].(balance := amount)];
      } else {
        users := users[uid := User(None, None, amount)];
      }
    }

    /** Reads the balance, then writes it back increased. */
    method CreditBalance(uid: UserId, amount: Money)
      requires Valid()
      modifies this
      ensures Valid()
      ensures Contents() == Ledger.CreditBalance(old(Contents()), uid, amount)
    {
      var balance := GetBalance(users, uid);
      SetBalance(uid, balance + amount);
    }

    /** Checks the balance, then debits it, marks the account sold and
      records the purchase. */
    method Purchase(uid: UserId, account: Account) returns (purchaseId: Option<int>)
      requires Valid()
      modifies this
      ensures Valid()
      ensures (Contents(), purchaseId) == Ledger.Purchase(old(Contents()), uid, account)
    {
      var balance := GetBalance(users, uid);
      if balance < account.price {
        return None;
      }
      if uid in users {
        users := users[uid := users[uid].(balance := users[uid].balance - account.price)];
      }
      accounts := Ledger.MarkSold(accounts, account.id);
      var id := |purchases| + 1;
      purchases := purchases + [Ledger.Receipt(id, uid, account)];
      purchaseId := Some(id);
    }

    method SetOtpAndGetUser(number: string, otp: string) returns (updated: Option<(int, UserId)>)
      requires Valid()
      modifies this
      ensures Valid()
      ensures (Contents(), updated) == Ledger.SetOtpAndGetUser(old(Contents()), number, otp)
    {
      var latest := LatestPurchaseOf(purchases, number);
      if latest.None? {
        return None;
      }
      var p := latest.value;
      purchases := Ledger.DeliverOtp(purchases, p.id, otp);
      updated := Some((p.id, p.userId));
    }

    method AddProblem(uid: UserId, message: string)
      requires Valid()
      modifies this
      ensures Valid()
      ensures Contents() == Ledger.AddProblem(old(Contents()), uid, message)
    {
      problems := problems + [Problem(|problems| + 1, uid, message, Open)];
    }

    method CreateDepositRequest(uid: UserId, details: string, screenshot: Option<string>) returns (id: int)
      requires Valid()
      modifies this
      ensures Valid()
      ensures (Contents(), id) == Ledger.CreateDepositRequest(old(Contents()), uid, details, screenshot)
    {
      id := |deposits| + 1;
      deposits := deposits + [DepositRequest(id, uid, screenshot, details, Pending, None, None)];
    }

    method MarkDepositDecision(id: int, owner: UserId, status: DepositStatus) returns (applied: bool)
      requires Valid()
      modifies this
      ensures Valid()
      ensures (Contents(), applied) == Ledger.MarkDepositDecision(old(Contents()), id, owner, status)
    {
      applied := exists i | 0 <= i < |deposits| :: Ledger.Reviewable(deposits[i], id);
      deposits := Ledger.Decide(deposits, id, owner, status);
    }

    /** Reads the request, refuses an unknown or already credited one, else
      credits its owner and then marks it credited. */
    method ApplyDepositCredit(id: int, owner: UserId, amount: Money) returns (outcome: Ledger.CreditOutcome)
      requires Valid()
      modifies this
      ensures Valid()
      ensures (Contents(), outcome) == Ledger.ApplyDepositCredit(old(Contents()), id, owner, amount)
    {
      var request := GetDepositRequest(deposits, id);
      if request.None? {
        return Ledger.NotFound;
      }
      if request.value.status == Credited {
        return Ledger.AlreadyCredited;
      }
      CreditBalance(request.value.userId, amount);
      deposits := Ledger.MarkCredited(deposits, id, owner, amount);
      outcome := Ledger.CreditedTo(request.value.userId);
    }

    method SolveProblem(id: int) returns (found: bool)
      requires Valid()
      modifies this
      ensures Valid()
      ensures (Contents(), found) == Ledger.SolveProblem(old(Contents()), id)
    {
      found := exists i | 0 <= i < |problems| :: problems[i].id == id;
      problems := Ledger.Close(problems, id);
    }
  }

  /** `buy_now`: `purchase` is called only for an account that exists and is
      still available, so a consistent store stays consistent. */
  method BuyNow(db: Database, uid: UserId, accountId: int) returns (outcome: Handlers.BuyOutcome)
    requires db.Valid()
    modifies db
    ensures db.Valid()
    ensures (db.Contents(), outcome) == Handlers.BuyNow(old(db.Contents()), uid, accountId)
    ensures old(Handlers.SalesConsistent(db.Contents())) ==> Handlers.SalesConsistent(db.Contents())
  {
    ghost var before := db.Contents();
    var account := AccountById(db.accounts, accountId);
    if account.None? || account.value.status != Available {
      return Handlers.NotAvailable;
    }
    var purchaseId := db.Purchase(uid, account.value);
    if purchaseId.None? {
      var balance := GetBalance(db.users, uid);
      return Handlers.InsufficientBalance(balance, account.value.price);
    }
    outcome := Handlers.Purchased(purchaseId.value);
    if Handlers.SalesConsistent(before) {
      Handlers.BuyNowKeepsSales(before, uid, accountId);
    }
  }

  /** `/add <deposit_id> <amount>`: ignored for anyone but the review owner
      and the owners, refused for an amount of 0 or less, else credited once. */
  method AddDepositCmd(db: Database, actor: UserId, id: int, amount: Money) returns (outcome: Handlers.AddOutcome)
    requires db.Valid()
    modifies db
    ensures db.Valid()
    ensures (db.Contents(), outcome) == Handlers.AddDepositCmd(old(db.Contents()), actor, id, amount)
  {
    if !Handlers.MayReviewDeposits(actor) {
      return Handlers.Ignored;
    }
    if amount <= 0 {
      return Handlers.InvalidAmount;
    }
    var credit := db.ApplyDepositCredit(id, actor, amount);
    outcome := Handlers.Credit(credit);
  }
}
