# Ledger store of the Madara account-selling bot, in Dafny

The bot sells phone-number "accounts" (type `telegram` or `whatsapp`, tagged
by country) to chat users who pay from a single balance. An admin reviews
deposit claims and credits them, and an admin delivers OTPs for sold numbers.
All of that state lives in five SQLite tables behind the `Database` class of
`bot.py`. This project models that class without SQLite:

- `Schema` (schema.dfy) holds the rows of `users`, `accounts`, `purchases`,
  `deposit_requests` and `problems`, and the whole store as one `Tables`
  value. Its invariant `WellFormed` says that the k-th row of every table has
  id k + 1: ids are AUTOINCREMENT and no row is ever deleted.
- `Queries` (queries.dfy) and `Stock` (stock.dfy) hold the read-only queries
  as functions of the tables: point lookups, the balance read, the FIFO
  choice of an account, the latest purchase of a number, and the grouped
  stock listing.
- `Ledger` (ledger.dfy) gives each mutating method as a function from the
  tables before the call to the tables after it, with the value it returns.
  Each SQL `UPDATE ... WHERE` becomes a row-by-row map. Each `INSERT` becomes
  an append.
- `Store` (database.dfy) holds the `Database` class. Its fields are the five
  tables, and its methods update them in place in the order of the SQL
  statements. Each method is proved to produce exactly what the matching
  `Ledger` function says. The module also holds the `buy_now` and `/add`
  handlers as methods over a `Database`.
- `Handlers` (handlers.dfy) holds the guards that decide whether a store
  call happens at all: the owner allow-list, `buy_now`'s availability check
  and `/add`'s amount check. It also holds a run of handled requests and the
  invariant those guards maintain: every sold account was bought exactly
  once, and every purchase is a copy of a sold account.

Money is an `int` count of the smallest currency unit. Strings are
`seq<char>`.

Each user has one balance. `purchase` marks the account sold without a
condition (bot.py:280). At most one sale per account comes from the check in
`buy_now` that the account is still available (bot.py:626-631). `/add`
refuses an amount of 0 or less in the handler (bot.py:752-754);
`apply_deposit_credit` itself accepts any amount. A denied deposit request
can still be credited: only an earlier credit blocks a credit
(bot.py:369-373).

## Model

| member | source | states |
|---|---|---|
| `Schema.Lower` | bot.py:206 | the lower-cased string has the same length and each character lower-cased (ASCII letters) |
| `Schema.LowerIdempotent` | bot.py:234 | lower-casing an already lower-cased country changes nothing, so the lookup's `country.lower()` matches what `add_account` stored |
| `Queries.GetBalance` | bot.py:253-257 | the stored balance of a user with a row, and 0 for a user without one |
| `Queries.AccountById` | bot.py:241-251 | returns a row with the requested id, and returns none exactly when no row has that id |
| `Queries.AccountByIdIsRow` | bot.py:241-251 | with ids 1..n, `account_by_id(id)` is row id - 1, and none outside 1..n |
| `Queries.GetDepositRequest` | bot.py:340-350 | returns a request with the requested id, and returns none exactly when no request has that id |
| `Queries.FirstAvailableForCountry` | bot.py:224-239 | returns an available account of the type whose country is the lower-cased query, with the least id among all such accounts; returns none exactly when there is no such account |
| `Queries.LatestPurchaseOf` | bot.py:306-317 | returns a purchase of the number with the greatest id among that number's purchases; returns none exactly when the number was never sold |
| `Stock.CountriesWithStock` | bot.py:210-222 | the grouped listing, built one account at a time in table order; its rows are in strictly ascending country order |
| `Stock.CountriesWithStockCorrect` | bot.py:210-222 | the rows are in strictly ascending country order, and the row found for each country is (country, number of available accounts of the type there, their minimum price), or absent when there are none |
| `Stock.CountriesWithStockRows` | bot.py:214-218 | every row has a positive count equal to the number of available accounts of its country and the minimum of their prices; a country has a row exactly when it has stock |
| `Stock.StockMinIsMinimum` | bot.py:214 | a group's MIN(price) is the price of one of its accounts and no greater than any of their prices |
| `Stock.StockCountZero` | bot.py:214-217 | a country's COUNT(*) is 0 exactly when no available account of the type is in it |
| `Ledger.UpsertUser` | bot.py:175-191 | the user row exists afterwards with the new username and first name; its balance is what it was (0 for a new user); no other row or table changes |
| `Ledger.AddAccount` | bot.py:199-208 | appends one available account with the lower-cased country and an id above every earlier id; the earlier rows and the other tables are unchanged |
| `Ledger.SetBalance` | bot.py:259-268 | the user's balance reads as the amount afterwards; an existing row keeps its display fields, a new row has none; the other users and tables are unchanged |
| `Ledger.CreditBalance` | bot.py:270-272 | the user's balance (0 for an unknown user) increases by exactly the amount; an existing row keeps its username and first name, a new row has none; the other users and tables are unchanged |
| `Ledger.Purchase` | bot.py:274-289 | when the balance (0 for an unknown user) is below the price: returns none and changes nothing. Otherwise: debits exactly the price from an existing buyer row, marks the account sold, and appends one `pending_otp` purchase that copies the account's fields; the returned id is above every earlier id; other users, accounts, purchases and tables are unchanged |
| `Ledger.SetOtpAndGetUser` | bot.py:304-321 | returns none and changes nothing when the number was never sold. Otherwise: returns the id and buyer of the number's purchase with the greatest id, sets that purchase's otp and status `otp_sent`, and leaves every other purchase and table unchanged |
| `Ledger.AddProblem` | bot.py:323-326 | appends one open problem with the next id; nothing else changes |
| `Ledger.CreateDepositRequest` | bot.py:328-338 | appends one pending, unreviewed request and returns its id, which is above every earlier id; nothing else changes |
| `Ledger.MarkDepositDecision` | bot.py:352-363 | returns true exactly when a pending request with the id exists; such a request gets the new status and reviewer; every other request is unchanged; returns false with no change otherwise |
| `Ledger.ApplyDepositCredit` | bot.py:365-384 | for an unknown id: `NotFound`, no change. For an already credited request: `AlreadyCredited`, no change. Otherwise: the request owner's balance grows by exactly the amount, their username and first name are kept (a row without them is created if absent), the request becomes `credited` with reviewer and credited amount, the owner's id is returned, and nothing else changes |
| `Ledger.SolveProblem` | bot.py:386-390 | the problem with the id is closed, and every other problem is unchanged; returns true exactly when a problem with that id exists, even an already closed one |
| `Ledger.SecondDecisionRejected` | bot.py:352-363 | after an applied approve or deny, a second decision on the same request returns false and changes nothing |
| `Ledger.CreditAppliesOnce` | bot.py:365-384 | applying a credit twice is applying it once: the second call returns `AlreadyCredited` (or `NotFound` again) and leaves the tables as the first call left them |
| `Ledger.SolveIdempotent` | bot.py:386-390 | closing a problem a second time gives the same tables and the same answer |
| `Ledger.DeniedRequestStillCreditable` | bot.py:369-373 | a request that was filed and then denied is still credited to its filer by the full amount |
| `Handlers.IsOwner` | bot.py:418-419 | a user is an owner exactly when their id is one of the five ids of `OWNER_IDS` (bot.py:37) |
| `Handlers.MayReviewDeposits` | bot.py:554 | the deposit handlers' gate, `DEPOSIT_REVIEW_OWNER_ID` or an owner, admits exactly the owners, because that id is in `OWNER_IDS` |
| `Handlers.BuyNow` | bot.py:624-643 | anything other than a purchase leaves the tables unchanged. An insufficient balance is reported only for an available account, with the buyer's balance and that account's price. An available account that the balance covers is always purchased, and only such an account is; the purchase equals `purchase` on that account |
| `Handlers.BuyNowSucceedsWhenCovered` | bot.py:626-643 | with ids 1..n, an available account is bought exactly when the buyer's balance covers its price |
| `Handlers.BuyNowRefusesUnavailable` | bot.py:626-631 | with ids 1..n, `buy_now` reports the account unavailable exactly when no account has the id or that account is sold |
| `Handlers.AddDepositCmd` | bot.py:737-765 | a sender outside the allow-list changes nothing. An amount of 0 or less is refused with no change. Otherwise the result is `apply_deposit_credit`'s, and a credit strictly increases the beneficiary's balance |
| `Handlers.Apply` | bot.py:423-797 | one handled request: each handler's single store call; an admin request (`/addnum`, `/addaccount`, `/setbalance`, `/credit`, deposit review, `/add`, `/setotp`, `/solve`) from a non-owner leaves the tables unchanged; the id layout is kept |
| `Handlers.Run` | bot.py:423-797 | handled requests in order: a run of admin requests from non-owners leaves the tables unchanged; the id layout holds throughout |
| `Handlers.BuyNowKeepsSales` | bot.py:626-633 | a guarded purchase keeps the sales invariant: every purchase copies a sold account, no account is bought twice, and every sold account was bought |
| `Handlers.AddAccountKeepsSales` | bot.py:199-208 | adding an account keeps the sales invariant |
| `Handlers.SetOtpKeepsSales` | bot.py:319 | delivering an OTP keeps the sales invariant |
| `Handlers.EmptyIsConsistent` | bot.py:104-173 | the freshly created store satisfies the sales invariant |
| `Handlers.RunKeepsSales` | bot.py:624-652 | in any sequence of handled requests from a consistent store, the store stays consistent, so no two purchases are ever of the same account |
| `Handlers.SecondBuyRefused` | bot.py:626-631 | after a successful purchase of an account, any buyer's next attempt on it is refused as unavailable and changes nothing |
| `Handlers.UnguardedPurchaseSellsTwice` | bot.py:274-289 | without the check in `buy_now`, calling `purchase` twice on one account records two purchases of it and debits its price twice |
| `Handlers.FifoAfterSale` | bot.py:224-239 | once the oldest available account of a type and country is bought, the same query returns an account with a larger id: the oldest remaining one, or none when none remains |
| `Store.Database.constructor` | bot.py:101-173 | the store starts with five empty tables |
| `Store.Database.UpsertUser` | bot.py:175-191 | updates the users table exactly as `Ledger.UpsertUser` |
| `Store.Database.AddAccount` | bot.py:199-208 | updates the accounts table exactly as `Ledger.AddAccount` |
| `Store.Database.SetBalance` | bot.py:259-268 | updates the users table exactly as `Ledger.SetBalance` |
| `Store.Database.CreditBalance` | bot.py:270-272 | reads the balance, then sets it; the result is exactly `Ledger.CreditBalance` |
| `Store.Database.Purchase` | bot.py:274-289 | checks the balance, then debits, marks sold and records; the tables and the returned id are exactly `Ledger.Purchase`'s |
| `Store.Database.SetOtpAndGetUser` | bot.py:304-321 | finds the latest purchase of the number and updates it; the tables and the result are exactly `Ledger.SetOtpAndGetUser`'s |
| `Store.Database.AddProblem` | bot.py:323-326 | appends exactly as `Ledger.AddProblem` |
| `Store.Database.CreateDepositRequest` | bot.py:328-338 | appends and returns the id exactly as `Ledger.CreateDepositRequest` |
| `Store.Database.MarkDepositDecision` | bot.py:352-363 | the conditional update and its answer are exactly `Ledger.MarkDepositDecision`'s |
| `Store.Database.ApplyDepositCredit` | bot.py:365-384 | reads the request, credits the owner, then marks the request credited; the tables and the result are exactly `Ledger.ApplyDepositCredit`'s |
| `Store.Database.SolveProblem` | bot.py:386-390 | the update and its answer are exactly `Ledger.SolveProblem`'s |
| `Store.BuyNow` | bot.py:624-652 | looks the account up, calls `purchase` only for an available one, and gives exactly `Handlers.BuyNow`'s tables and outcome; a consistent store stays consistent |
| `Store.AddDepositCmd` | bot.py:737-765 | applies the sender and amount guards, then the credit; gives exactly `Handlers.AddDepositCmd`'s tables and outcome |

## Left out

- Chat transport is not modelled: message texts, keyboards, `bot.send_message` / `send_photo` notifications, polling in `main`, and the welcome video.
- `is_force_join_ok` is a network call to Telegram. It decides only whether `/start` shows the menu, and the user row is upserted before it runs, so it does not affect the tables.
- `all_users` and the `/broadcast` loop are not modelled. They only send messages.
- `purchase_history` is not modelled. It is a display-only query for the profile screen.
- `awaiting_deposit_submission` is not modelled. It is per-chat conversation state of the transport layer; a deposit submission is the `SubmitDeposit` step.
- Command parsing is not modelled: `split`, `int()`, `float()`, usage messages, and `/addaccount`'s check and lower-casing of the type. Admin steps take parsed values.
- Storage errors, connection handling and timestamps (`created_at`, `reviewed_at`) are not modelled. `CREATE TABLE` is modelled only through its column defaults.
- Concurrency is not modelled. `credit_balance`, `purchase` and `apply_deposit_credit` read and then write on separate connections, and interleaved handlers could lose an update or sell an account twice. The model runs requests one at a time.
- Prices and amounts are `REAL` in the source. The model uses integers in the smallest unit, with no float rounding.
- `Schema.Lower` lower-cases ASCII letters only. Python's `str.lower()` also maps non-ASCII letters.
- `Stock.Below` compares strings code point by code point. That is SQLite's BINARY collation for valid UTF-8 text.
- `Ledger.MarkDepositDecision` accepts any of the four statuses. The handlers pass only `approved` or `denied`, and `Ledger.SecondDecisionRejected` assumes one of those (any status but `pending`).
- `apply_deposit_credit` returns `-1` for an already credited request. The model returns a distinct `AlreadyCredited` value, so a user id of -1 cannot be mistaken for it.
