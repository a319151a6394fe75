# Banking engine core: accounts, transactions and a double-entry ledger

This project models the core of a small Spring banking service in Dafny.
Customers hold accounts with a balance in one currency. They withdraw,
deposit and transfer money. Every movement is stored as a `Transaction` row
(PENDING, then POSTED or FAILED) and is booked in an append-only ledger of
DEBIT, CREDIT and FEE entries. A Redis-backed idempotency guard and a unique
idempotency key on the transaction table make retries safe.

The model is pure. Each table is a value:
- `accounts` is a `map` from id to account;
- `transactions` and `ledger` are sequences of rows in insertion order;
- the Redis guard is a set of keys plus a flag that says whether Redis answers;
- fresh UUIDs come from a counter `nextId`;
- the clock is a parameter `now`.

A service call is a function from a `Bank` to a `Step`: the bank after the call,
and what the call returned or which exception it threw. Java `null` is
`Option`, and `BigDecimal` amounts are exact `real`s.

The modules follow the source files:

| module | file |
|---|---|
| `Base` | shared types: `Option`, `Result`, `Check`, failures, blank strings and the currency-code check |
| `Seqs` | filter, find, count and a stable insertion sort, with their lemmas |
| `MoneyValue` | `model/Money.java` |
| `Accounts` | `model/Account.java` |
| `Cards` | `model/Card.java` |
| `Transactions` | `model/Transaction.java` |
| `LedgerEntries` | `model/LedgerEntry.java` |
| `LedgerEntryRepository` | `repository/LedgerEntryRepository.java` |
| `TransactionRepository` | `repository/TransactionRepository.java` |
| `LedgerService` | `service/LedgerService.java` |
| `Idempotency` | `service/IdempotencyService.java` |
| `AccountService` | `service/AccountService.java` |
| `AccountServiceProperties` | invariants and end-to-end properties of the three money movements |

The central results live in `AccountServiceProperties`.
- `Valid` is the invariant of the stored state:
  - every account row is valid;
  - every transaction row is valid, and ids and keys are unique;
  - every ledger row is valid and belongs to a stored account;
  - every transaction that has ledger rows passes `validateDoubleEntry`;
  - a POSTED transaction has ledger rows and a FAILED one has none, so every
    POSTED transaction passes `validateDoubleEntry`.
- `createAccount`, `withdraw`, `deposit` and `transfer` keep `Valid`, whichever
  way they end, and never change a transaction row stored before the call.
- `Reconciled` ("the books") says that each account's stored balance is its
  opening balance plus the ledger-derived balance of its rows. Every call
  keeps it.
- For each movement there are "goes through exactly when" lemmas, the exact
  balance change, the exact ledger rows written, the decline path, replay
  of a stored key, and the guard's refusal.

## Model

| member | source | states |
|---|---|---|
| MoneyValue.FromMinorUnits | src/main/java/com/example/bank/model/Money.java:24-27 | the long constructor counts cents: the amount is the count divided by 100, in the given currency |
| MoneyValue.Validate | src/main/java/com/example/bank/model/Money.java:37-47 | money passes exactly when the amount is not negative and the currency is a non-blank three-character code; each failure carries the message of the first check it breaks, in source order |
| MoneyValue.Add | src/main/java/com/example/bank/model/Money.java:52-57 | addition succeeds exactly when the currencies match, and yields the sum in that currency; otherwise IllegalArgumentException |
| MoneyValue.Subtract | src/main/java/com/example/bank/model/Money.java:62-69 | subtraction succeeds exactly when the currencies match, the minuend is at least the subtrahend and the currency is valid; a result is never negative; mismatch and negative result fail with their own messages |
| MoneyValue.IsGreaterThanOrEqual | src/main/java/com/example/bank/model/Money.java:74-79 | answers amount comparison for equal currencies and throws on a mismatch |
| MoneyValue.IsGreaterThan | src/main/java/com/example/bank/model/Money.java:84-89 | answers strict comparison for equal currencies and throws on a mismatch |
| MoneyValue.SubtractThenAdd | src/main/java/com/example/bank/model/Money.java:52-69 | adding back what was subtracted restores the original money |
| MoneyValue.GreaterOrEqualIffSubtractSucceeds | src/main/java/com/example/bank/model/Money.java:62-79 | in a valid currency, the funds comparison answers exactly whether the subtraction would succeed |
| MoneyValue.StrictVersusNonStrict | src/main/java/com/example/bank/model/Money.java:74-89 | both comparisons refuse the same operands, and strict means non-strict and not equal |
| MoneyValue.IsZeroByComparison | src/main/java/com/example/bank/model/Money.java:94-96 | `isZero` (`IsZero`) holds exactly when the amount compares neither below nor above zero of the same currency |
| MoneyValue.MinorUnitsArithmetic | src/main/java/com/example/bank/model/Money.java:24-27 | cents add like the amounts they stand for, and a cent count in a valid currency is valid exactly when it is not negative |
| Accounts.OnCreate | src/main/java/com/example/bank/model/Account.java:57-65 | persisting stamps a fresh id and both times, defaults the status to ACTIVE and keeps holder and balance |
| Accounts.OnUpdate | src/main/java/com/example/bank/model/Account.java:67-70 | an update stamps the modification time and changes no other column |
| Accounts.Validate | src/main/java/com/example/bank/model/Account.java:75-86 | an account passes exactly when it has a non-blank holder, a valid balance and a status; a passing account's balance is not negative |
| Accounts.Debit | src/main/java/com/example/bank/model/Account.java:99-104 | a non-ACTIVE account refuses the debit with IllegalStateException; a debit that succeeds was on an active account with a balance |
| Accounts.Credit | src/main/java/com/example/bank/model/Account.java:109-114 | a non-ACTIVE account refuses the credit with IllegalStateException; a credit that succeeds was on an active account with a balance |
| Accounts.InactiveAccountsRefuseMovements | src/main/java/com/example/bank/model/Account.java:99-114 | a FROZEN or CLOSED account refuses both movements |
| Accounts.ActivityGatesMovements | src/main/java/com/example/bank/model/Account.java:91-114 | `isActive` (`IsActive`) decides the status check of both movements: the inactive-account exception is thrown exactly when the account is not ACTIVE |
| Accounts.DebitOnActiveAccount | src/main/java/com/example/bank/model/Account.java:99-104 | on an active valid account a same-currency debit succeeds exactly when the amount fits the balance; the balance then drops by the amount, the account stays valid and nothing else changes |
| Accounts.CreditOnActiveAccount | src/main/java/com/example/bank/model/Account.java:109-114 | on an active valid account a same-currency credit always succeeds and raises the balance by the amount; a non-negative credit keeps the account valid; id and holder are kept |
| Accounts.PersistedDefaultsToActive | src/main/java/com/example/bank/model/Account.java:57-65 | an account saved without a status is active |
| Cards.MatchesMaskedNumber | src/main/java/com/example/bank/model/Card.java:46 | the scanning matcher accepts exactly the language of the masked-number pattern (`IsMaskedNumber`): any run of stars followed by four ASCII digits |
| Cards.Validate | src/main/java/com/example/bank/model/Card.java:39-57 | a card passes exactly when type, masked number in the pattern, account, expiry and status are all present; each failure carries the message of the first check it breaks, in source order |
| Cards.IsExpired | src/main/java/com/example/bank/model/Card.java:70-72 | a card is expired when its expiry date lies strictly before today; a missing date throws |
| Cards.IsActive | src/main/java/com/example/bank/model/Card.java:63-65 | a non-ACTIVE card is inactive without reading its date; an ACTIVE card is active exactly when it is not expired |
| Cards.ActiveImpliesNotExpired | src/main/java/com/example/bank/model/Card.java:63-72 | a card expiring today is not yet expired, and an active card is never expired |
| Cards.BlockedOrExpiredNeverActive | src/main/java/com/example/bank/model/Card.java:63-65 | BLOCKED and EXPIRED cards are inactive whatever the date |
| Cards.MaskedNumbersAreNotBlank | src/main/java/com/example/bank/model/Card.java:41-49 | a number in the masked pattern is never blank |
| Transactions.ValidateCommon | src/main/java/com/example/bank/model/Transaction.java:77-91 | the common checks pass exactly when type, a positive amount, a three-character currency, a key and a non-blank initiator are present; each failure carries the message of the first check it breaks, in source order |
| Transactions.Validate | src/main/java/com/example/bank/model/Transaction.java:76-125 | a transaction passes exactly when the common checks pass and its accounts have the shape its type demands (`ShapeOk`); a common failure is thrown first, then each per-type check throws its own message in source order |
| Transactions.OnCreate | src/main/java/com/example/bank/model/Transaction.java:64-71 | persisting stamps a fresh id and the creation time, defaults the status to PENDING and keeps the request |
| Transactions.MarkAsPosted | src/main/java/com/example/bank/model/Transaction.java:130-133 | marking sets POSTED and a completion time and changes nothing in the request |
| Transactions.MarkAsFailed | src/main/java/com/example/bank/model/Transaction.java:138-141 | marking sets FAILED and a completion time and changes nothing in the request |
| Transactions.MarkingKeepsRequest | src/main/java/com/example/bank/model/Transaction.java:130-148 | marking never changes validity and always ends the PENDING state that `isPending` (`IsPending`) tests |
| Transactions.PersistedDefaultsToPending | src/main/java/com/example/bank/model/Transaction.java:64-71 | a transaction saved without a status is pending |
| Transactions.TypeShapes | src/main/java/com/example/bank/model/Transaction.java:93-124 | per type (the rule `ShapeOk`): a withdrawal needs only a source, a deposit only a destination, a transfer both and distinct, a fee a destination |
| LedgerEntries.OnCreate | src/main/java/com/example/bank/model/LedgerEntry.java:53-59 | persisting stamps a fresh id, keeps a given timestamp or takes the current time, and keeps the references |
| LedgerEntries.Validate | src/main/java/com/example/bank/model/LedgerEntry.java:65-81 | an entry passes exactly when it has both references, a type, a non-negative amount and a three-character currency; each failure carries the message of the first check it breaks, in source order |
| LedgerEntries.ExactlyOneType | src/main/java/com/example/bank/model/LedgerEntry.java:86-102 | `isDebit`, `isCredit` and `isFee` (`IsDebit`, `IsCredit`, `IsFee`): a typed entry is exactly one of them; an untyped one is none |
| LedgerEntries.ZeroButNotNegative | src/main/java/com/example/bank/model/LedgerEntry.java:75-77 | an otherwise complete entry is valid exactly when its amount is not negative, so zero is allowed |
| LedgerEntries.OnCreatePersists | src/main/java/com/example/bank/model/LedgerEntry.java:53-59 | a validated entry, once persisted, has every NOT NULL column filled, is still valid and moves its account's balance by the same amount |
| LedgerEntryRepository.FindByTransactionId | src/main/java/com/example/bank/repository/LedgerEntryRepository.java:23 | the query returns exactly the rows of that transaction, each as many times as it is stored |
| LedgerEntryRepository.FindByAccountIdOrderByTimestampAsc | src/main/java/com/example/bank/repository/LedgerEntryRepository.java:29 | the query returns a permutation of the account's rows ordered by timestamp |
| LedgerEntryRepository.FindByAccountAndType | src/main/java/com/example/bank/repository/LedgerEntryRepository.java:40-41 | the query returns a permutation of the account's rows of that type, ordered by timestamp |
| LedgerEntryRepository.CountByTransactionId | src/main/java/com/example/bank/repository/LedgerEntryRepository.java:35 | the count is zero exactly when the transaction has no rows, and never exceeds the table |
| LedgerEntryRepository.CountIsLengthOfFind | src/main/java/com/example/bank/repository/LedgerEntryRepository.java:23-35 | the count equals the number of rows the find query returns |
| LedgerEntryRepository.IndexOfId | src/main/java/com/example/bank/model/LedgerEntry.java:30-32 | locates the first row with the primary key, or reports that none has it |
| LedgerEntryRepository.Save | src/main/java/com/example/bank/model/LedgerEntry.java:30-59 | an entry without an id is stamped and appended; an entry whose id a row has overwrites that row in place, except its non-updatable timestamp, and adds no row |
| LedgerEntryRepository.SumWhere | src/main/java/com/example/bank/repository/LedgerEntryRepository.java:46-59 | COALESCE makes a sum with no matching row zero; a sum of non-negative rows is not negative |
| LedgerEntryRepository.SumsByAccountAreTotals | src/main/java/com/example/bank/repository/LedgerEntryRepository.java:46-59 | `sumDebitsByAccount`, `sumCreditsByAccount` and `sumFeesByAccount` are each the total of the account's rows of that type; zero when the account has no rows, never negative over non-negative rows |
| LedgerEntryRepository.SumAppend | src/main/java/com/example/bank/repository/LedgerEntryRepository.java:46-59 | a new row adds its amount to exactly the sums whose condition it meets |
| LedgerEntryRepository.SumIsTotalOfFilter | src/main/java/com/example/bank/repository/LedgerEntryRepository.java:46-59 | the summing pass equals the total of the filtered rows |
| LedgerEntryRepository.SumsPartitionAccount | src/main/java/com/example/bank/repository/LedgerEntryRepository.java:46-59 | for typed rows, debit, credit and fee sums together are the total of the account's rows |
| TransactionRepository.FindById | src/main/java/com/example/bank/repository/TransactionRepository.java:18 | finds a row with that id, or reports that none has it |
| TransactionRepository.FindByIdempotencyKey | src/main/java/com/example/bank/repository/TransactionRepository.java:25 | finds a row carrying that key, or reports that none carries it |
| TransactionRepository.KeyLookupIsExact | src/main/java/com/example/bank/model/Transaction.java:18 | under the unique key index the key lookup returns exactly the row that carries the key |
| TransactionRepository.IndexOfId | src/main/java/com/example/bank/repository/TransactionRepository.java:18 | locates the first row with the id, or reports that none has it |
| TransactionRepository.Save | src/main/java/com/example/bank/model/Transaction.java:58-71 | a transaction without an id, or with an id no row has, is stamped by `@PrePersist` (fresh id, creation time) and appended; one whose id a row has overwrites that row in place, keeping the non-updatable `createdAt`, and is returned as given |
| TransactionRepository.SaveOverStored | src/main/java/com/example/bank/model/Transaction.java:58-59 | over unique ids, saving a stored id keeps the table's length, the ids unique and every other row, and finding that id then gives the saved version with the old `createdAt` |
| TransactionRepository.SaveThenUpdate | src/main/java/com/example/bank/repository/TransactionRepository.java:18 | saving a row's next version (same `createdAt`) right after appending it leaves only that version appended, with ids still unique and findable |
| TransactionRepository.FindBySourceAccountId | src/main/java/com/example/bank/repository/TransactionRepository.java:30 | returns exactly the rows whose source is the account, with their multiplicities |
| TransactionRepository.FindByDestinationAccountId | src/main/java/com/example/bank/repository/TransactionRepository.java:35 | returns exactly the rows whose destination is the account, with their multiplicities |
| TransactionRepository.FindAllByAccountId | src/main/java/com/example/bank/repository/TransactionRepository.java:40-41 | returns a permutation of the rows involving the account, newest first |
| TransactionRepository.HistoryIsSourceOrDestination | src/main/java/com/example/bank/repository/TransactionRepository.java:30-41 | a row is in the history exactly when it is in the source list or the destination list |
| TransactionRepository.CountPendingByAccountId | src/main/java/com/example/bank/repository/TransactionRepository.java:46-47 | the count is zero exactly when no PENDING row involves the account |
| TransactionRepository.PendingCountMatchesHistory | src/main/java/com/example/bank/repository/TransactionRepository.java:40-47 | the pending count is the number of PENDING rows in the account's history |
| LedgerService.RecordEntry | src/main/java/com/example/bank/service/LedgerService.java:47-61 | an entry is recorded exactly when it validates, otherwise the validation failure is thrown; without an id (or with an id no row has) it is appended as `AppendEntry` does; with a stored row's id the matching row becomes the entry with its stored timestamp kept, every other row is unchanged, the entry itself is returned, and the ledger does not grow |
| LedgerService.AppendEntry | src/main/java/com/example/bank/service/LedgerService.java:54-55 | the append-only recording the comment describes: a valid entry is appended under a fresh id with every earlier row kept |
| LedgerService.RecordEntryCanOverwrite | src/main/java/com/example/bank/service/LedgerService.java:54-55 | an entry reusing the id of the one stored row replaces that row and the ledger keeps one row, where appending keeps the stored row |
| LedgerService.RecordMovement | src/main/java/com/example/bank/service/LedgerService.java:73-127 | recordDebit, recordCredit and recordFee append one row of their type exactly when every argument is present, the amount is not negative and the currency is valid; their entries carry no id, so recording them never overwrites |
| LedgerService.ValidateDoubleEntry | src/main/java/com/example/bank/service/LedgerService.java:136-197 | false without rows or without the transaction; true only when the rows balance the amount by the rule of the transaction's type; it throws only on a null amount or type |
| LedgerService.DoubleEntryOnStoredRows | src/main/java/com/example/bank/service/LedgerService.java:136-197 | over stored rows the check never throws and accepts exactly the balanced transactions that have rows |
| LedgerService.VerdictOfFoundRows | src/main/java/com/example/bank/service/LedgerService.java:153-191 | once rows and transaction are found and nothing is null, the verdict is the per-type rule |
| LedgerService.WithdrawalRowBalances | src/main/java/com/example/bank/service/LedgerService.java:174-177 | one DEBIT of the amount balances a withdrawal |
| LedgerService.DepositRowBalances | src/main/java/com/example/bank/service/LedgerService.java:178-181 | one CREDIT of the amount balances a deposit |
| LedgerService.TransferRowsBalance | src/main/java/com/example/bank/service/LedgerService.java:182-186 | a DEBIT and a CREDIT of the amount balance a transfer |
| LedgerService.TransferRuleIgnoresDirection | src/main/java/com/example/bank/service/LedgerService.java:182-186 | the transfer rule adds debits and credits, so two debits of the amount and no credit also pass |
| LedgerService.CalculateBalance | src/main/java/com/example/bank/service/LedgerService.java:230-242 | an account without rows has balance zero |
| LedgerService.BalanceAfterAppend | src/main/java/com/example/bank/service/LedgerService.java:230-242 | a new row moves its own account's balance by its signed amount and no other account's |
| LedgerService.BalanceIsSignedTotal | src/main/java/com/example/bank/service/LedgerService.java:230-242 | the balance is the sum of the signed amounts of the account's rows: credits add, debits and fees subtract |
| LedgerService.BalanceCanBeNegative | src/main/java/com/example/bank/service/LedgerService.java:230-242 | nothing floors the ledger balance: one debit of 1 gives -1 |
| LedgerService.ValidateAccountLedger | src/main/java/com/example/bank/service/LedgerService.java:251-272 | over stored rows, true exactly when every transaction among the account's rows passes the double-entry check |
| LedgerService.TransactionIds | src/main/java/com/example/bank/service/LedgerService.java:260-262 | every collected id is the transaction id of some row |
| LedgerService.VerifyEntryImmutability | src/main/java/com/example/bank/service/LedgerService.java:305-307 | a null id is refused with IllegalArgument, as `findById(null)` is; otherwise true exactly when a row has that id |
| LedgerService.RecordingKeepsEntries | src/main/java/com/example/bank/service/LedgerService.java:47-61 | recording, merge or not, keeps every stored id findable and makes the returned entry findable by its id |
| Idempotency.TryRegister | src/main/java/com/example/bank/service/IdempotencyService.java:37-57 | registration succeeds exactly when the key is new or Redis is down; a success while Redis answers adds the key and a refusal changes nothing |
| Idempotency.Exists | src/main/java/com/example/bank/service/IdempotencyService.java:66-76 | an existing key is stored, and with Redis down no key exists |
| Idempotency.Remove | src/main/java/com/example/bank/service/IdempotencyService.java:84-93 | removal deletes the key while Redis answers and changes nothing when it does not |
| Idempotency.SecondRegistrationRefused | src/main/java/com/example/bank/service/IdempotencyService.java:37-57 | a registered key exists, and registering it again is refused and changes nothing |
| Idempotency.ExistsIsMembership | src/main/java/com/example/bank/service/IdempotencyService.java:66-76 | while Redis answers, existence is membership |
| Idempotency.RemoveThenRegister | src/main/java/com/example/bank/service/IdempotencyService.java:84-93 | a removed key can be registered again, and other keys are unaffected |
| Idempotency.FailOpen | src/main/java/com/example/bank/service/IdempotencyService.java:51-56 | with Redis down every registration succeeds and nothing is stored, so one key passes any number of times |
| AccountService.SaveAccount | src/main/java/com/example/bank/model/Account.java:67-70 | saving a loaded account stamps its modification time and leaves every other account alone |
| AccountService.CreateAccount | src/main/java/com/example/bank/service/AccountService.java:55-66 | creation succeeds exactly when the holder is non-blank and the balance is valid; it stores an ACTIVE account under a fresh id and writes no transaction or ledger row; a failure writes nothing |
| AccountService.GetAccount | src/main/java/com/example/bank/service/AccountService.java:74-77 | a null id is refused by `findById`; otherwise it returns the stored account, or AccountNotFoundException exactly when there is none |
| AccountService.GetTransactionHistory | src/main/java/com/example/bank/service/AccountService.java:333-337 | a null id is refused and an unknown account throws; a known one gets a permutation of the rows involving it, newest first |
| AccountService.LockOrder | src/main/java/com/example/bank/service/AccountService.java:212-213 | the smaller id is locked first, and the pair is the source and destination in some order |
| AccountService.Admit | src/main/java/com/example/bank/service/AccountService.java:98-122 | a stored key replays its row; a refused registration throws; an invalid request throws after registering; otherwise the PENDING row is appended under the next id |
| AccountService.Post | src/main/java/com/example/bank/service/AccountService.java:149-150 | the returned transaction is POSTED, completed now and the same request; only the transactions table changes; the stored row with its id is replaced by that version with its `createdAt` kept, so finding the id gives it |
| AccountService.Decline | src/main/java/com/example/bank/service/AccountService.java:131-138 | InsufficientFundsException carries the required and available amounts; only the transactions table changes; the stored row with the transaction's id becomes FAILED, completed now, the same request with its `createdAt` kept, and every other row stays |
| AccountService.CompleteWithdrawal | src/main/java/com/example/bank/service/AccountService.java:125-150 | the guard is untouched, at most one ledger row is appended, the transactions table is left alone or gets the POSTED or the FAILED version saved, and a success returns the POSTED transaction |
| AccountService.Withdraw | src/main/java/com/example/bank/service/AccountService.java:92-159 | a stored key replays without writing; otherwise at most one ledger row is appended, and a success returns a POSTED withdrawal of the request |
| AccountService.CompleteDeposit | src/main/java/com/example/bank/service/AccountService.java:305-317 | the guard is untouched, at most one ledger row is appended, the transactions table is left alone or gets the POSTED or the FAILED version saved, and a success returns the POSTED transaction |
| AccountService.Deposit | src/main/java/com/example/bank/service/AccountService.java:273-326 | a stored key replays without writing; otherwise at most one ledger row is appended, and a success returns a POSTED deposit of the request |
| AccountService.CompleteTransfer | src/main/java/com/example/bank/service/AccountService.java:212-250 | the guard is untouched, at most two ledger rows are appended, the transactions table is left alone or gets the POSTED or the FAILED version saved, and a success returns the POSTED transaction |
| AccountService.Transfer | src/main/java/com/example/bank/service/AccountService.java:175-260 | a null source throws; the same account on both sides is refused before anything is read; a stored key replays; otherwise at most two rows are appended |
| AccountServiceProperties.EmptyIsValid | src/main/java/com/example/bank/model/Transaction.java:18 | the untouched state satisfies the invariant |
| AccountServiceProperties.LedgerAlwaysBalances | src/main/java/com/example/bank/service/LedgerService.java:251-272 | in every valid state the ledger validation accepts every account |
| AccountServiceProperties.PostedTransactionsBalance | src/main/java/com/example/bank/service/AccountService.java:131-150 | in every valid state a POSTED transaction passes the double-entry check and a FAILED one has no ledger row |
| AccountServiceProperties.ExtensionKeepsBooks | src/main/java/com/example/bank/service/AccountService.java:131-150 | rows booked for a new transaction leave every earlier transaction's rows as they were, so POSTED still has rows and FAILED still has none |
| AccountServiceProperties.AdmittedHistory | src/main/java/com/example/bank/model/Transaction.java:130-141 | whatever the rest of a movement saves over its PENDING row, the rows stored before the call are untouched and exactly one row was added |
| AccountServiceProperties.AdmitKeepsValid | src/main/java/com/example/bank/service/AccountService.java:98-122 | the prologue keeps the invariant, and an admitted request appends its PENDING row under the next id with a key no other row carries |
| AccountServiceProperties.CreateAccountPreservesValid | src/main/java/com/example/bank/service/AccountService.java:55-66 | account creation keeps the invariant and stores the new account under the next id |
| AccountServiceProperties.WithdrawPreservesValid | src/main/java/com/example/bank/service/AccountService.java:92-159 | a withdrawal keeps the invariant, whichever way it ends; the transactions stored before it are untouched and at most one row is added, so a POSTED or FAILED row never changes status again |
| AccountServiceProperties.DepositPreservesValid | src/main/java/com/example/bank/service/AccountService.java:273-326 | a deposit keeps the invariant, whichever way it ends; the transactions stored before it are untouched and at most one row is added, so a POSTED or FAILED row never changes status again |
| AccountServiceProperties.TransferPreservesValid | src/main/java/com/example/bank/service/AccountService.java:175-260 | a transfer keeps the invariant, whichever way it ends; the transactions stored before it are untouched and at most one row is added, so a POSTED or FAILED row never changes status again |
| AccountServiceProperties.CompleteWithdrawalKeepsValid | src/main/java/com/example/bank/service/AccountService.java:125-150 | the body of a withdrawal after its prologue keeps the invariant |
| AccountServiceProperties.CompleteDepositKeepsValid | src/main/java/com/example/bank/service/AccountService.java:305-317 | the body of a deposit after its prologue keeps the invariant |
| AccountServiceProperties.CompleteTransferKeepsValid | src/main/java/com/example/bank/service/AccountService.java:212-250 | the body of a transfer after its prologue keeps the invariant |
| AccountServiceProperties.WithdrawalOutcomes | src/main/java/com/example/bank/service/AccountService.java:125-150 | a withdrawal on a valid account either declines when short, or posts with one DEBIT row and the lowered balance, or throws without a further write |
| AccountServiceProperties.DepositOutcomes | src/main/java/com/example/bank/service/AccountService.java:305-317 | a deposit on a stored account either posts with one CREDIT row and the raised balance, or throws without a further write |
| AccountServiceProperties.TransferOutcomes | src/main/java/com/example/bank/service/AccountService.java:215-250 | a transfer between stored accounts either declines when the source is short, or posts with a DEBIT on the source and a CREDIT on the destination, or throws without a further write |
| AccountServiceProperties.MovementRow | src/main/java/com/example/bank/service/LedgerService.java:73-105 | for an admitted transaction the ledger accepts and appends its row, which is a valid row on a stored account |
| AccountServiceProperties.CreateAccountKeepsBooks | src/main/java/com/example/bank/service/AccountService.java:55-66 | the new account starts with no ledger rows, so its opening balance is reconciled, and every other account stays reconciled |
| AccountServiceProperties.WithdrawKeepsBooks | src/main/java/com/example/bank/service/AccountService.java:141-146 | after a withdrawal every stored balance is still its opening balance plus what the ledger says |
| AccountServiceProperties.DepositKeepsBooks | src/main/java/com/example/bank/service/AccountService.java:308-313 | after a deposit every stored balance is still its opening balance plus what the ledger says |
| AccountServiceProperties.TransferKeepsBooks | src/main/java/com/example/bank/service/AccountService.java:236-246 | after a transfer every stored balance is still its opening balance plus what the ledger says |
| AccountServiceProperties.CompleteWithdrawalReconciles | src/main/java/com/example/bank/service/AccountService.java:141-146 | the stored balance moves by exactly the signed amount of the DEBIT row |
| AccountServiceProperties.CompleteDepositReconciles | src/main/java/com/example/bank/service/AccountService.java:308-313 | the stored balance moves by exactly the signed amount of the CREDIT row |
| AccountServiceProperties.CompleteTransferReconciles | src/main/java/com/example/bank/service/AccountService.java:236-246 | both stored balances move by exactly the signed amounts of their two rows |
| AccountServiceProperties.EmptyIsReconciled | src/main/java/com/example/bank/service/LedgerService.java:230-242 | with no accounts and no rows the books are reconciled |
| AccountServiceProperties.AdmitsExactly | src/main/java/com/example/bank/service/AccountService.java:98-122 | the prologue admits exactly the requests whose key is stored nowhere, is registered by the guard, and that validate |
| AccountServiceProperties.AdmittedRequest | src/main/java/com/example/bank/service/AccountService.java:120-122 | an admitted request continues from the old state with only its PENDING row added under the next id |
| AccountServiceProperties.WithdrawalGoesThrough | src/main/java/com/example/bank/service/AccountService.java:125-150 | the rest of a withdrawal succeeds exactly when the account is ACTIVE in the request's currency and holds at least the amount |
| AccountServiceProperties.WithdrawalMovesAmount | src/main/java/com/example/bank/service/AccountService.java:141-150 | a successful withdrawal lowers that one balance by the amount, appends one DEBIT row and saves the POSTED transaction |
| AccountServiceProperties.CompleteWithdrawalPosts | src/main/java/com/example/bank/service/AccountService.java:125-150 | after an admission, the withdrawal posts exactly when it can go through, and then only the POSTED row, the DEBIT row and the lowered balance are added |
| AccountServiceProperties.CompleteWithdrawalDeclines | src/main/java/com/example/bank/service/AccountService.java:131-138 | InsufficientFundsException is thrown exactly when the balance in the currency is below the amount, whatever the status; the FAILED row replaces the PENDING one and no money moves |
| AccountServiceProperties.CompleteWithdrawalRecords | src/main/java/com/example/bank/service/AccountService.java:146-150 | a posted withdrawal has exactly one ledger row, its DEBIT, and passes the double-entry check |
| AccountServiceProperties.WithdrawPosts | src/main/java/com/example/bank/service/AccountService.java:92-159 | a fresh withdrawal succeeds exactly when the prologue admits it and the account is ACTIVE in the currency with enough funds; then only that balance drops, by the amount |
| AccountServiceProperties.WithdrawRecordsOneDebit | src/main/java/com/example/bank/service/AccountService.java:146 | a successful fresh withdrawal writes exactly one DEBIT row, under the id after the transaction's, and the transaction passes the double-entry check |
| AccountServiceProperties.WithdrawDeclines | src/main/java/com/example/bank/service/AccountService.java:131-138 | an admitted fresh withdrawal throws InsufficientFundsException exactly when the account is short; no balance or ledger row changes |
| AccountServiceProperties.DepositGoesThrough | src/main/java/com/example/bank/service/AccountService.java:305-317 | the rest of a deposit succeeds exactly when the account is ACTIVE in the request's currency; there is no funds check |
| AccountServiceProperties.DepositMovesAmount | src/main/java/com/example/bank/service/AccountService.java:308-317 | a successful deposit raises that one balance by the amount, appends one CREDIT row and saves the POSTED transaction |
| AccountServiceProperties.CompleteDepositPosts | src/main/java/com/example/bank/service/AccountService.java:305-317 | after an admission, the deposit posts exactly when it can go through, and then only the POSTED row, the CREDIT row and the raised balance are added |
| AccountServiceProperties.CompleteDepositRecords | src/main/java/com/example/bank/service/AccountService.java:313-317 | a posted deposit has exactly one ledger row, its CREDIT, and passes the double-entry check |
| AccountServiceProperties.DepositPosts | src/main/java/com/example/bank/service/AccountService.java:273-326 | a fresh deposit succeeds exactly when the prologue admits it and the account is ACTIVE in the currency; then only that balance rises, by the amount |
| AccountServiceProperties.DepositRecordsOneCredit | src/main/java/com/example/bank/service/AccountService.java:313 | a successful fresh deposit writes exactly one CREDIT row, under the id after the transaction's, and the transaction passes the double-entry check |
| AccountServiceProperties.TransferGoesThrough | src/main/java/com/example/bank/service/AccountService.java:215-250 | the rest of a transfer succeeds exactly when the source is ACTIVE in the currency with enough funds and the destination is ACTIVE in the same currency |
| AccountServiceProperties.TransferMovesAmount | src/main/java/com/example/bank/service/AccountService.java:236-250 | a successful transfer moves the amount from source to destination, touches no other balance, and appends a DEBIT on the source and a CREDIT on the destination |
| AccountServiceProperties.TransferredBalances | src/main/java/com/example/bank/service/AccountService.java:236-239 | the saved accounts hold the source lowered and the destination raised by the amount, and no other balance moves |
| AccountServiceProperties.CompleteTransferPosts | src/main/java/com/example/bank/service/AccountService.java:212-250 | after an admission, the transfer posts exactly when it can go through, and then only the POSTED row, the two rows and the two moved balances are added |
| AccountServiceProperties.CompleteTransferRecords | src/main/java/com/example/bank/service/AccountService.java:243-250 | a posted transfer has exactly two ledger rows, a DEBIT and a CREDIT, and passes the double-entry check |
| AccountServiceProperties.TransferShort | src/main/java/com/example/bank/service/AccountService.java:226-233 | InsufficientFundsException is thrown exactly when both accounts exist and the source is short in the currency, whatever either status |
| AccountServiceProperties.CompleteTransferDeclines | src/main/java/com/example/bank/service/AccountService.java:226-233 | a short transfer replaces its PENDING row with the FAILED one and changes no account or ledger row |
| AccountServiceProperties.TransferPosts | src/main/java/com/example/bank/service/AccountService.java:175-260 | a fresh transfer succeeds exactly when the accounts differ, the prologue admits it, the source is ACTIVE with enough funds and the destination is ACTIVE in the same currency; then exactly the amount moves between them |
| AccountServiceProperties.TransferRecordsDebitAndCredit | src/main/java/com/example/bank/service/AccountService.java:243-246 | a successful fresh transfer writes one DEBIT on the source and then one CREDIT on the destination, under the two ids after the transaction's, and passes the double-entry check |
| AccountServiceProperties.TransferDeclines | src/main/java/com/example/bank/service/AccountService.java:226-233 | an admitted fresh transfer throws InsufficientFundsException exactly when the source is short; no balance or ledger row changes |
| AccountServiceProperties.ReplayReturnsStoredRow | src/main/java/com/example/bank/service/AccountService.java:98-102 | any movement carrying a stored key returns the stored transaction and writes nothing, whatever its other arguments |
| AccountServiceProperties.WithdrawRetryReplays | src/main/java/com/example/bank/service/AccountService.java:98-102 | once a withdrawal succeeded, a retry with its key returns the same transaction and changes nothing |
| AccountServiceProperties.GuardRefusalWritesNothing | src/main/java/com/example/bank/service/AccountService.java:105-107 | while the guard already holds an unstored key, every movement with it throws IllegalStateException and writes nothing |
| AccountServiceProperties.RejectedRequestConsumesKey | src/main/java/com/example/bank/service/AccountService.java:105-120 | a withdrawal refused by validation has registered its key, so a corrected retry under it is refused by the guard |
| AccountServiceProperties.LockOrderSymmetric | src/main/java/com/example/bank/service/AccountService.java:212-213 | A to B and B to A lock the same account first |
| AccountServiceProperties.LockedRolesResolve | src/main/java/com/example/bank/service/AccountService.java:220-221 | whichever account was locked first, resolving by id (`Resolve`) hands back the source and the destination |

## Left out

- Spring transactions and rollback are not modelled. The state after an exception keeps the repository saves the method made before it threw. Changes to a loaded entity that were never saved leave no trace: in a transfer to a FROZEN account, the source was already debited in memory when `credit` throws, and the model keeps only the saved rows. In particular, the FAILED row that a declined movement saves is kept, although a rollback in a real deployment would undo it together with the PENDING row.
- Pessimistic locks (`findByIdWithWriteLock`, `findByIdWithReadLock`) and concurrency are not modelled: every call runs alone on the state. Only the lock order is modelled (`LockOrder`).
- Redis is a set of keys plus an availability flag. Key expiry (TTL) and `getIdempotencyKeyTTL` are not modelled, because they depend on the clock of the Redis server.
- Money is never null in the model: a `Money` with a null amount or a null currency is left out.
- `new Money(String, String)` is left out; `BigDecimal` parsing is a foreign call.
- The scale of `BigDecimal` is not modelled: amounts are exact reals, so `equals` and `compareTo` agree. The columns are declared with `precision = 19, scale = 2`, so a stored amount is rounded to cents; the model keeps the exact value.
- String length is the number of `char`s, with no Unicode normalisation.
- UUIDs are integers. Only their total order matters (the lock order). The `compareTo` of `java.util.UUID`, which compares signed 64-bit halves, is abstracted to integer order.
- Fresh UUIDs come from a counter instead of a random generator, and times are the parameter `now`.
- The SQL order among rows with equal timestamps is unspecified. The model sorts stably, keeping insertion order.
- `findById` for accounts is a map lookup; the `AccountRepository` interface is not part of this model beyond that. Spring Data refuses a null id with `IllegalArgumentException`, which its repository proxy may wrap in `InvalidDataAccessApiUsageException`; the model reports it as `IllegalArgument(IdRequired)`, for accounts (`GetAccount`, `GetTransactionHistory`) and ledger entries (`VerifyEntryImmutability`) alike.
- Controllers, security, observability, exception handlers and configuration are not modelled.
- The LedgerService wrappers `getAccountLedger`, `getTransactionEntries`, `getEntriesByType` and `countTransactionEntries` only delegate. They are modelled by the repository functions they call.
- Logging is left out.
- `createAccount` books the opening balance outside the ledger, as the source does. So the ledger balance from `calculateBalance` differs from the stored balance by that opening amount; `Reconciled` states this relation.
- Validation of a movement runs after the idempotency key is registered, as the source does (`RejectedRequestConsumesKey`).
- The end-to-end lemmas (`WithdrawPosts`, `TransferPosts` and the others) take present (non-null) arguments. The null paths are stated by the contracts of `Withdraw`, `Deposit` and `Transfer`.
- LedgerService.CalculateBalance: its own contract only pins the account without rows. The exact value is stated by `BalanceIsSignedTotal` and `BalanceAfterAppend`.
- LedgerService.TransactionIds: its contract states one direction only (every id comes from a row). The other direction is used only inside `ValidateAccountLedger`, whose contract states the full equivalence.
- AccountService.CompleteWithdrawal: its own contract only bounds what it writes. When it posts or declines, and exactly what it writes, is stated by `CompleteWithdrawalPosts`, `CompleteWithdrawalDeclines` and `CompleteWithdrawalRecords`.
- AccountService.CompleteDeposit: its own contract only bounds what it writes. When it posts, and exactly what it writes, is stated by `CompleteDepositPosts` and `CompleteDepositRecords`.
- AccountService.CompleteTransfer: its own contract only bounds what it writes. When it posts or declines, and exactly what it writes, is stated by `CompleteTransferPosts`, `TransferShort` and `CompleteTransferRecords`.
- AccountService.Withdraw: its own contract only bounds what it writes. When it posts or declines, and exactly what it writes, is stated by `WithdrawPosts`, `WithdrawDeclines` and `WithdrawRecordsOneDebit`.
- AccountService.Deposit: its own contract only bounds what it writes. When it posts, and exactly what it writes, is stated by `DepositPosts` and `DepositRecordsOneCredit`.
- AccountService.Transfer: its own contract only bounds what it writes. When it posts or declines, and exactly what it writes, is stated by `TransferPosts`, `TransferDeclines` and `TransferRecordsDebitAndCredit`.

## Findings

| source | as written | input that shows it | evidently intended | confidence | as-written member | corrected member |
|---|---|---|---|---|---|---|
| src/main/java/com/example/bank/service/LedgerService.java:54-55 | `recordEntry` hands the entry to `save`, which merges an entry that carries an id: a stored row with that id is overwritten (all columns but the timestamp) and no row is added | a ledger holding one DEBIT row with id 1 and amount 5, and an entry with id 1 and amount 7: afterwards the ledger holds one row, with amount 7 | the comment says the ledger is append-only and never updated: a recorded entry is always a new row and earlier rows never change | medium, not executed; the three callers in the source pass entries without an id, so only a direct caller of `recordEntry` reaches it | LedgerService.RecordEntry, LedgerService.RecordEntryCanOverwrite | LedgerService.AppendEntry |
