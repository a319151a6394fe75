/** The orchestrator (service/AccountService.java). The whole persistent state
    is one `Bank` value: the accounts table (keyed by id), the transactions
    and ledger_entries tables (rows in insertion order), the idempotency
    guard, and the counter that supplies the fresh ids `@PrePersist` draws.
    Each public method is one state transition `Bank -> Step`. When a method
    throws, the returned bank holds the writes made before the throw (the
    PENDING or FAILED transaction row, a consumed idempotency key); whether
    the surrounding database transaction keeps them is left to the framework. */
module AccountService {
  import opened Base
  import opened MoneyValue
  import A = Accounts
  import T = Transactions
  import L = LedgerEntries
  import TR = TransactionRepository
  import LS = LedgerService
  import I = Idempotency

  datatype Bank = Bank(
    accounts: map<Uuid, A.Account>,
    transactions: seq<T.Transaction>,
    ledger: seq<L.LedgerEntry>,
    guard: I.Guard,
    nextId: Uuid)

  /** The state after a call, and what the call returned or threw. */
  datatype Step<+X> = Step(bank: Bank, result: Result<X>)

  /** `accountRepository.save` of a loaded account: `@PreUpdate` stamps the
      modification time and the row under its id is replaced. */
  function SaveAccount(accounts: map<Uuid, A.Account>, id: Uuid, a: A.Account, now: Time): (r: map<Uuid, A.Account>)
    ensures r.Keys == accounts.Keys + {id}
    ensures r[id] == a.(updatedAt := Some(now))
    ensures forall k | k in accounts && k != id :: r[k] == accounts[k]
  {
    accounts[id := A.OnUpdate(a, now)]
  }

  /** `createAccount`: an ACTIVE account with the given holder and opening
      balance, validated, then saved under a fresh id. No transaction and no
      ledger entry is written. */
  function CreateAccount(b: Bank, holderName: Option<string>, initialBalance: real, currency: string, now: Time): (s: Step<A.Account>)
    ensures s.result.Ok? <==> holderName.Some? && !IsBlank(holderName.value)
                              && initialBalance >= 0.0 && IsIsoCurrency(Some(currency))
    ensures s.result.Err? ==> s.bank == b
    ensures s.result.Ok? ==>
              && s.result.value.id == Some(b.nextId)
              && s.result.value.holderName == holderName
              && s.result.value.balance == Some(Money(initialBalance, currency))
              && A.IsActive(s.result.value)
              && s.bank == b.(accounts := b.accounts[b.nextId := s.result.value], nextId := b.nextId + 1)
  {
    var account := A.Account(None, holderName, Some(Money(initialBalance, currency)), Some(A.Active), None, None);
    match A.Validate(account)
    case Fail(f) => Step(b, Err(f))
    case Pass =>
      var saved := A.OnCreate(account, b.nextId, now);
      Step(b.(accounts := b.accounts[b.nextId := saved], nextId := b.nextId + 1), Ok(saved))
  }

  /** `getAccount`: the stored account; AccountNotFoundException when there
      is none; a null id is refused by `findById` itself. */
  function GetAccount(b: Bank, accountId: Option<Uuid>): (r: Result<A.Account>)
    ensures accountId.None? ==> r == Err(IllegalArgument(IdRequired))
    ensures r.Ok? <==> accountId.Some? && accountId.value in b.accounts
    ensures r.Ok? ==> r.value == b.accounts[accountId.value]
    ensures accountId.Some? && r.Err? ==> r.failure == AccountNotFound(accountId.value)
  {
    match accountId
    case None => Err(IllegalArgument(IdRequired))
    case Some(id) => if id in b.accounts then Ok(b.accounts[id]) else Err(AccountNotFound(id))
  }

  /** `getTransactionHistory`: the lookup of `getAccount` (a null id is
      refused, an unknown account throws), then `findAllByAccountId`. */
  function GetTransactionHistory(b: Bank, accountId: Option<Uuid>): (r: Result<seq<T.Transaction>>)
    requires forall t | t in b.transactions :: t.createdAt.Some?
    ensures accountId.None? ==> r == Err(IllegalArgument(IdRequired))
    ensures accountId.Some? && accountId.value !in b.accounts ==> r == Err(AccountNotFound(accountId.value))
    ensures accountId.Some? && accountId.value in b.accounts ==> r.Ok?
    ensures r.Ok? ==> forall t :: t in r.value <==> (t in b.transactions
                        && (t.sourceAccountId == accountId || t.destinationAccountId == accountId))
    ensures r.Ok? ==> forall i, j | 0 <= i < j < |r.value| :: r.value[i].createdAt.value >= r.value[j].createdAt.value
  {
    match GetAccount(b, accountId)
    case Err(f) => Err(f)
    case Ok(_) => Ok(TR.FindAllByAccountId(b.transactions, accountId.value))
  }

  /** The deadlock-avoidance rule: lock the smaller id first. */
  function LockOrder(source: Uuid, destination: Uuid): (r: (Uuid, Uuid))
    ensures r.0 <= r.1
    ensures (r.0 == source && r.1 == destination) || (r.0 == destination && r.1 == source)
  {
    var first := if source < destination then source else destination;
    var second := if first == source then destination else source;
    (first, second)
  }

  /** Which of the two locked accounts plays a role: the first one when its
      id is the role's id, the second one otherwise. */
  function Resolve(roleId: Uuid, account1: A.Account, account2: A.Account): A.Account {
    if account1.id == Some(roleId) then account1 else account2
  }

  /** How a request got past (or did not get past) the common prologue of
      the three money movements. */
  datatype Admission =
    | Replayed(tx: T.Transaction)
    | Refused(bank: Bank, failure: Failure)
    | Admitted(bank: Bank, tx: T.Transaction)

  /** The prologue: the replay lookup on the key alone, the guard registration,
      validation, and the save of the PENDING row under a fresh id. A request
      refused by validation has already registered its key. */
  function Admit(b: Bank, draft: T.Transaction, now: Time): (r: Admission)
    ensures r.Replayed? <==> TR.FindByIdempotencyKey(b.transactions, draft.idempotencyKey).Some?
    ensures r.Replayed? ==> r.tx == TR.FindByIdempotencyKey(b.transactions, draft.idempotencyKey).value
    ensures r.Refused? ==> r.bank == b.(guard := I.TryRegister(b.guard, draft.idempotencyKey).guard)
    ensures r.Refused? && !I.TryRegister(b.guard, draft.idempotencyKey).registered
            ==> r.failure == IllegalState(IdempotencyKeyInUse)
    ensures r.Refused? && I.TryRegister(b.guard, draft.idempotencyKey).registered
            ==> T.Validate(draft).Fail? && r.failure == T.Validate(draft).failure
    ensures r.Admitted? ==>
              && I.TryRegister(b.guard, draft.idempotencyKey).registered
              && T.Validate(draft).Pass?
              && r.bank == b.(guard := I.TryRegister(b.guard, draft.idempotencyKey).guard,
                              transactions := TR.Save(b.transactions, draft, b.nextId, now).0,
                              nextId := b.nextId + 1)
              && r.tx == TR.Save(b.transactions, draft, b.nextId, now).1
    ensures r.Admitted? && draft.id.None? ==>
              && r.tx == T.OnCreate(draft, b.nextId, now)
              && r.bank.transactions == b.transactions + [r.tx]
  {
    match TR.FindByIdempotencyKey(b.transactions, draft.idempotencyKey)
    case Some(existing) => Replayed(existing)
    case None =>
      var reg := I.TryRegister(b.guard, draft.idempotencyKey);
      var b1 := b.(guard := reg.guard);
      if !reg.registered then Refused(b1, IllegalState(IdempotencyKeyInUse))
      else match T.Validate(draft)
        case Fail(f) => Refused(b1, f)
        case Pass =>
          var (rows, saved) := TR.Save(b1.transactions, draft, b.nextId, now);
          Admitted(b1.(transactions := rows, nextId := b.nextId + 1), saved)
  }

  /** The epilogue: mark the transaction POSTED and save it. Under unique
      ids the save merges the new version over the stored row, keeping its
      `createdAt`. (For an id no row has, the save would persist a copy under
      the next id; no admitted transaction gets there.) */
  function Post(b: Bank, tx: T.Transaction, now: Time): (s: Step<T.Transaction>)
    ensures s.result.Ok? && s.result.value.status == Some(T.Posted) && s.result.value.completedAt == Some(now)
    ensures T.SameRequest(tx, s.result.value)
    ensures s.bank.(transactions := b.transactions) == b
    ensures tx.id.Some? && TR.IndexOfId(b.transactions, tx.id.value).Some? ==>
              var i := TR.IndexOfId(b.transactions, tx.id.value).value;
              s.bank.transactions == b.transactions[i := s.result.value.(createdAt := b.transactions[i].createdAt)]
    ensures tx.id.Some? && TR.UniqueIds(b.transactions) && TR.FindById(b.transactions, tx.id.value).Some? ==>
              TR.FindById(s.bank.transactions, tx.id.value)
              == Some(s.result.value.(createdAt := TR.FindById(b.transactions, tx.id.value).value.createdAt))
  {
    var posted := T.MarkAsPosted(tx, now);
    TR.SaveOverStored(b.transactions, posted, b.nextId, now);
    Step(b.(transactions := TR.Save(b.transactions, posted, b.nextId, now).0), Ok(posted))
  }

  /** The funds check failed: mark the transaction FAILED, save it as `Post`
      does, and throw InsufficientFundsException with the required and
      available amounts. */
  function Decline(b: Bank, tx: T.Transaction, required: real, available: real, now: Time): (s: Step<T.Transaction>)
    ensures s.result == Err(InsufficientFunds(required, available))
    ensures s.bank.(transactions := b.transactions) == b
    ensures tx.id.Some? && TR.IndexOfId(b.transactions, tx.id.value).Some? ==>
              var i := TR.IndexOfId(b.transactions, tx.id.value).value;
              && |s.bank.transactions| == |b.transactions|
              && s.bank.transactions[i].status == Some(T.Failed) && s.bank.transactions[i].completedAt == Some(now)
              && T.SameRequest(tx.(createdAt := b.transactions[i].createdAt), s.bank.transactions[i])
              && s.bank.transactions == b.transactions[i := s.bank.transactions[i]]
    ensures tx.id.Some? && TR.UniqueIds(b.transactions) && TR.FindById(b.transactions, tx.id.value).Some? ==>
              TR.FindById(s.bank.transactions, tx.id.value).Some?
              && var failed := TR.FindById(s.bank.transactions, tx.id.value).value;
                 && failed.status == Some(T.Failed) && failed.completedAt == Some(now)
                 && T.SameRequest(tx.(createdAt := TR.FindById(b.transactions, tx.id.value).value.createdAt), failed)
  {
    var failed := T.MarkAsFailed(tx, now);
    TR.SaveOverStored(b.transactions, failed, b.nextId, now);
    Step(b.(transactions := TR.Save(b.transactions, failed, b.nextId, now).0), Err(InsufficientFunds(required, available)))
  }

  /** A transaction as `Admit` hands it on: validated, with an id. */
  predicate Admissible(tx: T.Transaction) {
    T.Validate(tx).Pass? && tx.id.Some?
  }

  /** The body of `withdraw` after the prologue: lock and load the account,
      check funds, debit, save, record one DEBIT, post. */
  function CompleteWithdrawal(b: Bank, tx: T.Transaction, now: Time): (s: Step<T.Transaction>)
    requires Admissible(tx) && tx.txType == Some(T.Withdrawal)
    ensures s.bank.guard == b.guard
    ensures b.ledger <= s.bank.ledger && |s.bank.ledger| <= |b.ledger| + 1
    ensures s.result.Ok? ==> s.result.value == T.MarkAsPosted(tx, now)
    ensures || s.bank.transactions == b.transactions
            || s.bank.transactions == TR.Save(b.transactions, T.MarkAsPosted(tx, now), s.bank.nextId, now).0
            || s.bank.transactions == TR.Save(b.transactions, T.MarkAsFailed(tx, now), s.bank.nextId, now).0
  {
    var id := tx.sourceAccountId.value;
    var m := Money(tx.amount.value, tx.currency.value);
    if id !in b.accounts then Step(b, Err(AccountNotFound(id)))
    else
      var account := b.accounts[id];
      match account.balance
      case None => Step(b, Err(NullPointer))
      case Some(balance) =>
        match IsGreaterThanOrEqual(balance, m)
        case Err(f) => Step(b, Err(f))
        case Ok(false) => Decline(b, tx, m.amount, balance.amount, now)
        case Ok(true) =>
          match A.Debit(account, m)
          case Err(f) => Step(b, Err(f))
          case Ok(debited) =>
            var b1 := b.(accounts := SaveAccount(b.accounts, id, debited, now));
            match LS.RecordMovement(b1.ledger, L.Debit, tx.id, Some(id), tx.amount, tx.currency, b1.nextId, now)
            case Err(f) => Step(b1, Err(f))
            case Ok(rec) => Post(b1.(ledger := rec.ledger, nextId := b1.nextId + 1), tx, now)
  }

  /** `withdraw`. */
  function Withdraw(b: Bank, accountId: Option<Uuid>, amount: Option<real>, currency: Option<string>,
                    key: Option<Uuid>, initiatedBy: Option<string>, now: Time): (s: Step<T.Transaction>)
    ensures TR.FindByIdempotencyKey(b.transactions, key).Some?
            ==> s == Step(b, Ok(TR.FindByIdempotencyKey(b.transactions, key).value))
    ensures TR.FindByIdempotencyKey(b.transactions, key).None?
            ==> s.bank.guard == I.TryRegister(b.guard, key).guard
    ensures b.ledger <= s.bank.ledger && |s.bank.ledger| <= |b.ledger| + 1
    ensures s.result.Ok? && TR.FindByIdempotencyKey(b.transactions, key).None? ==>
              && s.result.value.status == Some(T.Posted)
              && s.result.value.txType == Some(T.Withdrawal)
              && s.result.value.sourceAccountId == accountId && s.result.value.destinationAccountId.None?
              && s.result.value.amount == amount && s.result.value.currency == currency
              && s.result.value.idempotencyKey == key && s.result.value.id == Some(b.nextId)
  {
    var draft := T.Request(T.Withdrawal, accountId, None, amount, currency, key, initiatedBy);
    match Admit(b, draft, now)
    case Replayed(tx) => Step(b, Ok(tx))
    case Refused(b1, f) => Step(b1, Err(f))
    case Admitted(b1, tx) => CompleteWithdrawal(b1, tx, now)
  }

  /** The body of `deposit` after the prologue: lock and load the account,
      credit (no funds check), save, record one CREDIT, post. */
  function CompleteDeposit(b: Bank, tx: T.Transaction, now: Time): (s: Step<T.Transaction>)
    requires Admissible(tx) && tx.txType == Some(T.Deposit)
    ensures s.bank.guard == b.guard
    ensures b.ledger <= s.bank.ledger && |s.bank.ledger| <= |b.ledger| + 1
    ensures s.result.Ok? ==> s.result.value == T.MarkAsPosted(tx, now)
    ensures || s.bank.transactions == b.transactions
            || s.bank.transactions == TR.Save(b.transactions, T.MarkAsPosted(tx, now), s.bank.nextId, now).0
            || s.bank.transactions == TR.Save(b.transactions, T.MarkAsFailed(tx, now), s.bank.nextId, now).0
  {
    var id := tx.destinationAccountId.value;
    var m := Money(tx.amount.value, tx.currency.value);
    if id !in b.accounts then Step(b, Err(AccountNotFound(id)))
    else
      match A.Credit(b.accounts[id], m)
      case Err(f) => Step(b, Err(f))
      case Ok(credited) =>
        var b1 := b.(accounts := SaveAccount(b.accounts, id, credited, now));
        match LS.RecordMovement(b1.ledger, L.Credit, tx.id, Some(id), tx.amount, tx.currency, b1.nextId, now)
        case Err(f) => Step(b1, Err(f))
        case Ok(rec) => Post(b1.(ledger := rec.ledger, nextId := b1.nextId + 1), tx, now)
  }

  /** `deposit`. */
  function Deposit(b: Bank, accountId: Option<Uuid>, amount: Option<real>, currency: Option<string>,
                   key: Option<Uuid>, initiatedBy: Option<string>, now: Time): (s: Step<T.Transaction>)
    ensures TR.FindByIdempotencyKey(b.transactions, key).Some?
            ==> s == Step(b, Ok(TR.FindByIdempotencyKey(b.transactions, key).value))
    ensures TR.FindByIdempotencyKey(b.transactions, key).None?
            ==> s.bank.guard == I.TryRegister(b.guard, key).guard
    ensures b.ledger <= s.bank.ledger && |s.bank.ledger| <= |b.ledger| + 1
    ensures s.result.Ok? && TR.FindByIdempotencyKey(b.transactions, key).None? ==>
              && s.result.value.status == Some(T.Posted)
              && s.result.value.txType == Some(T.Deposit)
              && s.result.value.destinationAccountId == accountId && s.result.value.sourceAccountId.None?
              && s.result.value.amount == amount && s.result.value.currency == currency
              && s.result.value.idempotencyKey == key && s.result.value.id == Some(b.nextId)
  {
    var draft := T.Request(T.Deposit, None, accountId, amount, currency, key, initiatedBy);
    match Admit(b, draft, now)
    case Replayed(tx) => Step(b, Ok(tx))
    case Refused(b1, f) => Step(b1, Err(f))
    case Admitted(b1, tx) => CompleteDeposit(b1, tx, now)
  }

  /** The body of `transfer` after the prologue: lock both accounts in id
      order, pick source and destination among them, check the source's
      funds, debit the source, credit the destination, save both, record one
      DEBIT and one CREDIT, post. */
  function CompleteTransfer(b: Bank, tx: T.Transaction, now: Time): (s: Step<T.Transaction>)
    requires Admissible(tx) && tx.txType == Some(T.Transfer)
    ensures s.bank.guard == b.guard
    ensures b.ledger <= s.bank.ledger && |s.bank.ledger| <= |b.ledger| + 2
    ensures s.result.Ok? ==> s.result.value == T.MarkAsPosted(tx, now)
    ensures || s.bank.transactions == b.transactions
            || s.bank.transactions == TR.Save(b.transactions, T.MarkAsPosted(tx, now), s.bank.nextId, now).0
            || s.bank.transactions == TR.Save(b.transactions, T.MarkAsFailed(tx, now), s.bank.nextId, now).0
  {
    var src := tx.sourceAccountId.value;
    var dst := tx.destinationAccountId.value;
    var (first, second) := LockOrder(src, dst);
    var m := Money(tx.amount.value, tx.currency.value);
    if first !in b.accounts then Step(b, Err(AccountNotFound(first)))
    else if second !in b.accounts then Step(b, Err(AccountNotFound(second)))
    else
      var source := Resolve(src, b.accounts[first], b.accounts[second]);
      var destination := Resolve(dst, b.accounts[first], b.accounts[second]);
      match source.balance
      case None => Step(b, Err(NullPointer))
      case Some(balance) =>
        match IsGreaterThanOrEqual(balance, m)
        case Err(f) => Step(b, Err(f))
        case Ok(false) => Decline(b, tx, m.amount, balance.amount, now)
        case Ok(true) =>
          match A.Debit(source, m)
          case Err(f) => Step(b, Err(f))
          case Ok(debited) =>
            match A.Credit(destination, m)
            case Err(f) => Step(b, Err(f))
            case Ok(credited) =>
              var b1 := b.(accounts := SaveAccount(SaveAccount(b.accounts, src, debited, now), dst, credited, now));
              match LS.RecordMovement(b1.ledger, L.Debit, tx.id, Some(src), tx.amount, tx.currency, b1.nextId, now)
              case Err(f) => Step(b1, Err(f))
              case Ok(debit) =>
                var b2 := b1.(ledger := debit.ledger, nextId := b1.nextId + 1);
                match LS.RecordMovement(b2.ledger, L.Credit, tx.id, Some(dst), tx.amount, tx.currency, b2.nextId, now)
                case Err(f) => Step(b2, Err(f))
                case Ok(credit) => Post(b2.(ledger := credit.ledger, nextId := b2.nextId + 1), tx, now)
  }

  /** `transfer`: a null source throws on `equals`, and a transfer to the same
      account is refused before anything else is looked at. */
  function Transfer(b: Bank, sourceId: Option<Uuid>, destinationId: Option<Uuid>, amount: Option<real>,
                    currency: Option<string>, key: Option<Uuid>, initiatedBy: Option<string>, now: Time): (s: Step<T.Transaction>)
    ensures sourceId.None? ==> s == Step(b, Err(NullPointer))
    ensures sourceId.Some? && sourceId == destinationId ==> s == Step(b, Err(IllegalArgument(SameAccount)))
    ensures sourceId.Some? && sourceId != destinationId && TR.FindByIdempotencyKey(b.transactions, key).Some?
            ==> s == Step(b, Ok(TR.FindByIdempotencyKey(b.transactions, key).value))
    ensures b.ledger <= s.bank.ledger && |s.bank.ledger| <= |b.ledger| + 2
    ensures s.result.Ok? && TR.FindByIdempotencyKey(b.transactions, key).None? ==>
              && s.result.value.status == Some(T.Posted)
              && s.result.value.txType == Some(T.Transfer)
              && s.result.value.sourceAccountId == sourceId && s.result.value.destinationAccountId == destinationId
              && s.result.value.amount == amount && s.result.value.currency == currency
              && s.result.value.idempotencyKey == key && s.result.value.id == Some(b.nextId)
  {
    if sourceId.None? then Step(b, Err(NullPointer))
    else if sourceId == destinationId then Step(b, Err(IllegalArgument(SameAccount)))
    else
      var draft := T.Request(T.Transfer, sourceId, destinationId, amount, currency, key, initiatedBy);
      match Admit(b, draft, now)
      case Replayed(tx) => Step(b, Ok(tx))
      case Refused(b1, f) => Step(b1, Err(f))
      case Admitted(b1, tx) => CompleteTransfer(b1, tx, now)
  }
}
