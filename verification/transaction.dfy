/** The Transaction entity (model/Transaction.java): one requested money
    movement, its per-type shape, and its PENDING -> POSTED | FAILED status. */
module Transactions {
  import opened Base

  datatype TransactionType = Withdrawal | Transfer | Deposit | Fee
  datatype TransactionStatus = Pending | Posted | Failed

  /** Every column is a Java reference and may be null before persistence. */
  datatype Transaction = Transaction(
    id: Option<Uuid>,
    txType: Option<TransactionType>,
    sourceAccountId: Option<Uuid>,
    destinationAccountId: Option<Uuid>,
    status: Option<TransactionStatus>,
    amount: Option<real>,
    currency: Option<string>,
    idempotencyKey: Option<Uuid>,
    initiatedBy: Option<string>,
    createdAt: Option<Time>,
    completedAt: Option<Time>)

  /** What the orchestrator's builder produces: a PENDING request with no id
      and no timestamps yet. */
  function Request(txType: TransactionType, source: Option<Uuid>, destination: Option<Uuid>,
                   amount: Option<real>, currency: Option<string>, key: Option<Uuid>,
                   initiatedBy: Option<string>): Transaction
  {
    Transaction(None, Some(txType), source, destination, Some(Pending), amount, currency,
                key, initiatedBy, None, None)
  }

  /** The per-type shape of the account references. */
  predicate ShapeOk(t: TransactionType, source: Option<Uuid>, destination: Option<Uuid>) {
    match t
    case Withdrawal => source.Some? && destination.None?
    case Deposit => destination.Some? && source.None?
    case Transfer => source.Some? && destination.Some? && source != destination
    case Fee => destination.Some?
  }

  /** The common checks, in source order, before the per-type switch. */
  function ValidateCommon(t: Transaction): (c: Check)
    ensures c.Pass? <==>
              && t.txType.Some?
              && t.amount.Some? && t.amount.value > 0.0
              && IsIsoCurrency(t.currency)
              && t.idempotencyKey.Some?
              && t.initiatedBy.Some? && !IsBlank(t.initiatedBy.value)
    ensures t.txType.None? ==> c == Fail(IllegalArgument(TransactionTypeRequired))
    ensures t.txType.Some? && (t.amount.None? || t.amount.value <= 0.0) ==> c == Fail(IllegalArgument(AmountNotPositive))
    ensures t.txType.Some? && t.amount.Some? && t.amount.value > 0.0 && !IsIsoCurrency(t.currency)
            ==> c == Fail(IllegalArgument(InvalidCurrency))
    ensures t.txType.Some? && t.amount.Some? && t.amount.value > 0.0 && IsIsoCurrency(t.currency)
            && t.idempotencyKey.None?
            ==> c == Fail(IllegalArgument(IdempotencyKeyRequired))
    ensures t.txType.Some? && t.amount.Some? && t.amount.value > 0.0 && IsIsoCurrency(t.currency)
            && t.idempotencyKey.Some? && (t.initiatedBy.None? || IsBlank(t.initiatedBy.value))
            ==> c == Fail(IllegalArgument(InitiatorRequired))
  {
    if t.txType.None? then Fail(IllegalArgument(TransactionTypeRequired))
    else if t.amount.None? || t.amount.value <= 0.0 then Fail(IllegalArgument(AmountNotPositive))
    else if !IsIsoCurrency(t.currency) then Fail(IllegalArgument(InvalidCurrency))
    else if t.idempotencyKey.None? then Fail(IllegalArgument(IdempotencyKeyRequired))
    else if t.initiatedBy.None? || IsBlank(t.initiatedBy.value) then Fail(IllegalArgument(InitiatorRequired))
    else Pass
  }

  /** `validate()`: the common checks, then the shape the type demands. */
  function Validate(t: Transaction): (c: Check)
    ensures c.Pass? <==> ValidateCommon(t).Pass? && ShapeOk(t.txType.value, t.sourceAccountId, t.destinationAccountId)
    ensures ValidateCommon(t).Fail? ==> c == ValidateCommon(t)
    ensures ValidateCommon(t).Pass? && t.txType == Some(Withdrawal) ==>
              && (t.sourceAccountId.None? ==> c == Fail(IllegalArgument(WithdrawalNeedsSource)))
              && (t.sourceAccountId.Some? && t.destinationAccountId.Some? ==> c == Fail(IllegalArgument(WithdrawalHasDestination)))
    ensures ValidateCommon(t).Pass? && t.txType == Some(Deposit) ==>
              && (t.destinationAccountId.None? ==> c == Fail(IllegalArgument(DepositNeedsDestination)))
              && (t.destinationAccountId.Some? && t.sourceAccountId.Some? ==> c == Fail(IllegalArgument(DepositHasSource)))
    ensures ValidateCommon(t).Pass? && t.txType == Some(Transfer) ==>
              && (t.sourceAccountId.None? || t.destinationAccountId.None? ==> c == Fail(IllegalArgument(TransferNeedsBoth)))
              && (t.sourceAccountId.Some? && t.sourceAccountId == t.destinationAccountId ==> c == Fail(IllegalArgument(SameAccount)))
    ensures ValidateCommon(t).Pass? && t.txType == Some(Fee) && t.destinationAccountId.None?
            ==> c == Fail(IllegalArgument(FeeNeedsDestination))
  {
    match ValidateCommon(t)
    case Fail(e) => Fail(e)
    case Pass =>
      match t.txType.value
      case Withdrawal =>
        if t.sourceAccountId.None? then Fail(IllegalArgument(WithdrawalNeedsSource))
        else if t.destinationAccountId.Some? then Fail(IllegalArgument(WithdrawalHasDestination))
        else Pass
      case Deposit =>
        if t.destinationAccountId.None? then Fail(IllegalArgument(DepositNeedsDestination))
        else if t.sourceAccountId.Some? then Fail(IllegalArgument(DepositHasSource))
        else Pass
      case Transfer =>
        if t.sourceAccountId.None? || t.destinationAccountId.None? then Fail(IllegalArgument(TransferNeedsBoth))
        else if t.sourceAccountId == t.destinationAccountId then Fail(IllegalArgument(SameAccount))
        else Pass
      case Fee =>
        if t.destinationAccountId.None? then Fail(IllegalArgument(FeeNeedsDestination))
        else Pass
  }

  /** `@PrePersist onCreate`: a fresh id, the creation time, and PENDING when
      no status was given. */
  function OnCreate(t: Transaction, freshId: Uuid, now: Time): (r: Transaction)
    ensures r.id == Some(freshId) && r.createdAt == Some(now)
    ensures r.status == (if t.status.None? then Some(Pending) else t.status)
    ensures r.txType == t.txType && r.amount == t.amount && r.currency == t.currency
            && r.idempotencyKey == t.idempotencyKey && r.initiatedBy == t.initiatedBy
            && r.sourceAccountId == t.sourceAccountId && r.destinationAccountId == t.destinationAccountId
            && r.completedAt == t.completedAt
  {
    t.(id := Some(freshId), createdAt := Some(now), status := Some(t.status.GetOr(Pending)))
  }

  /** A row of `transactions`: every NOT NULL column holds a value. */
  predicate Stored(t: Transaction) {
    && t.id.Some? && t.txType.Some? && t.status.Some? && t.amount.Some? && t.currency.Some?
    && t.idempotencyKey.Some? && t.initiatedBy.Some? && t.createdAt.Some?
  }

  /** Two versions of one transaction that differ at most in status and
      completion time. */
  predicate SameRequest(t: Transaction, u: Transaction) {
    && t.id == u.id && t.txType == u.txType
    && t.sourceAccountId == u.sourceAccountId && t.destinationAccountId == u.destinationAccountId
    && t.amount == u.amount && t.currency == u.currency
    && t.idempotencyKey == u.idempotencyKey && t.initiatedBy == u.initiatedBy
    && t.createdAt == u.createdAt
  }

  /** `markAsPosted()`. */
  function MarkAsPosted(t: Transaction, now: Time): (r: Transaction)
    ensures r.status == Some(Posted) && r.completedAt.Some? && SameRequest(t, r)
  {
    t.(status := Some(Posted), completedAt := Some(now))
  }

  /** `markAsFailed()`. */
  function MarkAsFailed(t: Transaction, now: Time): (r: Transaction)
    ensures r.status == Some(Failed) && r.completedAt.Some? && SameRequest(t, r)
  {
    t.(status := Some(Failed), completedAt := Some(now))
  }

  /** `isPending()`. */
  predicate IsPending(t: Transaction) {
    t.status == Some(TransactionStatus.Pending)
  }

  /** Marking changes neither the request nor its validity, and a marked
      transaction is no longer pending. */
  lemma MarkingKeepsRequest(t: Transaction, now: Time)
    ensures Validate(MarkAsPosted(t, now)) == Validate(t) && Validate(MarkAsFailed(t, now)) == Validate(t)
    ensures !IsPending(MarkAsPosted(t, now)) && !IsPending(MarkAsFailed(t, now))
  {
  }

  /** A transaction persisted without a status is PENDING. */
  lemma PersistedDefaultsToPending(t: Transaction, freshId: Uuid, now: Time)
    requires t.status.None?
    ensures IsPending(OnCreate(t, freshId, now))
  {
  }

  /** The per-type rules, one type at a time, for requests that pass the common checks. */
  lemma TypeShapes(t: Transaction)
    requires ValidateCommon(t).Pass?
    ensures t.txType == Some(Withdrawal) ==>
              (Validate(t).Pass? <==> t.sourceAccountId.Some? && t.destinationAccountId.None?)
    ensures t.txType == Some(Deposit) ==>
              (Validate(t).Pass? <==> t.destinationAccountId.Some? && t.sourceAccountId.None?)
    ensures t.txType == Some(Transfer) ==>
              (Validate(t).Pass? <==> t.sourceAccountId.Some? && t.destinationAccountId.Some?
                                      && t.sourceAccountId.value != t.destinationAccountId.value)
    ensures t.txType == Some(Fee) ==> (Validate(t).Pass? <==> t.destinationAccountId.Some?)
  {
  }
}
