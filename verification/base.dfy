/** Shared vocabulary of the banking engine: optional (nullable) values, the
    outcome of an operation that may throw, the failures the engine raises,
    and the string checks (blankness, ISO 4217 code length) several entities
    repeat. */
module Base {

  /** Identifiers and idempotency keys (Java `UUID`). Only their total order
      matters to the engine (the lock-ordering rule), so they are integers. */
  type Uuid = int

  /** A point in time (`LocalDateTime` / `LocalDate`), supplied by the caller. */
  type Time = int

  /** A Java reference that may be null. */
  datatype Option<+T> = None | Some(value: T) {
    function GetOr(default: T): T {
      match this
      case Some(v) => v
      case None => default
    }
  }

  /** Why an `IllegalArgumentException` or `IllegalStateException` was thrown;
      one constructor per distinct message of the source. */
  datatype Reason =
    // Money
    | NegativeAmount | CurrencyRequired | CurrencyNotIso4217
    | AddCurrencyMismatch | SubtractCurrencyMismatch | CompareCurrencyMismatch
    // Account
    | HolderNameRequired | BalanceRequired | AccountStatusRequired
    | DebitInactive | CreditInactive
    // Transaction
    | TransactionTypeRequired | AmountNotPositive | InvalidCurrency
    | IdempotencyKeyRequired | InitiatorRequired
    | WithdrawalNeedsSource | WithdrawalHasDestination
    | DepositNeedsDestination | DepositHasSource
    | TransferNeedsBoth | SameAccount | FeeNeedsDestination
    // Ledger entry
    | TransactionIdRequired | AccountIdRequired | EntryTypeRequired | NegativeEntryAmount
    // Card
    | CardTypeRequired | MaskedNumberRequired | MaskedNumberPattern
    | CardAccountRequired | ExpiryRequired | CardStatusRequired
    // Orchestrator
    | IdempotencyKeyInUse
    // Repository: `findById(null)` refuses a null id
    | IdRequired

  /** The exceptions of the core, as values. */
  datatype Failure =
    | IllegalArgument(reason: Reason)
    | IllegalState(reason: Reason)
    | NullPointer
    | AccountNotFound(accountId: Uuid)
    | InsufficientFunds(required: real, available: real)

  /** A value, or the exception thrown instead of returning it. */
  datatype Result<+T> = Ok(value: T) | Err(failure: Failure) {
    predicate IsFailure() { Err? }
    function PropagateFailure<U>(): Result<U>
      requires Err?
    {
      Err(failure)
    }
    function Extract(): T
      requires Ok?
    {
      value
    }
  }

  /** The outcome of a `void validate()`: it returns, or throws. */
  datatype Check = Pass | Fail(failure: Failure)

  /** `Character.isWhitespace`: the ASCII separators, the information
      separators U+001C..U+001F, and the Unicode space, line and paragraph
      separators except the three no-break spaces. */
  predicate IsWhitespace(c: char) {
    || c == ' ' || c == '\t' || c == '\n' || c == '\r'
    || c == '\U{000B}' || c == '\U{000C}'
    || ('\U{001C}' <= c <= '\U{001F}')
    || c == '\U{1680}'
    || ('\U{2000}' <= c <= '\U{2006}') || ('\U{2008}' <= c <= '\U{200A}')
    || c == '\U{2028}' || c == '\U{2029}' || c == '\U{205F}' || c == '\U{3000}'
  }

  /** `String.isBlank`: empty, or whitespace only. */
  predicate IsBlank(s: string) {
    forall i | 0 <= i < |s| :: IsWhitespace(s[i])
  }

  /** The only currency check the engine makes: a present, non-blank code of
      exactly three characters (the length of an ISO 4217 alphabetic code). */
  predicate IsIsoCurrency(c: Option<string>) {
    c.Some? && !IsBlank(c.value) && |c.value| == 3
  }
}
