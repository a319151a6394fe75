/** The LedgerEntry entity (model/LedgerEntry.java): one immutable movement
    on one account, recorded for one transaction. */
module LedgerEntries {
  import opened Base

  datatype EntryType = Debit | Credit | Fee

  /** Every column is a Java reference and may be null before persistence. */
  datatype LedgerEntry = LedgerEntry(
    id: Option<Uuid>,
    transactionId: Option<Uuid>,
    accountId: Option<Uuid>,
    entryType: Option<EntryType>,
    amount: Option<real>,
    currency: Option<string>,
    timestamp: Option<Time>)

  /** `@PrePersist onCreate`: a fresh id; the timestamp only when none was given. */
  function OnCreate(e: LedgerEntry, freshId: Uuid, now: Time): (r: LedgerEntry)
    ensures r.id == Some(freshId)
    ensures e.timestamp.Some? ==> r.timestamp == e.timestamp
    ensures e.timestamp.None? ==> r.timestamp == Some(now)
    ensures r.transactionId == e.transactionId && r.accountId == e.accountId
            && r.entryType == e.entryType && r.amount == e.amount && r.currency == e.currency
  {
    e.(id := Some(freshId), timestamp := Some(e.timestamp.GetOr(now)))
  }

  /** `validate()`: references, type, a non-negative amount, an ISO currency. */
  function Validate(e: LedgerEntry): (c: Check)
    ensures c.Pass? <==>
              && e.transactionId.Some? && e.accountId.Some? && e.entryType.Some?
              && e.amount.Some? && e.amount.value >= 0.0
              && IsIsoCurrency(e.currency)
    ensures e.transactionId.None? ==> c == Fail(IllegalArgument(TransactionIdRequired))
    ensures e.transactionId.Some? && e.accountId.None? ==> c == Fail(IllegalArgument(AccountIdRequired))
    ensures e.transactionId.Some? && e.accountId.Some? && e.entryType.None?
            ==> c == Fail(IllegalArgument(EntryTypeRequired))
    ensures e.transactionId.Some? && e.accountId.Some? && e.entryType.Some?
            && (e.amount.None? || e.amount.value < 0.0)
            ==> c == Fail(IllegalArgument(NegativeEntryAmount))
    ensures e.transactionId.Some? && e.accountId.Some? && e.entryType.Some?
            && e.amount.Some? && e.amount.value >= 0.0 && !IsIsoCurrency(e.currency)
            ==> c == Fail(IllegalArgument(InvalidCurrency))
  {
    if e.transactionId.None? then Fail(IllegalArgument(TransactionIdRequired))
    else if e.accountId.None? then Fail(IllegalArgument(AccountIdRequired))
    else if e.entryType.None? then Fail(IllegalArgument(EntryTypeRequired))
    else if e.amount.None? || e.amount.value < 0.0 then Fail(IllegalArgument(NegativeEntryAmount))
    else if !IsIsoCurrency(e.currency) then Fail(IllegalArgument(InvalidCurrency))
    else Pass
  }

  /** `isDebit()`: money out of the account. */
  predicate IsDebit(e: LedgerEntry) { e.entryType == Some(Debit) }

  /** `isCredit()`: money into the account. */
  predicate IsCredit(e: LedgerEntry) { e.entryType == Some(Credit) }

  /** `isFee()`: a charge to the account. */
  predicate IsFee(e: LedgerEntry) { e.entryType == Some(Fee) }

  /** A row of `ledger_entries`: every NOT NULL column holds a value. */
  predicate Stored(e: LedgerEntry) {
    && e.id.Some? && e.transactionId.Some? && e.accountId.Some? && e.entryType.Some?
    && e.amount.Some? && e.currency.Some? && e.timestamp.Some?
  }

  /** An entry's value: the recorded amount, or nothing when it is missing
      (SQL's SUM skips NULL). */
  function AmountOf(e: LedgerEntry): real {
    e.amount.GetOr(0.0)
  }

  /** Its effect on its account's ledger-derived balance: credits add,
      debits and fees subtract. */
  function SignedAmount(e: LedgerEntry): real {
    if IsCredit(e) then AmountOf(e)
    else if IsDebit(e) || IsFee(e) then -AmountOf(e)
    else 0.0
  }

  /** Exactly one of the three type predicates holds for a typed entry, and
      none for an untyped one. */
  lemma ExactlyOneType(e: LedgerEntry)
    ensures e.entryType.Some? <==> IsDebit(e) || IsCredit(e) || IsFee(e)
    ensures !(IsDebit(e) && IsCredit(e)) && !(IsDebit(e) && IsFee(e)) && !(IsCredit(e) && IsFee(e))
  {
    if e.entryType.Some? {
      match e.entryType.value
      case Debit =>
      case Credit =>
      case Fee =>
    }
  }

  /** An entry may carry zero, never less: validation decides on the sign alone
      once the other fields are present. */
  lemma ZeroButNotNegative(e: LedgerEntry)
    requires e.transactionId.Some? && e.accountId.Some? && e.entryType.Some? && IsIsoCurrency(e.currency)
    requires e.amount.Some?
    ensures Validate(e).Pass? <==> e.amount.value >= 0.0
    ensures e.amount.value < 0.0 ==> Validate(e) == Fail(IllegalArgument(NegativeEntryAmount))
  {
  }

  /** Persisting a validated entry yields a valid row with every NOT NULL
      column filled, whose balance effect is that of the entry. */
  lemma OnCreatePersists(e: LedgerEntry, freshId: Uuid, now: Time)
    requires Validate(e).Pass?
    ensures Stored(OnCreate(e, freshId, now)) && Validate(OnCreate(e, freshId, now)).Pass?
    ensures SignedAmount(OnCreate(e, freshId, now)) == SignedAmount(e)
  {
  }
}
