/** The Account entity (model/Account.java): a holder, a Money balance and a
    status. The balance changes only through `Debit` and `Credit`, and only
    while the account is ACTIVE. */
module Accounts {
  import opened Base
  import opened MoneyValue

  datatype AccountStatus = Active | Frozen | Closed

  /** Every column is a Java reference and may be null before persistence. */
  datatype Account = Account(
    id: Option<Uuid>,
    holderName: Option<string>,
    balance: Option<Money>,
    status: Option<AccountStatus>,
    createdAt: Option<Time>,
    updatedAt: Option<Time>)

  /** `@PrePersist onCreate`: a fresh id, both timestamps, and ACTIVE when no
      status was given. */
  function OnCreate(a: Account, freshId: Uuid, now: Time): (r: Account)
    ensures r.id == Some(freshId) && r.createdAt == Some(now) && r.updatedAt == Some(now)
    ensures a.status.None? ==> r.status == Some(Active)
    ensures a.status.Some? ==> r.status == a.status
    ensures r.holderName == a.holderName && r.balance == a.balance
  {
    a.(id := Some(freshId), createdAt := Some(now), updatedAt := Some(now),
       status := Some(a.status.GetOr(Active)))
  }

  /** `@PreUpdate onUpdate`: only the modification time moves. */
  function OnUpdate(a: Account, now: Time): (r: Account)
    ensures r.updatedAt == Some(now)
    ensures r.id == a.id && r.holderName == a.holderName && r.balance == a.balance
            && r.status == a.status && r.createdAt == a.createdAt
  {
    a.(updatedAt := Some(now))
  }

  /** `validate()`: holder name, balance (and the balance's own checks), status. */
  function Validate(a: Account): (c: Check)
    ensures c.Pass? <==>
              && a.holderName.Some? && !IsBlank(a.holderName.value)
              && a.balance.Some? && MoneyValue.Validate(a.balance.value).Pass?
              && a.status.Some?
    ensures a.holderName.None? || IsBlank(a.holderName.value) ==> c == Fail(IllegalArgument(HolderNameRequired))
    ensures c.Pass? ==> a.balance.value.amount >= 0.0
  {
    if a.holderName.None? || IsBlank(a.holderName.value) then Fail(IllegalArgument(HolderNameRequired))
    else if a.balance.None? then Fail(IllegalArgument(BalanceRequired))
    else match MoneyValue.Validate(a.balance.value)
      case Fail(e) => Fail(e)
      case Pass => if a.status.None? then Fail(IllegalArgument(AccountStatusRequired)) else Pass
  }

  /** `isActive()`. */
  predicate IsActive(a: Account) {
    a.status == Some(Active)
  }

  /** `debit(amount)`: refused unless ACTIVE, then `balance.subtract(amount)`;
      a null balance throws on dereference. Only the balance changes. */
  function Debit(a: Account, amount: Money): (r: Result<Account>)
    ensures !IsActive(a) ==> r == Err(IllegalState(DebitInactive))
    ensures r.Ok? ==> IsActive(a) && a.balance.Some?
                      && MoneyValue.Subtract(a.balance.value, amount).Ok?
                      && r.value == a.(balance := Some(MoneyValue.Subtract(a.balance.value, amount).value))
  {
    if !IsActive(a) then Err(IllegalState(DebitInactive))
    else match a.balance
      case None => Err(NullPointer)
      case Some(b) =>
        match MoneyValue.Subtract(b, amount)
        case Err(e) => Err(e)
        case Ok(nb) => Ok(a.(balance := Some(nb)))
  }

  /** `credit(amount)`: refused unless ACTIVE, then `balance.add(amount)`. */
  function Credit(a: Account, amount: Money): (r: Result<Account>)
    ensures !IsActive(a) ==> r == Err(IllegalState(CreditInactive))
    ensures r.Ok? ==> IsActive(a) && a.balance.Some?
                      && MoneyValue.Add(a.balance.value, amount).Ok?
                      && r.value == a.(balance := Some(MoneyValue.Add(a.balance.value, amount).value))
  {
    if !IsActive(a) then Err(IllegalState(CreditInactive))
    else match a.balance
      case None => Err(NullPointer)
      case Some(b) =>
        match MoneyValue.Add(b, amount)
        case Err(e) => Err(e)
        case Ok(nb) => Ok(a.(balance := Some(nb)))
  }

  /** A FROZEN or CLOSED account refuses both movements (so whoever holds it
      keeps the old balance). */
  lemma InactiveAccountsRefuseMovements(a: Account, x: Money)
    requires a.status == Some(Frozen) || a.status == Some(Closed)
    ensures Debit(a, x) == Err(IllegalState(DebitInactive))
    ensures Credit(a, x) == Err(IllegalState(CreditInactive))
  {
  }

  /** Being ACTIVE is exactly what lets an account past the status check of
      either movement. */
  lemma ActivityGatesMovements(a: Account, x: Money)
    ensures Debit(a, x) == Err(IllegalState(DebitInactive)) <==> !IsActive(a)
    ensures Credit(a, x) == Err(IllegalState(CreditInactive)) <==> !IsActive(a)
  {
  }

  /** Debit on an active account: the balance drops by exactly `x`, and the
      call fails when `x` exceeds the balance, so a validated account stays
      non-negative and valid. Nothing but the balance changes. */
  lemma DebitOnActiveAccount(a: Account, x: Money)
    requires IsActive(a) && Validate(a).Pass? && x.currency == a.balance.value.currency
    ensures Debit(a, x).Ok? <==> x.amount <= a.balance.value.amount
    ensures Debit(a, x).Ok? ==>
              && Debit(a, x).value.balance == Some(Money(a.balance.value.amount - x.amount, x.currency))
              && Validate(Debit(a, x).value).Pass?
              && Debit(a, x).value.id == a.id
              && Debit(a, x).value.holderName == a.holderName
              && Debit(a, x).value.status == a.status
  {
  }

  /** Credit on an active account: the balance rises by exactly `x` in the same
      currency; a non-negative credit keeps a validated account valid. */
  lemma CreditOnActiveAccount(a: Account, x: Money)
    requires IsActive(a) && Validate(a).Pass? && x.currency == a.balance.value.currency
    ensures Credit(a, x).Ok?
    ensures Credit(a, x).value.balance == Some(Money(a.balance.value.amount + x.amount, x.currency))
    ensures x.amount >= 0.0 ==> Validate(Credit(a, x).value).Pass?
    ensures Credit(a, x).value.id == a.id && Credit(a, x).value.holderName == a.holderName
            && Credit(a, x).value.status == a.status
  {
  }

  /** A persisted account is ACTIVE unless a status was chosen before saving. */
  lemma PersistedDefaultsToActive(a: Account, freshId: Uuid, now: Time)
    requires a.status.None?
    ensures IsActive(OnCreate(a, freshId, now))
  {
  }
}
