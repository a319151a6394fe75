/** The ledger service (service/LedgerService.java): append-only recording of
    entries, the per-transaction double-entry check, and the ledger-derived
    balance of an account. The ledger is the `ledger_entries` table in
    insertion order; new ids and the current time are parameters. */
module LedgerService {
  import opened Base
  import opened Seqs
  import opened LedgerEntries
  import opened LedgerEntryRepository
  import Transactions
  import TransactionRepository

  /** The ledger after a successful `save`, and the saved entry. */
  datatype Recorded = Recorded(ledger: seq<LedgerEntry>, entry: LedgerEntry)

  /** `recordEntry` as written: validate, then `save`. An entry without an
      id is appended under a fresh one; an entry carrying the id of a stored
      row overwrites that row's columns (all but the timestamp) and adds no
      row, although the comment at the call says the ledger is append-only.
      An invalid entry throws and nothing is written. */
  function RecordEntry(ledger: seq<LedgerEntry>, entry: LedgerEntry, freshId: Uuid, now: Time): (r: Result<Recorded>)
    ensures r.Ok? <==> Validate(entry).Pass?
    ensures r.Err? ==> r.failure == Validate(entry).failure
    ensures r.Ok? && (entry.id.None? || IndexOfId(ledger, entry.id.value).None?) ==>
              r == AppendEntry(ledger, entry, freshId, now)
    ensures r.Ok? && entry.id.Some? && IndexOfId(ledger, entry.id.value).Some? ==>
              var i := IndexOfId(ledger, entry.id.value).value;
              && |r.value.ledger| == |ledger|
              && (forall j | 0 <= j < |ledger| && j != i :: r.value.ledger[j] == ledger[j])
              && r.value.ledger[i] == entry.(timestamp := ledger[i].timestamp)
              && r.value.entry == entry
  {
    match Validate(entry)
    case Fail(f) => Err(f)
    case Pass =>
      var (rows, saved) := Save(ledger, entry, freshId, now);
      Ok(Recorded(rows, saved))
  }

  /** `recordEntry` as its comment intends it: validate, then append the
      entry with a fresh id (and the current time when it carries none).
      Earlier rows are never touched; an invalid entry throws and nothing is
      written. */
  function AppendEntry(ledger: seq<LedgerEntry>, entry: LedgerEntry, freshId: Uuid, now: Time): (r: Result<Recorded>)
    ensures r.Ok? <==> Validate(entry).Pass?
    ensures r.Err? ==> r.failure == Validate(entry).failure
    ensures r.Ok? ==> && |r.value.ledger| == |ledger| + 1
                      && r.value.ledger[..|ledger|] == ledger
                      && r.value.ledger[|ledger|] == r.value.entry
    ensures r.Ok? ==> && r.value.entry.id == Some(freshId)
                      && Stored(r.value.entry) && Validate(r.value.entry).Pass?
                      && r.value.entry.transactionId == entry.transactionId
                      && r.value.entry.accountId == entry.accountId
                      && r.value.entry.entryType == entry.entryType
                      && r.value.entry.amount == entry.amount
                      && r.value.entry.currency == entry.currency
  {
    match Validate(entry)
    case Fail(f) => Err(f)
    case Pass =>
      var saved := OnCreate(entry, freshId, now);
      OnCreatePersists(entry, freshId, now);
      Ok(Recorded(ledger + [saved], saved))
  }

  /** The overwrite, on a concrete input: an entry that reuses the id of the
      one stored row replaces that row's amount, and the ledger does not
      grow. Appending would have kept the stored row. */
  lemma RecordEntryCanOverwrite()
    ensures var stored := LedgerEntry(Some(1), Some(10), Some(20), Some(Debit), Some(5.0), Some("USD"), Some(0));
            var reused := stored.(amount := Some(7.0));
            && RecordEntry([stored], reused, 2, 1) == Ok(Recorded([reused], reused))
            && stored !in RecordEntry([stored], reused, 2, 1).value.ledger
            && stored in AppendEntry([stored], reused, 2, 1).value.ledger
  {
    var stored := LedgerEntry(Some(1), Some(10), Some(20), Some(Debit), Some(5.0), Some("USD"), Some(0));
    var reused := stored.(amount := Some(7.0));
    assert !IsBlank("USD") by { assert !IsWhitespace("USD"[0]); }
    assert IndexOfId([stored], 1) == Some(0);
    assert [stored][0 := reused.(timestamp := stored.timestamp)] == [reused];
  }

  /** The builder of `recordDebit` / `recordCredit` / `recordFee`: no id and
      no timestamp yet. */
  function NewEntry(transactionId: Option<Uuid>, accountId: Option<Uuid>, t: EntryType,
                    amount: Option<real>, currency: Option<string>): LedgerEntry
  {
    LedgerEntry(None, transactionId, accountId, Some(t), amount, currency, None)
  }

  /** `recordDebit`, `recordCredit` and `recordFee`: one entry of type `t`,
      accepted exactly when every argument is present, the amount is not
      negative and the currency is an ISO code. */
  function RecordMovement(ledger: seq<LedgerEntry>, t: EntryType, transactionId: Option<Uuid>, accountId: Option<Uuid>,
                          amount: Option<real>, currency: Option<string>, freshId: Uuid, now: Time): (r: Result<Recorded>)
    ensures r.Ok? <==> && transactionId.Some? && accountId.Some?
                       && amount.Some? && amount.value >= 0.0 && IsIsoCurrency(currency)
    ensures r.Ok? ==> && r.value.ledger == ledger + [r.value.entry]
                      && r.value.entry == LedgerEntry(Some(freshId), transactionId, accountId, Some(t),
                                                      amount, currency, Some(now))
    ensures transactionId.None? ==> r == Err(IllegalArgument(TransactionIdRequired))
    ensures r == AppendEntry(ledger, NewEntry(transactionId, accountId, t, amount, currency), freshId, now)
  {
    RecordEntry(ledger, NewEntry(transactionId, accountId, t, amount, currency), freshId, now)
  }

  /** No typed entry has a null amount, so the three Java stream reductions
      do not throw. */
  predicate AmountsPresent(entries: seq<LedgerEntry>) {
    forall e | e in entries && e.entryType.Some? :: e.amount.Some?
  }

  /** The reduction `filter(type).map(getAmount).reduce(ZERO, add)`. */
  function TypeTotal(entries: seq<LedgerEntry>, t: EntryType): real {
    Total(Filter(entries, OfType(t)))
  }

  /** `isDebit` / `isCredit` / `isFee` as a filter condition. */
  function OfType(t: EntryType): LedgerEntry -> bool {
    (e: LedgerEntry) => e.entryType == Some(t)
  }

  /** The per-type balance rule of `validateDoubleEntry`. */
  predicate Balanced(t: Transactions.TransactionType, amount: real, entries: seq<LedgerEntry>) {
    match t
    case Withdrawal => TypeTotal(entries, Debit) == amount
    case Deposit => TypeTotal(entries, Credit) == amount
    case Transfer => TypeTotal(entries, Debit) + TypeTotal(entries, Credit) == 2.0 * amount
    case Fee => TypeTotal(entries, Fee) == amount
  }

  /** `validateDoubleEntry`: false without entries or without the transaction;
      otherwise whether the entries balance the transaction's amount by the
      rule of its type. A null amount on a typed entry, or a null type or
      amount on the transaction, throws. */
  function ValidateDoubleEntry(ledger: seq<LedgerEntry>, txs: seq<Transactions.Transaction>, transactionId: Uuid): (r: Result<bool>)
    ensures FindByTransactionId(ledger, transactionId) == [] ==> r == Ok(false)
    ensures TransactionRepository.FindById(txs, transactionId).None? ==> r == Ok(false)
    ensures r == Ok(true) ==>
              var tx := TransactionRepository.FindById(txs, transactionId).value;
              && FindByTransactionId(ledger, transactionId) != []
              && tx.txType.Some? && tx.amount.Some?
              && Balanced(tx.txType.value, tx.amount.value, FindByTransactionId(ledger, transactionId))
    ensures r.Err? ==> r.failure == NullPointer
  {
    var entries := FindByTransactionId(ledger, transactionId);
    if entries == [] then Ok(false)
    else match TransactionRepository.FindById(txs, transactionId)
      case None => Ok(false)
      case Some(tx) =>
        if !AmountsPresent(entries) || tx.txType.None? || tx.amount.None? then Err(NullPointer)
        else Ok(Balanced(tx.txType.value, tx.amount.value, entries))
  }

  /** Over stored rows (every NOT NULL column filled) the check never throws,
      and it accepts exactly the balanced transactions that have entries. */
  lemma DoubleEntryOnStoredRows(ledger: seq<LedgerEntry>, txs: seq<Transactions.Transaction>, transactionId: Uuid)
    requires forall e | e in ledger :: Stored(e)
    requires forall t | t in txs :: Transactions.Stored(t)
    ensures ValidateDoubleEntry(ledger, txs, transactionId).Ok?
    ensures ValidateDoubleEntry(ledger, txs, transactionId).value <==>
              && FindByTransactionId(ledger, transactionId) != []
              && TransactionRepository.FindById(txs, transactionId).Some?
              && var tx := TransactionRepository.FindById(txs, transactionId).value;
                 Balanced(tx.txType.value, tx.amount.value, FindByTransactionId(ledger, transactionId))
  {
  }

  /** Filtering a pair keeps each element that satisfies the condition. */
  lemma FilterPair(e1: LedgerEntry, e2: LedgerEntry, p: LedgerEntry -> bool)
    ensures Filter([e1, e2], p) == (if p(e1) then [e1] else []) + (if p(e2) then [e2] else [])
  {
    assert [e1, e2] == [e1] + [e2];
    assert [e1] == [] + [e1];
    FilterAppend([], e1, p);
    FilterAppend([e1], e2, p);
  }

  /** The per-type totals of a single entry. */
  lemma TotalsOfOne(e: LedgerEntry, t: EntryType)
    ensures TypeTotal([e], t) == if e.entryType == Some(t) then AmountOf(e) else 0.0
  {
    assert [e] == [] + [e];
    FilterAppend([], e, OfType(t));
    assert Total([e]) == AmountOf(e) by { assert [e][..0] == []; }
  }

  /** The per-type totals of a pair of entries. */
  lemma TotalsOfPair(e1: LedgerEntry, e2: LedgerEntry, t: EntryType)
    ensures TypeTotal([e1, e2], t)
            == (if e1.entryType == Some(t) then AmountOf(e1) else 0.0)
             + (if e2.entryType == Some(t) then AmountOf(e2) else 0.0)
  {
    FilterPair(e1, e2, OfType(t));
    assert Total([e1]) == AmountOf(e1) by { assert [e1][..0] == []; }
    assert Total([e1, e2]) == Total([e1]) + AmountOf(e2) by { assert [e1, e2][..1] == [e1]; }
    assert Total([e2]) == AmountOf(e2) by { assert [e2][..0] == []; }
  }

  /** Once the rows and the transaction are found and nothing is null, the
      verdict is the per-type rule. */
  lemma VerdictOfFoundRows(ledger: seq<LedgerEntry>, txs: seq<Transactions.Transaction>, transactionId: Uuid,
                           tx: Transactions.Transaction)
    requires FindByTransactionId(ledger, transactionId) != []
    requires TransactionRepository.FindById(txs, transactionId) == Some(tx)
    requires tx.txType.Some? && tx.amount.Some? && AmountsPresent(FindByTransactionId(ledger, transactionId))
    ensures ValidateDoubleEntry(ledger, txs, transactionId)
            == Ok(Balanced(tx.txType.value, tx.amount.value, FindByTransactionId(ledger, transactionId)))
  {
  }

  /** A withdrawal's single DEBIT of the amount satisfies its rule. */
  lemma WithdrawalRowBalances(d: LedgerEntry, amount: real)
    requires d.entryType == Some(Debit) && d.amount == Some(amount)
    ensures Balanced(Transactions.Withdrawal, amount, [d])
  {
    TotalsOfOne(d, Debit);
  }

  /** A deposit's single CREDIT of the amount satisfies its rule. */
  lemma DepositRowBalances(c: LedgerEntry, amount: real)
    requires c.entryType == Some(Credit) && c.amount == Some(amount)
    ensures Balanced(Transactions.Deposit, amount, [c])
  {
    TotalsOfOne(c, Credit);
  }

  /** A transfer's DEBIT and CREDIT of the amount satisfy its rule: one row
      of each kind is what the rule counts. */
  lemma TransferRowsBalance(d: LedgerEntry, c: LedgerEntry, amount: real)
    requires d.entryType == Some(Debit) && c.entryType == Some(Credit)
    requires d.amount == Some(amount) && c.amount == Some(amount)
    ensures Balanced(Transactions.Transfer, amount, [d, c])
    ensures TypeTotal([d, c], Debit) == amount && TypeTotal([d, c], Credit) == amount
  {
    TotalsOfPair(d, c, Debit);
    TotalsOfPair(d, c, Credit);
  }

  /** Two debits of one amount: twice the amount of debits, no credit. */
  lemma TwoDebitTotals(e1: LedgerEntry, e2: LedgerEntry, amount: real)
    requires e1.entryType == Some(Debit) && e2.entryType == Some(Debit)
    requires e1.amount == Some(amount) && e2.amount == Some(amount)
    ensures TypeTotal([e1, e2], Debit) == 2.0 * amount && TypeTotal([e1, e2], Credit) == 0.0
  {
    TotalsOfPair(e1, e2, Debit);
    TotalsOfPair(e1, e2, Credit);
  }

  /** The transfer rule adds debits and credits, so it also accepts a transfer
      recorded as two debits of the amount, with no credit at all. */
  lemma TransferRuleIgnoresDirection(tx: Transactions.Transaction, e1: LedgerEntry, e2: LedgerEntry)
    requires tx.id.Some? && tx.txType == Some(Transactions.Transfer) && tx.amount.Some?
    requires e1.transactionId == tx.id && e2.transactionId == tx.id
    requires e1.entryType == Some(Debit) && e2.entryType == Some(Debit)
    requires e1.amount == tx.amount && e2.amount == tx.amount
    ensures TypeTotal([e1, e2], Credit) == 0.0
    ensures ValidateDoubleEntry([e1, e2], [tx], tx.id.value) == Ok(true)
  {
    var t := tx.id.value;
    var both := [e1, e2];
    TwoDebitTotals(e1, e2, tx.amount.value);
    assert FindByTransactionId(both, t) == both by { FilterExtremes(both, OfTransaction(t)); }
    assert TransactionRepository.FindById([tx], t) == Some(tx);
    VerdictOfFoundRows(both, [tx], t, tx);
  }

  /** `calculateBalance`: credits minus debits minus fees of the account;
      zero for an account without rows. */
  function CalculateBalance(ledger: seq<LedgerEntry>, accountId: Uuid): (balance: real)
    ensures (forall e | e in ledger :: e.accountId != Some(accountId)) ==> balance == 0.0
  {
    SumCreditsByAccount(ledger, accountId) - SumDebitsByAccount(ledger, accountId) - SumFeesByAccount(ledger, accountId)
  }

  /** The effect of the account's rows, one signed amount each. */
  function SignedTotal(rows: seq<LedgerEntry>): real
    decreases |rows|
  {
    if |rows| == 0 then 0.0 else SignedTotal(rows[..|rows| - 1]) + SignedAmount(rows[|rows| - 1])
  }

  /** Appending a row moves its account's ledger balance by the row's signed
      amount and leaves every other account's balance unchanged. */
  lemma BalanceAfterAppend(ledger: seq<LedgerEntry>, e: LedgerEntry, accountId: Uuid)
    ensures CalculateBalance(ledger + [e], accountId)
            == CalculateBalance(ledger, accountId) + (if e.accountId == Some(accountId) then SignedAmount(e) else 0.0)
  {
    SumAppend(ledger, e, OfAccountAndType(accountId, Debit));
    SumAppend(ledger, e, OfAccountAndType(accountId, Credit));
    SumAppend(ledger, e, OfAccountAndType(accountId, Fee));
    ExactlyOneType(e);
  }

  /** The balance is the sum of the signed amounts of the account's rows, in
      any of their stored orders. */
  lemma {:induction false} BalanceIsSignedTotal(ledger: seq<LedgerEntry>, accountId: Uuid)
    ensures CalculateBalance(ledger, accountId) == SignedTotal(RowsOfAccount(ledger, accountId))
    decreases |ledger|
  {
    if |ledger| > 0 {
      var init := ledger[..|ledger| - 1];
      var last := ledger[|ledger| - 1];
      assert ledger == init + [last];
      BalanceIsSignedTotal(init, accountId);
      BalanceAfterAppend(init, last, accountId);
      FilterAppend(init, last, OfAccount(accountId));
      var f := RowsOfAccount(init, accountId);
      if last.accountId == Some(accountId) {
        assert (f + [last])[..|f + [last]| - 1] == f;
      }
    }
  }

  /** The balance the ledger implies can be negative: a single debit on an
      account with no credit. */
  lemma BalanceCanBeNegative(e: LedgerEntry)
    requires e.accountId.Some? && e.entryType == Some(Debit) && e.amount == Some(1.0)
    ensures CalculateBalance([e], e.accountId.value) == -1.0
  {
    assert [e] == [] + [e];
    BalanceAfterAppend([], e, e.accountId.value);
    assert CalculateBalance([], e.accountId.value) == 0.0;
  }

  /** `validateAccountLedger`: true when the account has no rows, otherwise
      whether every transaction among its rows passes `validateDoubleEntry`. */
  function ValidateAccountLedger(ledger: seq<LedgerEntry>, txs: seq<Transactions.Transaction>, accountId: Uuid): (ok: bool)
    requires forall e | e in ledger :: Stored(e)
    requires forall t | t in txs :: Transactions.Stored(t)
    ensures ok <==> forall e | e in ledger && e.accountId == Some(accountId) && e.transactionId.Some?
                      :: ValidateDoubleEntry(ledger, txs, e.transactionId.value) == Ok(true)
  {
    assert forall e | e in ledger && e.accountId == Some(accountId) :: e.timestamp.Some? by {
      forall e | e in ledger && e.accountId == Some(accountId) ensures e.timestamp.Some? {
        assert Stored(e);
      }
    }
    var entries := FindByAccountIdOrderByTimestampAsc(ledger, accountId);
    if entries == [] then true
    else
      var ids := TransactionIds(entries);
      var ok := forall t | t in ids :: ValidateDoubleEntry(ledger, txs, t) == Ok(true);
      assert ok ==> forall e | e in ledger && e.accountId == Some(accountId) && e.transactionId.Some?
                      :: ValidateDoubleEntry(ledger, txs, e.transactionId.value) == Ok(true) by {
        if ok {
          forall e | e in ledger && e.accountId == Some(accountId) && e.transactionId.Some?
            ensures ValidateDoubleEntry(ledger, txs, e.transactionId.value) == Ok(true)
          {
            assert e in entries;
            assert e.transactionId.value in ids;
          }
        }
      }
      ok
  }

  /** The transaction ids among some rows (`map(getTransactionId)` collected
      to a set). */
  function TransactionIds(entries: seq<LedgerEntry>): (ids: set<Uuid>)
    ensures forall t | t in ids :: exists e | e in entries :: e.transactionId == Some(t)
  {
    set e | e in entries && e.transactionId.Some? :: e.transactionId.value
  }

  /** `verifyEntryImmutability`: whether an entry with that id exists; a
      null id is refused by `findById` itself. */
  function VerifyEntryImmutability(ledger: seq<LedgerEntry>, id: Option<Uuid>): (r: Result<bool>)
    ensures id.None? <==> r == Err(IllegalArgument(IdRequired))
    ensures id.Some? ==> r.Ok? && (r.value <==> exists e | e in ledger :: e.id == id)
  {
    match id
    case None => Err(IllegalArgument(IdRequired))
    case Some(k) => Ok(Find(ledger, HasId(k)).Some?)
  }

  /** Recording, merge or not, keeps every stored id findable and makes the
      returned entry findable by its id. */
  lemma RecordingKeepsEntries(ledger: seq<LedgerEntry>, entry: LedgerEntry, freshId: Uuid, now: Time, id: Uuid)
    requires RecordEntry(ledger, entry, freshId, now).Ok?
    ensures RecordEntry(ledger, entry, freshId, now).value.entry.id.Some?
    ensures VerifyEntryImmutability(RecordEntry(ledger, entry, freshId, now).value.ledger,
                                    RecordEntry(ledger, entry, freshId, now).value.entry.id) == Ok(true)
    ensures VerifyEntryImmutability(ledger, Some(id)) == Ok(true) ==>
              VerifyEntryImmutability(RecordEntry(ledger, entry, freshId, now).value.ledger, Some(id)) == Ok(true)
  {
    var r := RecordEntry(ledger, entry, freshId, now).value;
    if entry.id.Some? && IndexOfId(ledger, entry.id.value).Some? {
      var i := IndexOfId(ledger, entry.id.value).value;
      assert r.ledger[i] in r.ledger;
      if VerifyEntryImmutability(ledger, Some(id)) == Ok(true) {
        var k :| 0 <= k < |ledger| && ledger[k].id == Some(id);
        assert r.ledger[k] in r.ledger;
      }
    } else {
      assert r.entry in r.ledger;
      if VerifyEntryImmutability(ledger, Some(id)) == Ok(true) {
        var e :| e in ledger && e.id == Some(id);
        assert e in r.ledger;
      }
    }
  }
}
