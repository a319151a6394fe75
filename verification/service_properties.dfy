/** What the orchestrator keeps true. `Valid` is the state every sequence of
    calls, starting from empty tables, stays in: stored rows with every NOT
    NULL column filled and validated, unique ids and idempotency keys, ledger
    entries that point at existing accounts, and every transaction that has
    ledger entries passing the double-entry check. On top of it: replay,
    the guard, the shape of each successful movement, and the reconciliation
    of stored balances with the ledger. */
module AccountServiceProperties {
  import opened Base
  import opened MoneyValue
  import opened Seqs
  import A = Accounts
  import T = Transactions
  import L = LedgerEntries
  import LR = LedgerEntryRepository
  import TR = TransactionRepository
  import LS = LedgerService
  import I = Idempotency
  import opened AccountService

  /** A stored account: under its own id, older than the id counter, valid. */
  predicate AccountRow(accounts: map<Uuid, A.Account>, k: Uuid, nextId: Uuid)
    requires k in accounts
  {
    accounts[k].id == Some(k) && k < nextId && A.Validate(accounts[k]).Pass?
  }

  /** A stored transaction: NOT NULL columns filled, valid, id already drawn. */
  predicate TxRow(t: T.Transaction, nextId: Uuid) {
    T.Stored(t) && T.Validate(t).Pass? && t.id.value < nextId
  }

  /** A stored ledger entry: NOT NULL columns filled, valid, ids already
      drawn, on an existing account. */
  predicate EntryRow(e: L.LedgerEntry, accounts: map<Uuid, A.Account>, nextId: Uuid) {
    && L.Stored(e) && L.Validate(e).Pass?
    && e.id.value < nextId && e.transactionId.value < nextId
    && e.accountId.value in accounts
  }

  /** The double-entry check accepts the transaction a ledger row belongs to. */
  ghost predicate RowBalanced(ledger: seq<L.LedgerEntry>, txs: seq<T.Transaction>, e: L.LedgerEntry) {
    e.transactionId.Some? && LS.ValidateDoubleEntry(ledger, txs, e.transactionId.value) == Ok(true)
  }

  /** A transaction's status agrees with the ledger: a POSTED transaction has
      rows, a FAILED one has none. */
  predicate Booked(ledger: seq<L.LedgerEntry>, t: T.Transaction) {
    t.id.Some? ==>
      && (t.status == Some(T.Posted) ==> LR.FindByTransactionId(ledger, t.id.value) != [])
      && (t.status == Some(T.Failed) ==> LR.FindByTransactionId(ledger, t.id.value) == [])
  }

  /** The invariant of the bank. The verdicts are only looked at where a
      proof names a row's verdict. */
  ghost predicate Valid(b: Bank) {
    && (forall k | k in b.accounts :: AccountRow(b.accounts, k, b.nextId))
    && (forall t | t in b.transactions :: TxRow(t, b.nextId))
    && TR.UniqueIds(b.transactions) && TR.UniqueKeys(b.transactions)
    && (forall e | e in b.ledger :: EntryRow(e, b.accounts, b.nextId))
    && (forall e {:trigger RowBalanced(b.ledger, b.transactions, e)} | e in b.ledger :: RowBalanced(b.ledger, b.transactions, e))
    && (forall t {:trigger Booked(b.ledger, t)} | t in b.transactions :: Booked(b.ledger, t))
  }

  /** The state no call has touched yet. */
  function Empty(guard: I.Guard): Bank {
    Bank(map[], [], [], guard, 0)
  }

  lemma EmptyIsValid(guard: I.Guard)
    ensures Valid(Empty(guard))
  {
  }

  /** The stored balance of an account (zero for an unknown one). */
  function BalanceOf(b: Bank, k: Uuid): real {
    if k in b.accounts && b.accounts[k].balance.Some? then b.accounts[k].balance.value.amount else 0.0
  }

  /** Every stored balance moved by exactly what the ledger rows written in
      between say. */
  ghost predicate Reconciles(b: Bank, b': Bank) {
    forall k :: BalanceOf(b', k) - BalanceOf(b, k) == LS.CalculateBalance(b'.ledger, k) - LS.CalculateBalance(b.ledger, k)
  }

  /** Under `Valid` the double-entry validator accepts every account's ledger. */
  lemma LedgerAlwaysBalances(b: Bank, accountId: Uuid)
    requires Valid(b)
    ensures forall e | e in b.ledger :: L.Stored(e)
    ensures forall t | t in b.transactions :: T.Stored(t)
    ensures LS.ValidateAccountLedger(b.ledger, b.transactions, accountId)
  {
    assert forall e | e in b.ledger :: L.Stored(e) by {
      forall e | e in b.ledger ensures L.Stored(e) { assert EntryRow(e, b.accounts, b.nextId); }
    }
    assert forall t | t in b.transactions :: T.Stored(t) by {
      forall t | t in b.transactions ensures T.Stored(t) { assert TxRow(t, b.nextId); }
    }
    forall e | e in b.ledger && e.accountId == Some(accountId) && e.transactionId.Some?
      ensures LS.ValidateDoubleEntry(b.ledger, b.transactions, e.transactionId.value) == Ok(true)
    {
      assert RowBalanced(b.ledger, b.transactions, e);
    }
  }

  /** Appending rows of a transaction id that no entry carries yet leaves the
      double-entry verdict of every other transaction as it was. */
  lemma OtherVerdictsUnchanged(ledger: seq<L.LedgerEntry>, txs: seq<T.Transaction>, t: T.Transaction,
                               entries: seq<L.LedgerEntry>, tid: Uuid)
    requires t.id.Some? && Some(tid) != t.id
    requires forall e | e in entries :: e.transactionId == t.id
    ensures LS.ValidateDoubleEntry(ledger + entries, txs + [t], tid) == LS.ValidateDoubleEntry(ledger, txs, tid)
  {
    FilterConcat(ledger, entries, LR.OfTransaction(tid));
    FilterExtremes(entries, LR.OfTransaction(tid));
    assert ledger + entries == ledger + entries;
    assert LR.FindByTransactionId(ledger + entries, tid) == LR.FindByTransactionId(ledger, tid);
    FindAppend(txs, t, TR.HasId(tid));
    assert TR.FindById(txs + [t], tid) == TR.FindById(txs, tid);
  }

  /** The rows of a transaction whose id no earlier entry carries are the
      rows appended for it. */
  lemma RowsOfNewTransaction(ledger: seq<L.LedgerEntry>, entries: seq<L.LedgerEntry>, tid: Uuid)
    requires forall e | e in ledger :: e.transactionId != Some(tid)
    requires forall e | e in entries :: e.transactionId == Some(tid)
    ensures LR.FindByTransactionId(ledger + entries, tid) == entries
  {
    var p := LR.OfTransaction(tid);
    FilterConcat(ledger, entries, p);
    FilterExtremes(ledger, p);
    FilterExtremes(entries, p);
  }

  /** The verdict for the new transaction: its rows are exactly `entries`,
      and it is found by id. */
  lemma NewVerdict(ledger: seq<L.LedgerEntry>, txs: seq<T.Transaction>, t: T.Transaction, entries: seq<L.LedgerEntry>)
    requires t.id.Some? && t.txType.Some? && t.amount.Some?
    requires forall e | e in ledger :: e.transactionId != t.id
    requires forall u | u in txs :: u.id != t.id
    requires entries != [] && forall e | e in entries :: e.transactionId == t.id && e.amount.Some?
    ensures LS.ValidateDoubleEntry(ledger + entries, txs + [t], t.id.value)
            == Ok(LS.Balanced(t.txType.value, t.amount.value, entries))
  {
    var tid := t.id.value;
    RowsOfNewTransaction(ledger, entries, tid);
    FindAppend(txs, t, TR.HasId(tid));
    assert TR.FindById(txs, tid).None?;
  }

  /** What a money movement leaves behind relative to the state before it:
      one new transaction row under the id the counter supplied, carrying a
      key no stored row carries, the ledger rows written for it (balanced
      when there are any), and accounts that are still valid. */
  ghost predicate Extends(b: Bank, b': Bank, t: T.Transaction, entries: seq<L.LedgerEntry>) {
    && t.id == Some(b.nextId) && TxRow(t, b'.nextId) && b.nextId < b'.nextId
    && (forall u | u in b.transactions :: u.idempotencyKey != t.idempotencyKey)
    && b'.transactions == b.transactions + [t]
    && b'.ledger == b.ledger + entries
    && b.accounts.Keys <= b'.accounts.Keys
    && (forall k | k in b'.accounts :: AccountRow(b'.accounts, k, b'.nextId))
    && (forall e | e in entries :: e.transactionId == t.id && EntryRow(e, b'.accounts, b'.nextId))
    && (entries == [] || LS.Balanced(t.txType.value, t.amount.value, entries))
    && (t.status == Some(T.Posted) ==> entries != [])
    && (t.status == Some(T.Failed) ==> entries == [])
  }

  /** The new row's id and key are fresh, so both unique indexes survive. */
  lemma FreshRowKeepsIndexes(txs: seq<T.Transaction>, t: T.Transaction, nextId: Uuid)
    requires forall u | u in txs :: TxRow(u, nextId)
    requires TR.UniqueIds(txs) && TR.UniqueKeys(txs)
    requires t.id == Some(nextId)
    requires forall u | u in txs :: u.idempotencyKey != t.idempotencyKey
    ensures TR.UniqueIds(txs + [t]) && TR.UniqueKeys(txs + [t])
  {
    var s := txs + [t];
    forall i, j | 0 <= i < |s| && 0 <= j < |s| && s[i].id.Some? && s[i].id == s[j].id
      ensures i == j
    {
      if i < |txs| { assert TxRow(s[i], nextId); }
      if j < |txs| { assert TxRow(s[j], nextId); }
    }
    forall i, j | 0 <= i < |s| && 0 <= j < |s| && s[i].idempotencyKey.Some?
                  && s[i].idempotencyKey == s[j].idempotencyKey
      ensures i == j
    {
      if i < |txs| { assert s[i] in txs; }
      if j < |txs| { assert s[j] in txs; }
    }
  }

  /** Every double-entry verdict of the extended state is `Ok(true)`. */
  lemma ExtensionBalances(b: Bank, b': Bank, t: T.Transaction, entries: seq<L.LedgerEntry>)
    requires Valid(b) && Extends(b, b', t, entries)
    ensures forall e {:trigger RowBalanced(b'.ledger, b'.transactions, e)} | e in b'.ledger :: RowBalanced(b'.ledger, b'.transactions, e)
  {
    assert forall e | e in b.ledger :: e.transactionId != t.id by {
      forall e | e in b.ledger ensures e.transactionId != t.id { assert EntryRow(e, b.accounts, b.nextId); }
    }
    assert forall u | u in b.transactions :: u.id != t.id by {
      forall u | u in b.transactions ensures u.id != t.id { assert TxRow(u, b.nextId); }
    }
    forall e | e in b'.ledger
      ensures RowBalanced(b'.ledger, b'.transactions, e)
    {
      if e in b.ledger {
        assert EntryRow(e, b.accounts, b.nextId);
        assert RowBalanced(b.ledger, b.transactions, e);
        OtherVerdictsUnchanged(b.ledger, b.transactions, t, entries, e.transactionId.value);
      } else {
        assert e in entries;
        assert EntryRow(e, b'.accounts, b'.nextId);
        NewVerdict(b.ledger, b.transactions, t, entries);
      }
    }
  }

  /** Rows appended for the new transaction leave every earlier
      transaction's rows as they were, so the statuses still agree with the
      ledger. */
  lemma ExtensionKeepsBooks(b: Bank, b': Bank, t: T.Transaction, entries: seq<L.LedgerEntry>)
    requires Valid(b) && Extends(b, b', t, entries)
    ensures forall u {:trigger Booked(b'.ledger, u)} | u in b'.transactions :: Booked(b'.ledger, u)
  {
    assert forall e | e in b.ledger :: e.transactionId != t.id by {
      forall e | e in b.ledger ensures e.transactionId != t.id { assert EntryRow(e, b.accounts, b.nextId); }
    }
    forall u | u in b'.transactions
      ensures Booked(b'.ledger, u)
    {
      if u in b.transactions {
        assert TxRow(u, b.nextId) && Booked(b.ledger, u);
        var p := LR.OfTransaction(u.id.value);
        FilterConcat(b.ledger, entries, p);
        FilterExtremes(entries, p);
      } else {
        RowsOfNewTransaction(b.ledger, entries, t.id.value);
      }
    }
  }

  /** A movement that `Extends` a valid state leaves a valid state. */
  lemma ExtensionKeepsValid(b: Bank, b': Bank, t: T.Transaction, entries: seq<L.LedgerEntry>)
    requires Valid(b) && Extends(b, b', t, entries)
    ensures Valid(b')
  {
    forall u | u in b'.transactions ensures TxRow(u, b'.nextId) {
      if u in b.transactions { assert TxRow(u, b.nextId); }
    }
    FreshRowKeepsIndexes(b.transactions, t, b.nextId);
    forall e | e in b'.ledger ensures EntryRow(e, b'.accounts, b'.nextId) {
      if e in b.ledger { assert EntryRow(e, b.accounts, b.nextId); }
    }
    ExtensionBalances(b, b', t, entries);
    ExtensionKeepsBooks(b, b', t, entries);
  }

  /** Under `Valid`, every POSTED transaction passes the double-entry check
      and every FAILED one has no ledger row. */
  lemma PostedTransactionsBalance(b: Bank)
    requires Valid(b)
    ensures forall t | t in b.transactions && t.id.Some? && t.status == Some(T.Posted) ::
              LS.ValidateDoubleEntry(b.ledger, b.transactions, t.id.value) == Ok(true)
    ensures forall t | t in b.transactions && t.id.Some? && t.status == Some(T.Failed) ::
              LR.FindByTransactionId(b.ledger, t.id.value) == []
  {
    forall t | t in b.transactions && t.id.Some? && t.status == Some(T.Posted)
      ensures LS.ValidateDoubleEntry(b.ledger, b.transactions, t.id.value) == Ok(true)
    {
      assert Booked(b.ledger, t);
      var e := LR.FindByTransactionId(b.ledger, t.id.value)[0];
      assert e in LR.FindByTransactionId(b.ledger, t.id.value);
      assert RowBalanced(b.ledger, b.transactions, e);
    }
    forall t | t in b.transactions && t.id.Some? && t.status == Some(T.Failed)
      ensures LR.FindByTransactionId(b.ledger, t.id.value) == []
    {
      assert Booked(b.ledger, t);
    }
  }

  /** The guard is not part of the tables: changing it keeps a state valid. */
  lemma GuardIsOutsideTheTables(b: Bank, g: I.Guard)
    requires Valid(b)
    ensures Valid(b.(guard := g))
  {
  }

  /** The prologue against a valid state: a refusal leaves a valid state, and
      an admitted request's PENDING row is appended under the next id with a
      key no other row carries. */
  lemma AdmitKeepsValid(b: Bank, draft: T.Transaction, now: Time)
    requires Valid(b) && draft.id.None? && draft.status == Some(T.Pending)
    ensures Admit(b, draft, now).Refused? ==> Valid(Admit(b, draft, now).bank)
    ensures Admit(b, draft, now).Admitted? ==>
              && Admit(b, draft, now).bank.nextId == b.nextId + 1
              && Extends(b, Admit(b, draft, now).bank, Admit(b, draft, now).tx, [])
              && Valid(Admit(b, draft, now).bank)
  {
    var r := Admit(b, draft, now);
    if r.Refused? {
      GuardIsOutsideTheTables(b, r.bank.guard);
    } else if r.Admitted? {
      var tx := r.tx;
      assert forall i | 0 <= i < |b.transactions| :: b.transactions[i].id != tx.id by {
        forall i | 0 <= i < |b.transactions| ensures b.transactions[i].id != tx.id {
          assert TxRow(b.transactions[i], b.nextId);
        }
      }
      assert r.bank.transactions == b.transactions + [tx];
      forall k | k in r.bank.accounts ensures AccountRow(r.bank.accounts, k, r.bank.nextId) {
        assert AccountRow(b.accounts, k, b.nextId);
      }
      assert Extends(b, r.bank, tx, []);
      ExtensionKeepsValid(b, r.bank, tx, []);
    }
  }

  /** Debiting or crediting a valid account (a credit of a non-negative
      amount) leaves it valid and under the same id. */
  lemma MovementKeepsAccountValid(a: A.Account, m: Money)
    requires A.Validate(a).Pass?
    ensures A.Debit(a, m).Ok? ==> A.Validate(A.Debit(a, m).value).Pass? && A.Debit(a, m).value.id == a.id
    ensures A.Credit(a, m).Ok? && m.amount >= 0.0 ==>
              A.Validate(A.Credit(a, m).value).Pass? && A.Credit(a, m).value.id == a.id
  {
  }

  /** Saving a valid version of a stored account keeps every account row valid. */
  lemma SaveKeepsAccountRows(accounts: map<Uuid, A.Account>, id: Uuid, a: A.Account, now: Time, nextId: Uuid, nextId': Uuid)
    requires forall k | k in accounts :: AccountRow(accounts, k, nextId)
    requires id in accounts && a.id == Some(id) && A.Validate(a).Pass? && nextId <= nextId'
    ensures forall k | k in SaveAccount(accounts, id, a, now) :: AccountRow(SaveAccount(accounts, id, a, now), k, nextId')
  {
    var r := SaveAccount(accounts, id, a, now);
    forall k | k in r ensures AccountRow(r, k, nextId') {
      assert AccountRow(accounts, k, nextId);
    }
  }

  /** After admission, whatever the rest of a movement saves over its PENDING
      row (nothing, the POSTED version or the FAILED version), the rows that
      were there before the call are untouched and exactly one row was
      added. */
  lemma AdmittedHistory(b0: Bank, b: Bank, tx: T.Transaction, now: Time, freshId: Uuid, txs: seq<T.Transaction>)
    requires AdmittedFrom(b0, b, tx)
    requires || txs == b.transactions
             || txs == TR.Save(b.transactions, T.MarkAsPosted(tx, now), freshId, now).0
             || txs == TR.Save(b.transactions, T.MarkAsFailed(tx, now), freshId, now).0
    ensures b0.transactions <= txs && |txs| == |b0.transactions| + 1
  {
    NextIdIsFresh(b0);
    TR.SaveThenUpdate(b0.transactions, tx, T.MarkAsPosted(tx, now));
    TR.SaveThenUpdate(b0.transactions, tx, T.MarkAsFailed(tx, now));
  }

  /** The state an admitted request of `b0` continues from. */
  ghost predicate AdmittedFrom(b0: Bank, b: Bank, tx: T.Transaction) {
    && Valid(b0) && Extends(b0, b, tx, []) && Admissible(tx)
    && b.nextId == b0.nextId + 1 && b.ledger == b0.ledger && b.accounts == b0.accounts
  }

  /** Account `k`, if stored, is a valid row. */
  predicate StoredRow(b: Bank, k: Uuid) {
    k in b.accounts ==> AccountRow(b.accounts, k, b.nextId)
  }

  /** An account of a valid state stays a valid row once the counter has
      moved on. */
  lemma AdmittedRowIsStored(b0: Bank, b: Bank, k: Uuid)
    requires Valid(b0) && b.accounts == b0.accounts && b.nextId >= b0.nextId
    ensures StoredRow(b, k)
  {
    if k in b.accounts {
      assert AccountRow(b0.accounts, k, b0.nextId);
    }
  }

  /** No stored transaction carries the id the counter supplies next. */
  lemma NextIdIsFresh(b: Bank)
    requires Valid(b)
    ensures forall i | 0 <= i < |b.transactions| :: b.transactions[i].id != Some(b.nextId)
  {
    forall i | 0 <= i < |b.transactions| ensures b.transactions[i].id != Some(b.nextId) {
      assert TxRow(b.transactions[i], b.nextId);
    }
  }

  /** A declined request: only its FAILED row is added. */
  lemma DeclineKeepsValid(b0: Bank, b: Bank, tx: T.Transaction, required: real, available: real, now: Time)
    requires AdmittedFrom(b0, b, tx)
    ensures Valid(Decline(b, tx, required, available, now).bank)
  {
    var failed := T.MarkAsFailed(tx, now);
    var b' := Decline(b, tx, required, available, now).bank;
    NextIdIsFresh(b0);
    TR.SaveThenUpdate(b0.transactions, tx, failed);
    T.MarkingKeepsRequest(tx, now);
    assert Extends(b0, b', failed, []);
    ExtensionKeepsValid(b0, b', failed, []);
  }

  /** What a movement that goes through writes before it posts: accounts
      that are all still valid, and rows for the transaction that are stored,
      valid, on existing accounts, and balanced by the rule of its type. */
  ghost predicate Postings(b: Bank, tx: T.Transaction, accounts: map<Uuid, A.Account>,
                           entries: seq<L.LedgerEntry>, nextId: Uuid) {
    && b.nextId <= nextId && b.accounts.Keys <= accounts.Keys
    && (forall k | k in accounts :: AccountRow(accounts, k, nextId))
    && (forall e | e in entries :: e.transactionId == tx.id && EntryRow(e, accounts, nextId))
    && entries != [] && tx.txType.Some? && tx.amount.Some?
    && LS.Balanced(tx.txType.value, tx.amount.value, entries)
  }

  /** A posted movement: only the POSTED version of the transaction is added
      next to its postings. */
  lemma PostKeepsValid(b0: Bank, b: Bank, tx: T.Transaction, accounts: map<Uuid, A.Account>,
                       entries: seq<L.LedgerEntry>, nextId: Uuid, now: Time)
    requires AdmittedFrom(b0, b, tx) && Postings(b, tx, accounts, entries, nextId)
    ensures Valid(Post(b.(accounts := accounts, ledger := b.ledger + entries, nextId := nextId), tx, now).bank)
  {
    var posted := T.MarkAsPosted(tx, now);
    var b' := Post(b.(accounts := accounts, ledger := b.ledger + entries, nextId := nextId), tx, now).bank;
    NextIdIsFresh(b0);
    TR.SaveThenUpdate(b0.transactions, tx, posted);
    T.MarkingKeepsRequest(tx, now);
    assert b'.transactions == b0.transactions + [posted];
    assert Extends(b0, b', posted, entries);
    ExtensionKeepsValid(b0, b', posted, entries);
  }

  /** The row `recordDebit` or `recordCredit` writes for `tx` on account
      `id` under the fresh id `freshId`. */
  function Row(tx: T.Transaction, t: L.EntryType, id: Uuid, freshId: Uuid, now: Time): L.LedgerEntry {
    L.LedgerEntry(Some(freshId), tx.id, Some(id), Some(t), tx.amount, tx.currency, Some(now))
  }

  /** For an admissible transaction, `RecordMovement` accepts the row and
      appends it; the row is a stored, valid row on the account. */
  lemma MovementRow(tx: T.Transaction, t: L.EntryType, id: Uuid, accounts: map<Uuid, A.Account>,
                    ledger: seq<L.LedgerEntry>, freshId: Uuid, nextId: Uuid, now: Time)
    requires Admissible(tx) && tx.id.value < nextId && freshId < nextId && id in accounts
    ensures LS.RecordMovement(ledger, t, tx.id, Some(id), tx.amount, tx.currency, freshId, now)
            == Ok(LS.Recorded(ledger + [Row(tx, t, id, freshId, now)], Row(tx, t, id, freshId, now)))
    ensures EntryRow(Row(tx, t, id, freshId, now), accounts, nextId)
  {
  }

  /** The ways `withdraw` ends after the prologue on an account that exists
      and is valid: declined when the balance is short, posted with one DEBIT
      row when the debit goes through, and otherwise thrown with no further
      write. */
  lemma WithdrawalOutcomes(b: Bank, tx: T.Transaction, now: Time)
    requires Admissible(tx) && tx.txType == Some(T.Withdrawal)
    requires tx.sourceAccountId.value in b.accounts
    requires A.Validate(b.accounts[tx.sourceAccountId.value]).Pass?
    ensures var id := tx.sourceAccountId.value;
            var account := b.accounts[id];
            var m := Money(tx.amount.value, tx.currency.value);
            var s := CompleteWithdrawal(b, tx, now);
            && (IsGreaterThanOrEqual(account.balance.value, m) == Ok(false) ==>
                  s == Decline(b, tx, m.amount, account.balance.value.amount, now))
            && (IsGreaterThanOrEqual(account.balance.value, m) == Ok(true) && A.Debit(account, m).Ok? ==>
                  s == Post(b.(accounts := SaveAccount(b.accounts, id, A.Debit(account, m).value, now),
                               ledger := b.ledger + [Row(tx, L.Debit, id, b.nextId, now)],
                               nextId := b.nextId + 1), tx, now))
            && (IsGreaterThanOrEqual(account.balance.value, m).Err?
                || (IsGreaterThanOrEqual(account.balance.value, m) == Ok(true) && A.Debit(account, m).Err?) ==>
                  s.bank == b)
  {
  }

  /** A withdrawal whose debit goes through writes valid postings. */
  lemma WithdrawalPostings(b: Bank, tx: T.Transaction, now: Time)
    requires Admissible(tx) && tx.txType == Some(T.Withdrawal) && tx.id.value < b.nextId
    requires forall k | k in b.accounts :: AccountRow(b.accounts, k, b.nextId)
    requires tx.sourceAccountId.value in b.accounts
    requires A.Debit(b.accounts[tx.sourceAccountId.value], Money(tx.amount.value, tx.currency.value)).Ok?
    ensures var id := tx.sourceAccountId.value;
            var accounts := SaveAccount(b.accounts, id, A.Debit(b.accounts[id], Money(tx.amount.value, tx.currency.value)).value, now);
            Postings(b, tx, accounts, [Row(tx, L.Debit, id, b.nextId, now)], b.nextId + 1)
  {
    var id := tx.sourceAccountId.value;
    var m := Money(tx.amount.value, tx.currency.value);
    var account := b.accounts[id];
    assert AccountRow(b.accounts, id, b.nextId);
    var debited := A.Debit(account, m).value;
    MovementKeepsAccountValid(account, m);
    var accounts := SaveAccount(b.accounts, id, debited, now);
    SaveKeepsAccountRows(b.accounts, id, debited, now, b.nextId, b.nextId + 1);
    MovementRow(tx, L.Debit, id, accounts, b.ledger, b.nextId, b.nextId + 1, now);
    LS.WithdrawalRowBalances(Row(tx, L.Debit, id, b.nextId, now), tx.amount.value);
  }

  /** A withdrawal whose debit goes through posts onto a valid state. */
  lemma PostedWithdrawalKeepsValid(b0: Bank, b: Bank, tx: T.Transaction, now: Time)
    requires AdmittedFrom(b0, b, tx) && tx.txType == Some(T.Withdrawal)
    requires tx.sourceAccountId.value in b.accounts
    requires A.Debit(b.accounts[tx.sourceAccountId.value], Money(tx.amount.value, tx.currency.value)).Ok?
    ensures var id := tx.sourceAccountId.value;
            var m := Money(tx.amount.value, tx.currency.value);
            Valid(Post(b.(accounts := SaveAccount(b.accounts, id, A.Debit(b.accounts[id], m).value, now),
                          ledger := b.ledger + [Row(tx, L.Debit, id, b.nextId, now)],
                          nextId := b.nextId + 1), tx, now).bank)
  {
    var id := tx.sourceAccountId.value;
    var m := Money(tx.amount.value, tx.currency.value);
    AdmittedWithdrawalPostings(b0, b, tx, now);
    PostKeepsValid(b0, b, tx, SaveAccount(b.accounts, id, A.Debit(b.accounts[id], m).value, now),
                   [Row(tx, L.Debit, id, b.nextId, now)], b.nextId + 1, now);
  }

  /** `WithdrawalPostings` for a transaction `Admit` has just stored. */
  lemma AdmittedWithdrawalPostings(b0: Bank, b: Bank, tx: T.Transaction, now: Time)
    requires AdmittedFrom(b0, b, tx) && tx.txType == Some(T.Withdrawal)
    requires tx.sourceAccountId.value in b.accounts
    requires A.Debit(b.accounts[tx.sourceAccountId.value], Money(tx.amount.value, tx.currency.value)).Ok?
    ensures var id := tx.sourceAccountId.value;
            var m := Money(tx.amount.value, tx.currency.value);
            Postings(b, tx, SaveAccount(b.accounts, id, A.Debit(b.accounts[id], m).value, now),
                     [Row(tx, L.Debit, id, b.nextId, now)], b.nextId + 1)
  {
    assert forall k | k in b.accounts :: AccountRow(b.accounts, k, b.nextId);
    WithdrawalPostings(b, tx, now);
  }

  /** The rest of `withdraw` keeps a valid state valid, whichever way it ends. */
  lemma CompleteWithdrawalKeepsValid(b0: Bank, b: Bank, tx: T.Transaction, now: Time)
    requires AdmittedFrom(b0, b, tx) && tx.txType == Some(T.Withdrawal)
    ensures Valid(CompleteWithdrawal(b, tx, now).bank)
  {
    var s := CompleteWithdrawal(b, tx, now);
    var id := tx.sourceAccountId.value;
    var m := Money(tx.amount.value, tx.currency.value);
    if id !in b.accounts {
      assert s.bank == b;
      ExtensionKeepsValid(b0, b, tx, []);
    } else {
      var account := b.accounts[id];
      assert AccountRow(b.accounts, id, b.nextId);
      WithdrawalOutcomes(b, tx, now);
      var balance := account.balance.value;
      if IsGreaterThanOrEqual(balance, m) == Ok(false) {
        DeclineKeepsValid(b0, b, tx, m.amount, balance.amount, now);
      } else if IsGreaterThanOrEqual(balance, m) == Ok(true) && A.Debit(account, m).Ok? {
        PostedWithdrawalKeepsValid(b0, b, tx, now);
      } else {
        ExtensionKeepsValid(b0, b, tx, []);
      }
    }
  }

  /** The ways `deposit` ends after the prologue on an account that exists:
      posted with one CREDIT row when the credit goes through, otherwise
      thrown with no further write. */
  lemma DepositOutcomes(b: Bank, tx: T.Transaction, now: Time)
    requires Admissible(tx) && tx.txType == Some(T.Deposit)
    requires tx.destinationAccountId.value in b.accounts
    ensures var id := tx.destinationAccountId.value;
            var m := Money(tx.amount.value, tx.currency.value);
            var s := CompleteDeposit(b, tx, now);
            && (A.Credit(b.accounts[id], m).Ok? ==>
                  s == Post(b.(accounts := SaveAccount(b.accounts, id, A.Credit(b.accounts[id], m).value, now),
                               ledger := b.ledger + [Row(tx, L.Credit, id, b.nextId, now)],
                               nextId := b.nextId + 1), tx, now))
            && (A.Credit(b.accounts[id], m).Err? ==> s.bank == b)
  {
  }

  /** A deposit whose credit goes through writes valid postings. */
  lemma DepositPostings(b: Bank, tx: T.Transaction, now: Time)
    requires Admissible(tx) && tx.txType == Some(T.Deposit) && tx.id.value < b.nextId
    requires forall k | k in b.accounts :: AccountRow(b.accounts, k, b.nextId)
    requires tx.destinationAccountId.value in b.accounts
    requires A.Credit(b.accounts[tx.destinationAccountId.value], Money(tx.amount.value, tx.currency.value)).Ok?
    ensures var id := tx.destinationAccountId.value;
            var accounts := SaveAccount(b.accounts, id, A.Credit(b.accounts[id], Money(tx.amount.value, tx.currency.value)).value, now);
            Postings(b, tx, accounts, [Row(tx, L.Credit, id, b.nextId, now)], b.nextId + 1)
  {
    var id := tx.destinationAccountId.value;
    var m := Money(tx.amount.value, tx.currency.value);
    var account := b.accounts[id];
    assert AccountRow(b.accounts, id, b.nextId);
    var credited := A.Credit(account, m).value;
    MovementKeepsAccountValid(account, m);
    var accounts := SaveAccount(b.accounts, id, credited, now);
    SaveKeepsAccountRows(b.accounts, id, credited, now, b.nextId, b.nextId + 1);
    MovementRow(tx, L.Credit, id, accounts, b.ledger, b.nextId, b.nextId + 1, now);
    LS.DepositRowBalances(Row(tx, L.Credit, id, b.nextId, now), tx.amount.value);
  }

  /** A deposit whose credit goes through posts onto a valid state. */
  lemma PostedDepositKeepsValid(b0: Bank, b: Bank, tx: T.Transaction, now: Time)
    requires AdmittedFrom(b0, b, tx) && tx.txType == Some(T.Deposit)
    requires tx.destinationAccountId.value in b.accounts
    requires A.Credit(b.accounts[tx.destinationAccountId.value], Money(tx.amount.value, tx.currency.value)).Ok?
    ensures var id := tx.destinationAccountId.value;
            var m := Money(tx.amount.value, tx.currency.value);
            Valid(Post(b.(accounts := SaveAccount(b.accounts, id, A.Credit(b.accounts[id], m).value, now),
                          ledger := b.ledger + [Row(tx, L.Credit, id, b.nextId, now)],
                          nextId := b.nextId + 1), tx, now).bank)
  {
    var id := tx.destinationAccountId.value;
    var m := Money(tx.amount.value, tx.currency.value);
    AdmittedDepositPostings(b0, b, tx, now);
    PostKeepsValid(b0, b, tx, SaveAccount(b.accounts, id, A.Credit(b.accounts[id], m).value, now),
                   [Row(tx, L.Credit, id, b.nextId, now)], b.nextId + 1, now);
  }

  /** `DepositPostings` for a transaction `Admit` has just stored. */
  lemma AdmittedDepositPostings(b0: Bank, b: Bank, tx: T.Transaction, now: Time)
    requires AdmittedFrom(b0, b, tx) && tx.txType == Some(T.Deposit)
    requires tx.destinationAccountId.value in b.accounts
    requires A.Credit(b.accounts[tx.destinationAccountId.value], Money(tx.amount.value, tx.currency.value)).Ok?
    ensures var id := tx.destinationAccountId.value;
            var m := Money(tx.amount.value, tx.currency.value);
            Postings(b, tx, SaveAccount(b.accounts, id, A.Credit(b.accounts[id], m).value, now),
                     [Row(tx, L.Credit, id, b.nextId, now)], b.nextId + 1)
  {
    assert forall k | k in b.accounts :: AccountRow(b.accounts, k, b.nextId);
    DepositPostings(b, tx, now);
  }

  /** The rest of `deposit` keeps a valid state valid, whichever way it ends. */
  lemma CompleteDepositKeepsValid(b0: Bank, b: Bank, tx: T.Transaction, now: Time)
    requires AdmittedFrom(b0, b, tx) && tx.txType == Some(T.Deposit)
    ensures Valid(CompleteDeposit(b, tx, now).bank)
  {
    var s := CompleteDeposit(b, tx, now);
    var id := tx.destinationAccountId.value;
    var m := Money(tx.amount.value, tx.currency.value);
    if id !in b.accounts {
      assert s.bank == b;
      ExtensionKeepsValid(b0, b, tx, []);
    } else {
      DepositOutcomes(b, tx, now);
      if A.Credit(b.accounts[id], m).Ok? {
        PostedDepositKeepsValid(b0, b, tx, now);
      } else {
        ExtensionKeepsValid(b0, b, tx, []);
      }
    }
  }

  /** Locking in id order and then resolving roles by id hands back the
      source and the destination, whichever of them was locked first. */
  lemma LockedRolesResolve(accounts: map<Uuid, A.Account>, src: Uuid, dst: Uuid)
    requires src != dst && src in accounts && dst in accounts
    requires accounts[src].id == Some(src) && accounts[dst].id == Some(dst)
    ensures Resolve(src, accounts[LockOrder(src, dst).0], accounts[LockOrder(src, dst).1]) == accounts[src]
    ensures Resolve(dst, accounts[LockOrder(src, dst).0], accounts[LockOrder(src, dst).1]) == accounts[dst]
  {
  }

  /** The accounts a transfer saves: the debited source, then the credited
      destination. */
  function Transferred(accounts: map<Uuid, A.Account>, tx: T.Transaction, now: Time): map<Uuid, A.Account>
    requires Admissible(tx) && tx.txType == Some(T.Transfer)
    requires tx.sourceAccountId.value in accounts && tx.destinationAccountId.value in accounts
    requires A.Debit(accounts[tx.sourceAccountId.value], Money(tx.amount.value, tx.currency.value)).Ok?
    requires A.Credit(accounts[tx.destinationAccountId.value], Money(tx.amount.value, tx.currency.value)).Ok?
  {
    var m := Money(tx.amount.value, tx.currency.value);
    var src := tx.sourceAccountId.value;
    var dst := tx.destinationAccountId.value;
    SaveAccount(SaveAccount(accounts, src, A.Debit(accounts[src], m).value, now), dst, A.Credit(accounts[dst], m).value, now)
  }

  /** The two rows a transfer writes: a DEBIT on the source under the next
      id, then a CREDIT on the destination under the one after. */
  function TransferRows(b: Bank, tx: T.Transaction, now: Time): seq<L.LedgerEntry>
    requires tx.sourceAccountId.Some? && tx.destinationAccountId.Some?
  {
    [Row(tx, L.Debit, tx.sourceAccountId.value, b.nextId, now), Row(tx, L.Credit, tx.destinationAccountId.value, b.nextId + 1, now)]
  }

  /** The ways `transfer` ends after the prologue on two accounts that exist:
      declined when the source is short, posted with a DEBIT on the source
      and a CREDIT on the destination when both movements go through, and
      otherwise thrown with no further write. */
  lemma TransferOutcomes(b: Bank, tx: T.Transaction, now: Time)
    requires Admissible(tx) && tx.txType == Some(T.Transfer)
    requires tx.sourceAccountId.value in b.accounts && tx.destinationAccountId.value in b.accounts
    requires b.accounts[tx.sourceAccountId.value].id == tx.sourceAccountId
    requires b.accounts[tx.destinationAccountId.value].id == tx.destinationAccountId
    requires A.Validate(b.accounts[tx.sourceAccountId.value]).Pass?
    ensures var src := tx.sourceAccountId.value;
            var dst := tx.destinationAccountId.value;
            var source := b.accounts[src];
            var m := Money(tx.amount.value, tx.currency.value);
            var s := CompleteTransfer(b, tx, now);
            && (IsGreaterThanOrEqual(source.balance.value, m) == Ok(false) ==>
                  s == Decline(b, tx, m.amount, source.balance.value.amount, now))
            && (IsGreaterThanOrEqual(source.balance.value, m) == Ok(true) && A.Debit(source, m).Ok?
                && A.Credit(b.accounts[dst], m).Ok? ==>
                  s == Post(b.(accounts := Transferred(b.accounts, tx, now), ledger := b.ledger + TransferRows(b, tx, now),
                               nextId := b.nextId + 2), tx, now))
            && (IsGreaterThanOrEqual(source.balance.value, m).Err?
                || (IsGreaterThanOrEqual(source.balance.value, m) == Ok(true)
                    && (A.Debit(source, m).Err? || A.Credit(b.accounts[dst], m).Err?)) ==>
                  s.bank == b)
  {
    LockedRolesResolve(b.accounts, tx.sourceAccountId.value, tx.destinationAccountId.value);
    TransferOutcomeDeclined(b, tx, now);
    TransferOutcomePosted(b, tx, now);
  }

  /** The declined case of `TransferOutcomes`. */
  lemma TransferOutcomeDeclined(b: Bank, tx: T.Transaction, now: Time)
    requires Admissible(tx) && tx.txType == Some(T.Transfer)
    requires tx.sourceAccountId.value in b.accounts && tx.destinationAccountId.value in b.accounts
    requires b.accounts[tx.sourceAccountId.value].id == tx.sourceAccountId
    requires b.accounts[tx.destinationAccountId.value].id == tx.destinationAccountId
    requires A.Validate(b.accounts[tx.sourceAccountId.value]).Pass?
    ensures var source := b.accounts[tx.sourceAccountId.value];
            var m := Money(tx.amount.value, tx.currency.value);
            IsGreaterThanOrEqual(source.balance.value, m) == Ok(false) ==>
              CompleteTransfer(b, tx, now) == Decline(b, tx, m.amount, source.balance.value.amount, now)
  {
    LockedRolesResolve(b.accounts, tx.sourceAccountId.value, tx.destinationAccountId.value);
  }

  /** The posted case of `TransferOutcomes`. */
  lemma TransferOutcomePosted(b: Bank, tx: T.Transaction, now: Time)
    requires Admissible(tx) && tx.txType == Some(T.Transfer)
    requires tx.sourceAccountId.value in b.accounts && tx.destinationAccountId.value in b.accounts
    requires b.accounts[tx.sourceAccountId.value].id == tx.sourceAccountId
    requires b.accounts[tx.destinationAccountId.value].id == tx.destinationAccountId
    requires A.Validate(b.accounts[tx.sourceAccountId.value]).Pass?
    ensures var source := b.accounts[tx.sourceAccountId.value];
            var m := Money(tx.amount.value, tx.currency.value);
            IsGreaterThanOrEqual(source.balance.value, m) == Ok(true) && A.Debit(source, m).Ok?
            && A.Credit(b.accounts[tx.destinationAccountId.value], m).Ok? ==>
              CompleteTransfer(b, tx, now)
              == Post(b.(accounts := Transferred(b.accounts, tx, now), ledger := b.ledger + TransferRows(b, tx, now),
                         nextId := b.nextId + 2), tx, now)
  {
    LockedRolesResolve(b.accounts, tx.sourceAccountId.value, tx.destinationAccountId.value);
    assert b.ledger + [Row(tx, L.Debit, tx.sourceAccountId.value, b.nextId, now)]
                    + [Row(tx, L.Credit, tx.destinationAccountId.value, b.nextId + 1, now)]
           == b.ledger + TransferRows(b, tx, now);
  }

  /** A transfer whose debit and credit both go through writes valid postings. */
  lemma TransferPostings(b: Bank, tx: T.Transaction, now: Time)
    requires Admissible(tx) && tx.txType == Some(T.Transfer) && tx.id.value < b.nextId
    requires forall k | k in b.accounts :: AccountRow(b.accounts, k, b.nextId)
    requires tx.sourceAccountId.value in b.accounts && tx.destinationAccountId.value in b.accounts
    requires A.Debit(b.accounts[tx.sourceAccountId.value], Money(tx.amount.value, tx.currency.value)).Ok?
    requires A.Credit(b.accounts[tx.destinationAccountId.value], Money(tx.amount.value, tx.currency.value)).Ok?
    ensures Postings(b, tx, Transferred(b.accounts, tx, now), TransferRows(b, tx, now), b.nextId + 2)
  {
    var src := tx.sourceAccountId.value;
    var dst := tx.destinationAccountId.value;
    var m := Money(tx.amount.value, tx.currency.value);
    var source := b.accounts[src];
    var destination := b.accounts[dst];
    assert AccountRow(b.accounts, src, b.nextId);
    assert AccountRow(b.accounts, dst, b.nextId);
    var debited := A.Debit(source, m).value;
    var credited := A.Credit(destination, m).value;
    MovementKeepsAccountValid(source, m);
    MovementKeepsAccountValid(destination, m);
    var accounts1 := SaveAccount(b.accounts, src, debited, now);
    SaveKeepsAccountRows(b.accounts, src, debited, now, b.nextId, b.nextId + 2);
    var accounts := SaveAccount(accounts1, dst, credited, now);
    SaveKeepsAccountRows(accounts1, dst, credited, now, b.nextId + 2, b.nextId + 2);
    assert accounts == Transferred(b.accounts, tx, now);
    MovementRow(tx, L.Debit, src, accounts, b.ledger, b.nextId, b.nextId + 2, now);
    MovementRow(tx, L.Credit, dst, accounts, b.ledger, b.nextId + 1, b.nextId + 2, now);
    LS.TransferRowsBalance(Row(tx, L.Debit, src, b.nextId, now), Row(tx, L.Credit, dst, b.nextId + 1, now), tx.amount.value);
  }

  /** A transfer whose debit and credit both go through posts onto a valid
      state. */
  lemma PostedTransferKeepsValid(b0: Bank, b: Bank, tx: T.Transaction, now: Time)
    requires AdmittedFrom(b0, b, tx) && tx.txType == Some(T.Transfer)
    requires tx.sourceAccountId.value in b.accounts && tx.destinationAccountId.value in b.accounts
    requires A.Debit(b.accounts[tx.sourceAccountId.value], Money(tx.amount.value, tx.currency.value)).Ok?
    requires A.Credit(b.accounts[tx.destinationAccountId.value], Money(tx.amount.value, tx.currency.value)).Ok?
    ensures Valid(Post(b.(accounts := Transferred(b.accounts, tx, now), ledger := b.ledger + TransferRows(b, tx, now),
                          nextId := b.nextId + 2), tx, now).bank)
  {
    AdmittedTransferPostings(b0, b, tx, now);
    PostKeepsValid(b0, b, tx, Transferred(b.accounts, tx, now), TransferRows(b, tx, now), b.nextId + 2, now);
  }

  /** `TransferPostings` for a transaction `Admit` has just stored. */
  lemma AdmittedTransferPostings(b0: Bank, b: Bank, tx: T.Transaction, now: Time)
    requires AdmittedFrom(b0, b, tx) && tx.txType == Some(T.Transfer)
    requires tx.sourceAccountId.value in b.accounts && tx.destinationAccountId.value in b.accounts
    requires A.Debit(b.accounts[tx.sourceAccountId.value], Money(tx.amount.value, tx.currency.value)).Ok?
    requires A.Credit(b.accounts[tx.destinationAccountId.value], Money(tx.amount.value, tx.currency.value)).Ok?
    ensures Postings(b, tx, Transferred(b.accounts, tx, now), TransferRows(b, tx, now), b.nextId + 2)
  {
    assert forall k | k in b.accounts :: AccountRow(b.accounts, k, b.nextId);
    TransferPostings(b, tx, now);
  }

  /** The rest of `transfer` keeps a valid state valid, whichever way it ends. */
  lemma CompleteTransferKeepsValid(b0: Bank, b: Bank, tx: T.Transaction, now: Time)
    requires AdmittedFrom(b0, b, tx) && tx.txType == Some(T.Transfer)
    ensures Valid(CompleteTransfer(b, tx, now).bank)
  {
    var s := CompleteTransfer(b, tx, now);
    var src := tx.sourceAccountId.value;
    var dst := tx.destinationAccountId.value;
    var m := Money(tx.amount.value, tx.currency.value);
    if src !in b.accounts || dst !in b.accounts {
      assert s.bank == b;
      ExtensionKeepsValid(b0, b, tx, []);
    } else {
      var source := b.accounts[src];
      assert AccountRow(b.accounts, src, b.nextId);
      assert AccountRow(b.accounts, dst, b.nextId);
      TransferOutcomes(b, tx, now);
      var balance := source.balance.value;
      if IsGreaterThanOrEqual(balance, m) == Ok(false) {
        DeclineKeepsValid(b0, b, tx, m.amount, balance.amount, now);
      } else if IsGreaterThanOrEqual(balance, m) == Ok(true) && A.Debit(source, m).Ok? && A.Credit(b.accounts[dst], m).Ok? {
        PostedTransferKeepsValid(b0, b, tx, now);
      } else {
        ExtensionKeepsValid(b0, b, tx, []);
      }
    }
  }

  /** `createAccount` keeps a valid state valid: the new account is stored
      under the next id and nothing else changes. */
  lemma CreateAccountPreservesValid(b: Bank, holderName: Option<string>, initialBalance: real, currency: string, now: Time)
    requires Valid(b)
    ensures Valid(CreateAccount(b, holderName, initialBalance, currency, now).bank)
  {
    var s := CreateAccount(b, holderName, initialBalance, currency, now);
    if s.result.Ok? {
      var b' := s.bank;
      forall k | k in b'.accounts ensures AccountRow(b'.accounts, k, b'.nextId) {
        if k != b.nextId { assert AccountRow(b.accounts, k, b.nextId); }
      }
      forall t | t in b'.transactions ensures TxRow(t, b'.nextId) { assert TxRow(t, b.nextId); }
      forall e | e in b'.ledger ensures EntryRow(e, b'.accounts, b'.nextId) { assert EntryRow(e, b.accounts, b.nextId); }
    }
  }

  /** `withdraw` keeps a valid state valid, whichever way it ends. */
  lemma WithdrawPreservesValid(b: Bank, accountId: Option<Uuid>, amount: Option<real>, currency: Option<string>,
                               key: Option<Uuid>, initiatedBy: Option<string>, now: Time)
    requires Valid(b)
    ensures Valid(Withdraw(b, accountId, amount, currency, key, initiatedBy, now).bank)
    ensures b.transactions <= Withdraw(b, accountId, amount, currency, key, initiatedBy, now).bank.transactions
    ensures |Withdraw(b, accountId, amount, currency, key, initiatedBy, now).bank.transactions| <= |b.transactions| + 1
  {
    var draft := T.Request(T.Withdrawal, accountId, None, amount, currency, key, initiatedBy);
    AdmitKeepsValid(b, draft, now);
    var r := Admit(b, draft, now);
    if r.Admitted? {
      CompleteWithdrawalKeepsValid(b, r.bank, r.tx, now);
      AdmittedHistory(b, r.bank, r.tx, now, CompleteWithdrawal(r.bank, r.tx, now).bank.nextId,
                      CompleteWithdrawal(r.bank, r.tx, now).bank.transactions);
    }
  }

  /** `deposit` keeps a valid state valid, whichever way it ends. */
  lemma DepositPreservesValid(b: Bank, accountId: Option<Uuid>, amount: Option<real>, currency: Option<string>,
                              key: Option<Uuid>, initiatedBy: Option<string>, now: Time)
    requires Valid(b)
    ensures Valid(Deposit(b, accountId, amount, currency, key, initiatedBy, now).bank)
    ensures b.transactions <= Deposit(b, accountId, amount, currency, key, initiatedBy, now).bank.transactions
    ensures |Deposit(b, accountId, amount, currency, key, initiatedBy, now).bank.transactions| <= |b.transactions| + 1
  {
    var draft := T.Request(T.Deposit, None, accountId, amount, currency, key, initiatedBy);
    AdmitKeepsValid(b, draft, now);
    var r := Admit(b, draft, now);
    if r.Admitted? {
      CompleteDepositKeepsValid(b, r.bank, r.tx, now);
      AdmittedHistory(b, r.bank, r.tx, now, CompleteDeposit(r.bank, r.tx, now).bank.nextId,
                      CompleteDeposit(r.bank, r.tx, now).bank.transactions);
    }
  }

  /** `transfer` keeps a valid state valid, whichever way it ends. */
  lemma TransferPreservesValid(b: Bank, sourceId: Option<Uuid>, destinationId: Option<Uuid>, amount: Option<real>,
                               currency: Option<string>, key: Option<Uuid>, initiatedBy: Option<string>, now: Time)
    requires Valid(b)
    ensures Valid(Transfer(b, sourceId, destinationId, amount, currency, key, initiatedBy, now).bank)
    ensures b.transactions <= Transfer(b, sourceId, destinationId, amount, currency, key, initiatedBy, now).bank.transactions
    ensures |Transfer(b, sourceId, destinationId, amount, currency, key, initiatedBy, now).bank.transactions| <= |b.transactions| + 1
  {
    if sourceId.Some? && sourceId != destinationId {
      var draft := T.Request(T.Transfer, sourceId, destinationId, amount, currency, key, initiatedBy);
      AdmitKeepsValid(b, draft, now);
      var r := Admit(b, draft, now);
      if r.Admitted? {
        CompleteTransferKeepsValid(b, r.bank, r.tx, now);
        AdmittedHistory(b, r.bank, r.tx, now, CompleteTransfer(r.bank, r.tx, now).bank.nextId,
                        CompleteTransfer(r.bank, r.tx, now).bank.transactions);
      }
    }
  }

  /** The ledger explains every stored balance: each account holds its
      opening balance plus the ledger-derived balance of its rows. */
  ghost predicate Reconciled(b: Bank, opening: map<Uuid, real>) {
    forall k | k in b.accounts :: k in opening && BalanceOf(b, k) == opening[k] + LS.CalculateBalance(b.ledger, k)
  }

  /** A step that reconciles carries the reconciliation over. */
  lemma ReconciledCarriesOver(b: Bank, b': Bank, opening: map<Uuid, real>)
    requires Reconciled(b, opening) && Reconciles(b, b') && b'.accounts.Keys == b.accounts.Keys
    ensures Reconciled(b', opening)
  {
    forall k | k in b'.accounts
      ensures k in opening && BalanceOf(b', k) == opening[k] + LS.CalculateBalance(b'.ledger, k)
    {
      assert BalanceOf(b', k) - BalanceOf(b, k) == LS.CalculateBalance(b'.ledger, k) - LS.CalculateBalance(b.ledger, k);
    }
  }

  /** One row appended on account `id`, whose stored balance moved by the
      row's signed amount; no other account changed. */
  lemma OneRowReconciles(b: Bank, b': Bank, id: Uuid, e: L.LedgerEntry)
    requires id in b.accounts && b.accounts[id].balance.Some?
    requires b'.ledger == b.ledger + [e] && e.accountId == Some(id)
    requires b'.accounts.Keys == b.accounts.Keys
    requires forall k | k in b.accounts && k != id :: b'.accounts[k] == b.accounts[k]
    requires b'.accounts[id].balance.Some?
    requires b'.accounts[id].balance.value.amount == b.accounts[id].balance.value.amount + L.SignedAmount(e)
    ensures Reconciles(b, b')
  {
    forall k ensures BalanceOf(b', k) - BalanceOf(b, k) == LS.CalculateBalance(b'.ledger, k) - LS.CalculateBalance(b.ledger, k) {
      OneRowMovesAccount(b, b', id, e, k);
    }
  }

  /** The step of `OneRowReconciles` for one account `k`. */
  lemma OneRowMovesAccount(b: Bank, b': Bank, id: Uuid, e: L.LedgerEntry, k: Uuid)
    requires id in b.accounts && b.accounts[id].balance.Some?
    requires b'.ledger == b.ledger + [e] && e.accountId == Some(id)
    requires b'.accounts.Keys == b.accounts.Keys
    requires k in b.accounts && k != id ==> b'.accounts[k] == b.accounts[k]
    requires b'.accounts[id].balance.Some?
    requires b'.accounts[id].balance.value.amount == b.accounts[id].balance.value.amount + L.SignedAmount(e)
    ensures BalanceOf(b', k) - BalanceOf(b, k) == LS.CalculateBalance(b'.ledger, k) - LS.CalculateBalance(b.ledger, k)
  {
    LS.BalanceAfterAppend(b.ledger, e, k);
  }

  /** A debit row on `src` and a credit row on `dst`, whose stored balances
      moved by the rows' signed amounts; no other account changed. */
  lemma TwoRowsReconcile(b: Bank, b': Bank, src: Uuid, dst: Uuid, d: L.LedgerEntry, c: L.LedgerEntry)
    requires src != dst && src in b.accounts && dst in b.accounts
    requires b.accounts[src].balance.Some? && b.accounts[dst].balance.Some?
    requires b'.ledger == b.ledger + [d, c] && d.accountId == Some(src) && c.accountId == Some(dst)
    requires b'.accounts.Keys == b.accounts.Keys
    requires forall k | k in b.accounts && k != src && k != dst :: b'.accounts[k] == b.accounts[k]
    requires b'.accounts[src].balance.Some? && b'.accounts[dst].balance.Some?
    requires b'.accounts[src].balance.value.amount == b.accounts[src].balance.value.amount + L.SignedAmount(d)
    requires b'.accounts[dst].balance.value.amount == b.accounts[dst].balance.value.amount + L.SignedAmount(c)
    ensures Reconciles(b, b')
  {
    assert b.ledger + [d] + [c] == b.ledger + [d, c];
    forall k ensures BalanceOf(b', k) - BalanceOf(b, k) == LS.CalculateBalance(b'.ledger, k) - LS.CalculateBalance(b.ledger, k) {
      LS.BalanceAfterAppend(b.ledger, d, k);
      LS.BalanceAfterAppend(b.ledger + [d], c, k);
    }
  }

  /** The rest of `withdraw` moves the stored balance exactly as its ledger
      row says. */
  lemma CompleteWithdrawalReconciles(b: Bank, tx: T.Transaction, now: Time)
    requires Admissible(tx) && tx.txType == Some(T.Withdrawal)
    requires forall k | k in b.accounts :: AccountRow(b.accounts, k, b.nextId)
    ensures Reconciles(b, CompleteWithdrawal(b, tx, now).bank)
    ensures CompleteWithdrawal(b, tx, now).bank.accounts.Keys == b.accounts.Keys
  {
    var s := CompleteWithdrawal(b, tx, now);
    var id := tx.sourceAccountId.value;
    var m := Money(tx.amount.value, tx.currency.value);
    if id in b.accounts {
      var account := b.accounts[id];
      assert AccountRow(b.accounts, id, b.nextId);
      WithdrawalOutcomes(b, tx, now);
      if IsGreaterThanOrEqual(account.balance.value, m) == Ok(true) && A.Debit(account, m).Ok? {
        OneRowReconciles(b, s.bank, id, Row(tx, L.Debit, id, b.nextId, now));
      }
    }
  }

  /** The rest of `deposit` moves the stored balance exactly as its ledger
      row says. */
  lemma CompleteDepositReconciles(b: Bank, tx: T.Transaction, now: Time)
    requires Admissible(tx) && tx.txType == Some(T.Deposit)
    requires forall k | k in b.accounts :: AccountRow(b.accounts, k, b.nextId)
    ensures Reconciles(b, CompleteDeposit(b, tx, now).bank)
    ensures CompleteDeposit(b, tx, now).bank.accounts.Keys == b.accounts.Keys
  {
    var s := CompleteDeposit(b, tx, now);
    var id := tx.destinationAccountId.value;
    var m := Money(tx.amount.value, tx.currency.value);
    if id in b.accounts {
      DepositOutcomes(b, tx, now);
      if A.Credit(b.accounts[id], m).Ok? {
        OneRowReconciles(b, s.bank, id, Row(tx, L.Credit, id, b.nextId, now));
      }
    }
  }

  /** A transfer whose debit and credit both go through moves the two
      stored balances by its two rows. */
  lemma PostedTransferReconciles(b: Bank, tx: T.Transaction, now: Time)
    requires Admissible(tx) && tx.txType == Some(T.Transfer) && tx.id.value < b.nextId
    requires forall k | k in b.accounts :: AccountRow(b.accounts, k, b.nextId)
    requires tx.sourceAccountId.value in b.accounts && tx.destinationAccountId.value in b.accounts
    requires A.Debit(b.accounts[tx.sourceAccountId.value], Money(tx.amount.value, tx.currency.value)).Ok?
    requires A.Credit(b.accounts[tx.destinationAccountId.value], Money(tx.amount.value, tx.currency.value)).Ok?
    ensures Reconciles(b, Post(b.(accounts := Transferred(b.accounts, tx, now), ledger := b.ledger + TransferRows(b, tx, now),
                                  nextId := b.nextId + 2), tx, now).bank)
  {
    var src := tx.sourceAccountId.value;
    var dst := tx.destinationAccountId.value;
    var b' := Post(b.(accounts := Transferred(b.accounts, tx, now), ledger := b.ledger + TransferRows(b, tx, now),
                      nextId := b.nextId + 2), tx, now).bank;
    assert b.ledger + TransferRows(b, tx, now) == b.ledger + [Row(tx, L.Debit, src, b.nextId, now), Row(tx, L.Credit, dst, b.nextId + 1, now)];
    TwoRowsReconcile(b, b', src, dst, Row(tx, L.Debit, src, b.nextId, now), Row(tx, L.Credit, dst, b.nextId + 1, now));
  }

  /** The rest of `transfer` moves both stored balances exactly as its two
      ledger rows say. */
  lemma CompleteTransferReconciles(b: Bank, tx: T.Transaction, now: Time)
    requires Admissible(tx) && tx.txType == Some(T.Transfer) && tx.id.value < b.nextId
    requires forall k | k in b.accounts :: AccountRow(b.accounts, k, b.nextId)
    ensures Reconciles(b, CompleteTransfer(b, tx, now).bank)
    ensures CompleteTransfer(b, tx, now).bank.accounts.Keys == b.accounts.Keys
  {
    var src := tx.sourceAccountId.value;
    var dst := tx.destinationAccountId.value;
    var m := Money(tx.amount.value, tx.currency.value);
    if src in b.accounts && dst in b.accounts {
      var source := b.accounts[src];
      assert AccountRow(b.accounts, src, b.nextId);
      assert AccountRow(b.accounts, dst, b.nextId);
      TransferOutcomes(b, tx, now);
      if IsGreaterThanOrEqual(source.balance.value, m) == Ok(true) && A.Debit(source, m).Ok? && A.Credit(b.accounts[dst], m).Ok? {
        PostedTransferReconciles(b, tx, now);
      } else {
        TablesUnchangedReconcile(b, CompleteTransfer(b, tx, now).bank);
      }
    } else {
      TablesUnchangedReconcile(b, CompleteTransfer(b, tx, now).bank);
    }
  }

  /** A step that writes no account and no ledger row reconciles. */
  lemma TablesUnchangedReconcile(b: Bank, b': Bank)
    requires b'.accounts == b.accounts && b'.ledger == b.ledger
    ensures Reconciles(b, b')
  {
    forall k ensures BalanceOf(b', k) - BalanceOf(b, k) == LS.CalculateBalance(b'.ledger, k) - LS.CalculateBalance(b.ledger, k) {
    }
  }

  /** Nothing has been booked yet. */
  lemma EmptyIsReconciled(guard: I.Guard)
    ensures Reconciled(Empty(guard), map[])
  {
  }

  /** The id the next account gets has no stored account and no ledger rows. */
  lemma NextIdHasNoRows(b: Bank)
    requires Valid(b)
    ensures b.nextId !in b.accounts && LS.CalculateBalance(b.ledger, b.nextId) == 0.0
  {
    forall k | k in b.accounts ensures k < b.nextId {
      assert AccountRow(b.accounts, k, b.nextId);
    }
    forall e | e in b.ledger ensures e.accountId != Some(b.nextId) {
      assert EntryRow(e, b.accounts, b.nextId);
    }
  }

  /** An account stored under a fresh id with no ledger rows is reconciled
      against its opening balance; the others keep theirs. */
  lemma OpeningIsReconciled(b: Bank, b': Bank, initialBalance: real, opening: map<Uuid, real>)
    requires Reconciled(b, opening)
    requires b.nextId !in b.accounts && LS.CalculateBalance(b.ledger, b.nextId) == 0.0
    requires b'.ledger == b.ledger && b'.accounts.Keys == b.accounts.Keys + {b.nextId}
    requires forall k | k in b.accounts :: b'.accounts[k] == b.accounts[k]
    requires b'.accounts[b.nextId].balance.Some? && b'.accounts[b.nextId].balance.value.amount == initialBalance
    ensures Reconciled(b', opening[b.nextId := initialBalance])
  {
    forall k | k in b'.accounts
      ensures k in opening[b.nextId := initialBalance]
      ensures BalanceOf(b', k) == opening[b.nextId := initialBalance][k] + LS.CalculateBalance(b'.ledger, k)
    {
      if k != b.nextId {
        assert b'.accounts[k] == b.accounts[k];
      }
    }
  }

  /** `createAccount` books its opening balance outside the ledger: the new
      account starts with no rows, so it is reconciled against its opening
      balance and every other account keeps its own. */
  lemma CreateAccountKeepsBooks(b: Bank, holderName: Option<string>, initialBalance: real, currency: string, now: Time,
                                opening: map<Uuid, real>)
    requires Valid(b) && Reconciled(b, opening)
    ensures var s := CreateAccount(b, holderName, initialBalance, currency, now);
            Reconciled(s.bank, if s.result.Ok? then opening[b.nextId := initialBalance] else opening)
  {
    var s := CreateAccount(b, holderName, initialBalance, currency, now);
    if s.result.Ok? {
      NextIdHasNoRows(b);
      OpeningIsReconciled(b, s.bank, initialBalance, opening);
    }
  }

  /** `withdraw` keeps the books: every stored balance stays its opening
      balance plus what the ledger says. */
  lemma WithdrawKeepsBooks(b: Bank, accountId: Option<Uuid>, amount: Option<real>, currency: Option<string>,
                           key: Option<Uuid>, initiatedBy: Option<string>, now: Time, opening: map<Uuid, real>)
    requires Valid(b) && Reconciled(b, opening)
    ensures Reconciled(Withdraw(b, accountId, amount, currency, key, initiatedBy, now).bank, opening)
  {
    var draft := T.Request(T.Withdrawal, accountId, None, amount, currency, key, initiatedBy);
    AdmitKeepsValid(b, draft, now);
    var r := Admit(b, draft, now);
    if r.Admitted? {
      CompleteWithdrawalReconciles(r.bank, r.tx, now);
      ReconciledCarriesOver(r.bank, CompleteWithdrawal(r.bank, r.tx, now).bank, opening);
    }
  }

  /** `deposit` keeps the books. */
  lemma DepositKeepsBooks(b: Bank, accountId: Option<Uuid>, amount: Option<real>, currency: Option<string>,
                          key: Option<Uuid>, initiatedBy: Option<string>, now: Time, opening: map<Uuid, real>)
    requires Valid(b) && Reconciled(b, opening)
    ensures Reconciled(Deposit(b, accountId, amount, currency, key, initiatedBy, now).bank, opening)
  {
    var draft := T.Request(T.Deposit, None, accountId, amount, currency, key, initiatedBy);
    AdmitKeepsValid(b, draft, now);
    var r := Admit(b, draft, now);
    if r.Admitted? {
      CompleteDepositReconciles(r.bank, r.tx, now);
      ReconciledCarriesOver(r.bank, CompleteDeposit(r.bank, r.tx, now).bank, opening);
    }
  }

  /** `transfer` keeps the books. */
  lemma TransferKeepsBooks(b: Bank, sourceId: Option<Uuid>, destinationId: Option<Uuid>, amount: Option<real>,
                           currency: Option<string>, key: Option<Uuid>, initiatedBy: Option<string>, now: Time,
                           opening: map<Uuid, real>)
    requires Valid(b) && Reconciled(b, opening)
    ensures Reconciled(Transfer(b, sourceId, destinationId, amount, currency, key, initiatedBy, now).bank, opening)
  {
    if sourceId.Some? && sourceId != destinationId {
      var draft := T.Request(T.Transfer, sourceId, destinationId, amount, currency, key, initiatedBy);
      AdmitKeepsValid(b, draft, now);
      var r := Admit(b, draft, now);
      if r.Admitted? {
        CompleteTransferReconciles(r.bank, r.tx, now);
        ReconciledCarriesOver(r.bank, CompleteTransfer(r.bank, r.tx, now).bank, opening);
      }
    }
  }

  /** The prologue lets a request through: no stored row carries its key,
      the guard registers the key, and the request validates. */
  predicate Admits(b: Bank, draft: T.Transaction) {
    && TR.FindByIdempotencyKey(b.transactions, draft.idempotencyKey).None?
    && I.TryRegister(b.guard, draft.idempotencyKey).registered
    && T.Validate(draft).Pass?
  }

  /** Account `k` is stored and holds its balance in `currency`. */
  predicate HoldsIn(b: Bank, k: Uuid, currency: string) {
    k in b.accounts && b.accounts[k].balance.Some? && b.accounts[k].balance.value.currency == currency
  }

  /** Account `k` is stored, ACTIVE, and holds its balance in `currency`. */
  predicate Open(b: Bank, k: Uuid, currency: string) {
    HoldsIn(b, k, currency) && A.IsActive(b.accounts[k])
  }

  /** The prologue admits exactly the requests `Admits` describes. */
  lemma AdmitsExactly(b: Bank, draft: T.Transaction, now: Time)
    ensures Admit(b, draft, now).Admitted? <==> Admits(b, draft)
  {
  }

  /** Once a valid state holds the rows of a transaction newer than an
      earlier valid state, `countByTransactionId` counts exactly those rows
      and the double-entry check accepts them. */
  lemma NewRowsCounted(b: Bank, b': Bank, entries: seq<L.LedgerEntry>, tid: Uuid)
    requires Valid(b) && Valid(b') && b.nextId <= tid
    requires b'.ledger == b.ledger + entries && entries != []
    requires forall e | e in entries :: e.transactionId == Some(tid)
    ensures LR.CountByTransactionId(b'.ledger, tid) == |entries|
    ensures LS.ValidateDoubleEntry(b'.ledger, b'.transactions, tid) == Ok(true)
  {
    forall e | e in b.ledger ensures e.transactionId != Some(tid) {
      assert EntryRow(e, b.accounts, b.nextId);
    }
    RowsOfNewTransaction(b.ledger, entries, tid);
    LR.CountIsLengthOfFind(b'.ledger, tid);
    assert entries[0] in b'.ledger;
    assert RowBalanced(b'.ledger, b'.transactions, entries[0]);
  }

  /** The rest of `withdraw` goes through exactly when the account is open
      in the request's currency and holds at least the amount. */
  lemma WithdrawalGoesThrough(b: Bank, tx: T.Transaction, now: Time)
    requires Admissible(tx) && tx.txType == Some(T.Withdrawal) && StoredRow(b, tx.sourceAccountId.value)
    ensures var id := tx.sourceAccountId.value;
            CompleteWithdrawal(b, tx, now).result.Ok? <==> Open(b, id, tx.currency.value) && tx.amount.value <= BalanceOf(b, id)
  {
    var id := tx.sourceAccountId.value;
    var m := Money(tx.amount.value, tx.currency.value);
    if id in b.accounts {
      var account := b.accounts[id];
      WithdrawalOutcomes(b, tx, now);
      if account.balance.value.currency == m.currency && A.IsActive(account) {
        A.DebitOnActiveAccount(account, m);
      }
    }
  }

  /** A withdrawal that goes through lowers that one balance by the amount,
      appends one DEBIT row under the next id and saves the POSTED version
      of the transaction. */
  lemma WithdrawalMovesAmount(b: Bank, tx: T.Transaction, now: Time)
    requires Admissible(tx) && tx.txType == Some(T.Withdrawal) && StoredRow(b, tx.sourceAccountId.value)
    ensures var id := tx.sourceAccountId.value;
            var s := CompleteWithdrawal(b, tx, now);
            s.result.Ok? ==>
              && BalanceOf(s.bank, id) == BalanceOf(b, id) - tx.amount.value
              && (forall k | k != id :: BalanceOf(s.bank, k) == BalanceOf(b, k))
              && s.bank.ledger == b.ledger + [L.LedgerEntry(Some(b.nextId), tx.id, Some(id), Some(L.Debit),
                                                            tx.amount, tx.currency, Some(now))]
              && s.bank.transactions == TR.Save(b.transactions, T.MarkAsPosted(tx, now), s.bank.nextId, now).0
  {
    var id := tx.sourceAccountId.value;
    var m := Money(tx.amount.value, tx.currency.value);
    if id in b.accounts {
      var account := b.accounts[id];
      WithdrawalOutcomes(b, tx, now);
      if IsGreaterThanOrEqual(account.balance.value, m) == Ok(true) && A.Debit(account, m).Ok? {
        A.DebitOnActiveAccount(account, m);
      }
    }
  }

  /** The rest of `withdraw` after an admission: it posts exactly when
      `WithdrawalGoesThrough` says, and then adds the POSTED version of the
      transaction next to its row and the lowered balance. */
  lemma CompleteWithdrawalPosts(b0: Bank, b: Bank, tx: T.Transaction, now: Time)
    requires AdmittedFrom(b0, b, tx) && tx.txType == Some(T.Withdrawal)
    ensures var id := tx.sourceAccountId.value;
            var s := CompleteWithdrawal(b, tx, now);
            && (s.result.Ok? <==> Open(b, id, tx.currency.value) && tx.amount.value <= BalanceOf(b, id))
            && (s.result.Ok? ==>
                  && BalanceOf(s.bank, id) == BalanceOf(b, id) - tx.amount.value
                  && (forall k | k != id :: BalanceOf(s.bank, k) == BalanceOf(b, k))
                  && s.bank.ledger == b.ledger + [L.LedgerEntry(Some(b.nextId), tx.id, Some(id), Some(L.Debit),
                                                                tx.amount, tx.currency, Some(now))]
                  && s.bank.transactions == b0.transactions + [T.MarkAsPosted(tx, now)])
  {
    AdmittedRowIsStored(b0, b, tx.sourceAccountId.value);
    WithdrawalGoesThrough(b, tx, now);
    WithdrawalMovesAmount(b, tx, now);
    NextIdIsFresh(b0);
    TR.SaveThenUpdate(b0.transactions, tx, T.MarkAsPosted(tx, now));
  }

  /** The rest of `withdraw` throws InsufficientFundsException exactly when
      the account holds less than the amount in the request's currency,
      whatever its status; it then carries the amount and the balance, moves
      no money, writes no ledger row, and appends the FAILED version of the
      transaction. */
  lemma CompleteWithdrawalDeclines(b0: Bank, b: Bank, tx: T.Transaction, now: Time)
    requires AdmittedFrom(b0, b, tx) && tx.txType == Some(T.Withdrawal)
    ensures var id := tx.sourceAccountId.value;
            var s := CompleteWithdrawal(b, tx, now);
            && (s.result.Err? && s.result.failure.InsufficientFunds?
                <==> HoldsIn(b, id, tx.currency.value) && BalanceOf(b, id) < tx.amount.value)
            && (s.result.Err? && s.result.failure.InsufficientFunds? ==>
                  && s.result.failure == InsufficientFunds(tx.amount.value, BalanceOf(b, id))
                  && s.bank.accounts == b.accounts && s.bank.ledger == b.ledger
                  && s.bank.transactions == b0.transactions + [T.MarkAsFailed(tx, now)])
  {
    var id := tx.sourceAccountId.value;
    if id in b.accounts {
      assert AccountRow(b0.accounts, id, b0.nextId);
      WithdrawalOutcomes(b, tx, now);
      NextIdIsFresh(b0);
      TR.SaveThenUpdate(b0.transactions, tx, T.MarkAsFailed(tx, now));
    }
  }

  /** An admitted request continues from the state before it with only its
      PENDING row added under the id the counter supplied. */
  lemma AdmittedRequest(b: Bank, draft: T.Transaction, now: Time)
    requires Valid(b) && draft.id.None? && draft.status == Some(T.Pending)
    ensures var r := Admit(b, draft, now);
            r.Admitted? ==> AdmittedFrom(b, r.bank, r.tx) && r.tx == T.OnCreate(draft, b.nextId, now)
  {
    AdmitKeepsValid(b, draft, now);
  }

  /** A posted withdrawal appends its DEBIT row and the POSTED transaction;
      the transaction has exactly that one ledger row and passes the
      double-entry check. */
  lemma CompleteWithdrawalRecords(b0: Bank, b: Bank, tx: T.Transaction, now: Time)
    requires AdmittedFrom(b0, b, tx) && tx.txType == Some(T.Withdrawal)
    ensures var s := CompleteWithdrawal(b, tx, now);
            s.result.Ok? ==>
              && s.bank.ledger == b.ledger + [L.LedgerEntry(Some(b.nextId), tx.id, tx.sourceAccountId, Some(L.Debit),
                                                            tx.amount, tx.currency, Some(now))]
              && s.bank.transactions == b0.transactions + [s.result.value]
              && LR.CountByTransactionId(s.bank.ledger, tx.id.value) == 1
              && LS.ValidateDoubleEntry(s.bank.ledger, s.bank.transactions, tx.id.value) == Ok(true)
  {
    var s := CompleteWithdrawal(b, tx, now);
    if s.result.Ok? {
      CompleteWithdrawalKeepsValid(b0, b, tx, now);
      CompleteWithdrawalPosts(b0, b, tx, now);
      var e := L.LedgerEntry(Some(b.nextId), tx.id, tx.sourceAccountId, Some(L.Debit), tx.amount, tx.currency, Some(now));
      NewRowsCounted(b0, s.bank, [e], tx.id.value);
    }
  }

  /** A fresh `withdraw` succeeds exactly when the prologue admits it and the
      account is open in the currency with at least the amount. It then
      lowers that balance by the amount and no other. */
  lemma WithdrawPosts(b: Bank, id: Uuid, amount: real, currency: string,
                      key: Option<Uuid>, initiatedBy: Option<string>, now: Time)
    requires Valid(b)
    ensures var draft := T.Request(T.Withdrawal, Some(id), None, Some(amount), Some(currency), key, initiatedBy);
            var s := Withdraw(b, Some(id), Some(amount), Some(currency), key, initiatedBy, now);
            && (s.result.Ok? && TR.FindByIdempotencyKey(b.transactions, key).None?
                <==> Admits(b, draft) && Open(b, id, currency) && amount <= BalanceOf(b, id))
            && (s.result.Ok? && TR.FindByIdempotencyKey(b.transactions, key).None? ==>
                  && BalanceOf(s.bank, id) == BalanceOf(b, id) - amount
                  && (forall k | k != id :: BalanceOf(s.bank, k) == BalanceOf(b, k)))
  {
    var draft := T.Request(T.Withdrawal, Some(id), None, Some(amount), Some(currency), key, initiatedBy);
    var s := Withdraw(b, Some(id), Some(amount), Some(currency), key, initiatedBy, now);
    AdmittedRequest(b, draft, now);
    var r := Admit(b, draft, now);
    if r.Admitted? {
      assert s == CompleteWithdrawal(r.bank, r.tx, now);
      assert r.tx.sourceAccountId == Some(id) && r.tx.amount == Some(amount) && r.tx.currency == Some(currency);
      CompleteWithdrawalPosts(b, r.bank, r.tx, now);
    }
  }

  /** A fresh `withdraw` that succeeds writes exactly one DEBIT row, under
      the id after the transaction's, for the new POSTED transaction, and
      that transaction passes the double-entry check. */
  lemma WithdrawRecordsOneDebit(b: Bank, id: Uuid, amount: real, currency: string,
                                key: Option<Uuid>, initiatedBy: Option<string>, now: Time)
    requires Valid(b)
    ensures var s := Withdraw(b, Some(id), Some(amount), Some(currency), key, initiatedBy, now);
            s.result.Ok? && TR.FindByIdempotencyKey(b.transactions, key).None? ==>
              && s.bank.ledger == b.ledger + [L.LedgerEntry(Some(b.nextId + 1), Some(b.nextId), Some(id), Some(L.Debit),
                                                            Some(amount), Some(currency), Some(now))]
              && s.bank.transactions == b.transactions + [s.result.value]
              && LR.CountByTransactionId(s.bank.ledger, b.nextId) == 1
              && LS.ValidateDoubleEntry(s.bank.ledger, s.bank.transactions, b.nextId) == Ok(true)
  {
    var draft := T.Request(T.Withdrawal, Some(id), None, Some(amount), Some(currency), key, initiatedBy);
    var s := Withdraw(b, Some(id), Some(amount), Some(currency), key, initiatedBy, now);
    AdmittedRequest(b, draft, now);
    var r := Admit(b, draft, now);
    if r.Admitted? {
      assert s == CompleteWithdrawal(r.bank, r.tx, now);
      assert r.tx.sourceAccountId == Some(id) && r.tx.amount == Some(amount) && r.tx.currency == Some(currency);
      CompleteWithdrawalRecords(b, r.bank, r.tx, now);
    }
  }

  /** A fresh `withdraw` that the prologue admits throws
      InsufficientFundsException exactly when the account holds less than the
      amount in the currency. It then reports the amount and the balance,
      leaves every account and the ledger as they were, and stores the
      transaction as FAILED. */
  lemma WithdrawDeclines(b: Bank, id: Uuid, amount: real, currency: string,
                         key: Option<Uuid>, initiatedBy: Option<string>, now: Time)
    requires Valid(b)
    ensures var draft := T.Request(T.Withdrawal, Some(id), None, Some(amount), Some(currency), key, initiatedBy);
            var s := Withdraw(b, Some(id), Some(amount), Some(currency), key, initiatedBy, now);
            && (s.result.Err? && s.result.failure.InsufficientFunds?
                <==> Admits(b, draft) && HoldsIn(b, id, currency) && BalanceOf(b, id) < amount)
            && (s.result.Err? && s.result.failure.InsufficientFunds? ==>
                  && s.result.failure == InsufficientFunds(amount, BalanceOf(b, id))
                  && s.bank.accounts == b.accounts && s.bank.ledger == b.ledger
                  && |s.bank.transactions| == |b.transactions| + 1
                  && s.bank.transactions[..|b.transactions|] == b.transactions
                  && s.bank.transactions[|b.transactions|].status == Some(T.Failed)
                  && s.bank.transactions[|b.transactions|].id == Some(b.nextId))
  {
    var draft := T.Request(T.Withdrawal, Some(id), None, Some(amount), Some(currency), key, initiatedBy);
    AdmitKeepsValid(b, draft, now);
    var r := Admit(b, draft, now);
    if r.Admitted? {
      CompleteWithdrawalDeclines(b, r.bank, r.tx, now);
    }
  }

  /** The rest of `deposit` goes through exactly when the account is open in
      the request's currency; there is no funds check. */
  lemma DepositGoesThrough(b: Bank, tx: T.Transaction, now: Time)
    requires Admissible(tx) && tx.txType == Some(T.Deposit) && StoredRow(b, tx.destinationAccountId.value)
    ensures CompleteDeposit(b, tx, now).result.Ok? <==> Open(b, tx.destinationAccountId.value, tx.currency.value)
  {
    var id := tx.destinationAccountId.value;
    var m := Money(tx.amount.value, tx.currency.value);
    if id in b.accounts {
      var account := b.accounts[id];
      DepositOutcomes(b, tx, now);
      if account.balance.value.currency == m.currency && A.IsActive(account) {
        A.CreditOnActiveAccount(account, m);
      }
    }
  }

  /** A deposit that goes through raises that one balance by the amount,
      appends one CREDIT row under the next id and saves the POSTED version
      of the transaction. */
  lemma DepositMovesAmount(b: Bank, tx: T.Transaction, now: Time)
    requires Admissible(tx) && tx.txType == Some(T.Deposit) && StoredRow(b, tx.destinationAccountId.value)
    ensures var id := tx.destinationAccountId.value;
            var s := CompleteDeposit(b, tx, now);
            s.result.Ok? ==>
              && BalanceOf(s.bank, id) == BalanceOf(b, id) + tx.amount.value
              && (forall k | k != id :: BalanceOf(s.bank, k) == BalanceOf(b, k))
              && s.bank.ledger == b.ledger + [L.LedgerEntry(Some(b.nextId), tx.id, Some(id), Some(L.Credit),
                                                            tx.amount, tx.currency, Some(now))]
              && s.bank.transactions == TR.Save(b.transactions, T.MarkAsPosted(tx, now), s.bank.nextId, now).0
  {
    var id := tx.destinationAccountId.value;
    if id in b.accounts {
      DepositOutcomes(b, tx, now);
    }
  }

  /** The rest of `deposit` after an admission: it posts exactly when
      `DepositGoesThrough` says, and then adds the POSTED version of the
      transaction next to its row and the raised balance. */
  lemma CompleteDepositPosts(b0: Bank, b: Bank, tx: T.Transaction, now: Time)
    requires AdmittedFrom(b0, b, tx) && tx.txType == Some(T.Deposit)
    ensures var id := tx.destinationAccountId.value;
            var s := CompleteDeposit(b, tx, now);
            && (s.result.Ok? <==> Open(b, id, tx.currency.value))
            && (s.result.Ok? ==>
                  && BalanceOf(s.bank, id) == BalanceOf(b, id) + tx.amount.value
                  && (forall k | k != id :: BalanceOf(s.bank, k) == BalanceOf(b, k))
                  && s.bank.ledger == b.ledger + [L.LedgerEntry(Some(b.nextId), tx.id, Some(id), Some(L.Credit),
                                                                tx.amount, tx.currency, Some(now))]
                  && s.bank.transactions == b0.transactions + [T.MarkAsPosted(tx, now)])
  {
    AdmittedRowIsStored(b0, b, tx.destinationAccountId.value);
    DepositGoesThrough(b, tx, now);
    DepositMovesAmount(b, tx, now);
    NextIdIsFresh(b0);
    TR.SaveThenUpdate(b0.transactions, tx, T.MarkAsPosted(tx, now));
  }

  /** A posted deposit appends its CREDIT row and the POSTED transaction;
      the transaction has exactly that one ledger row and passes the
      double-entry check. */
  lemma CompleteDepositRecords(b0: Bank, b: Bank, tx: T.Transaction, now: Time)
    requires AdmittedFrom(b0, b, tx) && tx.txType == Some(T.Deposit)
    ensures var s := CompleteDeposit(b, tx, now);
            s.result.Ok? ==>
              && s.bank.ledger == b.ledger + [L.LedgerEntry(Some(b.nextId), tx.id, tx.destinationAccountId, Some(L.Credit),
                                                            tx.amount, tx.currency, Some(now))]
              && s.bank.transactions == b0.transactions + [s.result.value]
              && LR.CountByTransactionId(s.bank.ledger, tx.id.value) == 1
              && LS.ValidateDoubleEntry(s.bank.ledger, s.bank.transactions, tx.id.value) == Ok(true)
  {
    var s := CompleteDeposit(b, tx, now);
    if s.result.Ok? {
      CompleteDepositKeepsValid(b0, b, tx, now);
      CompleteDepositPosts(b0, b, tx, now);
      var e := L.LedgerEntry(Some(b.nextId), tx.id, tx.destinationAccountId, Some(L.Credit), tx.amount, tx.currency, Some(now));
      NewRowsCounted(b0, s.bank, [e], tx.id.value);
    }
  }

  /** A fresh `deposit` succeeds exactly when the prologue admits it and the
      account is open in the currency, whatever its balance. It then raises
      that balance by the amount and no other. */
  lemma DepositPosts(b: Bank, id: Uuid, amount: real, currency: string,
                     key: Option<Uuid>, initiatedBy: Option<string>, now: Time)
    requires Valid(b)
    ensures var draft := T.Request(T.Deposit, None, Some(id), Some(amount), Some(currency), key, initiatedBy);
            var s := Deposit(b, Some(id), Some(amount), Some(currency), key, initiatedBy, now);
            && (s.result.Ok? && TR.FindByIdempotencyKey(b.transactions, key).None?
                <==> Admits(b, draft) && Open(b, id, currency))
            && (s.result.Ok? && TR.FindByIdempotencyKey(b.transactions, key).None? ==>
                  && BalanceOf(s.bank, id) == BalanceOf(b, id) + amount
                  && (forall k | k != id :: BalanceOf(s.bank, k) == BalanceOf(b, k)))
  {
    var draft := T.Request(T.Deposit, None, Some(id), Some(amount), Some(currency), key, initiatedBy);
    var s := Deposit(b, Some(id), Some(amount), Some(currency), key, initiatedBy, now);
    AdmittedRequest(b, draft, now);
    var r := Admit(b, draft, now);
    if r.Admitted? {
      assert s == CompleteDeposit(r.bank, r.tx, now);
      assert r.tx.destinationAccountId == Some(id) && r.tx.amount == Some(amount) && r.tx.currency == Some(currency);
      CompleteDepositPosts(b, r.bank, r.tx, now);
    }
  }

  /** A fresh `deposit` that succeeds writes exactly one CREDIT row, under
      the id after the transaction's, for the new POSTED transaction, and
      that transaction passes the double-entry check. */
  lemma DepositRecordsOneCredit(b: Bank, id: Uuid, amount: real, currency: string,
                                key: Option<Uuid>, initiatedBy: Option<string>, now: Time)
    requires Valid(b)
    ensures var s := Deposit(b, Some(id), Some(amount), Some(currency), key, initiatedBy, now);
            s.result.Ok? && TR.FindByIdempotencyKey(b.transactions, key).None? ==>
              && s.bank.ledger == b.ledger + [L.LedgerEntry(Some(b.nextId + 1), Some(b.nextId), Some(id), Some(L.Credit),
                                                            Some(amount), Some(currency), Some(now))]
              && s.bank.transactions == b.transactions + [s.result.value]
              && LR.CountByTransactionId(s.bank.ledger, b.nextId) == 1
              && LS.ValidateDoubleEntry(s.bank.ledger, s.bank.transactions, b.nextId) == Ok(true)
  {
    var draft := T.Request(T.Deposit, None, Some(id), Some(amount), Some(currency), key, initiatedBy);
    var s := Deposit(b, Some(id), Some(amount), Some(currency), key, initiatedBy, now);
    AdmittedRequest(b, draft, now);
    var r := Admit(b, draft, now);
    if r.Admitted? {
      assert s == CompleteDeposit(r.bank, r.tx, now);
      assert r.tx.destinationAccountId == Some(id) && r.tx.amount == Some(amount) && r.tx.currency == Some(currency);
      CompleteDepositRecords(b, r.bank, r.tx, now);
    }
  }

  /** The rest of `transfer` goes through exactly when the source is open in
      the request's currency with at least the amount and the destination is
      open in the same currency. */
  lemma TransferGoesThrough(b: Bank, tx: T.Transaction, now: Time)
    requires Admissible(tx) && tx.txType == Some(T.Transfer)
    requires StoredRow(b, tx.sourceAccountId.value) && StoredRow(b, tx.destinationAccountId.value)
    ensures var src := tx.sourceAccountId.value;
            var dst := tx.destinationAccountId.value;
            CompleteTransfer(b, tx, now).result.Ok?
            <==> Open(b, src, tx.currency.value) && tx.amount.value <= BalanceOf(b, src) && Open(b, dst, tx.currency.value)
  {
    var src := tx.sourceAccountId.value;
    var dst := tx.destinationAccountId.value;
    var m := Money(tx.amount.value, tx.currency.value);
    if src in b.accounts && dst in b.accounts {
      var source := b.accounts[src];
      var destination := b.accounts[dst];
      TransferOutcomes(b, tx, now);
      if source.balance.value.currency == m.currency && A.IsActive(source) {
        A.DebitOnActiveAccount(source, m);
      }
      if destination.balance.value.currency == m.currency && A.IsActive(destination) {
        A.CreditOnActiveAccount(destination, m);
      }
    }
  }

  /** A transfer that goes through moves the amount from the source to the
      destination, touches no other balance, and appends a DEBIT row on the
      source and a CREDIT row on the destination under the next two ids. */
  lemma TransferMovesAmount(b: Bank, tx: T.Transaction, now: Time)
    requires Admissible(tx) && tx.txType == Some(T.Transfer)
    requires StoredRow(b, tx.sourceAccountId.value) && StoredRow(b, tx.destinationAccountId.value)
    ensures var src := tx.sourceAccountId.value;
            var dst := tx.destinationAccountId.value;
            var s := CompleteTransfer(b, tx, now);
            s.result.Ok? ==>
              && BalanceOf(s.bank, src) == BalanceOf(b, src) - tx.amount.value
              && BalanceOf(s.bank, dst) == BalanceOf(b, dst) + tx.amount.value
              && (forall k | k != src && k != dst :: BalanceOf(s.bank, k) == BalanceOf(b, k))
              && s.bank.ledger == b.ledger + [L.LedgerEntry(Some(b.nextId), tx.id, Some(src), Some(L.Debit),
                                                            tx.amount, tx.currency, Some(now)),
                                              L.LedgerEntry(Some(b.nextId + 1), tx.id, Some(dst), Some(L.Credit),
                                                            tx.amount, tx.currency, Some(now))]
              && s.bank.transactions == TR.Save(b.transactions, T.MarkAsPosted(tx, now), s.bank.nextId, now).0
  {
    var src := tx.sourceAccountId.value;
    var dst := tx.destinationAccountId.value;
    var m := Money(tx.amount.value, tx.currency.value);
    if src in b.accounts && dst in b.accounts {
      var source := b.accounts[src];
      var destination := b.accounts[dst];
      if IsGreaterThanOrEqual(source.balance.value, m) == Ok(true) && A.Debit(source, m).Ok? && A.Credit(destination, m).Ok? {
        TransferOutcomePosted(b, tx, now);
        TransferredBalances(b, CompleteTransfer(b, tx, now).bank, tx, now);
      } else if IsGreaterThanOrEqual(source.balance.value, m) == Ok(false) {
        TransferOutcomeDeclined(b, tx, now);
      } else {
        TransferOutcomes(b, tx, now);
      }
    }
  }

  /** The accounts a transfer saves hold the source's balance lowered and
      the destination's raised by the amount; no other balance moves. */
  lemma TransferredBalances(b: Bank, b': Bank, tx: T.Transaction, now: Time)
    requires Admissible(tx) && tx.txType == Some(T.Transfer)
    requires tx.sourceAccountId.value in b.accounts && tx.destinationAccountId.value in b.accounts
    requires A.Debit(b.accounts[tx.sourceAccountId.value], Money(tx.amount.value, tx.currency.value)).Ok?
    requires A.Credit(b.accounts[tx.destinationAccountId.value], Money(tx.amount.value, tx.currency.value)).Ok?
    requires StoredRow(b, tx.sourceAccountId.value) && StoredRow(b, tx.destinationAccountId.value)
    requires b'.accounts == Transferred(b.accounts, tx, now)
    ensures BalanceOf(b', tx.sourceAccountId.value) == BalanceOf(b, tx.sourceAccountId.value) - tx.amount.value
    ensures BalanceOf(b', tx.destinationAccountId.value) == BalanceOf(b, tx.destinationAccountId.value) + tx.amount.value
    ensures forall k | k != tx.sourceAccountId.value && k != tx.destinationAccountId.value :: BalanceOf(b', k) == BalanceOf(b, k)
  {
    var m := Money(tx.amount.value, tx.currency.value);
    A.DebitOnActiveAccount(b.accounts[tx.sourceAccountId.value], m);
    A.CreditOnActiveAccount(b.accounts[tx.destinationAccountId.value], m);
  }

  /** The rest of `transfer` after an admission: it posts exactly when
      `TransferGoesThrough` says, and then adds the POSTED version of the
      transaction next to its two rows and the moved balances. */
  lemma CompleteTransferPosts(b0: Bank, b: Bank, tx: T.Transaction, now: Time)
    requires AdmittedFrom(b0, b, tx) && tx.txType == Some(T.Transfer)
    ensures var src := tx.sourceAccountId.value;
            var dst := tx.destinationAccountId.value;
            var s := CompleteTransfer(b, tx, now);
            && (s.result.Ok? <==> && Open(b, src, tx.currency.value) && tx.amount.value <= BalanceOf(b, src)
                                  && Open(b, dst, tx.currency.value))
            && (s.result.Ok? ==>
                  && BalanceOf(s.bank, src) == BalanceOf(b, src) - tx.amount.value
                  && BalanceOf(s.bank, dst) == BalanceOf(b, dst) + tx.amount.value
                  && (forall k | k != src && k != dst :: BalanceOf(s.bank, k) == BalanceOf(b, k))
                  && s.bank.ledger == b.ledger + [L.LedgerEntry(Some(b.nextId), tx.id, Some(src), Some(L.Debit),
                                                                tx.amount, tx.currency, Some(now)),
                                                  L.LedgerEntry(Some(b.nextId + 1), tx.id, Some(dst), Some(L.Credit),
                                                                tx.amount, tx.currency, Some(now))]
                  && s.bank.transactions == b0.transactions + [T.MarkAsPosted(tx, now)])
  {
    AdmittedRowIsStored(b0, b, tx.sourceAccountId.value);
    AdmittedRowIsStored(b0, b, tx.destinationAccountId.value);
    TransferGoesThrough(b, tx, now);
    TransferMovesAmount(b, tx, now);
    NextIdIsFresh(b0);
    TR.SaveThenUpdate(b0.transactions, tx, T.MarkAsPosted(tx, now));
  }

  /** A posted transfer appends its DEBIT and CREDIT rows and the POSTED
      transaction; the transaction has exactly those two ledger rows and
      passes the double-entry check. */
  lemma CompleteTransferRecords(b0: Bank, b: Bank, tx: T.Transaction, now: Time)
    requires AdmittedFrom(b0, b, tx) && tx.txType == Some(T.Transfer)
    ensures var s := CompleteTransfer(b, tx, now);
            s.result.Ok? ==>
              && s.bank.ledger == b.ledger + [L.LedgerEntry(Some(b.nextId), tx.id, tx.sourceAccountId, Some(L.Debit),
                                                            tx.amount, tx.currency, Some(now)),
                                              L.LedgerEntry(Some(b.nextId + 1), tx.id, tx.destinationAccountId, Some(L.Credit),
                                                            tx.amount, tx.currency, Some(now))]
              && s.bank.transactions == b0.transactions + [s.result.value]
              && LR.CountByTransactionId(s.bank.ledger, tx.id.value) == 2
              && LS.ValidateDoubleEntry(s.bank.ledger, s.bank.transactions, tx.id.value) == Ok(true)
  {
    var s := CompleteTransfer(b, tx, now);
    if s.result.Ok? {
      CompleteTransferKeepsValid(b0, b, tx, now);
      CompleteTransferPosts(b0, b, tx, now);
      var d := L.LedgerEntry(Some(b.nextId), tx.id, tx.sourceAccountId, Some(L.Debit), tx.amount, tx.currency, Some(now));
      var c := L.LedgerEntry(Some(b.nextId + 1), tx.id, tx.destinationAccountId, Some(L.Credit), tx.amount, tx.currency, Some(now));
      NewRowsCounted(b0, s.bank, [d, c], tx.id.value);
    }
  }

  /** The rest of `transfer` throws InsufficientFundsException exactly when
      both accounts exist and the source holds less than the amount in the
      request's currency, whatever either account's status; it then carries
      the amount and the source's balance and writes nothing but the FAILED
      version of the transaction. */
  lemma TransferShort(b: Bank, tx: T.Transaction, now: Time)
    requires Admissible(tx) && tx.txType == Some(T.Transfer)
    requires StoredRow(b, tx.sourceAccountId.value) && StoredRow(b, tx.destinationAccountId.value)
    ensures var src := tx.sourceAccountId.value;
            var dst := tx.destinationAccountId.value;
            var s := CompleteTransfer(b, tx, now);
            && (s.result.Err? && s.result.failure.InsufficientFunds?
                <==> HoldsIn(b, src, tx.currency.value) && dst in b.accounts && BalanceOf(b, src) < tx.amount.value)
            && (s.result.Err? && s.result.failure.InsufficientFunds? ==>
                  s == Decline(b, tx, tx.amount.value, BalanceOf(b, src), now))
  {
    var src := tx.sourceAccountId.value;
    var dst := tx.destinationAccountId.value;
    if src in b.accounts && dst in b.accounts {
      TransferOutcomes(b, tx, now);
    }
  }

  /** `TransferShort` after an admission: the FAILED row replaces the
      PENDING one, and no account or ledger row changes. */
  lemma CompleteTransferDeclines(b0: Bank, b: Bank, tx: T.Transaction, now: Time)
    requires AdmittedFrom(b0, b, tx) && tx.txType == Some(T.Transfer)
    ensures var src := tx.sourceAccountId.value;
            var dst := tx.destinationAccountId.value;
            var s := CompleteTransfer(b, tx, now);
            && (s.result.Err? && s.result.failure.InsufficientFunds?
                <==> HoldsIn(b, src, tx.currency.value) && dst in b.accounts && BalanceOf(b, src) < tx.amount.value)
            && (s.result.Err? && s.result.failure.InsufficientFunds? ==>
                  && s.result.failure == InsufficientFunds(tx.amount.value, BalanceOf(b, src))
                  && s.bank.accounts == b.accounts && s.bank.ledger == b.ledger
                  && s.bank.transactions == b0.transactions + [T.MarkAsFailed(tx, now)])
  {
    AdmittedRowIsStored(b0, b, tx.sourceAccountId.value);
    AdmittedRowIsStored(b0, b, tx.destinationAccountId.value);
    TransferShort(b, tx, now);
    NextIdIsFresh(b0);
    TR.SaveThenUpdate(b0.transactions, tx, T.MarkAsFailed(tx, now));
  }

  /** A fresh `transfer` succeeds exactly when the two accounts differ, the
      prologue admits it, the source is open in the currency with at least
      the amount and the destination is open in the same currency. It then
      moves the amount from the source to the destination (their sum is
      conserved) and touches no other balance. */
  lemma TransferPosts(b: Bank, src: Uuid, dst: Uuid, amount: real, currency: string,
                      key: Option<Uuid>, initiatedBy: Option<string>, now: Time)
    requires Valid(b)
    ensures var draft := T.Request(T.Transfer, Some(src), Some(dst), Some(amount), Some(currency), key, initiatedBy);
            var s := Transfer(b, Some(src), Some(dst), Some(amount), Some(currency), key, initiatedBy, now);
            && (s.result.Ok? && TR.FindByIdempotencyKey(b.transactions, key).None?
                <==> && src != dst && Admits(b, draft)
                     && Open(b, src, currency) && amount <= BalanceOf(b, src) && Open(b, dst, currency))
            && (s.result.Ok? && TR.FindByIdempotencyKey(b.transactions, key).None? ==>
                  && BalanceOf(s.bank, src) == BalanceOf(b, src) - amount
                  && BalanceOf(s.bank, dst) == BalanceOf(b, dst) + amount
                  && BalanceOf(s.bank, src) + BalanceOf(s.bank, dst) == BalanceOf(b, src) + BalanceOf(b, dst)
                  && (forall k | k != src && k != dst :: BalanceOf(s.bank, k) == BalanceOf(b, k)))
  {
    if src != dst {
      var draft := T.Request(T.Transfer, Some(src), Some(dst), Some(amount), Some(currency), key, initiatedBy);
      var s := Transfer(b, Some(src), Some(dst), Some(amount), Some(currency), key, initiatedBy, now);
      AdmittedRequest(b, draft, now);
      var r := Admit(b, draft, now);
      if r.Admitted? {
        assert s == CompleteTransfer(r.bank, r.tx, now);
        assert r.tx.sourceAccountId == Some(src) && r.tx.destinationAccountId == Some(dst);
        assert r.tx.amount == Some(amount) && r.tx.currency == Some(currency);
        CompleteTransferPosts(b, r.bank, r.tx, now);
      }
    }
  }

  /** A fresh `transfer` that succeeds writes exactly one DEBIT on the source
      and then one CREDIT on the destination, under the two ids after the
      transaction's, for the new POSTED transaction, and that transaction
      passes the double-entry check. */
  lemma TransferRecordsDebitAndCredit(b: Bank, src: Uuid, dst: Uuid, amount: real, currency: string,
                                      key: Option<Uuid>, initiatedBy: Option<string>, now: Time)
    requires Valid(b)
    ensures var s := Transfer(b, Some(src), Some(dst), Some(amount), Some(currency), key, initiatedBy, now);
            s.result.Ok? && TR.FindByIdempotencyKey(b.transactions, key).None? ==>
              && s.bank.ledger == b.ledger + [L.LedgerEntry(Some(b.nextId + 1), Some(b.nextId), Some(src), Some(L.Debit),
                                                            Some(amount), Some(currency), Some(now)),
                                              L.LedgerEntry(Some(b.nextId + 2), Some(b.nextId), Some(dst), Some(L.Credit),
                                                            Some(amount), Some(currency), Some(now))]
              && s.bank.transactions == b.transactions + [s.result.value]
              && LR.CountByTransactionId(s.bank.ledger, b.nextId) == 2
              && LS.ValidateDoubleEntry(s.bank.ledger, s.bank.transactions, b.nextId) == Ok(true)
  {
    if src != dst {
      var draft := T.Request(T.Transfer, Some(src), Some(dst), Some(amount), Some(currency), key, initiatedBy);
      var s := Transfer(b, Some(src), Some(dst), Some(amount), Some(currency), key, initiatedBy, now);
      AdmittedRequest(b, draft, now);
      var r := Admit(b, draft, now);
      if r.Admitted? {
        assert s == CompleteTransfer(r.bank, r.tx, now);
        TransferRecordsAdmitted(b, r.bank, r.tx, src, dst, amount, currency, now);
      }
    }
  }

  /** `CompleteTransferRecords` for the request of `TransferRecordsDebitAndCredit`,
      with the ids counted from the state before the prologue. */
  lemma TransferRecordsAdmitted(b0: Bank, b: Bank, tx: T.Transaction, src: Uuid, dst: Uuid, amount: real,
                                currency: string, now: Time)
    requires AdmittedFrom(b0, b, tx) && tx.txType == Some(T.Transfer) && tx.id == Some(b0.nextId)
    requires tx.sourceAccountId == Some(src) && tx.destinationAccountId == Some(dst)
    requires tx.amount == Some(amount) && tx.currency == Some(currency)
    ensures var s := CompleteTransfer(b, tx, now);
            s.result.Ok? ==>
              && s.bank.ledger == b0.ledger + [L.LedgerEntry(Some(b0.nextId + 1), Some(b0.nextId), Some(src), Some(L.Debit),
                                                             Some(amount), Some(currency), Some(now)),
                                               L.LedgerEntry(Some(b0.nextId + 2), Some(b0.nextId), Some(dst), Some(L.Credit),
                                                             Some(amount), Some(currency), Some(now))]
              && s.bank.transactions == b0.transactions + [s.result.value]
              && LR.CountByTransactionId(s.bank.ledger, b0.nextId) == 2
              && LS.ValidateDoubleEntry(s.bank.ledger, s.bank.transactions, b0.nextId) == Ok(true)
  {
    CompleteTransferRecords(b0, b, tx, now);
  }

  /** A fresh `transfer` between two accounts that the prologue admits
      throws InsufficientFundsException exactly when both accounts exist and
      the source holds less than the amount in the currency. It then reports
      the amount and the source's balance, leaves every account and the
      ledger as they were, and stores the transaction as FAILED. */
  lemma TransferDeclines(b: Bank, src: Uuid, dst: Uuid, amount: real, currency: string,
                         key: Option<Uuid>, initiatedBy: Option<string>, now: Time)
    requires Valid(b)
    ensures var draft := T.Request(T.Transfer, Some(src), Some(dst), Some(amount), Some(currency), key, initiatedBy);
            var s := Transfer(b, Some(src), Some(dst), Some(amount), Some(currency), key, initiatedBy, now);
            && (s.result.Err? && s.result.failure.InsufficientFunds?
                <==> && src != dst && Admits(b, draft)
                     && HoldsIn(b, src, currency) && dst in b.accounts && BalanceOf(b, src) < amount)
            && (s.result.Err? && s.result.failure.InsufficientFunds? ==>
                  && s.result.failure == InsufficientFunds(amount, BalanceOf(b, src))
                  && s.bank.accounts == b.accounts && s.bank.ledger == b.ledger
                  && |s.bank.transactions| == |b.transactions| + 1
                  && s.bank.transactions[..|b.transactions|] == b.transactions
                  && s.bank.transactions[|b.transactions|].status == Some(T.Failed)
                  && s.bank.transactions[|b.transactions|].id == Some(b.nextId))
  {
    if src != dst {
      var draft := T.Request(T.Transfer, Some(src), Some(dst), Some(amount), Some(currency), key, initiatedBy);
      var s := Transfer(b, Some(src), Some(dst), Some(amount), Some(currency), key, initiatedBy, now);
      AdmittedRequest(b, draft, now);
      var r := Admit(b, draft, now);
      if r.Admitted? {
        assert s == CompleteTransfer(r.bank, r.tx, now);
        assert r.tx.sourceAccountId == Some(src) && r.tx.destinationAccountId == Some(dst);
        assert r.tx.amount == Some(amount) && r.tx.currency == Some(currency);
        CompleteTransferDeclines(b, r.bank, r.tx, now);
      }
    }
  }

  /** Replay: against a valid state, any movement carrying the key of a
      stored transaction returns that transaction and writes nothing,
      whatever its other arguments (a transfer only once its accounts pass
      the same-account check). */
  lemma ReplayReturnsStoredRow(b: Bank, t: T.Transaction, source: Option<Uuid>, destination: Option<Uuid>,
                               amount: Option<real>, currency: Option<string>, initiatedBy: Option<string>, now: Time)
    requires Valid(b) && t in b.transactions
    ensures Withdraw(b, source, amount, currency, t.idempotencyKey, initiatedBy, now) == Step(b, Ok(t))
    ensures Deposit(b, destination, amount, currency, t.idempotencyKey, initiatedBy, now) == Step(b, Ok(t))
    ensures source.Some? && source != destination ==>
              Transfer(b, source, destination, amount, currency, t.idempotencyKey, initiatedBy, now) == Step(b, Ok(t))
  {
    assert TxRow(t, b.nextId);
    var i :| 0 <= i < |b.transactions| && b.transactions[i] == t;
    TR.KeyLookupIsExact(b.transactions, i, t.idempotencyKey.value);
  }

  /** A retry: once a `withdraw` has succeeded, calling it again with the same
      key, with any other arguments and at any time, returns the same
      transaction and changes nothing. */
  lemma WithdrawRetryReplays(b: Bank, id: Uuid, amount: real, currency: string, key: Option<Uuid>,
                             initiatedBy: Option<string>, now: Time,
                             id': Option<Uuid>, amount': Option<real>, currency': Option<string>,
                             initiatedBy': Option<string>, now': Time)
    requires Valid(b)
    ensures var s := Withdraw(b, Some(id), Some(amount), Some(currency), key, initiatedBy, now);
            s.result.Ok? ==> Withdraw(s.bank, id', amount', currency', key, initiatedBy', now') == Step(s.bank, s.result)
  {
    var s := Withdraw(b, Some(id), Some(amount), Some(currency), key, initiatedBy, now);
    if s.result.Ok? {
      WithdrawPreservesValid(b, Some(id), Some(amount), Some(currency), key, initiatedBy, now);
      if TR.FindByIdempotencyKey(b.transactions, key).None? {
        WithdrawRecordsOneDebit(b, id, amount, currency, key, initiatedBy, now);
      }
      assert s.result.value in s.bank.transactions;
      ReplayReturnsStoredRow(s.bank, s.result.value, id', None, amount', currency', initiatedBy', now');
    }
  }

  /** The guard: while the idempotency store answers and already holds the
      key of a request whose key no stored transaction carries, every
      movement throws IllegalStateException and writes nothing at all. */
  lemma GuardRefusalWritesNothing(b: Bank, source: Option<Uuid>, destination: Option<Uuid>, amount: Option<real>,
                                  currency: Option<string>, key: Option<Uuid>, initiatedBy: Option<string>, now: Time)
    requires TR.FindByIdempotencyKey(b.transactions, key).None?
    requires b.guard.available && key in b.guard.keys
    ensures Withdraw(b, source, amount, currency, key, initiatedBy, now) == Step(b, Err(IllegalState(IdempotencyKeyInUse)))
    ensures Deposit(b, destination, amount, currency, key, initiatedBy, now) == Step(b, Err(IllegalState(IdempotencyKeyInUse)))
    ensures source.Some? && source != destination ==>
              Transfer(b, source, destination, amount, currency, key, initiatedBy, now)
              == Step(b, Err(IllegalState(IdempotencyKeyInUse)))
  {
  }

  /** Validation runs after the key is registered: a withdrawal refused by
      validation consumes its key, so while the store answers, a corrected
      retry under the same key is refused by the guard. */
  lemma RejectedRequestConsumesKey(b: Bank, source: Option<Uuid>, amount: Option<real>, currency: Option<string>,
                                   key: Option<Uuid>, initiatedBy: Option<string>, now: Time,
                                   source': Option<Uuid>, amount': Option<real>, currency': Option<string>,
                                   initiatedBy': Option<string>, now': Time)
    requires TR.FindByIdempotencyKey(b.transactions, key).None?
    requires b.guard.available && key !in b.guard.keys
    requires T.Validate(T.Request(T.Withdrawal, source, None, amount, currency, key, initiatedBy)).Fail?
    ensures var s := Withdraw(b, source, amount, currency, key, initiatedBy, now);
            && s.result == Err(T.Validate(T.Request(T.Withdrawal, source, None, amount, currency, key, initiatedBy)).failure)
            && s.bank == b.(guard := b.guard.(keys := b.guard.keys + {key}))
            && Withdraw(s.bank, source', amount', currency', key, initiatedBy', now')
               == Step(s.bank, Err(IllegalState(IdempotencyKeyInUse)))
  {
  }

  /** The lock order depends only on the pair: a transfer A to B and a
      transfer B to A lock the same account first. */
  lemma LockOrderSymmetric(source: Uuid, destination: Uuid)
    ensures LockOrder(source, destination) == LockOrder(destination, source)
    ensures LockOrder(source, destination).0 == if source < destination then source else destination
  {
  }
}
