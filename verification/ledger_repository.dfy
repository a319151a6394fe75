/** The queries of repository/LedgerEntryRepository.java over the append-only
    `ledger_entries` table, modelled as a sequence of rows in insertion order.
    A query without ORDER BY returns rows in insertion order; ORDER BY
    timestamp is a stable sort (rows with equal timestamps stay in insertion
    order, one of the orders SQL allows). */
module LedgerEntryRepository {
  import opened Base
  import opened Seqs
  import opened LedgerEntries

  /** `WHERE id = :id`. */
  function HasId(id: Uuid): LedgerEntry -> bool {
    (e: LedgerEntry) => e.id == Some(id)
  }

  /** `WHERE transactionId = :id`. */
  function OfTransaction(transactionId: Uuid): LedgerEntry -> bool {
    (e: LedgerEntry) => e.transactionId == Some(transactionId)
  }

  /** `WHERE accountId = :id`. */
  function OfAccount(accountId: Uuid): LedgerEntry -> bool {
    (e: LedgerEntry) => e.accountId == Some(accountId)
  }

  /** `WHERE accountId = :id AND type = :type`. */
  function OfAccountAndType(accountId: Uuid, t: EntryType): LedgerEntry -> bool {
    (e: LedgerEntry) => e.accountId == Some(accountId) && e.entryType == Some(t)
  }

  /** The ORDER BY key; the column is NOT NULL, so the default never applies
      to a stored row. */
  function TimestampKey(e: LedgerEntry): int {
    e.timestamp.GetOr(0)
  }

  /** The position of the first row whose primary key is `id`. */
  function IndexOfId(ledger: seq<LedgerEntry>, id: Uuid): (r: Option<nat>)
    ensures r.None? <==> forall i | 0 <= i < |ledger| :: ledger[i].id != Some(id)
    ensures r.Some? ==> r.value < |ledger| && ledger[r.value].id == Some(id)
                        && forall j | 0 <= j < r.value :: ledger[j].id != Some(id)
  {
    IndexWhere(ledger, HasId(id))
  }

  /** `save` of an entity without `@Version` and with an assigned id: it is
      new when its id is null, and then `@PrePersist` stamps it and the row
      is inserted. Otherwise it is merged: when a row has that id, the row
      takes the entity's columns except `timestamp` (declared
      `updatable = false`) and the merged entity is returned; when no row
      has it, a copy is persisted, and `@PrePersist` replaces the id. */
  function Save(ledger: seq<LedgerEntry>, e: LedgerEntry, freshId: Uuid, now: Time): (r: (seq<LedgerEntry>, LedgerEntry))
    ensures (e.id.None? || IndexOfId(ledger, e.id.value).None?) ==>
              && r.0 == ledger + [r.1]
              && r.1 == OnCreate(e, freshId, now)
    ensures e.id.Some? && IndexOfId(ledger, e.id.value).Some? ==>
              var i := IndexOfId(ledger, e.id.value).value;
              && |r.0| == |ledger|
              && (forall j | 0 <= j < |ledger| && j != i :: r.0[j] == ledger[j])
              && r.0[i] == e.(timestamp := ledger[i].timestamp)
              && r.1 == e
  {
    if e.id.None? then (ledger + [OnCreate(e, freshId, now)], OnCreate(e, freshId, now))
    else match IndexOfId(ledger, e.id.value)
      case None => (ledger + [OnCreate(e, freshId, now)], OnCreate(e, freshId, now))
      case Some(i) => (ledger[i := e.(timestamp := ledger[i].timestamp)], e)
  }

  /** `findByTransactionId`: exactly the rows of that transaction, each as
      often as it is stored. */
  function FindByTransactionId(ledger: seq<LedgerEntry>, transactionId: Uuid): (r: seq<LedgerEntry>)
    ensures forall e :: e in r <==> e in ledger && e.transactionId == Some(transactionId)
    ensures forall e :: multiset(r)[e] == if e.transactionId == Some(transactionId) then multiset(ledger)[e] else 0
  {
    Filter(ledger, OfTransaction(transactionId))
  }

  /** The rows of one account, in insertion order (the WHERE clause shared by
      the account queries below). */
  function RowsOfAccount(ledger: seq<LedgerEntry>, accountId: Uuid): seq<LedgerEntry> {
    Filter(ledger, OfAccount(accountId))
  }

  /** `findByAccountIdOrderByTimestampAsc`: exactly that account's rows, with
      non-decreasing timestamps. */
  function FindByAccountIdOrderByTimestampAsc(ledger: seq<LedgerEntry>, accountId: Uuid): (r: seq<LedgerEntry>)
    requires forall e | e in ledger && e.accountId == Some(accountId) :: e.timestamp.Some?
    ensures forall e :: e in r <==> e in ledger && e.accountId == Some(accountId)
    ensures multiset(r) == multiset(RowsOfAccount(ledger, accountId))
    ensures forall i, j | 0 <= i < j < |r| :: r[i].timestamp.value <= r[j].timestamp.value
  {
    var rows := RowsOfAccount(ledger, accountId);
    var r := SortBy(rows, TimestampKey);
    SortByMembers(rows, TimestampKey);
    r
  }

  /** `findByAccountAndType`: exactly that account's rows of that type, with
      non-decreasing timestamps. */
  function FindByAccountAndType(ledger: seq<LedgerEntry>, accountId: Uuid, t: EntryType): (r: seq<LedgerEntry>)
    requires forall e | e in ledger && e.accountId == Some(accountId) :: e.timestamp.Some?
    ensures forall e :: e in r <==> e in ledger && e.accountId == Some(accountId) && e.entryType == Some(t)
    ensures multiset(r) == multiset(Filter(ledger, OfAccountAndType(accountId, t)))
    ensures forall i, j | 0 <= i < j < |r| :: r[i].timestamp.value <= r[j].timestamp.value
  {
    var rows := Filter(ledger, OfAccountAndType(accountId, t));
    var r := SortBy(rows, TimestampKey);
    SortByMembers(rows, TimestampKey);
    r
  }

  /** `countByTransactionId`: a counting pass over the table; zero exactly
      when the transaction has no rows. */
  function CountByTransactionId(ledger: seq<LedgerEntry>, transactionId: Uuid): (n: nat)
    ensures n <= |ledger|
    ensures n == 0 <==> forall e | e in ledger :: e.transactionId != Some(transactionId)
  {
    Count(ledger, OfTransaction(transactionId))
  }

  /** The count is the length of the list `findByTransactionId` returns. */
  lemma CountIsLengthOfFind(ledger: seq<LedgerEntry>, transactionId: Uuid)
    ensures CountByTransactionId(ledger, transactionId) == |FindByTransactionId(ledger, transactionId)|
  {
    CountIsFilterLength(ledger, OfTransaction(transactionId));
  }

  /** `SELECT COALESCE(SUM(amount), 0) ... WHERE p`: a summing pass over the
      table; 0 when no row matches, never negative over non-negative rows. */
  function SumWhere(ledger: seq<LedgerEntry>, p: LedgerEntry -> bool): (total: real)
    ensures (forall e | e in ledger :: !p(e)) ==> total == 0.0
    ensures (forall e | e in ledger :: AmountOf(e) >= 0.0) ==> total >= 0.0
    decreases |ledger|
  {
    if |ledger| == 0 then 0.0
    else
      var init := ledger[..|ledger| - 1];
      var last := ledger[|ledger| - 1];
      assert ledger == init + [last];
      SumWhere(init, p) + (if p(last) then AmountOf(last) else 0.0)
  }

  /** The sum of the amounts of a list of rows. */
  function Total(rows: seq<LedgerEntry>): real
    decreases |rows|
  {
    if |rows| == 0 then 0.0 else Total(rows[..|rows| - 1]) + AmountOf(rows[|rows| - 1])
  }

  /** `sumDebitsByAccount`. */
  function SumDebitsByAccount(ledger: seq<LedgerEntry>, accountId: Uuid): real {
    SumWhere(ledger, OfAccountAndType(accountId, Debit))
  }

  /** `sumCreditsByAccount`. */
  function SumCreditsByAccount(ledger: seq<LedgerEntry>, accountId: Uuid): real {
    SumWhere(ledger, OfAccountAndType(accountId, Credit))
  }

  /** `sumFeesByAccount`. */
  function SumFeesByAccount(ledger: seq<LedgerEntry>, accountId: Uuid): real {
    SumWhere(ledger, OfAccountAndType(accountId, Fee))
  }

  /** Appending a row adds its amount to every sum whose condition it meets. */
  lemma SumAppend(ledger: seq<LedgerEntry>, e: LedgerEntry, p: LedgerEntry -> bool)
    ensures SumWhere(ledger + [e], p) == SumWhere(ledger, p) + (if p(e) then AmountOf(e) else 0.0)
  {
    assert (ledger + [e])[..|ledger + [e]| - 1] == ledger;
  }

  /** A conditional sum over the table is the total of the rows the same
      condition selects, so each `sum*ByAccount` is the total of the matching
      `findByAccountAndType` rows. */
  lemma {:induction false} SumIsTotalOfFilter(ledger: seq<LedgerEntry>, p: LedgerEntry -> bool)
    ensures SumWhere(ledger, p) == Total(Filter(ledger, p))
    decreases |ledger|
  {
    if |ledger| > 0 {
      var init := ledger[..|ledger| - 1];
      var last := ledger[|ledger| - 1];
      assert ledger == init + [last];
      SumIsTotalOfFilter(init, p);
      FilterAppend(init, last, p);
      var f := Filter(init, p);
      if p(last) {
        assert (f + [last])[..|f + [last]| - 1] == f;
      }
    }
  }

  /** Each `sum*ByAccount` is the total of the account's rows of its type:
      zero when there are none, never negative over non-negative rows. */
  lemma SumsByAccountAreTotals(ledger: seq<LedgerEntry>, accountId: Uuid)
    ensures SumDebitsByAccount(ledger, accountId) == Total(Filter(ledger, OfAccountAndType(accountId, Debit)))
    ensures SumCreditsByAccount(ledger, accountId) == Total(Filter(ledger, OfAccountAndType(accountId, Credit)))
    ensures SumFeesByAccount(ledger, accountId) == Total(Filter(ledger, OfAccountAndType(accountId, Fee)))
    ensures (forall e | e in ledger :: e.accountId != Some(accountId)) ==>
              SumDebitsByAccount(ledger, accountId) == 0.0 && SumCreditsByAccount(ledger, accountId) == 0.0
              && SumFeesByAccount(ledger, accountId) == 0.0
    ensures (forall e | e in ledger :: AmountOf(e) >= 0.0) ==>
              SumDebitsByAccount(ledger, accountId) >= 0.0 && SumCreditsByAccount(ledger, accountId) >= 0.0
              && SumFeesByAccount(ledger, accountId) >= 0.0
  {
    SumIsTotalOfFilter(ledger, OfAccountAndType(accountId, Debit));
    SumIsTotalOfFilter(ledger, OfAccountAndType(accountId, Credit));
    SumIsTotalOfFilter(ledger, OfAccountAndType(accountId, Fee));
  }

  /** When every row of the account is typed (the column is NOT NULL), its
      debit, credit and fee sums add up to the sum over all its rows. */
  lemma {:induction false} SumsPartitionAccount(ledger: seq<LedgerEntry>, accountId: Uuid)
    requires forall e | e in ledger && e.accountId == Some(accountId) :: e.entryType.Some?
    ensures SumDebitsByAccount(ledger, accountId) + SumCreditsByAccount(ledger, accountId)
            + SumFeesByAccount(ledger, accountId)
            == SumWhere(ledger, OfAccount(accountId))
    decreases |ledger|
  {
    if |ledger| > 0 {
      var init := ledger[..|ledger| - 1];
      var last := ledger[|ledger| - 1];
      assert ledger == init + [last];
      SumsPartitionAccount(init, accountId);
      ExactlyOneType(last);
    }
  }
}
