/** The queries of repository/TransactionRepository.java, plus the inherited
    `findById` and `save`, over the `transactions` table modelled as a
    sequence of rows in insertion order. Saving a row whose id is already
    stored replaces that row in place (a JPA merge); saving a new id appends. */
module TransactionRepository {
  import opened Base
  import opened Seqs
  import opened Transactions

  /** `WHERE id = :id`. */
  function HasId(id: Uuid): Transaction -> bool {
    (t: Transaction) => t.id == Some(id)
  }

  /** `WHERE idempotencyKey = :key`; a null argument becomes `IS NULL`. */
  function HasKey(key: Option<Uuid>): Transaction -> bool {
    (t: Transaction) => t.idempotencyKey == key
  }

  /** `WHERE sourceAccountId = :id`. */
  function FromAccount(accountId: Uuid): Transaction -> bool {
    (t: Transaction) => t.sourceAccountId == Some(accountId)
  }

  /** `WHERE destinationAccountId = :id`. */
  function ToAccount(accountId: Uuid): Transaction -> bool {
    (t: Transaction) => t.destinationAccountId == Some(accountId)
  }

  /** `WHERE sourceAccountId = :id OR destinationAccountId = :id`. */
  function Involves(accountId: Uuid): Transaction -> bool {
    (t: Transaction) => t.sourceAccountId == Some(accountId) || t.destinationAccountId == Some(accountId)
  }

  /** `status = 'PENDING'`. */
  function PendingRow(): Transaction -> bool {
    (t: Transaction) => IsPending(t)
  }

  /** `WHERE (sourceAccountId = :id OR destinationAccountId = :id) AND status = 'PENDING'`. */
  function PendingInvolving(accountId: Uuid): Transaction -> bool {
    (t: Transaction) => (t.sourceAccountId == Some(accountId) || t.destinationAccountId == Some(accountId))
                        && IsPending(t)
  }

  /** The unique index on `idempotency_key`: no key is stored twice. */
  ghost predicate UniqueKeys(txs: seq<Transaction>) {
    forall i, j | 0 <= i < |txs| && 0 <= j < |txs| && txs[i].idempotencyKey.Some?
                  && txs[i].idempotencyKey == txs[j].idempotencyKey :: i == j
  }

  /** The primary key: no id is stored twice. */
  ghost predicate UniqueIds(txs: seq<Transaction>) {
    forall i, j | 0 <= i < |txs| && 0 <= j < |txs| && txs[i].id.Some? && txs[i].id == txs[j].id :: i == j
  }

  /** `findById`: the row with that id, if any. */
  function FindById(txs: seq<Transaction>, id: Uuid): (r: Option<Transaction>)
    ensures r.None? <==> forall t | t in txs :: t.id != Some(id)
    ensures r.Some? ==> r.value in txs && r.value.id == Some(id)
  {
    Find(txs, HasId(id))
  }

  /** `findByIdempotencyKey`: the row carrying that key, if any. */
  function FindByIdempotencyKey(txs: seq<Transaction>, key: Option<Uuid>): (r: Option<Transaction>)
    ensures r.None? <==> forall t | t in txs :: t.idempotencyKey != key
    ensures r.Some? ==> r.value in txs && r.value.idempotencyKey == key
  {
    Find(txs, HasKey(key))
  }

  /** Under the unique index the key lookup finds exactly the row that
      carries the key. */
  lemma KeyLookupIsExact(txs: seq<Transaction>, i: nat, key: Uuid)
    requires UniqueKeys(txs) && i < |txs| && txs[i].idempotencyKey == Some(key)
    ensures FindByIdempotencyKey(txs, Some(key)) == Some(txs[i])
  {
    var r := FindByIdempotencyKey(txs, Some(key));
    var j :| 0 <= j < |txs| && txs[j] == r.value;
  }

  /** The position of the row with that id, the first one if several. */
  function IndexOfId(txs: seq<Transaction>, id: Uuid): (r: Option<nat>)
    ensures r.None? <==> forall i | 0 <= i < |txs| :: txs[i].id != Some(id)
    ensures r.Some? ==> r.value < |txs| && txs[r.value].id == Some(id)
                        && forall j | 0 <= j < r.value :: txs[j].id != Some(id)
  {
    IndexWhere(txs, HasId(id))
  }

  /** `save` of an entity without `@Version` and with an assigned id: it is
      new when its id is null, and then `@PrePersist` draws the id, stamps
      `createdAt`, defaults the status, and the row is inserted. Otherwise
      it is merged: when a row has that id, the row takes the entity's
      columns except `createdAt` (declared `updatable = false`) and the
      merged entity is returned; when no row has it, a copy is persisted,
      and its `@PrePersist` replaces the id and `createdAt`. */
  function Save(txs: seq<Transaction>, t: Transaction, freshId: Uuid, now: Time): (r: (seq<Transaction>, Transaction))
    ensures (t.id.None? || IndexOfId(txs, t.id.value).None?) ==>
              && r.0 == txs + [r.1]
              && r.1 == OnCreate(t, freshId, now)
    ensures t.id.Some? && IndexOfId(txs, t.id.value).Some? ==>
              var i := IndexOfId(txs, t.id.value).value;
              && |r.0| == |txs|
              && (forall j | 0 <= j < |txs| && j != i :: r.0[j] == txs[j])
              && r.0[i] == t.(createdAt := txs[i].createdAt)
              && r.1 == t
  {
    if t.id.None? then (txs + [OnCreate(t, freshId, now)], OnCreate(t, freshId, now))
    else match IndexOfId(txs, t.id.value)
      case None => (txs + [OnCreate(t, freshId, now)], OnCreate(t, freshId, now))
      case Some(i) => (txs[i := t.(createdAt := txs[i].createdAt)], t)
  }

  /** Under unique ids, saving a version of a stored row keeps the ids
      unique, the length and every other row; the lookup by id then finds
      that version with the stored `createdAt`. */
  lemma SaveOverStored(txs: seq<Transaction>, t: Transaction, freshId: Uuid, now: Time)
    ensures t.id.Some? && UniqueIds(txs) && FindById(txs, t.id.value).Some? ==>
              var r := Save(txs, t, freshId, now).0;
              && UniqueIds(r)
              && |r| == |txs|
              && (forall i | 0 <= i < |txs| && txs[i].id != t.id :: r[i] == txs[i])
              && FindById(r, t.id.value) == Some(t.(createdAt := FindById(txs, t.id.value).value.createdAt))
  {
    if t.id.Some? && UniqueIds(txs) && FindById(txs, t.id.value).Some? {
      var stored := FindById(txs, t.id.value).value;
      var k :| 0 <= k < |txs| && txs[k] == stored;
      var i := IndexOfId(txs, t.id.value).value;
      assert k == i;
      var r := Save(txs, t, freshId, now).0;
      assert forall j | 0 <= j < |r| :: r[j].id == txs[j].id;
      var found := FindById(r, t.id.value).value;
      var m :| 0 <= m < |r| && r[m] == found;
      assert m == i;
    }
  }

  /** Saving a new row's next version (one that keeps its `createdAt`) over
      the row leaves the table with only that version appended; the lookup
      by id finds it. */
  lemma SaveThenUpdate(txs: seq<Transaction>, t: Transaction, u: Transaction)
    requires t.id.Some? && u.id == t.id && u.createdAt == t.createdAt && UniqueIds(txs)
    requires forall i | 0 <= i < |txs| :: txs[i].id != t.id
    ensures forall freshId, now :: Save(txs + [t], u, freshId, now).0 == txs + [u]
    ensures UniqueIds(txs + [u])
    ensures FindById(txs + [u], u.id.value) == Some(u)
  {
    var s := txs + [t];
    assert s[|txs|].id == t.id;
    assert IndexOfId(s, t.id.value) == Some(|txs|);
    assert s[|txs| := u] == txs + [u];
    assert forall v | v in txs :: v.id != t.id;
  }

  /** `findBySourceAccountId`: the rows whose source is the account. */
  function FindBySourceAccountId(txs: seq<Transaction>, accountId: Uuid): (r: seq<Transaction>)
    ensures forall t :: t in r <==> t in txs && t.sourceAccountId == Some(accountId)
    ensures forall t :: multiset(r)[t] == if t.sourceAccountId == Some(accountId) then multiset(txs)[t] else 0
  {
    Filter(txs, FromAccount(accountId))
  }

  /** `findByDestinationAccountId`: the rows whose destination is the account. */
  function FindByDestinationAccountId(txs: seq<Transaction>, accountId: Uuid): (r: seq<Transaction>)
    ensures forall t :: t in r <==> t in txs && t.destinationAccountId == Some(accountId)
    ensures forall t :: multiset(r)[t] == if t.destinationAccountId == Some(accountId) then multiset(txs)[t] else 0
  {
    Filter(txs, ToAccount(accountId))
  }

  /** ORDER BY createdAt DESC, as an ascending sort on the negated time. */
  function NewestFirstKey(t: Transaction): int {
    -t.createdAt.GetOr(0)
  }

  /** `findAllByAccountId`: exactly the rows the account is source or
      destination of, newest first. */
  function FindAllByAccountId(txs: seq<Transaction>, accountId: Uuid): (r: seq<Transaction>)
    requires forall t | t in txs && Involves(accountId)(t) :: t.createdAt.Some?
    ensures forall t :: t in r <==> t in txs && (t.sourceAccountId == Some(accountId) || t.destinationAccountId == Some(accountId))
    ensures multiset(r) == multiset(Filter(txs, Involves(accountId)))
    ensures forall i, j | 0 <= i < j < |r| :: r[i].createdAt.value >= r[j].createdAt.value
  {
    var rows := Filter(txs, Involves(accountId));
    var r := SortBy(rows, NewestFirstKey);
    SortByMembers(rows, NewestFirstKey);
    r
  }

  /** A transfer between two accounts shows in both accounts' histories, and
      the combined source and destination lists hold the history's rows. */
  lemma HistoryIsSourceOrDestination(txs: seq<Transaction>, accountId: Uuid, t: Transaction)
    requires forall u | u in txs && Involves(accountId)(u) :: u.createdAt.Some?
    ensures t in FindAllByAccountId(txs, accountId)
            <==> t in FindBySourceAccountId(txs, accountId) || t in FindByDestinationAccountId(txs, accountId)
  {
  }

  /** `countPendingByAccountId`: a counting pass; zero exactly when no
      pending row involves the account. */
  function CountPendingByAccountId(txs: seq<Transaction>, accountId: Uuid): (n: nat)
    ensures n <= |txs|
    ensures n == 0 <==> forall t | t in txs && (t.sourceAccountId == Some(accountId) || t.destinationAccountId == Some(accountId))
                          :: !IsPending(t)
  {
    Count(txs, PendingInvolving(accountId))
  }

  /** The pending count is the number of PENDING rows in the account's history. */
  lemma PendingCountMatchesHistory(txs: seq<Transaction>, accountId: Uuid)
    requires forall t | t in txs && Involves(accountId)(t) :: t.createdAt.Some?
    ensures CountPendingByAccountId(txs, accountId) == |Filter(FindAllByAccountId(txs, accountId), PendingRow())|
  {
    CountIsFilterLength(txs, PendingInvolving(accountId));
    FilterConjunction(txs, Involves(accountId), PendingRow(), PendingInvolving(accountId));
    FilterPermutation(FindAllByAccountId(txs, accountId), Filter(txs, Involves(accountId)), PendingRow());
  }
}
