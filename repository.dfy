/**
 * The QR code store: the `qr_codes` table and the `status_history` audit log,
 * each kept in insertion order. A method that the source runs inside a
 * transaction has either its whole effect or, when it fails, none at all.
 * `clock` plays CURRENT_TIMESTAMP: every committed write takes the next tick,
 * and every row a transaction writes carries that tick.
 */
module Repository {
  import opened Types
  import opened Lists

  /** What PostgreSQL reports when an insert breaks the UNIQUE constraint on `qr_codes.code`. */
  const UniqueViolation: string := "duplicate key value violates unique constraint \"qr_codes_code_key\""

  /** What PostgreSQL reports for `INSERT ... VALUES` with an empty values list. */
  const EmptyValuesList: string := "syntax error at or near \"RETURNING\""

  /** What PostgreSQL reports for a negative OFFSET. */
  const NegativeOffset: string := "OFFSET must not be negative"

  /** What PostgreSQL reports for a negative LIMIT. */
  const NegativeLimit: string := "LIMIT must not be negative"

  /** Whether some record of the table carries that code value. */
  predicate CodeTaken(rows: seq<QRCode>, code: string) {
    exists k :: 0 <= k < |rows| && rows[k].code == code
  }

  /** The rows a bulk insert adds: one inactive, unassigned row per code, ids counting up from `firstId`, all stamped `now`. */
  function NewRows(batch: seq<string>, firstId: nat, now: nat): seq<QRCode> {
    seq(|batch|, k requires 0 <= k < |batch| => QRCode(firstId + k, batch[k], Inactive, None, now, now))
  }

  /** The primary key and the UNIQUE(code) constraint of `qr_codes`. */
  predicate UniqueKeys(rows: seq<QRCode>) {
    forall i, j :: 0 <= i < j < |rows| ==> rows[i].id != rows[j].id && rows[i].code != rows[j].code
  }

  /** Rows kept in insertion order carry non-decreasing creation times. */
  predicate CreatedInOrder(rows: seq<QRCode>) {
    forall i, j :: 0 <= i < j < |rows| ==> rows[i].createdAt <= rows[j].createdAt
  }

  /** History rows appended in time order. */
  predicate ChangedInOrder(rows: seq<StatusHistory>) {
    forall i, j :: 0 <= i < j < |rows| ==> rows[i].changedAt <= rows[j].changedAt
  }

  /** Filtering rows kept in creation order and reading them back to front lists them newest first. */
  lemma NewestCreatedFirst(rows: seq<QRCode>, p: QRCode -> bool)
    requires CreatedInOrder(rows)
    ensures forall i, j :: 0 <= i < j < |Filter(rows, p)| ==>
      Reverse(Filter(rows, p))[i].createdAt >= Reverse(Filter(rows, p))[j].createdAt
  {
    var le := (a: QRCode, b: QRCode) => a.createdAt <= b.createdAt;
    assert Sorted(rows, le);
    FilterSorted(rows, p, le);
  }

  /** The same for history rows and their change times. */
  lemma NewestChangedFirst(rows: seq<StatusHistory>, p: StatusHistory -> bool)
    requires ChangedInOrder(rows)
    ensures forall i, j :: 0 <= i < j < |Filter(rows, p)| ==>
      Reverse(Filter(rows, p))[i].changedAt >= Reverse(Filter(rows, p))[j].changedAt
  {
    var le := (a: StatusHistory, b: StatusHistory) => a.changedAt <= b.changedAt;
    assert Sorted(rows, le);
    FilterSorted(rows, p, le);
  }

  /** Every row's id was handed out already and its stamps are not in the future. */
  predicate RowsIssued(rows: seq<QRCode>, nextId: nat, clock: nat) {
    forall i :: 0 <= i < |rows| ==> rows[i].id < nextId && rows[i].createdAt <= rows[i].updatedAt <= clock
  }

  /** History ids are distinct and handed out already; no change is stamped in the future. */
  predicate HistoryIssued(rows: seq<StatusHistory>, nextHistoryId: nat, clock: nat) {
    && (forall i :: 0 <= i < |rows| ==> rows[i].id < nextHistoryId && rows[i].changedAt <= clock)
    && (forall i, j :: 0 <= i < j < |rows| ==> rows[i].id != rows[j].id)
  }

  /** Appending a history row stamped at a new tick with the next id keeps the log's constraints. */
  lemma AppendKeepsHistory(rows: seq<StatusHistory>, nextHistoryId: nat, clock: nat, entry: StatusHistory)
    requires HistoryIssued(rows, nextHistoryId, clock) && ChangedInOrder(rows)
    requires entry.id == nextHistoryId && entry.changedAt == clock + 1
    ensures HistoryIssued(rows + [entry], nextHistoryId + 1, clock + 1) && ChangedInOrder(rows + [entry])
  {
  }

  /** Rewriting one row in place, keeping its id, code and creation time, keeps the keys unique and the creation order. */
  lemma ReplaceKeepsKeys(rows: seq<QRCode>, nextId: nat, clock: nat, i: nat, row: QRCode)
    requires i < |rows|
    requires row.id == rows[i].id && row.code == rows[i].code && row.createdAt == rows[i].createdAt
    requires UniqueKeys(rows) && CreatedInOrder(rows)
    requires RowsIssued(rows, nextId, clock) && row.updatedAt == clock + 1 && rows[i].createdAt <= clock
    ensures UniqueKeys(rows[i := row]) && CreatedInOrder(rows[i := row])
    ensures RowsIssued(rows[i := row], nextId, clock + 1)
  {
  }

  class QRCodeRepository {
    var codes: seq<QRCode>
    var history: seq<StatusHistory>
    var nextId: nat
    var nextHistoryId: nat
    var clock: nat

    /**
     * The table constraints (primary keys, UNIQUE(code)) and what the clock
     * guarantees: nothing is stamped in the future, rows inserted later were
     * created no earlier, history rows are appended in time order.
     */
    ghost predicate Valid()
      reads this
    {
      && UniqueKeys(codes)
      && RowsIssued(codes, nextId, clock)
      && CreatedInOrder(codes)
      && HistoryIssued(history, nextHistoryId, clock)
      && ChangedInOrder(history)
    }

    constructor ()
      ensures Valid()
      ensures codes == [] && history == []
    {
      codes, history := [], [];
      nextId, nextHistoryId, clock := 0, 0, 0;
    }

    /** `findById`: the record with that id, or nothing exactly when no record has it. */
    function FindById(id: nat): (r: Option<QRCode>)
      reads this
      ensures r.None? <==> forall k :: 0 <= k < |codes| ==> codes[k].id != id
      ensures r.Some? ==> r.value in codes && r.value.id == id
    {
      var i := FirstIndex(codes, (q: QRCode) => q.id == id);
      if i < 0 then None else Some(codes[i])
    }

    /** `findByCode`: the record with that code value, or nothing exactly when no record has it. */
    function FindByCode(code: string): (r: Option<QRCode>)
      reads this
      ensures r.None? <==> !CodeTaken(codes, code)
      ensures r.Some? ==> r.value in codes && r.value.code == code
    {
      var i := FirstIndex(codes, (q: QRCode) => q.code == code);
      if i < 0 then None else Some(codes[i])
    }

    /** `findByStatus`: exactly the records with that status, newest created first. */
    function FindByStatus(status: QRCodeStatus): (r: seq<QRCode>)
      reads this
      requires Valid()
      ensures forall q :: q in r <==> q in codes && q.status == status
      ensures forall q :: multiset(r)[q] == if q.status == status then multiset(codes)[q] else 0
      ensures forall i, j :: 0 <= i < j < |r| ==> r[i].createdAt >= r[j].createdAt
    {
      var hasStatus := (q: QRCode) => q.status == status;
      NewestCreatedFirst(codes, hasStatus);
      ReverseFilterCount(codes, hasStatus);
      Reverse(Filter(codes, hasStatus))
    }

    /** `findByUserId`: exactly the records assigned to that user, most recently updated first. */
    function FindByUserId(userId: UserId): (r: seq<QRCode>)
      reads this
      ensures forall q :: q in r <==> q in codes && q.userId == Some(userId)
      ensures forall q :: multiset(r)[q] == if q.userId == Some(userId) then multiset(codes)[q] else 0
      ensures forall i, j :: 0 <= i < j < |r| ==> r[i].updatedAt >= r[j].updatedAt
    {
      var isAssigned := (q: QRCode) => q.userId == Some(userId);
      var newerFirst := (a: QRCode, b: QRCode) => a.updatedAt >= b.updatedAt;
      var mine := Filter(codes, isAssigned);
      FilterMembers(codes, isAssigned);
      FilterCount(codes, isAssigned);
      SortBySorted(mine, newerFirst);
      var r := SortBy(mine, newerFirst);
      assert forall q :: q in r <==> q in multiset(r);
      r
    }

    /**
     * `findAll(limit, offset)`: the page of the newest-first listing that starts
     * at `offset`, at most `limit` long. PostgreSQL refuses a negative OFFSET,
     * and then a negative LIMIT, with an error.
     */
    function FindAll(limit: int, offset: int): (r: Result<seq<QRCode>>)
      reads this
      requires Valid()
      ensures r.Err? <==> limit < 0 || offset < 0
      ensures offset < 0 ==> r == Err(NegativeOffset)
      ensures 0 <= offset && limit < 0 ==> r == Err(NegativeLimit)
      ensures r.Ok? ==> |r.value| <= limit
      ensures r.Ok? && offset < |codes| ==> |r.value| == if limit < |codes| - offset then limit else |codes| - offset
      ensures r.Ok? && offset >= |codes| ==> r.value == []
      ensures r.Ok? ==> forall k :: 0 <= k < |r.value| ==> r.value[k] == codes[|codes| - 1 - offset - k]
      ensures r.Ok? ==> forall i, j :: 0 <= i < j < |r.value| ==> r.value[i].createdAt >= r.value[j].createdAt
    {
      if offset < 0 then Err(NegativeOffset)
      else if limit < 0 then Err(NegativeLimit)
      else
        var newest := Reverse(codes);
        if offset >= |newest| then Ok([])
        else Ok(newest[offset..offset + (if limit < |newest| - offset then limit else |newest| - offset)])
    }

    /** `getStatusHistory`: exactly the history rows of that code, most recent first. */
    function GetStatusHistory(qrCodeId: nat): (r: seq<StatusHistory>)
      reads this
      requires Valid()
      ensures forall h :: h in r <==> h in history && h.qrCodeId == qrCodeId
      ensures forall h :: multiset(r)[h] == if h.qrCodeId == qrCodeId then multiset(history)[h] else 0
      ensures forall i, j :: 0 <= i < j < |r| ==> r[i].changedAt >= r[j].changedAt
    {
      var mine := (h: StatusHistory) => h.qrCodeId == qrCodeId;
      NewestChangedFirst(history, mine);
      ReverseFilterCount(history, mine);
      Reverse(Filter(history, mine))
    }

    /** Whether some code of the batch is already in the table. */
    predicate AnyTaken(batch: seq<string>)
      reads this
    {
      exists k :: 0 <= k < |batch| && CodeTaken(codes, batch[k])
    }

    /** `create`: insert one inactive, unassigned code; the UNIQUE constraint rejects a code already present. */
    method Create(code: string) returns (r: Result<QRCode>)
      requires Valid()
      modifies this
      ensures Valid()
      ensures old(FindByCode(code)).Some? ==> r == Err(UniqueViolation) && unchanged(this)
      ensures old(FindByCode(code)).None? ==>
        && r == Ok(QRCode(old(nextId), code, Inactive, None, clock, clock))
        && codes == old(codes) + [r.value]
        && history == old(history)
        && clock == old(clock) + 1
    {
      if FindByCode(code).Some? {
        return Err(UniqueViolation);
      }
      clock := clock + 1;
      var row := QRCode(nextId, code, Inactive, None, clock, clock);
      codes := codes + [row];
      nextId := nextId + 1;
      r := Ok(row);
    }

    /**
     * `updateStatus`, one transaction: read the record, write the new status and
     * the custodian (`assignToUserId` when given, else the current one), append
     * one history row. A missing id rolls back and changes nothing. The
     * legality of the transition is not checked here.
     */
    method UpdateStatus(qrCodeId: nat, newStatus: QRCodeStatus, userId: UserId,
                        assignToUserId: Option<UserId>, notes: Option<string>)
      returns (r: Option<QRCode>)
      requires Valid()
      modifies this
      ensures Valid()
      ensures old(FindById(qrCodeId)).None? ==> r.None? && unchanged(this)
      ensures forall i :: 0 <= i < |old(codes)| && old(codes)[i].id == qrCodeId ==>
        var current := old(codes)[i];
        var updated := current.(status := newStatus,
                                userId := if assignToUserId.Some? then assignToUserId else current.userId,
                                updatedAt := clock);
        && r == Some(updated)
        && codes == old(codes)[i := updated]
        && history == old(history) + [StatusHistory(old(nextHistoryId), qrCodeId, current.status, newStatus, userId, clock, notes)]
        && clock == old(clock) + 1
    {
      var i := FirstIndex(codes, (q: QRCode) => q.id == qrCodeId);
      if i < 0 {
        return None;
      }
      var current := codes[i];
      clock := clock + 1;
      var updated := current.(status := newStatus,
                              userId := if assignToUserId.Some? then assignToUserId else current.userId,
                              updatedAt := clock);
      ReplaceKeepsKeys(codes, nextId, clock - 1, i, updated);
      var entry := StatusHistory(nextHistoryId, qrCodeId, current.status, newStatus, userId, clock, notes);
      AppendKeepsHistory(history, nextHistoryId, clock - 1, entry);
      codes := codes[i := updated];
      history := history + [entry];
      nextHistoryId := nextHistoryId + 1;
      r := Some(updated);
    }

    /**
     * `createBulk`: one multi-row insert in one transaction. An empty list is an
     * SQL syntax error; a code repeated in the batch or already in the table
     * breaks the UNIQUE constraint; either failure rolls the whole batch back.
     */
    method CreateBulk(batch: seq<string>) returns (r: Result<seq<QRCode>>)
      requires Valid()
      modifies this
      ensures Valid()
      ensures r.Err? <==> batch == [] || !NoDuplicates(batch) || old(AnyTaken(batch))
      ensures r.Err? ==> unchanged(this)
      ensures r.Ok? ==>
        && r.value == NewRows(batch, old(nextId), clock)
        && codes == old(codes) + r.value
        && history == old(history)
        && clock == old(clock) + 1
    {
      if batch == [] {
        return Err(EmptyValuesList);
      }
      if !NoDuplicates(batch) || AnyTaken(batch) {
        return Err(UniqueViolation);
      }
      clock := clock + 1;
      var rows := NewRows(batch, nextId, clock);
      assert forall k, i :: 0 <= k < |batch| && 0 <= i < |codes| ==> codes[i].code != batch[k];
      codes := codes + rows;
      nextId := nextId + |batch|;
      r := Ok(rows);
    }
  }
}
