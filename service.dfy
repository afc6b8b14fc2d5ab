/**
 * The QR code service: the business rules over the store. Activation is
 * allowed only from inactive, completion only from active; creation refuses a
 * code already present; bulk creation collapses repeated codes and creates
 * all of the batch or none of it. Every outcome carries `success` and a
 * message instead of an exception.
 */
module Service {
  import opened Types
  import opened Lists
  import Text
  import opened Repository
  import opened Lifecycle
  import Auth

  datatype Outcome = Outcome(success: bool, message: string, qrCode: Option<QRCode>)

  datatype BulkOutcome = BulkOutcome(success: bool, message: string, qrCodes: Option<seq<QRCode>>)

  datatype DetailsOutcome =
    | DetailsFound(qrCode: QRCode, history: seq<StatusHistory>)
    | DetailsMissing(message: string)

  datatype RouteOutcome = Refused(status: int, error: string) | Handled(outcome: Outcome)

  const ActivationNote: string := "QR code activated by user"
  const CompletionNote: string := "QR code completed by employee"

  /** `[...new Set(codes)]`: every code of the batch exactly once. */
  function Dedup(s: seq<string>): (r: seq<string>)
    ensures NoDuplicates(r)
    ensures forall x :: x in r <==> x in s
    decreases |s|
  {
    if s == [] then []
    else
      var x := s[|s| - 1];
      var d := Dedup(s[..|s| - 1]);
      assert s == s[..|s| - 1] + [x];
      if x in d then d else d + [x]
  }

  /** A `Set` iterates in insertion order, so the codes come out in the order of their first occurrence. */
  lemma {:induction false} DedupKeepsFirstOccurrenceOrder(s: seq<string>)
    ensures forall i, j :: 0 <= i < j < |Dedup(s)| ==> IndexOf(s, Dedup(s)[i]) < IndexOf(s, Dedup(s)[j])
    decreases |s|
  {
    if s != [] {
      var prefix := s[..|s| - 1];
      var x := s[|s| - 1];
      var d := Dedup(prefix);
      DedupKeepsFirstOccurrenceOrder(prefix);
      forall y | y in d ensures IndexOf(s, y) == IndexOf(prefix, y) < |prefix| {
        IndexOfPrefix(s, |prefix|, y);
      }
      if x !in d {
        assert s == prefix + [x];
        assert IndexOf(s, x) == |prefix|;
        assert Dedup(s) == d + [x];
      }
    }
  }

  /**
   * The codes of `batch` that the table already holds, each as often as in the
   * batch and in batch order: the `existingCodes` the bulk check collects and
   * names in its error message (the order is `ExistingCodesInBatchOrder`).
   */
  function ExistingCodes(rows: seq<QRCode>, batch: seq<string>): (r: seq<string>)
    ensures forall c :: c in r <==> c in batch && CodeTaken(rows, c)
    ensures forall c :: multiset(r)[c] == if CodeTaken(rows, c) then multiset(batch)[c] else 0
    ensures r == [] <==> forall k :: 0 <= k < |batch| ==> !CodeTaken(rows, batch[k])
    decreases |batch|
  {
    if batch == [] then []
    else
      var prefix := batch[..|batch| - 1];
      var c := batch[|batch| - 1];
      assert batch == prefix + [c];
      if CodeTaken(rows, c) then ExistingCodes(rows, prefix) + [c] else ExistingCodes(rows, prefix)
  }

  /** For a batch without repeats the codes found come in batch order, so the error message lists them as submitted. */
  lemma {:induction false} ExistingCodesInBatchOrder(rows: seq<QRCode>, batch: seq<string>)
    requires NoDuplicates(batch)
    ensures InOrderOf(ExistingCodes(rows, batch), batch)
    decreases |batch|
  {
    if batch != [] {
      var prefix := batch[..|batch| - 1];
      var c := batch[|batch| - 1];
      var rest := ExistingCodes(rows, prefix);
      assert batch == prefix + [c];
      NoDuplicatesSnoc(prefix, c);
      ExistingCodesInBatchOrder(rows, prefix);
      InOrderOfSnoc(rest, prefix, c);
    }
  }

  class QRCodeService {
    const repo: QRCodeRepository

    constructor (repo: QRCodeRepository)
      ensures this.repo == repo
    {
      this.repo := repo;
    }

    /** `getInactiveQRCodes`: the codes available for activation, each exactly once, newest first. */
    method GetInactiveQRCodes() returns (r: seq<QRCode>)
      requires repo.Valid()
      ensures r == repo.FindByStatus(Inactive)
      ensures forall q :: multiset(r)[q] == if q.status == Inactive then multiset(repo.codes)[q] else 0
      ensures forall i, j :: 0 <= i < j < |r| ==> r[i].createdAt >= r[j].createdAt
    {
      r := repo.FindByStatus(Inactive);
    }

    /** `getQRCodesByStatus`: the codes in that status, each exactly once, newest first. */
    method GetQRCodesByStatus(status: QRCodeStatus) returns (r: seq<QRCode>)
      requires repo.Valid()
      ensures r == repo.FindByStatus(status)
      ensures forall q :: multiset(r)[q] == if q.status == status then multiset(repo.codes)[q] else 0
      ensures forall i, j :: 0 <= i < j < |r| ==> r[i].createdAt >= r[j].createdAt
    {
      r := repo.FindByStatus(status);
    }

    /** `getUserQRCodes`: the codes in a user's custody, each exactly once, most recently updated first. */
    method GetUserQRCodes(userId: UserId) returns (r: seq<QRCode>)
      ensures r == repo.FindByUserId(userId)
      ensures forall q :: multiset(r)[q] == if q.userId == Some(userId) then multiset(repo.codes)[q] else 0
      ensures forall i, j :: 0 <= i < j < |r| ==> r[i].updatedAt >= r[j].updatedAt
    {
      r := repo.FindByUserId(userId);
    }

    /**
     * `getAllQRCodes(limit = 50, offset = 0)`: one page of the newest-first
     * listing, as long as the table allows. The service does not catch the
     * database's refusal of a negative limit or offset; it reaches the caller
     * as the error.
     */
    method GetAllQRCodes(limit: int := 50, offset: int := 0) returns (r: Result<seq<QRCode>>)
      requires repo.Valid()
      ensures r == repo.FindAll(limit, offset)
      ensures r.Err? <==> limit < 0 || offset < 0
      ensures r.Ok? ==> |r.value| == if offset >= |repo.codes| then 0 else if limit < |repo.codes| - offset then limit else |repo.codes| - offset
      ensures r.Ok? ==> forall k :: 0 <= k < |r.value| ==> offset + k < |repo.codes| && r.value[k] == repo.codes[|repo.codes| - 1 - offset - k]
    {
      r := repo.FindAll(limit, offset);
    }

    /** `getQRCodeDetails`: the record with its history, newest first, or "QR code not found". */
    method GetQRCodeDetails(qrCodeId: nat) returns (r: DetailsOutcome)
      requires repo.Valid()
      ensures r.DetailsMissing? <==> forall k :: 0 <= k < |repo.codes| ==> repo.codes[k].id != qrCodeId
      ensures r.DetailsMissing? ==> r.message == "QR code not found"
      ensures r.DetailsFound? ==>
        && Some(r.qrCode) == repo.FindById(qrCodeId)
        && r.history == repo.GetStatusHistory(qrCodeId)
        && r.qrCode in repo.codes && r.qrCode.id == qrCodeId
        && (forall h :: multiset(r.history)[h] == if h.qrCodeId == qrCodeId then multiset(repo.history)[h] else 0)
        && (forall i, j :: 0 <= i < j < |r.history| ==> r.history[i].changedAt >= r.history[j].changedAt)
    {
      var qrCode := repo.FindById(qrCodeId);
      if qrCode.None? {
        return DetailsMissing("QR code not found");
      }
      var history := repo.GetStatusHistory(qrCodeId);
      r := DetailsFound(qrCode.value, history);
    }

    /**
     * `activateQRCode`: look the record up by its code value; refuse an unknown
     * code and one that is not inactive; otherwise make it active, assigned to
     * the activating user, with one history row recording the user.
     */
    method ActivateQRCode(code: string, userId: UserId) returns (o: Outcome)
      requires repo.Valid()
      modifies repo
      ensures repo.Valid()
      ensures StoreStep(old(repo.codes), repo.codes)
      ensures CustodyMatchesStatus(old(repo.codes)) ==> CustodyMatchesStatus(repo.codes)
      ensures o.success <==> CodeTaken(old(repo.codes), code) && old(repo.FindByCode(code)).value.status == Inactive
      ensures !CodeTaken(old(repo.codes), code) ==> o == Outcome(false, "QR code not found", None)
      ensures CodeTaken(old(repo.codes), code) && old(repo.FindByCode(code)).value.status != Inactive ==>
        o == Outcome(false, "QR code is not available for activation", None)
      ensures !o.success ==> unchanged(repo)
      ensures o.success ==> forall i :: 0 <= i < |old(repo.codes)| && old(repo.codes)[i].code == code ==>
        var after := old(repo.codes)[i].(status := Active, userId := Some(userId), updatedAt := repo.clock);
        && o == Outcome(true, "QR code activated successfully", Some(after))
        && repo.codes == old(repo.codes)[i := after]
        && repo.history == old(repo.history) + [StatusHistory(old(repo.nextHistoryId), after.id, Inactive, Active, userId, repo.clock, Some(ActivationNote))]
    {
      var qrCode := repo.FindByCode(code);
      if qrCode.None? {
        return Outcome(false, "QR code not found", None);
      }
      if qrCode.value.status != Inactive {
        return Outcome(false, "QR code is not available for activation", None);
      }
      ghost var i :| 0 <= i < |repo.codes| && repo.codes[i] == qrCode.value;
      ghost var before := repo.codes;
      var updated := repo.UpdateStatus(qrCode.value.id, Active, userId, Some(userId), Some(ActivationNote));
      assert updated.Some? && repo.codes == before[i := updated.value];
      if updated.None? {
        return Outcome(false, "Failed to activate QR code", None);
      }
      o := Outcome(true, "QR code activated successfully", updated);
      ReplaceIsStep(before, i, updated.value);
      StepKeepsCustodyIfHeld(before, repo.codes);
    }

    /**
     * `completeQRCode`: look the record up by id; refuse an unknown id and a
     * code that is not active; otherwise make it completed, keeping its
     * custodian, with one history row recording the employee and the notes
     * (the default note when the notes are absent or empty).
     */
    method CompleteQRCode(qrCodeId: nat, employeeId: UserId, notes: Option<string>) returns (o: Outcome)
      requires repo.Valid()
      modifies repo
      ensures repo.Valid()
      ensures StoreStep(old(repo.codes), repo.codes)
      ensures CustodyMatchesStatus(old(repo.codes)) ==> CustodyMatchesStatus(repo.codes)
      ensures o.success <==> old(repo.FindById(qrCodeId)).Some? && old(repo.FindById(qrCodeId)).value.status == Active
      ensures old(repo.FindById(qrCodeId)).None? ==> o == Outcome(false, "QR code not found", None)
      ensures old(repo.FindById(qrCodeId)).Some? && old(repo.FindById(qrCodeId)).value.status != Active ==>
        o == Outcome(false, "QR code must be active to complete", None)
      ensures !o.success ==> unchanged(repo)
      ensures o.success ==> forall i :: 0 <= i < |old(repo.codes)| && old(repo.codes)[i].id == qrCodeId ==>
        var after := old(repo.codes)[i].(status := Completed, updatedAt := repo.clock);
        var note := if notes.Some? && notes.value != "" then notes.value else CompletionNote;
        && o == Outcome(true, "QR code completed successfully", Some(after))
        && repo.codes == old(repo.codes)[i := after]
        && repo.history == old(repo.history) + [StatusHistory(old(repo.nextHistoryId), qrCodeId, Active, Completed, employeeId, repo.clock, Some(note))]
    {
      var qrCode := repo.FindById(qrCodeId);
      if qrCode.None? {
        return Outcome(false, "QR code not found", None);
      }
      if qrCode.value.status != Active {
        return Outcome(false, "QR code must be active to complete", None);
      }
      ghost var i :| 0 <= i < |repo.codes| && repo.codes[i] == qrCode.value;
      ghost var before := repo.codes;
      var note := if notes.Some? && notes.value != "" then notes.value else CompletionNote;
      var updated := repo.UpdateStatus(qrCodeId, Completed, employeeId, qrCode.value.userId, Some(note));
      assert updated.Some? && repo.codes == before[i := updated.value];
      if updated.None? {
        return Outcome(false, "Failed to complete QR code", None);
      }
      o := Outcome(true, "QR code completed successfully", updated);
      ReplaceIsStep(before, i, updated.value);
      StepKeepsCustodyIfHeld(before, repo.codes);
    }

    /** `createQRCode`: refuse a code already present, otherwise create it inactive and unassigned. */
    method CreateQRCode(code: string) returns (o: Outcome)
      requires repo.Valid()
      modifies repo
      ensures repo.Valid()
      ensures StoreStep(old(repo.codes), repo.codes)
      ensures CustodyMatchesStatus(old(repo.codes)) ==> CustodyMatchesStatus(repo.codes)
      ensures o.success <==> !CodeTaken(old(repo.codes), code)
      ensures !o.success ==> o == Outcome(false, "QR code already exists", None) && unchanged(repo)
      ensures o.success ==>
        && o.qrCode.Some? && o.qrCode.value.code == code
        && o.qrCode.value.status == Inactive && o.qrCode.value.userId.None?
        && o.message == "QR code created successfully"
        && repo.codes == old(repo.codes) + [o.qrCode.value]
        && repo.history == old(repo.history)
    {
      var existing := repo.FindByCode(code);
      if existing.Some? {
        return Outcome(false, "QR code already exists", None);
      }
      var created := repo.Create(code);
      if created.Err? {
        return Outcome(false, "Internal server error", None);
      }
      o := Outcome(true, "QR code created successfully", Some(created.value));
      StepKeepsCustodyIfHeld(old(repo.codes), repo.codes);
    }

    /** The loop of `createBulkQRCodes` that looks each code of the batch up and keeps those found. */
    method CollectExisting(unique: seq<string>) returns (existingCodes: seq<string>)
      ensures existingCodes == ExistingCodes(repo.codes, unique)
    {
      existingCodes := [];
      var i := 0;
      while i < |unique|
        invariant 0 <= i <= |unique|
        invariant existingCodes == ExistingCodes(repo.codes, unique[..i])
      {
        var existing := repo.FindByCode(unique[i]);
        assert unique[..i + 1][..i] == unique[..i];
        if existing.Some? {
          existingCodes := existingCodes + [unique[i]];
        }
        i := i + 1;
      }
      assert unique[..i] == unique;
    }

    /**
     * `createBulkQRCodes`: collapse repeated codes, collect those already
     * present, refuse the batch naming them all if there are any, otherwise
     * create the whole batch in one transaction and report how many.
     */
    method CreateBulkQRCodes(codes: seq<string>) returns (o: BulkOutcome)
      requires repo.Valid()
      modifies repo
      ensures repo.Valid()
      ensures StoreStep(old(repo.codes), repo.codes)
      ensures CustodyMatchesStatus(old(repo.codes)) ==> CustodyMatchesStatus(repo.codes)
      ensures o.success <==> codes != [] && ExistingCodes(old(repo.codes), Dedup(codes)) == []
      ensures ExistingCodes(old(repo.codes), Dedup(codes)) != [] ==>
        o == BulkOutcome(false, "Some QR codes already exist: " + Text.Join(ExistingCodes(old(repo.codes), Dedup(codes)), ", "), None)
      ensures codes == [] ==> o == BulkOutcome(false, "Internal server error", None)
      ensures !o.success ==> unchanged(repo)
      ensures o.success ==>
        && o.qrCodes == Some(NewRows(Dedup(codes), old(repo.nextId), repo.clock))
        && repo.codes == old(repo.codes) + o.qrCodes.value
        && repo.history == old(repo.history)
        && o.message == Text.NatToString(|Dedup(codes)|) + " QR codes created successfully"
    {
      var unique := Dedup(codes);
      ghost var rows := repo.codes;
      var existingCodes := CollectExisting(unique);
      if |existingCodes| > 0 {
        return BulkOutcome(false, "Some QR codes already exist: " + Text.Join(existingCodes, ", "), None);
      }
      assert !repo.AnyTaken(unique);
      assert unique == [] <==> codes == [] by {
        if codes != [] {
          assert codes[0] in unique;
        }
      }
      var created := repo.CreateBulk(unique);
      if created.Err? {
        return BulkOutcome(false, "Internal server error", None);
      }
      o := BulkOutcome(true, Text.NatToString(|created.value|) + " QR codes created successfully", Some(created.value));
      AppendIsStep(rows, created.value);
      StepKeepsCustodyIfHeld(rows, repo.codes);
    }

    /**
     * The `POST /qr-codes/complete` route: `requireEmployee` runs on the
     * authenticated user before the service, so a plain user is refused
     * before anything is read or written. On the real route `authenticate`
     * runs first and already answers a request without a valid token with its
     * own 401, so requireEmployee's 401 for a missing user is the gate's
     * behaviour on its own.
     */
    method CompleteRoute(user: Option<JWTPayload>, qrCodeId: nat, notes: Option<string>) returns (r: RouteOutcome)
      requires repo.Valid()
      modifies repo
      ensures repo.Valid()
      ensures StoreStep(old(repo.codes), repo.codes)
      ensures r.Refused? <==> user.None? || user.value.role == User
      ensures r.Refused? ==> unchanged(repo)
      ensures user.None? ==> r == Refused(401, "Authentication required")
      ensures user.Some? && user.value.role == User ==> r == Refused(403, "Insufficient permissions")
      ensures r.Handled? ==>
        (r.outcome.success <==> old(repo.FindById(qrCodeId)).Some? && old(repo.FindById(qrCodeId)).value.status == Active)
      ensures r.Handled? && old(repo.FindById(qrCodeId)).None? ==> r.outcome == Outcome(false, "QR code not found", None)
      ensures r.Handled? && old(repo.FindById(qrCodeId)).Some? && old(repo.FindById(qrCodeId)).value.status != Active ==>
        r.outcome == Outcome(false, "QR code must be active to complete", None)
      ensures r.Handled? && !r.outcome.success ==> unchanged(repo)
      ensures r.Handled? && r.outcome.success ==>
        |repo.history| == |old(repo.history)| + 1 && repo.history[|repo.history| - 1].changedBy == user.value.userId
      ensures r.Handled? && r.outcome.success ==> forall i :: 0 <= i < |old(repo.codes)| && old(repo.codes)[i].id == qrCodeId ==>
        var after := old(repo.codes)[i].(status := Completed, updatedAt := repo.clock);
        var note := if notes.Some? && notes.value != "" then notes.value else CompletionNote;
        && r.outcome == Outcome(true, "QR code completed successfully", Some(after))
        && repo.codes == old(repo.codes)[i := after]
        && repo.history == old(repo.history) + [StatusHistory(old(repo.nextHistoryId), qrCodeId, Active, Completed, user.value.userId, repo.clock, Some(note))]
    {
      var gate := Auth.RequireEmployee(user);
      if gate.Respond? {
        return Refused(gate.status, gate.error);
      }
      var o := CompleteQRCode(qrCodeId, user.value.userId, notes);
      r := Handled(o);
    }
  }

  /** Replacing one record by a legal successor is a legal step of the table. */
  lemma ReplaceIsStep(before: seq<QRCode>, i: nat, after: QRCode)
    requires i < |before|
    requires RecordStep(before[i], after)
    ensures StoreStep(before, before[i := after])
  {
  }

  /** Appending inactive, unassigned records is a legal step of the table. */
  lemma AppendIsStep(before: seq<QRCode>, added: seq<QRCode>)
    requires forall k :: 0 <= k < |added| ==> added[k].status == Inactive && added[k].userId.None?
    ensures StoreStep(before, before + added)
  {
  }

  /** The custody invariant carried across one step, when it held before. */
  lemma StepKeepsCustodyIfHeld(before: seq<QRCode>, after: seq<QRCode>)
    requires StoreStep(before, after)
    ensures CustodyMatchesStatus(before) ==> CustodyMatchesStatus(after)
  {
    if CustodyMatchesStatus(before) {
      StepKeepsCustody(before, after);
    }
  }
}
