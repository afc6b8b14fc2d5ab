/**
 * The lifecycle the service enforces on the `qr_codes` table: a code starts
 * inactive and unassigned, is activated by a user who becomes its custodian,
 * and is completed with its custodian kept. These predicates say how one
 * service call may change the table; the lemmas follow a run of calls.
 */
module Lifecycle {
  import opened Types

  /** A record's user is unset exactly while it is inactive (the comment on `QRCode.userId`). */
  predicate CustodyMatchesStatus(rows: seq<QRCode>) {
    forall i :: 0 <= i < |rows| ==> (rows[i].userId.None? <==> rows[i].status == Inactive)
  }

  /** How one record may change in one call: not at all, activation, or completion. */
  predicate RecordStep(before: QRCode, after: QRCode) {
    && after.id == before.id && after.code == before.code && after.createdAt == before.createdAt
    && (|| after == before
        || (before.status == Inactive && after.status == Active && after.userId.Some?)
        || (before.status == Active && after.status == Completed && after.userId == before.userId))
  }

  /** How the table may change in one call: records keep their place and step; new ones arrive inactive and unassigned. */
  predicate StoreStep(before: seq<QRCode>, after: seq<QRCode>) {
    && |before| <= |after|
    && (forall k :: 0 <= k < |before| ==> RecordStep(before[k], after[k]))
    && (forall k :: |before| <= k < |after| ==> after[k].status == Inactive && after[k].userId.None?)
  }

  /** The successive contents of the table over a run of service calls. */
  predicate IsRun(trace: seq<seq<QRCode>>) {
    && |trace| >= 1
    && forall n :: 0 <= n < |trace| - 1 ==> StoreStep(trace[n], trace[n + 1])
  }

  function Rank(s: QRCodeStatus): nat {
    match s
    case Inactive => 0
    case Active => 1
    case Completed => 2
  }

  /** One call never breaks the custody invariant. */
  lemma StepKeepsCustody(before: seq<QRCode>, after: seq<QRCode>)
    requires CustodyMatchesStatus(before)
    requires StoreStep(before, after)
    ensures CustodyMatchesStatus(after)
  {
    forall i | 0 <= i < |after| ensures after[i].userId.None? <==> after[i].status == Inactive {
      if i < |before| {
        assert RecordStep(before[i], after[i]);
      }
    }
  }

  /** Starting from an empty table, every state of a run satisfies the custody invariant. */
  lemma {:induction false} RunKeepsCustody(trace: seq<seq<QRCode>>)
    requires IsRun(trace)
    requires CustodyMatchesStatus(trace[0])
    ensures forall n :: 0 <= n < |trace| ==> CustodyMatchesStatus(trace[n])
    decreases |trace|
  {
    if |trace| > 1 {
      var prefix := trace[..|trace| - 1];
      assert IsRun(prefix);
      RunKeepsCustody(prefix);
      assert CustodyMatchesStatus(prefix[|prefix| - 1]);
      StepKeepsCustody(trace[|trace| - 2], trace[|trace| - 1]);
      forall n | 0 <= n < |trace| ensures CustodyMatchesStatus(trace[n]) {
        if n < |trace| - 1 {
          assert trace[n] == prefix[n];
        }
      }
    }
  }

  /** Along a run a record keeps its place and identity, and its status never moves backwards. */
  lemma {:induction false} RunOnlyMovesForward(trace: seq<seq<QRCode>>, m: nat, n: nat, k: nat)
    requires IsRun(trace)
    requires m <= n < |trace|
    requires k < |trace[m]|
    ensures k < |trace[n]|
    ensures trace[n][k].id == trace[m][k].id && trace[n][k].code == trace[m][k].code
    ensures Rank(trace[m][k].status) <= Rank(trace[n][k].status)
    ensures trace[m][k].status == Completed ==> trace[n][k] == trace[m][k]
    decreases n - m
  {
    if m < n {
      assert StoreStep(trace[m], trace[m + 1]);
      assert RecordStep(trace[m][k], trace[m + 1][k]);
      RunOnlyMovesForward(trace, m + 1, n, k);
    }
  }
}
