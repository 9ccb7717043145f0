/** The guarded append of `create_historical_record`, stated as functions over
    the `historico` table, and the invariant it maintains: no employee ever has
    two `Pendiente` rows for the same application unless the later one is an
    `offboarding` row. */
module Ledger {
  import opened Base
  import opened AccessTypes

  /** `UPPER(TRIM(app_access_name))`, the form in which the duplicate check compares applications. */
  function AppKey(name: string): string
  {
    Upper(SqlTrim(name))
  }

  /** `row` is a `Pendiente` row of employee `scotiaId` for the application `appName`. */
  predicate IsPendingFor(row: HistoryRow, scotiaId: string, appName: string)
  {
    row.data.scotiaId == scotiaId && row.data.status == PENDIENTE && AppKey(row.data.appAccessName) == AppKey(appName)
  }

  /** The `SELECT COUNT(*)` of the duplicate check. */
  function PendingCount(ledger: seq<HistoryRow>, scotiaId: string, appName: string): (n: nat)
    ensures n <= |ledger|
    ensures n == 0 <==> forall i :: 0 <= i < |ledger| ==> !IsPendingFor(ledger[i], scotiaId, appName)
    decreases |ledger|
  {
    if ledger == [] then 0
    else
      var last := ledger[|ledger| - 1];
      assert forall i :: 0 <= i < |ledger| - 1 ==> ledger[..|ledger| - 1][i] == ledger[i];
      PendingCount(ledger[..|ledger| - 1], scotiaId, appName) + (if IsPendingFor(last, scotiaId, appName) then 1 else 0)
  }

  /** What `create_historical_record` reports. `Inserted` and `AlreadyPending`
      are both reported as success; `MissingField` is the only failure
      the model keeps (a database error is not modelled). */
  datatype AppendOutcome = Inserted | AlreadyPending(existing: nat) | MissingField(field: string)
  {
    predicate Succeeded()
    {
      !MissingField?
    }
  }

  /** The decision `create_historical_record` takes before inserting. */
  function CheckAppend(ledger: seq<HistoryRow>, rec: RecordData): (o: AppendOutcome)
    ensures o.MissingField? <==> rec.scotiaId == "" || rec.processAccess == ""
    ensures o.AlreadyPending? <==>
      rec.scotiaId != "" && rec.processAccess != "" && rec.processAccess != OFFBOARDING
      && exists i :: 0 <= i < |ledger| && IsPendingFor(ledger[i], rec.scotiaId, rec.appAccessName)
    ensures o.Inserted? && rec.processAccess != OFFBOARDING ==>
      forall i :: 0 <= i < |ledger| ==> !IsPendingFor(ledger[i], rec.scotiaId, rec.appAccessName)
  {
    if rec.scotiaId == "" then MissingField("scotia_id")
    else if rec.processAccess == "" then MissingField("process_access")
    else if rec.processAccess != OFFBOARDING && PendingCount(ledger, rec.scotiaId, rec.appAccessName) > 0 then
      AlreadyPending(PendingCount(ledger, rec.scotiaId, rec.appAccessName))
    else Inserted
  }

  /** The e-mail looked up in `headcount` when the record carries none (callers never pass one). */
  function EmailFor(directory: map<string, Employee>, scotiaId: string): string
  {
    if scotiaId in directory then directory[scotiaId].email else ""
  }

  /** The columns of a request that the `INSERT` writes: every field but the
      expiration date, for which the statement has no column, so the stored
      row reads back with none. */
  function Persisted(rec: RecordData): (p: RecordData)
    ensures p.expirationDate == None
    ensures p.(expirationDate := rec.expirationDate) == rec
  {
    rec.(expirationDate := None)
  }

  /** The row inserted for `rec` at time `now`. */
  function StoredRow(directory: map<string, Employee>, rec: RecordData, now: int): HistoryRow
  {
    HistoryRow(Persisted(rec), EmailFor(directory, rec.scotiaId), now)
  }

  /** The ledger after one `create_historical_record` call at time `now`: the
      old rows are kept, and one row is added exactly when `CheckAppend` lets the
      request through. */
  function Append(ledger: seq<HistoryRow>, directory: map<string, Employee>, rec: RecordData, now: int): (l: seq<HistoryRow>)
    ensures |ledger| <= |l| <= |ledger| + 1 && l[..|ledger|] == ledger
    ensures |l| == |ledger| + 1 <==> CheckAppend(ledger, rec).Inserted?
    ensures !CheckAppend(ledger, rec).Inserted? ==> l == ledger
    ensures |l| == |ledger| + 1 ==>
      && l[|ledger|].data.expirationDate == None
      && l[|ledger|].data.(expirationDate := rec.expirationDate) == rec
      && l[|ledger|].recordDate == now
      && l[|ledger|].employeeEmail == (if rec.scotiaId in directory then directory[rec.scotiaId].email else "")
  {
    if CheckAppend(ledger, rec).Inserted? then
      var l := ledger + [StoredRow(directory, rec, now)];
      assert l[..|ledger|] == ledger;
      l
    else ledger
  }

  /** The ledger after `create_historical_record` is called on each of `recs` in turn. */
  function AppendAll(ledger: seq<HistoryRow>, directory: map<string, Employee>, recs: seq<RecordData>, now: int): seq<HistoryRow>
    decreases |recs|
  {
    if recs == [] then ledger
    else Append(AppendAll(ledger, directory, recs[..|recs| - 1], now), directory, recs[|recs| - 1], now)
  }

  /** What one call does to the duplicate check's count: an inserted pending
      row adds one, and afterwards a pending request with both required fields
      always has a pending row (its own, or the one that absorbed it). */
  lemma AppendPendingCount(ledger: seq<HistoryRow>, directory: map<string, Employee>, rec: RecordData, now: int)
    ensures var l := Append(ledger, directory, rec, now);
      && (CheckAppend(ledger, rec).Inserted? && rec.status == PENDIENTE ==>
            PendingCount(l, rec.scotiaId, rec.appAccessName) == PendingCount(ledger, rec.scotiaId, rec.appAccessName) + 1)
      && (rec.scotiaId != "" && rec.processAccess != "" && rec.status == PENDIENTE ==>
            PendingCount(l, rec.scotiaId, rec.appAccessName) > 0)
  {
    var l := Append(ledger, directory, rec, now);
    if CheckAppend(ledger, rec).Inserted? {
      assert l[..|l| - 1] == ledger;
    }
  }

  /** `Append` as the flex-staff expiration evidently means it to be: the
      stored row keeps every field of the request, the expiration date included. */
  function AppendKeepingExpiry(ledger: seq<HistoryRow>, directory: map<string, Employee>, rec: RecordData, now: int): (l: seq<HistoryRow>)
    ensures |ledger| <= |l| <= |ledger| + 1 && l[..|ledger|] == ledger
    ensures |l| == |ledger| + 1 <==> CheckAppend(ledger, rec).Inserted?
    ensures |l| == |ledger| + 1 ==> l[|ledger|].data == rec && l[|ledger|].recordDate == now
  {
    if CheckAppend(ledger, rec).Inserted? then
      var l := ledger + [HistoryRow(rec, EmailFor(directory, rec.scotiaId), now)];
      assert l[..|ledger|] == ledger;
      l
    else ledger
  }

  /** `AppendAll` over `AppendKeepingExpiry`. */
  function AppendAllKeepingExpiry(ledger: seq<HistoryRow>, directory: map<string, Employee>, recs: seq<RecordData>, now: int): seq<HistoryRow>
    decreases |recs|
  {
    if recs == [] then ledger
    else AppendKeepingExpiry(AppendAllKeepingExpiry(ledger, directory, recs[..|recs| - 1], now), directory, recs[|recs| - 1], now)
  }

  /** With the expiration kept, every added row is one of `recs` exactly. */
  lemma {:induction false} AppendAllKeepingExpiryOnlyAdds(
    ledger: seq<HistoryRow>, directory: map<string, Employee>, recs: seq<RecordData>, now: int)
    ensures var l := AppendAllKeepingExpiry(ledger, directory, recs, now);
      |ledger| <= |l| <= |ledger| + |recs| && l[..|ledger|] == ledger
      && forall i :: |ledger| <= i < |l| ==> l[i].data in recs && l[i].recordDate == now
    decreases |recs|
  {
    if recs != [] {
      var front := recs[..|recs| - 1];
      AppendAllKeepingExpiryOnlyAdds(ledger, directory, front, now);
      var l0 := AppendAllKeepingExpiry(ledger, directory, front, now);
      var l := AppendKeepingExpiry(l0, directory, recs[|recs| - 1], now);
      forall i | |ledger| <= i < |l|
        ensures l[i].data in recs && l[i].recordDate == now
      {
        if i < |l0| {
          assert l[i] == l0[i];
          assert l0[i].data in front;
        }
      }
    }
  }

  /** Two rows that agree on everything but the expiration date. */
  predicate AgreeButExpiry(x: HistoryRow, y: HistoryRow)
  {
    x == y.(data := y.data.(expirationDate := x.data.expirationDate))
  }

  /** Two ledgers whose rows agree pairwise on everything but the expiration date. */
  ghost predicate SameButExpiry(a: seq<HistoryRow>, k: seq<HistoryRow>)
  {
    |a| == |k| && forall i :: 0 <= i < |a| ==> AgreeButExpiry(a[i], k[i])
  }

  /** The ledger as written and the ledger that keeps expirations differ only
      in the expiration dates of the rows the batch adds. */
  lemma {:induction false} AppendAllKeepingExpiryDiffersOnlyInExpiry(
    ledger: seq<HistoryRow>, directory: map<string, Employee>, recs: seq<RecordData>, now: int)
    ensures SameButExpiry(AppendAll(ledger, directory, recs, now), AppendAllKeepingExpiry(ledger, directory, recs, now))
    decreases |recs|
  {
    if recs != [] {
      var front := recs[..|recs| - 1];
      var r := recs[|recs| - 1];
      AppendAllKeepingExpiryDiffersOnlyInExpiry(ledger, directory, front, now);
      var a0 := AppendAll(ledger, directory, front, now);
      var k0 := AppendAllKeepingExpiry(ledger, directory, front, now);
      SamePendingCount(a0, k0, r.scotiaId, r.appAccessName);
      assert CheckAppend(a0, r) == CheckAppend(k0, r);
      if CheckAppend(a0, r).Inserted? {
        var x := StoredRow(directory, r, now);
        var y := HistoryRow(r, EmailFor(directory, r.scotiaId), now);
        assert AgreeButExpiry(x, y);
        SameButExpirySnoc(a0, k0, x, y);
      }
    }
  }

  lemma SameButExpirySnoc(a: seq<HistoryRow>, k: seq<HistoryRow>, x: HistoryRow, y: HistoryRow)
    requires SameButExpiry(a, k) && AgreeButExpiry(x, y)
    ensures SameButExpiry(a + [x], k + [y])
  {
    assert forall i :: 0 <= i < |a| ==> (a + [x])[i] == a[i] && (k + [y])[i] == k[i];
  }

  /** Ledgers whose rows agree on everything but the expiration date have the same pending counts. */
  lemma {:induction false} SamePendingCount(a: seq<HistoryRow>, k: seq<HistoryRow>, scotiaId: string, appName: string)
    requires SameButExpiry(a, k)
    ensures PendingCount(a, scotiaId, appName) == PendingCount(k, scotiaId, appName)
    decreases |a|
  {
    if a != [] {
      assert forall i :: 0 <= i < |a| - 1 ==> a[..|a| - 1][i] == a[i] && k[..|k| - 1][i] == k[i];
      assert AgreeButExpiry(a[|a| - 1], k[|k| - 1]);
      SamePendingCount(a[..|a| - 1], k[..|k| - 1], scotiaId, appName);
    }
  }

  /** Two rows are pending for the same employee and the same (trimmed, upper-cased) application. */
  predicate SamePendingKey(a: HistoryRow, b: HistoryRow)
  {
    b.data.status == PENDIENTE && IsPendingFor(a, b.data.scotiaId, b.data.appAccessName)
  }

  /** The ledger invariant: a `Pendiente` row that repeats the key of an
      earlier `Pendiente` row is an `offboarding` row. */
  ghost predicate NoDuplicatePending(ledger: seq<HistoryRow>)
  {
    forall i, j {:trigger SamePendingKey(ledger[i], ledger[j])} :: 0 <= i < j < |ledger| && SamePendingKey(ledger[i], ledger[j]) ==> ledger[j].data.processAccess == OFFBOARDING
  }

  /** A pair of rows of the ledger after one insertion keeps the invariant
      when the inserted row had no pending twin or is an offboarding row. */
  lemma PairAfterInsert(ledger: seq<HistoryRow>, row: HistoryRow, i: nat, j: nat)
    requires NoDuplicatePending(ledger)
    requires row.data.processAccess != OFFBOARDING ==>
      forall k :: 0 <= k < |ledger| ==> !IsPendingFor(ledger[k], row.data.scotiaId, row.data.appAccessName)
    requires i < j < |ledger| + 1 && SamePendingKey((ledger + [row])[i], (ledger + [row])[j])
    ensures (ledger + [row])[j].data.processAccess == OFFBOARDING
  {
    var l := ledger + [row];
    assert l[i] == ledger[i];
    if j < |ledger| {
      assert l[j] == ledger[j];
    } else {
      assert l[j] == row;
      assert IsPendingFor(ledger[i], row.data.scotiaId, row.data.appAccessName);
    }
  }

  lemma AppendPreservesNoDuplicatePending(ledger: seq<HistoryRow>, directory: map<string, Employee>, rec: RecordData, now: int)
    requires NoDuplicatePending(ledger)
    ensures NoDuplicatePending(Append(ledger, directory, rec, now))
  {
    var l := Append(ledger, directory, rec, now);
    if CheckAppend(ledger, rec).Inserted? {
      var row := StoredRow(directory, rec, now);
      assert l == ledger + [row];
      forall i, j | 0 <= i < j < |l| && SamePendingKey(l[i], l[j])
        ensures l[j].data.processAccess == OFFBOARDING
      {
        PairAfterInsert(ledger, row, i, j);
      }
    }
  }

  lemma {:induction false} AppendAllPreservesNoDuplicatePending(
    ledger: seq<HistoryRow>, directory: map<string, Employee>, recs: seq<RecordData>, now: int)
    requires NoDuplicatePending(ledger)
    ensures NoDuplicatePending(AppendAll(ledger, directory, recs, now))
    decreases |recs|
  {
    if recs != [] {
      AppendAllPreservesNoDuplicatePending(ledger, directory, recs[..|recs| - 1], now);
      AppendPreservesNoDuplicatePending(AppendAll(ledger, directory, recs[..|recs| - 1], now), directory, recs[|recs| - 1], now);
    }
  }

  /** Appending never rewrites history: the old ledger is a prefix of the new
      one, and every added row is one of `recs` without its expiration date,
      stamped with `now`. */
  lemma {:induction false} AppendAllOnlyAdds(
    ledger: seq<HistoryRow>, directory: map<string, Employee>, recs: seq<RecordData>, now: int)
    ensures var l := AppendAll(ledger, directory, recs, now);
      |ledger| <= |l| <= |ledger| + |recs| && l[..|ledger|] == ledger
      && forall i :: |ledger| <= i < |l| ==> (exists r :: r in recs && l[i].data == Persisted(r)) && l[i].recordDate == now
    decreases |recs|
  {
    if recs != [] {
      var front := recs[..|recs| - 1];
      AppendAllOnlyAdds(ledger, directory, front, now);
      var l0 := AppendAll(ledger, directory, front, now);
      var l := Append(l0, directory, recs[|recs| - 1], now);
      assert l[..|l0|] == l0;
      forall i | |ledger| <= i < |l|
        ensures (exists r :: r in recs && l[i].data == Persisted(r)) && l[i].recordDate == now
      {
        if i < |l0| {
          assert l[i] == l0[i];
          var r :| r in front && l0[i].data == Persisted(r);
          assert r in recs;
        } else {
          assert l[i].data == Persisted(recs[|recs| - 1]);
        }
      }
    }
  }

  /** Rows whose `process_access` is not `offboarding` and that are `Pendiente` for the same key. */
  function PendingGrants(ledger: seq<HistoryRow>, scotiaId: string, appName: string): (n: nat)
    decreases |ledger|
  {
    if ledger == [] then 0
    else
      var last := ledger[|ledger| - 1];
      PendingGrants(ledger[..|ledger| - 1], scotiaId, appName)
        + (if IsPendingFor(last, scotiaId, appName) && last.data.processAccess != OFFBOARDING then 1 else 0)
  }

  /** Under the invariant, an employee has at most one pending non-offboarding
      row per application, and none once any earlier pending row of that key exists. */
  lemma {:induction false} AtMostOnePendingGrant(ledger: seq<HistoryRow>, scotiaId: string, appName: string)
    requires NoDuplicatePending(ledger)
    ensures PendingGrants(ledger, scotiaId, appName) <= 1
    ensures PendingGrants(ledger, scotiaId, appName) == 1 ==> PendingCount(ledger, scotiaId, appName) >= 1
    decreases |ledger|
  {
    if ledger != [] {
      var front := ledger[..|ledger| - 1];
      var last := ledger[|ledger| - 1];
      assert NoDuplicatePending(front) by {
        forall i, j | 0 <= i < j < |front| && SamePendingKey(front[i], front[j])
          ensures front[j].data.processAccess == OFFBOARDING
        {
          assert ledger[i] == front[i] && ledger[j] == front[j];
        }
      }
      AtMostOnePendingGrant(front, scotiaId, appName);
      forall k | 0 <= k < |front| && IsPendingFor(front[k], scotiaId, appName) && IsPendingFor(last, scotiaId, appName)
        ensures last.data.processAccess == OFFBOARDING
      {
        assert SamePendingKey(ledger[k], ledger[|ledger| - 1]);
      }
    }
  }

  /** A request the pending check applies to and that leaves a pending row
      behind: a grant (not an offboarding) with both required fields. */
  predicate IsGrantRequest(rec: RecordData)
  {
    rec.scotiaId != "" && rec.processAccess != "" && rec.processAccess != OFFBOARDING && rec.status == PENDIENTE
  }

  predicate HasPending(ledger: seq<HistoryRow>, rec: RecordData)
  {
    exists i :: 0 <= i < |ledger| && IsPendingFor(ledger[i], rec.scotiaId, rec.appAccessName)
  }

  /** After submitting grant requests, every one of them has a pending row. */
  lemma {:induction false} AppendAllLeavesPending(ledger: seq<HistoryRow>, directory: map<string, Employee>, recs: seq<RecordData>, now: int)
    requires forall r :: r in recs ==> IsGrantRequest(r)
    ensures forall r :: r in recs ==> HasPending(AppendAll(ledger, directory, recs, now), r)
    decreases |recs|
  {
    if recs != [] {
      var front := recs[..|recs| - 1];
      var last := recs[|recs| - 1];
      assert forall r :: r in recs <==> r in front || r == last;
      AppendAllLeavesPending(ledger, directory, front, now);
      var l0 := AppendAll(ledger, directory, front, now);
      var l := Append(l0, directory, last, now);
      assert l[..|l0|] == l0;
      forall r | r in recs
        ensures HasPending(l, r)
      {
        if r in front {
          var i :| 0 <= i < |l0| && IsPendingFor(l0[i], r.scotiaId, r.appAccessName);
          assert l[i] == l0[i];
        } else if CheckAppend(l0, last).Inserted? {
          assert IsPendingFor(l[|l0|], r.scotiaId, r.appAccessName);
        }
      }
    }
  }

  /** Grant requests that each already have a pending row are all absorbed by the pending check. */
  lemma {:induction false} PendingRequestsAddNothing(ledger: seq<HistoryRow>, directory: map<string, Employee>, recs: seq<RecordData>, now: int)
    requires forall r :: r in recs ==> IsGrantRequest(r) && HasPending(ledger, r)
    ensures AppendAll(ledger, directory, recs, now) == ledger
    decreases |recs|
  {
    if recs != [] {
      var front := recs[..|recs| - 1];
      assert forall r :: r in front ==> r in recs;
      var r := recs[|recs| - 1];
      assert r in recs;
      PendingRequestsAddNothing(ledger, directory, front, now);
      assert CheckAppend(ledger, r).AlreadyPending?;
    }
  }

  /** Submitting the same grant requests twice writes what submitting them once
      writes: the second round only meets the pending check. */
  lemma GrantRequestsAreIdempotent(ledger: seq<HistoryRow>, directory: map<string, Employee>, recs: seq<RecordData>, now: int, later: int)
    requires forall r :: r in recs ==> IsGrantRequest(r)
    ensures var once := AppendAll(ledger, directory, recs, now);
      AppendAll(once, directory, recs, later) == once
  {
    AppendAllLeavesPending(ledger, directory, recs, now);
    PendingRequestsAddNothing(AppendAll(ledger, directory, recs, now), directory, recs, later);
  }

  /** The records `create_historical_record` reports as successful: all but
      those missing a required field. */
  function Accepted(recs: seq<RecordData>): (r: seq<RecordData>)
    ensures |r| <= |recs|
    decreases |recs|
  {
    if recs == [] then []
    else
      var last := recs[|recs| - 1];
      Accepted(recs[..|recs| - 1]) + (if last.scotiaId != "" && last.processAccess != "" then [last] else [])
  }

  /** The records reported as created are exactly those `create_historical_record`
      reports success for, whatever the ledger holds at the time. */
  lemma {:induction false} AcceptedAreReportedSuccesses(recs: seq<RecordData>, ledger: seq<HistoryRow>)
    ensures forall x :: x in Accepted(recs) <==> x in recs && CheckAppend(ledger, x).Succeeded()
    ensures (forall x :: x in recs ==> x.scotiaId != "" && x.processAccess != "") ==> Accepted(recs) == recs
    decreases |recs|
  {
    if recs != [] {
      var front := recs[..|recs| - 1];
      assert recs == front + [recs[|recs| - 1]];
      assert forall x :: x in recs <==> x in front || x == recs[|recs| - 1];
      AcceptedAreReportedSuccesses(front, ledger);
    }
  }

  /** Submitting two batches one after the other is submitting their concatenation. */
  lemma {:induction false} AppendAllConcat(ledger: seq<HistoryRow>, directory: map<string, Employee>, a: seq<RecordData>, b: seq<RecordData>, now: int)
    ensures AppendAll(AppendAll(ledger, directory, a, now), directory, b, now) == AppendAll(ledger, directory, a + b, now)
    ensures Accepted(a) + Accepted(b) == Accepted(a + b)
    decreases |b|
  {
    AcceptedConcat(a, b);
    if b == [] {
      assert a + b == a;
    } else {
      var front := b[..|b| - 1];
      AppendAllConcat(ledger, directory, a, front, now);
      assert (a + b)[..|a + b| - 1] == a + front;
      assert (a + b)[|a + b| - 1] == b[|b| - 1];
    }
  }

  /** The successes of two batches, one after the other, are the successes of
      their concatenation. */
  lemma {:induction false} AcceptedConcat(a: seq<RecordData>, b: seq<RecordData>)
    ensures Accepted(a) + Accepted(b) == Accepted(a + b)
    decreases |b|
  {
    if b == [] {
      assert a + b == a;
    } else {
      var front := b[..|b| - 1];
      var last := b[|b| - 1];
      AcceptedConcat(a, front);
      assert (a + b)[..|a + b| - 1] == a + front;
      assert (a + b)[|a + b| - 1] == last;
      var tail := if last.scotiaId != "" && last.processAccess != "" then [last] else [];
      assert Accepted(b) == Accepted(front) + tail;
      assert Accepted(a + b) == Accepted(a + front) + tail;
      assert Accepted(a) + (Accepted(front) + tail) == (Accepted(a) + Accepted(front)) + tail;
    }
  }

  /** One more request: the ledger takes one more `Append` step, and the
      request is reported as created exactly when it has both required fields. */
  lemma AppendAllSnoc(ledger: seq<HistoryRow>, directory: map<string, Employee>, recs: seq<RecordData>, r: RecordData, now: int)
    ensures AppendAll(ledger, directory, recs + [r], now) == Append(AppendAll(ledger, directory, recs, now), directory, r, now)
    ensures Accepted(recs + [r]) == Accepted(recs) + (if r.scotiaId != "" && r.processAccess != "" then [r] else [])
  {
    assert (recs + [r])[..|recs|] == recs;
  }

  /** The same step, for the prefixes of one batch. */
  lemma AppendAllStep(ledger: seq<HistoryRow>, directory: map<string, Employee>, recs: seq<RecordData>, i: nat, now: int)
    requires i < |recs|
    ensures AppendAll(ledger, directory, recs[..i + 1], now) == Append(AppendAll(ledger, directory, recs[..i], now), directory, recs[i], now)
    ensures Accepted(recs[..i + 1]) == Accepted(recs[..i]) + (if recs[i].scotiaId != "" && recs[i].processAccess != "" then [recs[i]] else [])
  {
    assert recs[..i + 1][..i] == recs[..i];
  }
}
