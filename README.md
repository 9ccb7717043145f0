# Access management and catalog search, modelled in Dafny

This project models two parts of the `dr/Pruebas-Tranbajo` application. The
first is the access lifecycle kept by `AccessManagementService`. The second is
the catalog-search helpers of the schema bot.

**Access lifecycle.** The service keeps three SQL tables:

- `headcount`: the employee directory, keyed by `scotia_id`;
- `historico`: an append-only ledger of access events;
- `applications`: the catalog of the applications each position requires.

Every lifecycle operation turns into a sequence of `historico` rows. Each row
goes through `create_historical_record`. That call refuses a record without an
employee id or a process type. A record that is not an offboarding, for an
application that already has a pending row for the employee, is not inserted
but is still reported as a success. So two grants of the same application
cannot both be pending.

The current-access projection is the "last process" view of
`get_employee_current_position_access`. For each application it takes the
latest closed-completed event, and it shows the grant only when that event is
not an offboarding. Two processes are filtered further:

- a `lateral_movement` grant is shown only when the catalog ties its
  application to the employee's current position and unit (this applies when
  the employee is active and has a non-empty `unidad_subunidad`);
- a `flex_staff` grant is shown only when its description names the
  employee's current flex position.

Onboarding and manual-access grants are not filtered further.

The model has one module per concern:

- `AccessTypes`: records, constants and the key normalisation.
- `Ledger`: the pending check and the append, with the invariant "no two
  pending grants of one application for one employee".
- `Catalog`: the application lookups.
- `Projection`: the current-access, flex-access and offboarding-candidate
  queries.
- `Onboarding`, `Offboarding`, `LateralMovement` and `FlexStaff`: what each
  process decides, as functions of the tables.
- `SpacedNames`: a concrete ledger on which the offboarding query misses a
  revocation because of whitespace in a stored name.
- `Service`: the class `AccessManagementService`. It holds the tables as
  fields and runs each operation as a method that updates them in place. Each
  method is proved against the functions above.

**Catalog search (`test_bot.py`).** These helpers run before the SQL search:

- `generate_word_variants` and `sanitize_for_fts`;
- the acronym and search-blob builders;
- the parsing of a question into keywords and `@db=`/`@schema=`/`@table=`/`@column=` filters;
- the one-line `format_result`.

All of them are in module `SchemaSearch`. The loops that build the variant set,
the blob and the parse result are methods. Each method is proved equal to a
function of its input, and the lemmas state the properties of those functions.

The lifecycle operations follow the code as written. Three places where the
code does not do what its own documentation or data flow evidently intends
are listed under "## Findings", beside one in the search helpers:

- A flex-staff assignment computes an expiration date for each temporary
  grant, but the `INSERT` of `create_historical_record` has no column for it.
  The grant is stored without an expiry and reads back with none.
- Offboarding documents that it revokes only accesses an earlier offboarding
  has not already revoked. Its query counts only closed-completed
  offboardings, though, so a second run before the first run's revocations
  close requests them all again.
- The same query compares application names unstripped. Onboarding stores a
  catalog name as given, offboarding writes it stripped, so a name with a
  leading space is never seen as revoked and is requested again on every run.

## Model

| member | source | states |
|---|---|---|
| AccessTypes.SafeStrip | dr/Pruebas-Tranbajo/services/access_management_service.py:27-33 | a missing value gives the default; a present value is never longer once stripped and has no leading or trailing whitespace |
| AccessTypes.SafeStripIsExact | dr/Pruebas-Tranbajo/services/access_management_service.py:27-33 | a missing value gives the default; a present value becomes the slice of it that is left once the whitespace before and after it is cut off, and that slice neither starts nor ends with whitespace |
| Base.StripIsExact | dr/Pruebas-Tranbajo/services/access_management_service.py:27-33 | `strip()` gives a slice of the input with only whitespace before and after it, and the slice neither starts nor ends with whitespace |
| AccessTypes.NormIsNormal | dr/Pruebas-Tranbajo/services/access_management_service.py:1263-1265 | a normalised key part is upper-case, stripped and no longer than its input |
| AccessTypes.TripletKeyIsNormal | dr/Pruebas-Tranbajo/services/access_management_service.py:1263-1267 | all three parts of a triplet key are upper-case and stripped |
| AccessTypes.TripletKeyIdempotent | dr/Pruebas-Tranbajo/services/access_management_service.py:1263-1267 | building the key again from a key's own parts gives the same key |
| Ledger.PendingCount | dr/Pruebas-Tranbajo/services/access_management_service.py:774-788 | the count is zero exactly when no ledger row is pending for this employee and application |
| Ledger.CheckAppend | dr/Pruebas-Tranbajo/services/access_management_service.py:768-788 | a record is refused for a missing field exactly when its id or process type is blank; it is refused as already pending exactly when it is not an offboarding and a pending row for the same employee and application exists |
| Ledger.Persisted | dr/Pruebas-Tranbajo/services/access_management_service.py:801-835 | the stored record has no expiration date and agrees with the request on every other field |
| Ledger.Append | dr/Pruebas-Tranbajo/services/access_management_service.py:759-844 | the old ledger is kept as a prefix; one row is added exactly when `CheckAppend` lets the record through, and none otherwise; the added row holds the record without its expiration date, the email of the employee in the directory (empty when unknown) and the current time |
| Ledger.AppendPendingCount | dr/Pruebas-Tranbajo/services/access_management_service.py:774-844 | an inserted pending record raises the duplicate check's count by one; afterwards a pending record with both required fields always has a pending row, its own or the one that absorbed it |
| Ledger.AppendKeepingExpiry | dr/Pruebas-Tranbajo/services/access_management_service.py:1763-1780 | the corrected append: the same decision, but the added row holds the record itself, expiration date included |
| Ledger.AppendAllKeepingExpiryOnlyAdds | dr/Pruebas-Tranbajo/services/access_management_service.py:1763-1780 | with the expiration kept, a batch only appends, and every new row holds exactly a submitted record and the current time |
| Ledger.AppendAllKeepingExpiryDiffersOnlyInExpiry | dr/Pruebas-Tranbajo/services/access_management_service.py:801-835 | the ledger as written and the corrected one agree row by row on everything but the expiration date |
| Ledger.SamePendingCount | dr/Pruebas-Tranbajo/services/access_management_service.py:774-788 | ledgers that differ only in expiration dates give the same duplicate-check count |
| Ledger.AppendPreservesNoDuplicatePending | dr/Pruebas-Tranbajo/services/access_management_service.py:774-788 | one append keeps the invariant that no two pending grants exist for the same employee and application |
| Ledger.AppendAllPreservesNoDuplicatePending | dr/Pruebas-Tranbajo/services/access_management_service.py:774-788 | a whole batch of appends keeps that invariant |
| Ledger.AppendAllOnlyAdds | dr/Pruebas-Tranbajo/services/access_management_service.py:759-844 | a batch only appends: the old ledger is a prefix, and every new row holds a submitted record, without its expiration date, and the current time |
| Ledger.AtMostOnePendingGrant | dr/Pruebas-Tranbajo/services/access_management_service.py:774-788 | under the invariant, an employee has at most one pending grant of each application |
| Ledger.AppendAllLeavesPending | dr/Pruebas-Tranbajo/services/access_management_service.py:774-844 | after a batch of grant requests, each request has a pending row, whether it was inserted now or already there |
| Ledger.PendingRequestsAddNothing | dr/Pruebas-Tranbajo/services/access_management_service.py:774-788 | grant requests that are all already pending add no row |
| Ledger.GrantRequestsAreIdempotent | dr/Pruebas-Tranbajo/services/access_management_service.py:774-844 | submitting the same grant requests a second time, at any later time, leaves the ledger as the first submission left it |
| Ledger.Accepted | dr/Pruebas-Tranbajo/services/access_management_service.py:768-772 | the reported successes are never more than the submitted records |
| Ledger.AcceptedAreReportedSuccesses | dr/Pruebas-Tranbajo/services/access_management_service.py:768-844 | a record is reported as created exactly when it was submitted and was not refused for a missing field (an already pending grant counts as a success); when every record has both required fields, all are reported |
| Ledger.AppendAllConcat | dr/Pruebas-Tranbajo/services/access_management_service.py:759-844 | submitting two batches one after the other is the same as submitting their concatenation, ledger and successes alike |
| Ledger.AcceptedConcat | dr/Pruebas-Tranbajo/services/access_management_service.py:759-788 | the records reported as created by two batches are, in order, those reported by their concatenation |
| Catalog.AppsByPosition | dr/Pruebas-Tranbajo/services/access_management_service.py:308-395 | the result is exactly the catalog rows whose normalised position and unit match, narrowed by sub-unit and title when these are given |
| Catalog.AppsByPositionFlexible | dr/Pruebas-Tranbajo/services/access_management_service.py:397-485 | the result is exactly the catalog rows of the position whose unit matches the given unit by the flexible rule |
| Catalog.FirstAppByName | dr/Pruebas-Tranbajo/services/access_management_service.py:506-535 | there is no result exactly when no catalog row has this name; otherwise the result is a catalog row with this name |
| Catalog.AppUnidadMapKeys | dr/Pruebas-Tranbajo/services/access_management_service.py:1500-1514 | a key is in the map exactly when some catalog row carrying one of the held names normalises to it |
| Catalog.AppUnidadMapValues | dr/Pruebas-Tranbajo/services/access_management_service.py:1500-1514 | each entry is the unit of a catalog row carrying that name |
| Projection.ClosedEventsOf | dr/Pruebas-Tranbajo/services/access_management_service.py:1041-1116 | exactly the closed-completed tracked events of this employee and application |
| Projection.Latest | dr/Pruebas-Tranbajo/services/access_management_service.py:1041-1116 | a latest row exists exactly when the rows are non-empty, and no row is dated later |
| Projection.LastEvent | dr/Pruebas-Tranbajo/services/access_management_service.py:1041-1116 | the last process of an application: absent exactly when it has no closed event, otherwise a closed event that no other closed event postdates |
| Projection.FirstIndexOf | dr/Pruebas-Tranbajo/services/access_management_service.py:963-969 | the first position of a character, absent exactly when the character does not occur |
| Projection.FlexPositionIn | dr/Pruebas-Tranbajo/services/access_management_service.py:963-969 | the search for `\(flex staff - ([^)]+)\)` finds nothing exactly when the description has no match; otherwise it returns the group of the leftmost match, which is non-empty and contains no ')' |
| Projection.ClosedFlexGrants | dr/Pruebas-Tranbajo/services/access_management_service.py:948-969 | exactly the employee's closed-completed flex-staff grants |
| Projection.ScopeFor | dr/Pruebas-Tranbajo/services/access_management_service.py:930-969 | lateral movements are filtered by unit exactly when the employee is known, active and has a non-empty `unidad_subunidad` |
| Projection.ShownEntries | dr/Pruebas-Tranbajo/services/access_management_service.py:1041-1130 | an entry is listed exactly when some row passes the last-process, scope and lateral filters and yields that entry |
| Projection.CurrentPositionAccess | dr/Pruebas-Tranbajo/services/access_management_service.py:1041-1116 | the current accesses are distinct; each is closed completed, is not an offboarding, and has the process of the last closed event of its application |
| Projection.UnfilteredGrantIsCurrent | dr/Pruebas-Tranbajo/services/access_management_service.py:1041-1116 | an onboarding or manual grant that is the last closed event of its application is always listed |
| Projection.LateralOutsidePositionHidden | dr/Pruebas-Tranbajo/services/access_management_service.py:1118-1130 | a lateral-movement grant of an application the catalog does not tie to the employee's unit is never listed |
| Projection.ClosedEventsIgnoreOpenRows | dr/Pruebas-Tranbajo/services/access_management_service.py:1041-1116 | rows that are not closed completed do not change the closed events or the closed flex grants |
| Projection.ShownEntriesIgnoreOpenRows | dr/Pruebas-Tranbajo/services/access_management_service.py:1041-1130 | adding rows that are not closed completed to the ledger changes no listed entry |
| Projection.OpenRowsAreNotShown | dr/Pruebas-Tranbajo/services/access_management_service.py:1041-1130 | rows that are not closed completed are never listed themselves |
| Projection.ProjectionIgnoresOpenRows | dr/Pruebas-Tranbajo/services/access_management_service.py:1041-1130 | pending requests do not change the current access: the projection of the ledger plus open rows equals that of the ledger |
| Projection.ClosedPositionApps | dr/Pruebas-Tranbajo/services/access_management_service.py:888-922 | a name is listed exactly when the employee has a closed-completed position grant of it |
| Projection.AllFlexApps | dr/Pruebas-Tranbajo/services/access_management_service.py:1859-1890 | a name is listed exactly when the employee has a flex-staff row for it, whatever its status |
| Projection.FlexAccessRows | dr/Pruebas-Tranbajo/services/access_management_service.py:1892-1943 | one flex-access entry per row, in order |
| Projection.ClosedFlexAccess | dr/Pruebas-Tranbajo/services/access_management_service.py:1892-1943 | the flex accesses are distinct and are exactly those of the employee's closed-completed flex grants, returned or not |
| Projection.CandidatesAmong | dr/Pruebas-Tranbajo/services/access_management_service.py:1318-1342 | exactly the rows that are closed grants not revoked by a later closed offboarding |
| Projection.OffboardingCandidates | dr/Pruebas-Tranbajo/services/access_management_service.py:1318-1342 | offboarding considers exactly the employee's closed grants that no later closed offboarding has revoked |
| Projection.OpenRowIsNoCandidate | dr/Pruebas-Tranbajo/services/access_management_service.py:1318-1342 | a row that is not closed is never a candidate |
| Projection.PendingIsNotClosed | dr/Pruebas-Tranbajo/services/access_management_service.py:1318-1342 | the pending status is not a closed status |
| Projection.CandidatesIgnorePendingRows | dr/Pruebas-Tranbajo/services/access_management_service.py:1318-1342 | pending rows added to the ledger neither become candidates nor revoke one |
| Projection.CandidatesSameWithOpenRow | dr/Pruebas-Tranbajo/services/access_management_service.py:1318-1342 | one open row added to the ledger does not change the candidates |
| Projection.RevokedSinceOpenRow | dr/Pruebas-Tranbajo/services/access_management_service.py:1318-1342 | a row that is not closed never counts as a closed revocation, so appending it leaves the revocation test unchanged |
| Onboarding.FirstPerTriple | dr/Pruebas-Tranbajo/services/access_management_service.py:1257-1290 | the kept rows have distinct triples, come from the input, and cover every triple of the input |
| Onboarding.FirstPerTripleStep | dr/Pruebas-Tranbajo/services/access_management_service.py:1257-1290 | a row is kept exactly when its triple has not been seen before |
| Onboarding.GrantRecords | dr/Pruebas-Tranbajo/services/access_management_service.py:1268-1285 | one onboarding record per application, in order |
| Onboarding.OnboardingRequests | dr/Pruebas-Tranbajo/services/access_management_service.py:1257-1290 | every request is a pending onboarding grant for this employee, built from one of the required applications, and there are no more requests than applications |
| Onboarding.OnboardedEmployee | dr/Pruebas-Tranbajo/services/access_management_service.py:1221-1250 | the employee becomes active; position, unit and `unidad_subunidad` come from the form when the profile had a blank field, and are unchanged otherwise |
| Onboarding.OnboardingRerunAddsNothing | dr/Pruebas-Tranbajo/services/access_management_service.py:1257-1290 | a second onboarding run while the first run's grants are pending adds no row |
| Offboarding.NamesWhereMeaning | dr/Pruebas-Tranbajo/services/access_management_service.py:1360-1405 | a name is collected exactly when a row passing the test carries it, once stripped |
| Offboarding.PlanOffboarding | dr/Pruebas-Tranbajo/services/access_management_service.py:1360-1405 | every request is a pending offboarding revocation for this employee, and there are no more requests and skips together than candidates |
| Offboarding.PlanOffboardingNames | dr/Pruebas-Tranbajo/services/access_management_service.py:1367-1405 | the names revoked are exactly those of the candidates whose catalog status allows revocation, and the names skipped are exactly the others |
| Offboarding.InsertedRows | dr/Pruebas-Tranbajo/services/access_management_service.py:1387-1399 | one inserted row per record, holding the record without its expiration date, the directory email and the current time |
| Offboarding.RevocationsAlwaysInserted | dr/Pruebas-Tranbajo/services/access_management_service.py:774-788 | offboarding records skip the pending check: each one is appended |
| Offboarding.RevocationIsAppended | dr/Pruebas-Tranbajo/services/access_management_service.py:774-788 | an offboarding record with an employee id bypasses the pending check and is appended as a new row |
| Offboarding.RerunBeforeClosingRepeats | dr/Pruebas-Tranbajo/services/access_management_service.py:1318-1405 | offboarding run again before its revocations close finds the same candidates, and every revocation is appended a second time |
| Projection.RevokedSinceGrows | dr/Pruebas-Tranbajo/services/access_management_service.py:1318-1342 | appending rows never withdraws a revocation |
| Offboarding.RevocableIsRevokedOnceClosed | dr/Pruebas-Tranbajo/services/access_management_service.py:1318-1405 | once the run's revocations are closed, every revocable candidate whose name has no surrounding whitespace counts as revoked |
| Offboarding.RerunAfterClosingRequestsNothing | dr/Pruebas-Tranbajo/services/access_management_service.py:1318-1405 | once the run's revocations are closed, running offboarding again requests nothing, when no candidate's name has surrounding whitespace |
| Offboarding.RequestAwareCandidatesAmong | dr/Pruebas-Tranbajo/services/access_management_service.py:1303-1306 | corrected query: exactly the rows that are closed grants with no later offboarding, closed or pending |
| Offboarding.RequestAwareCandidates | dr/Pruebas-Tranbajo/services/access_management_service.py:1303-1306 | corrected query: exactly the ledger's closed grants of the employee that no later closed or pending offboarding covers |
| Offboarding.RequestAwareCandidatesRefine | dr/Pruebas-Tranbajo/services/access_management_service.py:1318-1342 | the corrected query only drops candidates of the query as written, and drops none while no offboarding is pending and no name has surrounding whitespace |
| Offboarding.RevokedOrRequestedSinceGrows | dr/Pruebas-Tranbajo/services/access_management_service.py:1303-1306 | adding rows never withdraws a revocation, done or requested |
| Offboarding.InsertedRowsKeepProcess | dr/Pruebas-Tranbajo/services/access_management_service.py:1387-1399 | each inserted row has the process type of one of the submitted records |
| Offboarding.RerunCandidateWasCandidate | dr/Pruebas-Tranbajo/services/access_management_service.py:1303-1306 | a candidate of the corrected query after offboarding rows are added was a candidate before |
| Offboarding.RequestedAt | dr/Pruebas-Tranbajo/services/access_management_service.py:1387-1399 | a requested name is the application of some request of the run |
| Offboarding.RevocableIsRequested | dr/Pruebas-Tranbajo/services/access_management_service.py:1360-1405 | with the corrected query, each revocable candidate of a run gets a pending offboarding row from that run under its stripped name, dated no earlier than the grant |
| Offboarding.RequestAwareRerunRevokesNone | dr/Pruebas-Tranbajo/services/access_management_service.py:1303-1306 | with the corrected query, right after a run no candidate is revocable any more |
| Offboarding.RequestAwareRerunRequestsNothing | dr/Pruebas-Tranbajo/services/access_management_service.py:1303-1306 | with the corrected query, running offboarding again straight away, before any revocation closes, requests nothing |
| Offboarding.RequestAwareRevocableIsRevokedOnceClosed | dr/Pruebas-Tranbajo/services/access_management_service.py:1331-1339 | with the corrected query, once the run's revocations are closed every revocable candidate counts as revoked, whatever whitespace surrounds its name |
| Offboarding.RequestAwareRerunAfterClosingRequestsNothing | dr/Pruebas-Tranbajo/services/access_management_service.py:1318-1405 | with the corrected query, once the run's revocations are closed a new run requests nothing, whatever whitespace surrounds the names |
| SpacedNames.StripOfSpacedName | dr/Pruebas-Tranbajo/services/access_management_service.py:27-33 | stripping " JIRA" gives "JIRA" |
| SpacedNames.SpacedGrantIsRevokedAgain | dr/Pruebas-Tranbajo/services/access_management_service.py:1331-1339 | a closed grant of " JIRA" and a later closed revocation of "JIRA": the grant stays a candidate of the query as written and a new run requests its revocation again, while the corrected query drops it |
| Projection.ClosedCompletedIsClosedStatus | dr/Pruebas-Tranbajo/services/access_management_service.py:1328 | the status written as closed completed passes the `UPPER(LTRIM(RTRIM(status)))` test |
| LateralMovement.NewUnidad | dr/Pruebas-Tranbajo/services/access_management_service.py:1479 | the new `unidad_subunidad` is "unit/subunit" when a sub-unit is given, and the unit alone otherwise |
| LateralMovement.HeldIndexContents | dr/Pruebas-Tranbajo/services/access_management_service.py:1516-1530 | the held index has exactly the keys of the named current accesses, and each entry is an access filed under its key |
| LateralMovement.RequiredIndexContents | dr/Pruebas-Tranbajo/services/access_management_service.py:1536-1542 | the required index has exactly the keys of the named catalog rows of the new position, and each entry is such a row under its own key |
| LateralMovement.RevokeKeys | dr/Pruebas-Tranbajo/services/access_management_service.py:1555-1592 | a key is revoked exactly when it is held, not required and closed completed |
| LateralMovement.PartitionKeys | dr/Pruebas-Tranbajo/services/access_management_service.py:1555-1598 | revoke is held, closed and not required; maintain is held and required; grant is required and not held; no key is in two lists |
| LateralMovement.PartitionHeld | dr/Pruebas-Tranbajo/services/access_management_service.py:1555-1592 | the loop over the held index builds exactly the revoke and maintain lists of the partition |
| LateralMovement.ClosedCompletedIsClosed | dr/Pruebas-Tranbajo/services/access_management_service.py:1558-1559 | the status that the projection returns passes the revoke test |
| LateralMovement.PartitionOfCurrentAccess | dr/Pruebas-Tranbajo/services/access_management_service.py:1516-1598 | for accesses from the projection, every held key that is not required is revoked, and the three lists together cover exactly the held and the required keys |
| LateralMovement.RevokeTargetOf | dr/Pruebas-Tranbajo/services/access_management_service.py:1610-1632 | a revocation names the held application |
| LateralMovement.RevocationRecords | dr/Pruebas-Tranbajo/services/access_management_service.py:1610-1632 | one revocation record per revoked key, in order |
| LateralMovement.LateralGrantRecords | dr/Pruebas-Tranbajo/services/access_management_service.py:1636-1658 | one grant record per granted key, in order |
| LateralMovement.PlanFor | dr/Pruebas-Tranbajo/services/access_management_service.py:1536-1598 | what is revoked is held and not required; what is granted is required and not held |
| LateralMovement.PlanLateral | dr/Pruebas-Tranbajo/services/access_management_service.py:1479-1598 | the same separation, for the indexes built from the current access and the new position's catalog rows |
| LateralMovement.LateralRequests | dr/Pruebas-Tranbajo/services/access_management_service.py:1610-1658 | one request per revoked key and one per granted key; revocations are pending offboardings, grants are pending lateral movements |
| LateralMovement.LateralRevocationTargets | dr/Pruebas-Tranbajo/services/access_management_service.py:1555-1632 | each revocation is an offboarding of a held application that the new position does not require |
| LateralMovement.LateralGrantTargets | dr/Pruebas-Tranbajo/services/access_management_service.py:1596-1658 | each grant is a lateral-movement row for a required application that is not held |
| LateralMovement.MovedEmployee | dr/Pruebas-Tranbajo/services/access_management_service.py:1661 | the employee gets the new position, unit and combined `unidad_subunidad`; email and active status are unchanged |
| FlexStaff.NormNamesMeaning | dr/Pruebas-Tranbajo/services/access_management_service.py:1729-1747 | a name is in the set exactly when some non-blank input normalises to it |
| FlexStaff.CollectNormNames | dr/Pruebas-Tranbajo/services/access_management_service.py:1729-1747 | the loop collects exactly the normalised non-blank names |
| FlexStaff.TempIndex | dr/Pruebas-Tranbajo/services/access_management_service.py:1729-1747 | the temporary position's applications form a well-formed index by name |
| FlexStaff.MissingNames | dr/Pruebas-Tranbajo/services/access_management_service.py:1752-1754 | every missing name is a key of the temporary position's index |
| FlexStaff.FlexExpiration | dr/Pruebas-Tranbajo/services/access_management_service.py:1761-1787 | a grant gets an expiry date exactly when a non-zero duration was given, and that date is the computed one |
| FlexStaff.FlexGrantRecords | dr/Pruebas-Tranbajo/services/access_management_service.py:1761-1787 | one flex-staff record per granted application, in order |
| FlexStaff.FlexAssignmentRequests | dr/Pruebas-Tranbajo/services/access_management_service.py:1688-1787 | every request is a pending flex-staff grant for this employee carrying the expiry that the duration calls for |
| FlexStaff.FlexGrantsAreExactlyTheMissing | dr/Pruebas-Tranbajo/services/access_management_service.py:1729-1754 | the granted applications are exactly one per name of the temporary position that is not held already, each from that position |
| FlexStaff.FlexExpiryIsDropped | dr/Pruebas-Tranbajo/services/access_management_service.py:1761-1780 | as written, an assignment given a duration submits grants that carry the expiration, yet every row it adds reads back through the flex-access query with none |
| FlexStaff.FlexExpiryIsKept | dr/Pruebas-Tranbajo/services/access_management_service.py:1761-1780 | with the corrected append, every row the assignment adds reads back with the expiration it was given |
| FlexStaff.PendingRequestsKeepCurrentAccess | dr/Pruebas-Tranbajo/services/access_management_service.py:1041-1116 | submitting pending requests does not change the current access |
| FlexStaff.FlexReturnRequests | dr/Pruebas-Tranbajo/services/access_management_service.py:1809-1845 | one request per listed flex access; each is a pending flex-staff return for this employee, naming the application and sub-unit of a closed flex grant |
| Service.WithStatus | dr/Pruebas-Tranbajo/services/access_management_service.py:1169-1204 | the status is set; an inactive employee gets the current time as the inactivation date and an active one has none; the other fields are unchanged |
| Service.DefaultUnidad | dr/Pruebas-Tranbajo/services/access_management_service.py:197-223 | the default `unidad_subunidad` is the unit followed by "/General", or "Sin Unidad/Subunidad" when the unit is blank |
| Service.AccessManagementService.constructor | dr/Pruebas-Tranbajo/services/access_management_service.py:58-61 | the service starts from any given tables; the ledger invariant holds exactly when the given ledger has no two pending grants for the same employee and application |
| Service.AccessManagementService.CreateHistoricalRecord | dr/Pruebas-Tranbajo/services/access_management_service.py:759-844 | succeeds exactly when both required fields are present; the ledger becomes the append of the record, stored without its expiration date; the directory is unchanged; the invariant is kept when it held before |
| Service.AccessManagementService.SubmitAll | dr/Pruebas-Tranbajo/services/access_management_service.py:1257-1290 | the submission loop appends the whole batch and reports exactly the accepted records; the invariant is kept when it held before |
| Service.AccessManagementService.UpdateEmployeeStatus | dr/Pruebas-Tranbajo/services/access_management_service.py:1169-1204 | succeeds exactly when the employee exists; only that row changes, to the new status; the ledger is unchanged |
| Service.AccessManagementService.UpdateEmployeePosition | dr/Pruebas-Tranbajo/services/access_management_service.py:197-223 | succeeds exactly when the employee exists; only that row's position, unit and `unidad_subunidad` change, the last defaulting from the unit when not given; the ledger is unchanged |
| Service.AccessManagementService.ProcessEmployeeOnboarding | dr/Pruebas-Tranbajo/services/access_management_service.py:1206-1295 | an unknown employee changes nothing; a known one is activated with the filled profile, the ledger gets the onboarding requests for the position's applications, and the call succeeds exactly when the position requires some application |
| Service.AccessManagementService.ActivateForOnboarding | dr/Pruebas-Tranbajo/services/access_management_service.py:1220-1245 | the employee's row becomes the activated row with the profile filled from the form when one of its fields is blank; nothing else changes |
| Service.AccessManagementService.SubmitOnboardingGrants | dr/Pruebas-Tranbajo/services/access_management_service.py:1257-1290 | the dedup loop appends exactly the onboarding requests and reports the accepted ones; the invariant is kept when it held before |
| Service.AccessManagementService.ProcessEmployeeOffboarding | dr/Pruebas-Tranbajo/services/access_management_service.py:1297-1448 | succeeds exactly when the employee exists; the ledger gets the planned revocations of the candidates; skipped names are reported; the employee is deactivated |
| Service.AccessManagementService.DeactivateForOffboarding | dr/Pruebas-Tranbajo/services/access_management_service.py:1408-1421 | the employee's row becomes inactive, dated now, with unit and `unidad_subunidad` set to "out of the unit"; nothing else changes |
| Service.AccessManagementService.SubmitRevocations | dr/Pruebas-Tranbajo/services/access_management_service.py:1360-1405 | the loop over the candidates appends exactly the planned revocations and reports exactly the planned skips; the invariant is kept when it held before |
| Service.AccessManagementService.SubmitCandidate | dr/Pruebas-Tranbajo/services/access_management_service.py:1365-1403 | one candidate of the offboarding loop takes the ledger, the created list and the skipped list exactly one plan step further; the invariant is kept when it held before |
| Service.AccessManagementService.ProcessLateralMovement | dr/Pruebas-Tranbajo/services/access_management_service.py:1450-1686 | succeeds exactly when the employee exists; the ledger gets the planned revocations then grants; the employee is moved |
| Service.AccessManagementService.ProcessFlexStaffAssignment | dr/Pruebas-Tranbajo/services/access_management_service.py:1688-1807 | succeeds exactly when the employee exists; the ledger gets a grant for each application the temporary position requires and the employee lacks, stored without the expiration that the reported records carry; the directory is unchanged |
| Service.AccessManagementService.ProcessFlexStaffReturn | dr/Pruebas-Tranbajo/services/access_management_service.py:1809-1857 | succeeds exactly when the employee exists; the ledger gets one revocation per listed flex access; the directory is unchanged |
| SchemaSearch.SanitizeForFts | dr/Pruebas-Tranbajo/test_bot.py:207-208 | the result is no longer than the input, keeps only `[0-9a-z_]` characters, and keeps every such character of the input |
| SchemaSearch.SanitizeForFtsIdempotent | dr/Pruebas-Tranbajo/test_bot.py:207-208 | a clean keyword is unchanged, and sanitising twice equals sanitising once |
| SchemaSearch.Runs | dr/Pruebas-Tranbajo/test_bot.py:134-152 | every run found is non-empty and consists of run characters only |
| SchemaSearch.RunsOfOneRun | dr/Pruebas-Tranbajo/test_bot.py:134-152 | a non-empty string made only of run characters is one run |
| SchemaSearch.CamelSpaced | dr/Pruebas-Tranbajo/test_bot.py:135 | after the camel-case split, every inner capital letter is preceded by a space |
| SchemaSearch.SplitIdentifier | dr/Pruebas-Tranbajo/test_bot.py:146-152 | every part is a non-empty word of letters and digits |
| SchemaSearch.RunsCoverRunCharacters | dr/Pruebas-Tranbajo/test_bot.py:148-152 | joining the runs gives back exactly the run characters of the text, in order |
| SchemaSearch.RunsSplitAtSeparator | dr/Pruebas-Tranbajo/test_bot.py:148-152 | a separator splits the text: the runs of `a + [c] + b` are the runs of `a` followed by the runs of `b` |
| SchemaSearch.CamelSpacedOnlyInsertsSpaces | dr/Pruebas-Tranbajo/test_bot.py:135 | removing the spaces placed before capitals gives back the original text, so the split only inserts spaces |
| SchemaSearch.SplitIdentifierKeepsWordChars | dr/Pruebas-Tranbajo/test_bot.py:146-152 | joining the parts gives back exactly the letters and digits of the identifier, in order |
| SchemaSearch.Initials | dr/Pruebas-Tranbajo/test_bot.py:178-182 | when all parts are non-empty, the initials are their first characters, one per part |
| SchemaSearch.BuildAcronym | dr/Pruebas-Tranbajo/test_bot.py:178-182 | the acronym is empty or at least two characters long; it is the normalised initials exactly when these have at least two characters |
| SchemaSearch.SinglePartHasNoAcronym | dr/Pruebas-Tranbajo/test_bot.py:178-182 | a text with at most one part has no acronym |
| SchemaSearch.ConsonantSkeletonChars | dr/Pruebas-Tranbajo/test_bot.py:169-171 | the skeleton contains exactly the token's non-vowel characters |
| SchemaSearch.CionVariant | dr/Pruebas-Tranbajo/test_bot.py:167-168 | the accented variant has the token's length, ends in "ción", and differs from the token only by 'ó' |
| SchemaSearch.CionVariantAsWrittenDoublesC | dr/Pruebas-Tranbajo/test_bot.py:167-168 | the variant as written is one character longer, ends in "cción", and is not the accented form |
| SchemaSearch.AccionVariant | dr/Pruebas-Tranbajo/test_bot.py:167-168 | "accion" gives "accción" as written and "acción" when corrected |
| SchemaSearch.WordVariants | dr/Pruebas-Tranbajo/test_bot.py:155-175 | the empty string is never a variant |
| SchemaSearch.CollectSpellingVariants | dr/Pruebas-Tranbajo/test_bot.py:155-166 | the first steps build exactly the spelling variants |
| SchemaSearch.GenerateWordVariants | dr/Pruebas-Tranbajo/test_bot.py:155-175 | the method builds exactly the variant set |
| SchemaSearch.VariantsContainToken | dr/Pruebas-Tranbajo/test_bot.py:155-175 | a non-empty token is its own variant; the empty token gives only "s" |
| SchemaSearch.VariantsSingularPlural | dr/Pruebas-Tranbajo/test_bot.py:157-161 | a long token ending in "s" or "es" has its stem as a variant; any other token has its plural |
| SchemaSearch.VariantsPrefixSkeletonCion | dr/Pruebas-Tranbajo/test_bot.py:167-173 | a token longer than four has its 4-prefix as a variant, a skeleton of three or more is a variant, and a "cion" token has its "-cion" variant as written |
| SchemaSearch.LexLessTransitive | dr/Pruebas-Tranbajo/test_bot.py:203 | the string order used by `sorted` is transitive |
| SchemaSearch.LexLessTotal | dr/Pruebas-Tranbajo/test_bot.py:203 | any two distinct strings are ordered one way or the other |
| SchemaSearch.LexLessAsymmetric | dr/Pruebas-Tranbajo/test_bot.py:203 | two strings are never ordered both ways |
| SchemaSearch.Least | dr/Pruebas-Tranbajo/test_bot.py:203 | the least element is in the set and precedes every other element |
| SchemaSearch.SortedSet | dr/Pruebas-Tranbajo/test_bot.py:203 | the listing holds exactly the set's elements, once each, in strictly ascending order |
| SchemaSearch.AscendingIsDistinct | dr/Pruebas-Tranbajo/test_bot.py:203 | a strictly ascending listing has no duplicates |
| SchemaSearch.AscendingListingIsUnique | dr/Pruebas-Tranbajo/test_bot.py:203 | two strictly ascending listings of the same elements are equal |
| SchemaSearch.FieldTexts | dr/Pruebas-Tranbajo/test_bot.py:187-193 | no collected text is empty |
| SchemaSearch.AcronymTokens | dr/Pruebas-Tranbajo/test_bot.py:200-203 | every acronym token is at least two characters long |
| SchemaSearch.BlobTokens | dr/Pruebas-Tranbajo/test_bot.py:185-203 | the blob never contains an empty token |
| SchemaSearch.CollectFieldTexts | dr/Pruebas-Tranbajo/test_bot.py:187-193 | the field loop collects exactly the texts of the non-empty fields |
| SchemaSearch.CollectTextTokens | dr/Pruebas-Tranbajo/test_bot.py:194-199 | the nested loops collect exactly the variants of the normalised words |
| SchemaSearch.BuildSearchBlob | dr/Pruebas-Tranbajo/test_bot.py:185-204 | the blob is the space-joined, sorted listing of the word variants and acronyms of the entry |
| SchemaSearch.AddAcronyms | dr/Pruebas-Tranbajo/test_bot.py:199-202 | the acronym loop adds to the tokens exactly the non-empty acronyms of the table and the column |
| SchemaSearch.SearchBlobIsSortedAndDistinct | dr/Pruebas-Tranbajo/test_bot.py:203-204 | the blob's tokens are strictly ascending, distinct, and exactly the entry's tokens |
| SchemaSearch.FilterOf | dr/Pruebas-Tranbajo/test_bot.py:513-521 | a filter kind is recognised only when the token starts with its prefix, and none when it starts with no prefix |
| SchemaSearch.SearchFilters.Set | dr/Pruebas-Tranbajo/test_bot.py:513-521 | setting one filter gives it the value and leaves the others unchanged |
| SchemaSearch.FilterValueFollowsPrefix | dr/Pruebas-Tranbajo/test_bot.py:513-521 | for a filter token, the text after the first '=' is exactly the text after the prefix |
| SchemaSearch.ParsedKeywords | dr/Pruebas-Tranbajo/test_bot.py:513-523 | the keywords are exactly the non-empty, non-stopword, non-filter tokens, in order |
| SchemaSearch.UnnamedFilterUnchanged | dr/Pruebas-Tranbajo/test_bot.py:513-523 | a filter that no token names keeps the caller's value |
| SchemaSearch.LastFilterTokenWins | dr/Pruebas-Tranbajo/test_bot.py:513-523 | a filter named more than once takes its value from the last token that names it |
| SchemaSearch.ParseQuestion | dr/Pruebas-Tranbajo/test_bot.py:509-523 | the parsing loop produces exactly the parse of the question's cleaned tokens |
| SchemaSearch.KeywordsOrWildcard | dr/Pruebas-Tranbajo/test_bot.py:527-529 | the keywords are never empty; an empty expansion becomes the wildcard "*" |
| SchemaSearch.SearchRequest | dr/Pruebas-Tranbajo/test_bot.py:509-529 | the request has non-empty keywords, the expansion of the parsed keywords or the wildcard, and the parsed filters |
| SchemaSearch.TruncateDescription | dr/Pruebas-Tranbajo/test_bot.py:551-554 | the description is at most 60 characters; a short one is kept, and a long one is its first 57 characters plus "..." |
| SchemaSearch.FormatResult | dr/Pruebas-Tranbajo/test_bot.py:545-556 | the line starts with the location; it has the description suffix exactly when the description is non-empty; it never exceeds the location by more than 69 characters |

## Left out

- Database access (pyodbc connections, cursors, commits, rollbacks) and the exceptions it can raise: each query becomes a function over the tables, and each write becomes an update of a field.
- Clock and identifiers: `datetime.now()`, case ids and expiry dates are parameters (`now`, `caseId`, `expiresAt`).
- Result messages and debug output: the model keeps success, the created records and the skipped names, not the message text.
- `ORDER BY` and row order: query results come in ledger or catalog order. Among events with equal dates, the later ledger row counts as the latest.
- SQL collation: `=` and `IN` compare strings exactly. `UPPER`, `LTRIM`, `RTRIM` and `TRIM` are modelled where the queries use them.
- Projection.ScopeFor and Projection.ShownEntries: the flex filter `h.event_description LIKE '%flex staff - <position>%'` is modelled as a case-sensitive substring test. Under the database's case-insensitive collation a grant for "Caja" still matches a later position "CAJA", which the model hides. `_`, `%` and `[...]` in the position act as wildcards under `LIKE`, so a position such as "A[B]" does not even match its own description, while the model lists it.
- NULL columns: every text column holds a string, and a missing value is the empty string. This also covers `format_result`, which writes a `None` `data_type` as "None", while the model writes "".
- Case mapping covers ASCII and Latin-1 letters only: `Upper` maps U+00E0–U+00FE, except U+00F7, down by 32. Three Latin-1 letters that Python upper-cases differently are left unchanged: 'ß' (U+00DF, which Python turns into "SS"), 'ÿ' (U+00FF, which becomes U+0178) and 'µ' (U+00B5, which becomes U+039C).
- `normalize_token` (Unicode NFKD decomposition and removal of combining marks) is a function parameter `normalize`, because Unicode tables are not modelled.
- `expand_keywords` (the optional WordNet synonym lookup) is a function parameter `expand`.
- The difflib scoring, `_cached_search` and its JSON signature, and the chat loop are not modelled.
- SchemaSearch.GenerateWordVariants: returns a set, not the list built from it, because the source's list order is the iteration order of a Python set.
- SchemaSearch.CollectTextTokens: the `tokens` list is a set, since only `sorted(set(tokens))` is used.
- The statistics, history, search, reconciliation and manual-access operations, and employee and application CRUD, are not modelled.
- The second definition of `get_access_reconciliation_report` (lines 2703-2791) replaces the first (lines 1945-2163), so the first is never called; neither is modelled.
- `_access_key` is not modelled, because no modelled operation calls it.
- `temporary_subunit` in `process_flex_staff_assignment` is not modelled, because the code never reads it.
- Offboarding.RevocableIsRevokedOnceClosed: requires the candidate's name to have no surrounding whitespace, because the query as written compares raw names and the revocation carries the stripped name (see "## Findings").
- Offboarding.RerunAfterClosingRequestsNothing: requires every candidate's name to have no surrounding whitespace, for the same reason; the corrected Offboarding.RequestAwareRerunAfterClosingRequestsNothing has no such condition.

## Findings

| source | as written | input that shows it | evidently intended | confidence | as-written member | corrected member |
|---|---|---|---|---|---|---|
| dr/Pruebas-Tranbajo/test_bot.py:167-168 | the "cion" variant is `token[:-3] + "ción"`, which keeps the "c" of "cion" and adds another | "accion" gives "accción" | `token[:-4] + "ción"`, giving the accented spelling "acción" | high; not executed | SchemaSearch.CionVariantAsWritten (see SchemaSearch.CionVariantAsWrittenDoublesC, SchemaSearch.AccionVariant) | SchemaSearch.CionVariant |
| dr/Pruebas-Tranbajo/services/access_management_service.py:802-835 | the `INSERT` of `create_historical_record` has no `expiration_date` column, so the expiry that `process_flex_staff_assignment` computes (lines 1763-1780) is never stored | `process_flex_staff_assignment` with `duration_days=5` for an employee who lacks an application of the temporary position: the grant is reported with an expiration, and once closed `get_employee_flex_staff_access` lists it with `expiration_date` None | the stored row keeps the computed expiration | high; not executed | FlexStaff.FlexExpiryIsDropped (over Ledger.Append) | FlexStaff.FlexExpiryIsKept (over Ledger.AppendKeepingExpiry) |
| dr/Pruebas-Tranbajo/services/access_management_service.py:1303-1342 | the docstring promises to revoke only accesses that an earlier offboarding has not already revoked, but the query counts only closed-completed offboardings, and offboarding rows skip the pending check | offboarding run twice in a row for an employee with one closed onboarding grant of an active application: the second run inserts a second pending revocation of it | a pending offboarding also counts as a revocation already asked for | medium; not executed | Offboarding.RerunBeforeClosingRepeats | Offboarding.RequestAwareRerunRequestsNothing (over Offboarding.RequestAwareCandidates) |
| dr/Pruebas-Tranbajo/services/access_management_service.py:1331-1339 | the `NOT EXISTS` compares the raw `app_access_name` of grant and revocation, but onboarding stores the catalog name as given (line 1280) while offboarding writes the stripped name (lines 1361, 1395) | a closed onboarding grant of " JIRA" and a later closed offboarding of "JIRA": the grant still counts as not revoked, and every later offboarding run requests its revocation again | the test compares stripped names, so the closed revocation covers the grant | medium; not executed | SpacedNames.SpacedGrantIsRevokedAgain | Offboarding.RequestAwareRerunAfterClosingRequestsNothing (over Offboarding.RequestAwareCandidates, whose test compares stripped names) |

The lifecycle operations and the search helpers keep the behaviour as written: they use `Ledger.Append`, `Projection.OffboardingCandidates` and, for the variant set and the search blob, `SchemaSearch.CionVariantAsWritten`. The corrected definitions are used only by the lemmas that state what was evidently intended.
