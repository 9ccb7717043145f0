/** A grant whose application name carries a leading space, as onboarding
    stores it when the catalog row has one, against the revocation that
    offboarding writes under the stripped name. */
module SpacedNames {
  import opened Base
  import opened AccessTypes
  import opened Projection
  import opened Offboarding

  /** Onboarding stores the catalog's name as given, " JIRA". */
  function SpacedGrant(): HistoryRow
  {
    HistoryRow(RecordData("S1", "C1", "R", ONBOARDING, "U", "d", "R@empresa.com", " JIRA", CLOSED_COMPLETED, None), "", 1)
  }

  /** Offboarding revoked it under the stripped name, and the revocation closed. */
  function StrippedRevocation(): HistoryRow
  {
    HistoryRow(RecordData("S1", "C2", "R", OFFBOARDING, OUT_OF_THE_COMPANY, "d", "R@empresa.com", "JIRA", CLOSED_COMPLETED, None), "", 2)
  }

  lemma StripOfSpacedName()
    ensures Strip(" JIRA") == "JIRA"
  {
    TrimEndOfTrimmed(" JIRA", IsSpace);
    assert " JIRA"[1..] == "JIRA";
    TrimStartOfTrimmed("JIRA", IsSpace);
  }

  /** As written, the closed revocation of "JIRA" does not revoke the grant
      of " JIRA": the grant stays a candidate and every later run requests
      its revocation again. The corrected query, which compares stripped
      names, drops it. */
  lemma SpacedGrantIsRevokedAgain()
    ensures SpacedGrant().data.appAccessName != StrippedRevocation().data.appAccessName
    ensures StrippedRevocation().data.appAccessName == Strip(SpacedGrant().data.appAccessName)
    ensures StrippedRevocation().recordDate >= SpacedGrant().recordDate
    ensures SpacedGrant() in OffboardingCandidates([SpacedGrant(), StrippedRevocation()], "S1")
    ensures PlanOffboarding([], OffboardingCandidates([SpacedGrant(), StrippedRevocation()], "S1"), "S1", "C3", "R").requests != []
    ensures SpacedGrant() !in RequestAwareCandidates([SpacedGrant(), StrippedRevocation()], "S1")
  {
    var ledger := [SpacedGrant(), StrippedRevocation()];
    StripOfSpacedName();
    ClosedCompletedIsClosedStatus();
    assert !RevokedSince(ledger, "S1", " JIRA", 1);
    var cands := OffboardingCandidates(ledger, "S1");
    assert SpacedGrant() in cands;
    assert CatalogAccessStatus([], "JIRA") == "";
    assert Revocable([], SpacedGrant());
    PlanOffboardingNames([], cands, "S1", "C3", "R");
    NamesWhereMeaning(cands, c => Revocable([], c), "JIRA");
    var plan := PlanOffboarding([], cands, "S1", "C3", "R");
    assert "JIRA" in RequestedApps(plan.requests);
    assert StrippedRevocation() in ledger;
  }
}
