/** The rows of the three tables the access service works on (`headcount`,
    `applications`, `historico`), the fixed strings the service writes and
    compares, and the two normalisation helpers `_safe_strip` and
    `_triplet_key`. Timestamps are plain integers that grow with time. */
module AccessTypes {
  import opened Base

  // Values of historico.process_access
  const ONBOARDING := "onboarding"
  const LATERAL_MOVEMENT := "lateral_movement"
  const FLEX_STAFF := "flex_staff"
  const FLEX_STAFF_RETURN := "flex_staff_return"
  const MANUAL_ACCESS := "manual_access"
  const OFFBOARDING := "offboarding"

  // Values of historico.status
  const PENDIENTE := "Pendiente"
  const CLOSED_COMPLETED := "closed completed"

  // Directory values written by offboarding
  const OUT_OF_THE_COMPANY := "out of the company"
  const OUT_OF_THE_UNIT := "out of the unit"

  /** A `headcount` row; the table is keyed by `scotia_id`. */
  datatype Employee = Employee(
    email: string,
    position: string,
    unit: string,
    unidadSubunidad: string,
    activo: bool,
    inactivationDate: Option<int>)

  /** An `applications` row: one entitlement of the catalog. */
  datatype Application = Application(
    logicalAccessName: string,
    unit: string,
    subunit: string,
    unidadSubunidad: string,
    position: string,
    positionRole: string,
    roleName: string,
    accessStatus: string,
    pathEmailUrl: string)

  /** The `record_data` dictionary a lifecycle operation hands to
      `create_historical_record`; it is also what the operations return as
      their created records. */
  datatype RecordData = RecordData(
    scotiaId: string,
    caseId: string,
    responsible: string,
    processAccess: string,
    subunit: string,
    eventDescription: string,
    ticketEmail: string,
    appAccessName: string,
    status: string,
    expirationDate: Option<int>)

  /** A `historico` row: the record as inserted, with the employee e-mail and
      the insertion time filled in by `create_historical_record`. */
  datatype HistoryRow = HistoryRow(data: RecordData, employeeEmail: string, recordDate: int)

  /** The normalised (unit, position_role, logical_access_name) comparison key. */
  datatype Triple = Triple(unit: string, positionRole: string, app: string)

  /** Every character of `s` is outside the lower-case alphabet. */
  predicate NoLowerCase(s: string)
  {
    forall i :: 0 <= i < |s| ==> !IsLowerLetter(s[i])
  }

  /** Neither end of `s` is whitespace. */
  predicate SpaceBounded(s: string)
  {
    s == [] || (!IsSpace(s[0]) && !IsSpace(s[|s| - 1]))
  }

  /** `_safe_strip`: a missing value becomes the default, a present one is stripped. */
  function SafeStrip(value: Option<string>, default: string): (r: string)
    ensures value.None? ==> r == default
    ensures value.Some? ==> |r| <= |value.value| && SpaceBounded(r)
  {
    match value
    case None => default
    case Some(s) => Strip(s)
  }

  /** A present value comes back exactly stripped: the slice of it left once
      its surrounding whitespace is cut off. */
  lemma SafeStripIsExact(value: Option<string>, default: string)
    ensures value.None? ==> SafeStrip(value, default) == default
    ensures value.Some? ==> IsStripOf(value.value, SafeStrip(value, default))
  {
    if value.Some? {
      StripIsExact(value.value);
    }
  }

  /** The normalisation each part of the onboarding triple goes through: `_safe_strip` then `upper()`. */
  function Norm(s: string): string
  {
    Upper(Strip(s))
  }

  /** Upper-casing leaves no lower-case letter. */
  lemma UpperHasNoLowerCase(t: string)
    ensures NoLowerCase(Upper(t))
  {
    var u := Upper(t);
    forall i | 0 <= i < |u|
      ensures !IsLowerLetter(u[i])
    {
      assert u[i] == UpperChar(t[i]);
    }
  }

  /** Upper-casing keeps whitespace at the ends exactly where it was. */
  lemma UpperKeepsSpaceBounded(t: string)
    requires SpaceBounded(t)
    ensures SpaceBounded(Upper(t))
  {
    if t != [] {
      var n := |t| - 1;
      var u := Upper(t);
      assert u[0] == UpperChar(t[0]);
      assert u[n] == UpperChar(t[n]);
    }
  }

  /** A normalised part has no lower-case letter and no surrounding whitespace. */
  lemma NormIsNormal(s: string)
    ensures |Norm(s)| <= |s| && NoLowerCase(Norm(s)) && SpaceBounded(Norm(s))
  {
    UpperHasNoLowerCase(Strip(s));
    UpperKeepsSpaceBounded(Strip(s));
  }

  /** The triple onboarding deduplicates on, each part stripped and
      upper-cased (`_triplet_key` computes the same key, but only the
      reconciliation report calls it): the case- and whitespace-insensitive
      identity of an entitlement. */
  function TripletKey(unit: string, positionRole: string, logicalAccessName: string): Triple
  {
    Triple(Norm(unit), Norm(positionRole), Norm(logicalAccessName))
  }

  /** Every part of a key is normalised. */
  lemma TripletKeyIsNormal(u: string, p: string, n: string)
    ensures var k := TripletKey(u, p, n);
      NoLowerCase(k.unit) && NoLowerCase(k.positionRole) && NoLowerCase(k.app)
      && SpaceBounded(k.unit) && SpaceBounded(k.positionRole) && SpaceBounded(k.app)
  {
    NormIsNormal(u);
    NormIsNormal(p);
    NormIsNormal(n);
  }

  /** A key is a fixed point of the normalisation: re-keying a key changes nothing,
      so comparing keys built from raw or from already-normalised fields agrees. */
  lemma TripletKeyIdempotent(u: string, p: string, n: string)
    ensures var k := TripletKey(u, p, n); TripletKey(k.unit, k.positionRole, k.app) == k
  {
    StripUpperIdempotent(u);
    StripUpperIdempotent(p);
    StripUpperIdempotent(n);
  }
}
