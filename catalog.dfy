/** The read-only queries the service runs against the `applications`
    catalog. Each SQL `SELECT ... WHERE` becomes a filter over the catalog
    rows, kept in catalog order. */
module Catalog {
  import opened Base
  import opened AccessTypes

  /** `UPPER(LTRIM(RTRIM(column)))`. */
  function SqlNorm(s: string): string
  {
    Upper(SqlTrim(s))
  }

  /** The WHERE clause of `get_applications_by_position`: each filter applies
      only when its argument is non-empty, and the position may match either
      the `position` or the `position_role` column. */
  predicate MatchesPosition(a: Application, position: string, unidadSubunidad: string, subunit: Option<string>, title: Option<string>)
  {
    && (unidadSubunidad == "" || SqlNorm(a.unidadSubunidad) == SqlNorm(unidadSubunidad))
    && (subunit.None? || subunit.value == "" || SqlNorm(a.subunit) == SqlNorm(subunit.value))
    && (position == "" || SqlNorm(a.position) == SqlNorm(position) || SqlNorm(a.positionRole) == SqlNorm(position))
    && (title.None? || title.value == "" || SqlNorm(a.roleName) == SqlNorm(title.value))
  }

  /** `get_applications_by_position`: exactly the catalog rows that pass the filters. */
  function AppsByPosition(catalog: seq<Application>, position: string, unidadSubunidad: string,
                          subunit: Option<string>, title: Option<string>): (r: seq<Application>)
    ensures |r| <= |catalog|
    ensures forall a :: a in r <==> a in catalog && MatchesPosition(a, position, unidadSubunidad, subunit, title)
    decreases |catalog|
  {
    if catalog == [] then []
    else
      var last := catalog[|catalog| - 1];
      assert forall a :: a in catalog <==> a in catalog[..|catalog| - 1] || a == last;
      AppsByPosition(catalog[..|catalog| - 1], position, unidadSubunidad, subunit, title)
        + (if MatchesPosition(last, position, unidadSubunidad, subunit, title) then [last] else [])
  }

  /** The WHERE clause of `get_applications_by_position_flexible` as the
      flex-staff assignment calls it (no sub-unit, no title): the role must
      match `position_role`, and the unit must equal the whole
      `unidad_subunidad`, so "eddu" never matches "eddu/qa". The unit
      argument is normalised in Python (`strip().upper()`). */
  predicate MatchesFlexible(a: Application, position: string, unit: string)
  {
    && (position == "" || SqlNorm(a.positionRole) == SqlNorm(position))
    && (unit == "" || SqlNorm(a.unidadSubunidad) == Upper(Strip(unit)))
  }

  /** `get_applications_by_position_flexible(position, unit, subunit=None)`. */
  function AppsByPositionFlexible(catalog: seq<Application>, position: string, unit: string): (r: seq<Application>)
    ensures |r| <= |catalog|
    ensures forall a :: a in r <==> a in catalog && MatchesFlexible(a, position, unit)
    decreases |catalog|
  {
    if catalog == [] then []
    else
      var last := catalog[|catalog| - 1];
      assert forall a :: a in catalog <==> a in catalog[..|catalog| - 1] || a == last;
      AppsByPositionFlexible(catalog[..|catalog| - 1], position, unit)
        + (if MatchesFlexible(last, position, unit) then [last] else [])
  }

  /** `SELECT TOP 1 ... FROM applications WHERE logical_access_name = ?`:
      the first catalog row with exactly that name. */
  function FirstAppByName(catalog: seq<Application>, name: string): (r: Option<Application>)
    ensures r.None? <==> forall i :: 0 <= i < |catalog| ==> catalog[i].logicalAccessName != name
    ensures r.Some? ==> r.value in catalog && r.value.logicalAccessName == name
    decreases |catalog|
  {
    if catalog == [] then None
    else if catalog[0].logicalAccessName == name then Some(catalog[0])
    else
      assert forall i :: 1 <= i < |catalog| ==> catalog[1..][i - 1] == catalog[i];
      FirstAppByName(catalog[1..], name)
  }

  /** The normalised application name lateral movement keys its maps by. */
  function NameKey(a: Application): string
  {
    Norm(a.logicalAccessName)
  }

  /** The normalised `unidad_subunidad` of a catalog row. */
  function UnidadKey(a: Application): string
  {
    Norm(a.unidadSubunidad)
  }

  /** The `unidad_subunidad` map lateral movement builds from
      `SELECT DISTINCT logical_access_name, unidad_subunidad FROM applications
      WHERE logical_access_name IN (names)`: keyed by the normalised name, a
      later row overwriting an earlier one. */
  function AppUnidadMap(catalog: seq<Application>, names: set<string>): map<string, string>
    decreases |catalog|
  {
    if catalog == [] then map[]
    else
      var last := catalog[|catalog| - 1];
      var m := AppUnidadMap(catalog[..|catalog| - 1], names);
      if last.logicalAccessName in names then m[NameKey(last) := UnidadKey(last)] else m
  }

  /** The map has a key exactly when a catalog row with one of the names
      normalises to it. */
  lemma {:induction false} AppUnidadMapKeys(catalog: seq<Application>, names: set<string>, k: string)
    ensures k in AppUnidadMap(catalog, names) <==> exists a :: a in catalog && a.logicalAccessName in names && NameKey(a) == k
    decreases |catalog|
  {
    if catalog != [] {
      var front := catalog[..|catalog| - 1];
      var last := catalog[|catalog| - 1];
      assert catalog == front + [last];
      AppUnidadMapKeys(front, names, k);
      if last.logicalAccessName in names && k == NameKey(last) {
        assert last in catalog;
      } else {
        assert k in AppUnidadMap(catalog, names) <==> k in AppUnidadMap(front, names);
        if exists a :: a in catalog && a.logicalAccessName in names && NameKey(a) == k {
          var a :| a in catalog && a.logicalAccessName in names && NameKey(a) == k;
          assert a != last;
          assert a in front;
        }
        if exists a :: a in front && a.logicalAccessName in names && NameKey(a) == k {
          var a :| a in front && a.logicalAccessName in names && NameKey(a) == k;
          assert a in catalog;
        }
      }
    }
  }

  /** Every value of the map is the normalised `unidad_subunidad` of a
      catalog row carrying that key. */
  lemma {:induction false} AppUnidadMapValues(catalog: seq<Application>, names: set<string>, k: string)
    requires k in AppUnidadMap(catalog, names)
    ensures exists a :: a in catalog && a.logicalAccessName in names && NameKey(a) == k && UnidadKey(a) == AppUnidadMap(catalog, names)[k]
    decreases |catalog|
  {
    var front := catalog[..|catalog| - 1];
    var last := catalog[|catalog| - 1];
    if last.logicalAccessName in names && k == NameKey(last) {
      assert last in catalog;
    } else {
      assert AppUnidadMap(catalog, names)[k] == AppUnidadMap(front, names)[k];
      AppUnidadMapValues(front, names, k);
      var a :| a in front && a.logicalAccessName in names && NameKey(a) == k && UnidadKey(a) == AppUnidadMap(front, names)[k];
      assert a in catalog;
    }
  }
}
