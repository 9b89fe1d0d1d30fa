/** Tables as the application keeps them: a map from row id to row, with a
    counter that stays above every id in use, so that a new row's id exceeds
    every id already present (the SQLite rowid rule, with or without
    AUTOINCREMENT). */
module Rows {

  datatype Option<T> = None | Some(value: T)

  /** Every id in use is below `limit`. */
  predicate IdsBelow<T>(rows: map<nat, T>, limit: nat) {
    forall k :: k in rows ==> k < limit
  }

  /** The smallest id in [lo, limit) whose row satisfies `p`. */
  function FirstKeyFrom<T>(rows: map<nat, T>, p: T -> bool, lo: nat, limit: nat): (r: Option<nat>)
    ensures r.Some? ==> lo <= r.value < limit && r.value in rows && p(rows[r.value])
    ensures r.Some? ==> forall k :: k in rows && lo <= k < r.value ==> !p(rows[k])
    ensures r.None? ==> forall k :: k in rows && lo <= k < limit ==> !p(rows[k])
    decreases limit - lo
  {
    if lo >= limit then None
    else if lo in rows && p(rows[lo]) then Some(lo)
    else FirstKeyFrom(rows, p, lo + 1, limit)
  }

  /** The row a `SELECT ... WHERE p LIMIT 1` without ORDER BY yields: the
      matching row with the smallest id, or nothing when no row matches. */
  function FirstKey<T>(rows: map<nat, T>, p: T -> bool, limit: nat): (r: Option<nat>)
    requires IdsBelow(rows, limit)
    ensures r.Some? ==> r.value in rows && p(rows[r.value])
    ensures r.Some? ==> forall k :: k in rows && k < r.value ==> !p(rows[k])
    ensures r.None? <==> forall k :: k in rows ==> !p(rows[k])
  {
    FirstKeyFrom(rows, p, 0, limit)
  }

  /** The largest id below `limit`. */
  function MaxKeyBelow<T>(rows: map<nat, T>, limit: nat): (r: Option<nat>)
    ensures r.Some? ==> r.value < limit && r.value in rows
    ensures r.Some? ==> forall k :: k in rows && k < limit ==> k <= r.value
    ensures r.None? ==> forall k :: k in rows ==> k >= limit
  {
    if limit == 0 then None
    else if limit - 1 in rows then Some(limit - 1)
    else MaxKeyBelow(rows, limit - 1)
  }

  /** The row `ORDER BY id DESC LIMIT 1` yields: the largest id in use. */
  function MaxKey<T>(rows: map<nat, T>, limit: nat): (r: Option<nat>)
    requires IdsBelow(rows, limit)
    ensures r.Some? ==> r.value in rows && forall k :: k in rows ==> k <= r.value
    ensures r.None? <==> rows == map[]
  {
    var r := MaxKeyBelow(rows, limit);
    assert r.None? ==> rows.Keys == {};
    r
  }

  /** Whether the form field was sent and is non-empty (Python truthiness of
      `request.form.get(...)`). */
  predicate Truthy(field: Option<string>) {
    field.Some? && field.value != []
  }
}
