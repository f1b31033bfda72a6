/** A table snapshot is a sequence of rows in the store's (unspecified)
    order. These are the three query shapes the services and validators use:
    `query.filter(...).all()`, `query.filter(...).first()` and the
    projection of each row to its Read schema. */
module Tables {
  import opened Wrappers

  /** A timestamp as the store returns it. */
  type Timestamp = int

  /** `query.filter(keep).all()`: the rows satisfying `keep`. Stated as
      counts, so nothing depends on the order in which rows come back. */
  function Where<R(==,!new)>(t: seq<R>, keep: R -> bool): (r: seq<R>)
    ensures forall row :: multiset(r)[row] == if keep(row) then multiset(t)[row] else 0
    ensures forall row :: row in r ==> row in t && keep(row)
  {
    if t == [] then []
    else
      assert t == [t[0]] + t[1..];
      (if keep(t[0]) then [t[0]] else []) + Where(t[1..], keep)
  }

  /** `query.filter(keep).first()`: the first row satisfying `keep`, or None. */
  function FirstWhere<R>(t: seq<R>, keep: R -> bool): (r: Option<R>)
    ensures r.None? <==> forall i :: 0 <= i < |t| ==> !keep(t[i])
    ensures r.Some? ==> exists i :: 0 <= i < |t| && t[i] == r.value && keep(t[i])
                                    && forall j :: 0 <= j < i ==> !keep(t[j])
  {
    if t == [] then None
    else if keep(t[0]) then Some(t[0])
    else
      var r := FirstWhere(t[1..], keep);
      assert forall i :: 1 <= i < |t| ==> t[i] == t[1..][i - 1];
      r
  }

  /** Validating each fetched row into its Read schema: one Read per row.
      `view` copies every field, so no two rows share a Read. */
  function Project<R(==,!new), V(==)>(s: seq<R>, view: R -> V): (r: seq<V>)
    requires forall a, b :: view(a) == view(b) ==> a == b
    ensures |r| == |s|
    ensures forall row :: multiset(r)[view(row)] == multiset(s)[row]
    ensures forall v :: v in r ==> exists i :: 0 <= i < |s| && v == view(s[i])
  {
    if s == [] then []
    else
      assert s == [s[0]] + s[1..];
      [view(s[0])] + Project(s[1..], view)
  }

  /** Python truthiness of an optional integer id: neither None nor 0. */
  predicate Truthy(id: Option<int>) {
    id.Some? && id.value != 0
  }

  /** Whether the filter `Model.id != exclude_id`, added only for a truthy
      `exclude_id`, removes the row with this id. */
  predicate ExcludedBy(excludeId: Option<int>, id: int) {
    Truthy(excludeId) && id == excludeId.value
  }
}
