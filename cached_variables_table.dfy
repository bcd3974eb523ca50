/** The CachedVariables table: the rules a record must meet to be saved and
    the timestamps every save writes. */
module CachedVariablesTable {

  import opened Wrappers
  import opened Values
  import opened CachedVariable

  /** `validationDefault`: `id` is an integer and may be empty only when the
      record is created; `name` and `config` are non-empty; the status is
      non-empty and one of the recognised statuses; `content` may be empty. */
  predicate Validates(r: Row, creating: bool)
  {
    && (r.id.Some? || creating)
    && r.name != ""
    && r.config != map[]
    && r.status != ""
    && r.status in TypeDescriptions()
  }

  /** The Timestamp behaviour: a save sets `modified` to the current time,
      and `created` as well when the record is new. */
  function Stamp(r: Row, now: int, creating: bool): (s: Row)
    ensures s.modified == now
    ensures s.created == if creating then now else r.created
    ensures s.(created := r.created, modified := r.modified) == r
  {
    if creating then r.(created := now, modified := now) else r.(modified := now)
  }

  /** A record whose status is outside the five, such as the column default
      'execution_ongoing', never passes validation; one with any of the five
      statuses, a name and a configuration does, whatever its content. */
  lemma ValidationOnStatus(r: Row, creating: bool)
    requires r.name != "" && r.config != map[] && (r.id.Some? || creating)
    ensures Validates(r, creating) <==> r.status in {Complete, Failed, Ongoing, Pending, Initial}
  {
  }
}
