/** The CachedVariable entity: its execution statuses, the staleness rule and
    the call of its computation. */
module CachedVariable {

  import opened Wrappers
  import opened Values

  /** Record ids: autoincrement integers assigned by the store. */
  type Id = nat

  const Complete: string := "complete"
  const Ongoing: string := "ongoing"
  const Pending: string := "pending"
  const Failed: string := "failed"
  const Initial: string := "initial"

  /** `typeDescriptions()`: every recognised status with its translation key. */
  function TypeDescriptions(): map<string, string>
  {
    map[
      Complete := "cached_variable.execution_complete",
      Failed := "cached_variable.execution_failed",
      Ongoing := "cached_variable.execution_ongoing",
      Pending := "cached_variable.execution_pending",
      Initial := "cached_variable.execution_initial"
    ]
  }

  /** The keys of `getSkippableExecutionStatus()`: statuses the queue pass
      leaves alone together with their whole subtree. */
  function SkippableStatuses(): set<string>
  {
    {Failed, Pending, Ongoing}
  }

  predicate IsSkippable(status: string)
  {
    status in SkippableStatuses()
  }

  /** One stored record, or the current field values of an entity object.
      `id` is absent until the record is first saved; `content` is Null
      until a computation succeeds. */
  datatype Row = Row(
    id: Option<Id>,
    parent: Option<Id>,
    name: string,
    content: Value,
    status: string,
    config: Config,
    created: int,
    modified: int)

  /** The length of `config.interval` in seconds; an interval that is not
      a duration counts as zero. */
  function IntervalSeconds(config: Config): int
  {
    match Lookup(config, "interval")
    case Duration(seconds) => seconds
    case _ => 0
  }

  /** Chronos `wasWithinLast`: the instant lies between `now - interval`
      and `now`, both ends included. */
  predicate WasWithinLast(instant: int, interval: int, now: int)
  {
    now - interval <= instant <= now
  }

  /** `requiresExecution()`: a complete record is stale once `modified` is
      no longer within the last interval; an initial one always needs a
      first run; no other status asks for a run. */
  predicate RequiresExecution(r: Row, now: int)
  {
    if r.status == Complete then
      !WasWithinLast(r.modified, IntervalSeconds(r.config), now)
    else if r.status == Initial then
      true
    else
      false
  }

  /** The computation behind `config.callback`: given the callback and the
      positional arguments, it returns a value or throws (Failure). */
  type Computation = (Value, seq<Value>) -> Result<Value, string>

  /** The arguments `config.args` supplies: none when it is unset, the
      list when it is one; anything else cannot be spread. */
  function ConfiguredArgs(config: Config): Result<seq<Value>, string>
  {
    match Lookup(config, "args")
    case Null => Success([])
    case List(items) => Success(items)
    case _ => Failure("Only arrays can be unpacked")
  }

  /** What `execute()` obtains for a record: the callback's return value,
      or the reason it threw. */
  function Evaluate(r: Row, compute: Computation): Result<Value, string>
  {
    var callback := Lookup(r.config, "callback");
    if !callback.Callable? then
      Failure("Not callable")
    else
      match ConfiguredArgs(r.config)
      case Failure(e) => Failure(e)
      case Success(args) => compute(callback, [Str(r.name)] + args)
  }

  /** A CachedVariable entity object. The engine changes its fields in
      place; `Snapshot` is its current value. */
  class Variable {
    var id: Option<Id>
    var parentId: Option<Id>
    var name: string
    var content: Value
    var status: string
    var config: Config
    var created: int
    var modified: int

    function Snapshot(): Row
      reads this
    {
      Row(id, parentId, name, content, status, config, created, modified)
    }

    /** `new CachedVariable()`: no id and no field set yet. */
    constructor ()
      ensures Snapshot() == Row(None, None, "", Null, "", map[], 0, 0)
    {
      id, parentId, name, content := None, None, "", Null;
      status, config, created, modified := "", map[], 0, 0;
    }

    /** An entity hydrated from a stored row. */
    constructor Load(r: Row)
      ensures Snapshot() == r
    {
      id, parentId, name, content := r.id, r.parent, r.name, r.content;
      status, config, created, modified := r.status, r.config, r.created, r.modified;
    }

    /** `execute()`: call the configured callback with the name followed by
        the configured arguments and keep its value in `content`; nothing
        else changes. Throws (Failure) when the callback is not callable or
        fails, and then nothing changes at all. */
    method Execute(compute: Computation) returns (outcome: Result<Variable, string>)
      modifies this
      ensures match Evaluate(old(Snapshot()), compute)
              case Success(value) =>
                outcome == Success(this) && Snapshot() == old(Snapshot()).(content := value)
              case Failure(e) =>
                outcome == Failure(e) && Snapshot() == old(Snapshot())
    {
      var callback := Lookup(config, "callback");
      if !callback.Callable? {
        return Failure("Not callable");
      }
      var args := ConfiguredArgs(config);
      if args.Failure? {
        return Failure(args.error);
      }
      var value := compute(callback, [Str(name)] + args.value);
      if value.Failure? {
        return Failure(value.error);
      }
      content := value.value;
      outcome := Success(this);
    }
  }

  /** The recognised statuses are exactly the five constants. */
  lemma RecognisedStatuses()
    ensures TypeDescriptions().Keys == {Complete, Failed, Ongoing, Pending, Initial}
    ensures |TypeDescriptions().Keys| == 5
  {
  }

  /** The queue pass splits every recognised status three ways, and the
      three ways are disjoint: skip (failed, pending, ongoing), dispatch
      when stale (initial always, complete when outside its interval), or
      descend (a complete record within its interval). */
  lemma QueueSplitIsPartition(r: Row, now: int)
    requires r.status in TypeDescriptions()
    ensures IsSkippable(r.status) ==> !RequiresExecution(r, now)
    ensures !IsSkippable(r.status) <==> r.status == Initial || r.status == Complete
    ensures r.status == Initial ==> RequiresExecution(r, now)
    ensures r.status == Complete ==>
      (RequiresExecution(r, now) <==> !WasWithinLast(r.modified, IntervalSeconds(r.config), now))
  {
  }

  /** A status outside the five is neither skippable nor stale, so the queue
      pass descends past it as it does past a fresh complete record. */
  lemma UnknownStatusIsDescended(r: Row, now: int)
    requires r.status !in TypeDescriptions()
    ensures !IsSkippable(r.status) && !RequiresExecution(r, now)
  {
  }
}
