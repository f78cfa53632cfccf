/**
 * The `scheduled_tasks` table and the five operations of the task-scheduler
 * store: filtered list, get by id, upsert, partial update and delete.
 *
 * The table is a map from task id to the row stored under it.  A row keeps
 * what the database keeps: the status as its text and `params`/`result` as
 * JSON text, with `None` standing for SQL NULL.  Reading a row decodes it
 * (`ConvertRow`); writing a task encodes it (`EncodeTask`).  Every operation
 * is one atomic step on the map.
 */
module TaskSchedulerStore {
  import opened Wrappers
  import Json
  import opened ScheduledTasks

  /** One stored row of `scheduled_tasks`. */
  datatype Row = Row(
    id: string,
    action: string,
    status: string,
    timestamp: int,
    resourceId: Option<string>,
    params: Option<seq<Json.Token>>,
    result: Option<seq<Json.Token>>,
    error: Option<string>)

  type Table = map<string, Row>

  /**
   * Why a stored row cannot be read back as a task: an unknown status text,
   * or a JSON column that does not parse to `null` or an object.
   */
  datatype DecodeError = UnknownStatus(text: string) | MalformedParams | MalformedResult

  // ---------------------------------------------------------------------------
  // Row decoding and encoding
  // ---------------------------------------------------------------------------

  /**
   * A stored JSON column that can be read back: NULL, or text that parses to
   * `null` or to an object.
   */
  predicate DecodableColumn(column: Option<seq<Json.Token>>) {
    column.Some? ==>
      var v := Json.Decode(column.value);
      v.Some? && (v.value.JNull? || v.value.JObject?)
  }

  /** NULL stays absent; present text is decoded, and a decoded `null` is absent too. */
  function DecodeColumn(column: Option<seq<Json.Token>>): Option<Json.JsonMapping>
    requires DecodableColumn(column)
  {
    if column.None? then None
    else
      var v := Json.Decode(column.value).value;
      if v.JNull? then None else Some(v)
  }

  /** A row whose status is a known status text and whose JSON columns parse. */
  predicate WellFormed(row: Row) {
    ParseStatus(row.status).Some? && DecodableColumn(row.params) && DecodableColumn(row.result)
  }

  /**
   * `_convert_row_to_task`: the status text becomes a status, NULL JSON
   * columns stay absent, present ones are decoded (a decoded `null` reads as
   * absent, as `json.loads("null")` gives None), everything else passes
   * through.  The status is converted first, then `params`, then `result`,
   * so the first malformed column is the error reported.
   */
  function ConvertRow(row: Row): (r: Result<ScheduledTask, DecodeError>)
    ensures r.Ok? <==> WellFormed(row)
    ensures ParseStatus(row.status).None? ==> r == Err(UnknownStatus(row.status))
    ensures r.Ok? ==>
      && r.value.id == row.id
      && r.value.action == row.action
      && StatusText(r.value.status) == row.status
      && r.value.timestamp == row.timestamp
      && r.value.resourceId == row.resourceId
      && r.value.error == row.error
      && (r.value.params.None? <==> row.params.None? || Json.Decode(row.params.value) == Some(Json.JNull))
      && (r.value.params.Some? ==> Json.Decode(row.params.value) == Some(r.value.params.value))
      && (r.value.result.None? <==> row.result.None? || Json.Decode(row.result.value) == Some(Json.JNull))
      && (r.value.result.Some? ==> Json.Decode(row.result.value) == Some(r.value.result.value))
  {
    var status := ParseStatus(row.status);
    if status.None? then Err(UnknownStatus(row.status))
    else if !DecodableColumn(row.params) then Err(MalformedParams)
    else if !DecodableColumn(row.result) then Err(MalformedResult)
    else Ok(ScheduledTask(row.id, row.action, status.value, row.timestamp, row.resourceId,
                          DecodeColumn(row.params), DecodeColumn(row.result), row.error))
  }

  /** A present column holding the JSON text `null` reads back as an absent field, like a NULL column. */
  lemma StoredNullReadsAbsent(row: Row)
    requires ParseStatus(row.status).Some?
    requires row.params == Some([Json.NullToken]) && row.result == None
    ensures ConvertRow(row).Ok?
    ensures ConvertRow(row).value.params == None && ConvertRow(row).value.result == None
  {
    assert Json.ParseValue([Json.NullToken]) == Some((Json.JNull, []));
  }

  /** The JSON text stored for an optional value: NULL when absent. */
  function EncodeColumn(value: Option<Json.JsonMapping>): (column: Option<seq<Json.Token>>)
    ensures column.None? <==> value.None?
  {
    if value.None? then None else Some(Json.Encode(value.value))
  }

  /** The column values `upsert_scheduled_task` writes for a task. */
  function EncodeTask(task: ScheduledTask): Row {
    Row(task.id, task.action, StatusText(task.status), task.timestamp, task.resourceId,
        EncodeColumn(task.params), EncodeColumn(task.result), task.error)
  }

  lemma DecodeEncodedColumn(value: Option<Json.JsonMapping>)
    ensures DecodableColumn(EncodeColumn(value))
    ensures DecodeColumn(EncodeColumn(value)) == value
  {
    if value.Some? {
      Json.DecodeEncoded(value.value);
    }
  }

  /**
   * Writing a task and reading its row back gives the same task:
   * absent `params`/`result` are stored as NULL and come back absent,
   * present ones round-trip through the JSON text.
   */
  lemma ConvertEncodedTask(task: ScheduledTask)
    ensures EncodeTask(task).params.None? <==> task.params.None?
    ensures EncodeTask(task).result.None? <==> task.result.None?
    ensures ConvertRow(EncodeTask(task)) == Ok(task)
  {
    DecodeEncodedColumn(task.params);
    DecodeEncodedColumn(task.result);
  }

  // ---------------------------------------------------------------------------
  // The table
  // ---------------------------------------------------------------------------

  /** Every row is stored under its own id and can be read back. */
  ghost predicate TableValid(table: Table) {
    forall id :: id in table ==> table[id].id == id && WellFormed(table[id])
  }

  /** `get_scheduled_task`: the decoded row with that id, or None when there is none. */
  function Lookup(table: Table, id: string): (r: Option<ScheduledTask>)
    requires TableValid(table)
    ensures r.Some? <==> id in table
    ensures r.Some? ==> r.value.id == id && ConvertRow(table[id]) == Ok(r.value)
  {
    if id in table then Some(ConvertRow(table[id]).value) else None
  }

  /** Upserting a task and then getting its id gives that task back; no other id changes. */
  lemma UpsertThenGet(table: Table, task: ScheduledTask)
    requires TableValid(table)
    ensures TableValid(table[task.id := EncodeTask(task)])
    ensures Lookup(table[task.id := EncodeTask(task)], task.id) == Some(task)
    ensures forall other :: other != task.id ==>
      Lookup(table[task.id := EncodeTask(task)], other) == Lookup(table, other)
  {
    ConvertEncodedTask(task);
  }

  /** The row after a partial update: each supplied field replaced, the rest kept. */
  function UpdatedRow(row: Row, timestamp: Option<int>, status: Option<TaskStatus>,
                      result: Option<Json.JsonMapping>, error: Option<string>): Row
  {
    row.(timestamp := timestamp.GetOr(row.timestamp),
         status := if status.Some? then StatusText(status.value) else row.status,
         result := if result.Some? then EncodeColumn(result) else row.result,
         error := if error.Some? then error else row.error)
  }

  /** The table after a partial update of `id`: unchanged when there is no such row. */
  function UpdateTable(table: Table, id: string, timestamp: Option<int>, status: Option<TaskStatus>,
                       result: Option<Json.JsonMapping>, error: Option<string>): Table
  {
    if id in table then table[id := UpdatedRow(table[id], timestamp, status, result, error)]
    else table
  }

  /**
   * What a partial update does, as its callers see it: the task with that id
   * exists afterwards exactly when it did before; its `id`, `action`,
   * `resource_id` and `params` never change; each supplied field takes the
   * supplied value and each field given as None keeps its value (None cannot
   * clear a field); every other task is untouched.
   */
  lemma UpdateThenGet(table: Table, id: string, timestamp: Option<int>, status: Option<TaskStatus>,
                      result: Option<Json.JsonMapping>, error: Option<string>)
    requires TableValid(table)
    ensures TableValid(UpdateTable(table, id, timestamp, status, result, error))
    ensures id !in table ==> UpdateTable(table, id, timestamp, status, result, error) == table
    ensures Lookup(UpdateTable(table, id, timestamp, status, result, error), id).Some? <==> id in table
    ensures id in table ==>
      var before := Lookup(table, id).value;
      var after := Lookup(UpdateTable(table, id, timestamp, status, result, error), id).value;
      && after.id == before.id
      && after.action == before.action
      && after.resourceId == before.resourceId
      && after.params == before.params
      && after.timestamp == timestamp.GetOr(before.timestamp)
      && after.status == status.GetOr(before.status)
      && after.result == (if result.Some? then result else before.result)
      && after.error == (if error.Some? then error else before.error)
    ensures forall other :: other != id ==>
      Lookup(UpdateTable(table, id, timestamp, status, result, error), other) == Lookup(table, other)
  {
    if id in table {
      var row := table[id];
      var row' := UpdatedRow(row, timestamp, status, result, error);
      DecodeEncodedColumn(result);
      assert WellFormed(row');
      var before := ConvertRow(row).value;
      var after := ConvertRow(row').value;
      if result.None? {
        assert row'.result == row.result;
      }
      if status.Some? {
        StatusTextInjective(after.status, status.value);
      } else {
        StatusTextInjective(after.status, before.status);
      }
    }
  }

  // ---------------------------------------------------------------------------
  // Partial update: the column values handed to the store's update primitive
  // ---------------------------------------------------------------------------

  /**
   * The `updatevalues` dictionary: the columns to set and their stored values.
   * Only these four columns can appear in it, so `action`, `resource_id` and
   * `params` cannot be changed by a partial update.
   */
  datatype UpdateValues = UpdateValues(
    timestamp: Option<int>,
    status: Option<string>,
    result: Option<seq<Json.Token>>,
    error: Option<string>)

  /** The store's update primitive on one row: sets the columns present in `values`. */
  function SimpleUpdate(row: Row, values: UpdateValues): Row {
    row.(timestamp := values.timestamp.GetOr(row.timestamp),
         status := values.status.GetOr(row.status),
         result := if values.result.Some? then values.result else row.result,
         error := if values.error.Some? then values.error else row.error)
  }

  // ---------------------------------------------------------------------------
  // Filters of the list query
  // ---------------------------------------------------------------------------

  /**
   * A filter argument of `get_scheduled_tasks`: None places no constraint,
   * an empty list requires the column to be NULL, a non-empty list requires
   * the column's value to be one of its elements.
   */
  datatype Filter<T> = Unconstrained | MustBeNull | OneOf(values: set<T>)

  function FilterOf<T>(arg: Option<seq<T>>): (f: Filter<T>)
    ensures f.Unconstrained? <==> arg.None?
    ensures f.MustBeNull? <==> arg == Some([])
    ensures f.OneOf? ==> arg.Some? && arg.value != [] && f.values == set x | x in arg.value
  {
    match arg
    case None => Unconstrained
    case Some(xs) => if xs == [] then MustBeNull else OneOf(set x | x in xs)
  }

  predicate Admits<T>(f: Filter<T>, value: Option<T>) {
    match f
    case Unconstrained => true
    case MustBeNull => value.None?
    case OneOf(values) => value.Some? && value.value in values
  }

  /** The three filter arguments of `get_scheduled_tasks`. */
  datatype TaskQuery = TaskQuery(
    actions: Option<seq<string>>,
    resourceIds: Option<seq<string>>,
    statuses: Option<seq<TaskStatus>>)

  const Unfiltered := TaskQuery(None, None, None)

  /** A task is selected when it passes every filter (the filters are ANDed). */
  predicate Selects(query: TaskQuery, task: ScheduledTask) {
    && Admits(FilterOf(query.actions), Some(task.action))
    && Admits(FilterOf(query.resourceIds), task.resourceId)
    && Admits(FilterOf(query.statuses), Some(task.status))
  }

  /** The three-way meaning of one filter argument, stated on the argument as passed. */
  lemma FilterArgument<T>(arg: Option<seq<T>>, value: Option<T>)
    ensures Admits(FilterOf(arg), value) <==>
      || arg.None?
      || (arg == Some([]) && value.None?)
      || (arg.Some? && arg.value != [] && value.Some? && value.value in arg.value)
  {
  }

  /** With no filter every task is selected. */
  lemma SelectsUnfiltered(task: ScheduledTask)
    ensures Selects(Unfiltered, task)
  {
  }

  // ---------------------------------------------------------------------------
  // The WHERE clause of the list query
  // ---------------------------------------------------------------------------

  datatype Column = ActionColumn | ResourceIdColumn | StatusColumn

  /** The clause built for one supplied filter: `column` restricted to `values`. */
  datatype Clause = InList(column: Column, values: seq<string>)

  /** The stored value of a filterable column; None is SQL NULL. */
  function ColumnValue(row: Row, column: Column): Option<string> {
    match column
    case ActionColumn => Some(row.action)
    case ResourceIdColumn => row.resourceId
    case StatusColumn => Some(row.status)
  }

  /** A clause as the filters document it: an empty list matches NULL only. */
  predicate ClauseHolds(c: Clause, row: Row) {
    Admits(FilterOf(Some(c.values)), ColumnValue(row, c.column))
  }

  /** The conjunction of the clauses; an empty list of clauses (no WHERE) holds of every row. */
  predicate AllClausesHold(clauses: seq<Clause>, row: Row) {
    forall i :: 0 <= i < |clauses| ==> ClauseHolds(clauses[i], row)
  }

  /** The stored texts of a list of statuses, in order. */
  function StatusTexts(statuses: seq<TaskStatus>): (texts: seq<string>)
    ensures |texts| == |statuses|
    ensures forall i :: 0 <= i < |statuses| ==> texts[i] == StatusText(statuses[i])
  {
    seq(|statuses|, i requires 0 <= i < |statuses| => StatusText(statuses[i]))
  }

  lemma StatusTextsContain(statuses: seq<TaskStatus>, s: TaskStatus)
    ensures StatusText(s) in StatusTexts(statuses) <==> s in statuses
  {
  }

  /**
   * `get_scheduled_tasks_txn`, lines building `clauses`: one clause per
   * supplied filter, in the order actions, resource ids, statuses.  There is
   * no WHERE clause exactly when no filter is supplied, and a well-formed
   * row satisfies every clause exactly when its decoded task is selected.
   */
  method BuildClauses(query: TaskQuery) returns (clauses: seq<Clause>)
    ensures clauses == [] <==> query == Unfiltered
    ensures |clauses| == (if query.actions.Some? then 1 else 0)
      + (if query.resourceIds.Some? then 1 else 0) + (if query.statuses.Some? then 1 else 0)
    ensures forall row :: WellFormed(row) ==>
      (AllClausesHold(clauses, row) <==> Selects(query, ConvertRow(row).value))
  {
    clauses := [];
    if query.actions.Some? {
      clauses := clauses + [InList(ActionColumn, query.actions.value)];
    }
    if query.resourceIds.Some? {
      clauses := clauses + [InList(ResourceIdColumn, query.resourceIds.value)];
    }
    if query.statuses.Some? {
      clauses := clauses + [InList(StatusColumn, StatusTexts(query.statuses.value))];
    }
    forall row | WellFormed(row)
      ensures AllClausesHold(clauses, row) <==> Selects(query, ConvertRow(row).value)
    {
      ClausesMatchFilters(query, clauses, row);
    }
  }

  /** The clause list of `BuildClauses` says of a row what `Selects` says of its task. */
  lemma ClausesMatchFilters(query: TaskQuery, clauses: seq<Clause>, row: Row)
    requires WellFormed(row)
    requires clauses ==
      (if query.actions.Some? then [InList(ActionColumn, query.actions.value)] else []) +
      (if query.resourceIds.Some? then [InList(ResourceIdColumn, query.resourceIds.value)] else []) +
      (if query.statuses.Some? then [InList(StatusColumn, StatusTexts(query.statuses.value))] else [])
    ensures AllClausesHold(clauses, row) <==> Selects(query, ConvertRow(row).value)
  {
    var task := ConvertRow(row).value;
    var a := if query.actions.Some? then [InList(ActionColumn, query.actions.value)] else [];
    var b := if query.resourceIds.Some? then [InList(ResourceIdColumn, query.resourceIds.value)] else [];
    var c := if query.statuses.Some? then [InList(StatusColumn, StatusTexts(query.statuses.value))] else [];
    AllClausesHoldConcat(a + b, c, row);
    AllClausesHoldConcat(a, b, row);
    if query.actions.Some? {
      assert a == [a[0]];
    }
    if query.resourceIds.Some? {
      assert b == [b[0]];
    }
    if query.statuses.Some? {
      var statuses := query.statuses.value;
      assert c == [c[0]];
      StatusTextsContain(statuses, task.status);
      assert StatusTexts(statuses) == [] <==> statuses == [];
    }
  }

  lemma AllClausesHoldConcat(xs: seq<Clause>, ys: seq<Clause>, row: Row)
    ensures AllClausesHold(xs + ys, row) <==> AllClausesHold(xs, row) && AllClausesHold(ys, row)
  {
    if AllClausesHold(xs + ys, row) {
      forall i | 0 <= i < |xs| ensures ClauseHolds(xs[i], row) {
        assert (xs + ys)[i] == xs[i];
      }
      forall i | 0 <= i < |ys| ensures ClauseHolds(ys[i], row) {
        assert (xs + ys)[|xs| + i] == ys[i];
      }
    }
    if AllClausesHold(xs, row) && AllClausesHold(ys, row) {
      forall i | 0 <= i < |xs + ys| ensures ClauseHolds((xs + ys)[i], row) {
        if i < |xs| {
          assert (xs + ys)[i] == xs[i];
        } else {
          assert (xs + ys)[i] == ys[i - |xs|];
        }
      }
    }
  }

  /**
   * A clause as the query is written: the column is tested for membership
   * in the list of values.  Under SQL's rules a NULL column never passes a
   * membership test, and no value passes one against an empty list.
   */
  predicate ClauseHoldsAsWritten(c: Clause, row: Row) {
    var v := ColumnValue(row, c.column);
    v.Some? && v.value in c.values
  }

  /** On a non-empty list the clause as written and as documented agree. */
  lemma AsWrittenAgreesOnNonEmptyList(c: Clause, row: Row)
    requires c.values != []
    ensures ClauseHoldsAsWritten(c, row) <==> ClauseHolds(c, row)
  {
  }

  /**
   * On an empty list they differ: a task without a resource id is selected by
   * `resource_ids=[]` as documented, but the clause as written rejects it.
   */
  lemma EmptyListMissesNullAsWritten(task: ScheduledTask)
    requires task.resourceId.None?
    ensures Selects(TaskQuery(None, Some([]), None), task)
    ensures ClauseHolds(InList(ResourceIdColumn, []), EncodeTask(task))
    ensures !ClauseHoldsAsWritten(InList(ResourceIdColumn, []), EncodeTask(task))
  {
  }

  // ---------------------------------------------------------------------------
  // The store
  // ---------------------------------------------------------------------------

  /** The ids of a list of tasks. */
  function IdsOf(tasks: seq<ScheduledTask>): set<string> {
    set i | 0 <= i < |tasks| :: tasks[i].id
  }

  lemma IdsOfAppend(tasks: seq<ScheduledTask>, task: ScheduledTask)
    ensures IdsOf(tasks + [task]) == IdsOf(tasks) + {task.id}
  {
    var all := tasks + [task];
    assert all[|tasks|] == task;
    forall i | 0 <= i < |tasks| ensures all[i] == tasks[i] { }
  }

  /** The ids of the stored tasks a query selects. */
  function MatchingIds(table: Table, query: TaskQuery): set<string>
    requires TableValid(table)
  {
    set id | id in table && Selects(query, ConvertRow(table[id]).value)
  }

  /** Tasks with pairwise distinct ids have as many ids as there are tasks. */
  lemma {:induction false} DistinctIdsCount(tasks: seq<ScheduledTask>)
    requires forall i, j :: 0 <= i < j < |tasks| ==> tasks[i].id != tasks[j].id
    ensures |IdsOf(tasks)| == |tasks|
  {
    if tasks != [] {
      var last := |tasks| - 1;
      var init := tasks[..last];
      DistinctIdsCount(init);
      assert IdsOf(tasks) == IdsOf(init) + {tasks[last].id};
      assert tasks[last].id !in IdsOf(init);
    }
  }

  /** With no filters the query selects every stored task. */
  lemma UnfilteredMatchesAll(table: Table)
    requires TableValid(table)
    ensures MatchingIds(table, Unfiltered) == table.Keys
  {
  }

  /** `TaskSchedulerWorkerStore` over the `scheduled_tasks` table. */
  class TaskStore {
    var rows: Table

    ghost predicate Valid()
      reads this
    {
      TableValid(rows)
    }

    constructor ()
      ensures Valid() && rows == map[]
    {
      rows := map[];
    }

    /**
     * `get_scheduled_tasks`: every stored task that passes the filters,
     * each exactly once, in no particular order.
     */
    method GetScheduledTasks(query: TaskQuery) returns (tasks: seq<ScheduledTask>)
      requires Valid()
      ensures forall i :: 0 <= i < |tasks| ==> Lookup(rows, tasks[i].id) == Some(tasks[i])
      ensures forall i, j :: 0 <= i < j < |tasks| ==> tasks[i].id != tasks[j].id
      ensures IdsOf(tasks) == MatchingIds(rows, query)
      ensures query == Unfiltered ==> |tasks| == |rows|
    {
      var clauses := BuildClauses(query);
      var remaining := rows.Keys;
      tasks := [];
      while remaining != {}
        invariant remaining <= rows.Keys
        invariant forall i :: 0 <= i < |tasks| ==>
          tasks[i].id !in remaining && Lookup(rows, tasks[i].id) == Some(tasks[i])
        invariant forall i, j :: 0 <= i < j < |tasks| ==> tasks[i].id != tasks[j].id
        invariant IdsOf(tasks) == MatchingIds(rows, query) - remaining
        decreases remaining
      {
        var id :| id in remaining;
        var row := rows[id];
        assert WellFormed(row);
        assert AllClausesHold(clauses, row) <==> id in MatchingIds(rows, query);
        if AllClausesHold(clauses, row) {
          IdsOfAppend(tasks, ConvertRow(row).value);
          tasks := tasks + [ConvertRow(row).value];
        }
        remaining := remaining - {id};
      }
      if query == Unfiltered {
        DistinctIdsCount(tasks);
        UnfilteredMatchesAll(rows);
        assert |rows.Keys| == |rows|;
      }
    }

    /** `get_scheduled_task`: the task with that id, or None when there is none. */
    method GetScheduledTask(id: string) returns (task: Option<ScheduledTask>)
      requires Valid()
      ensures task == Lookup(rows, id)
    {
      if id in rows {
        task := Some(ConvertRow(rows[id]).value);
      } else {
        task := None;
      }
    }

    /** `upsert_scheduled_task`: the row with the task's id is written wholesale. */
    method UpsertScheduledTask(task: ScheduledTask)
      requires Valid()
      modifies this
      ensures Valid()
      ensures rows == old(rows)[task.id := EncodeTask(task)]
      ensures Lookup(rows, task.id) == Some(task)
    {
      UpsertThenGet(rows, task);
      rows := rows[task.id := EncodeTask(task)];
    }

    /**
     * `update_scheduled_task`: sets the supplied fields of the row with that
     * id and reports whether such a row exists.
     */
    method UpdateScheduledTask(id: string, timestamp: Option<int>, status: Option<TaskStatus>,
                               result: Option<Json.JsonMapping>, error: Option<string>)
      returns (updated: bool)
      requires Valid()
      requires timestamp.Some? || status.Some? || result.Some? || error.Some?
      modifies this
      ensures Valid()
      ensures updated <==> id in old(rows)
      ensures rows == UpdateTable(old(rows), id, timestamp, status, result, error)
    {
      var updateValues := UpdateValues(None, None, None, None);
      if timestamp.Some? {
        updateValues := updateValues.(timestamp := timestamp);
      }
      if status.Some? {
        updateValues := updateValues.(status := Some(StatusText(status.value)));
      }
      if result.Some? {
        updateValues := updateValues.(result := Some(Json.Encode(result.value)));
      }
      if error.Some? {
        updateValues := updateValues.(error := error);
      }
      UpdateThenGet(rows, id, timestamp, status, result, error);
      if id in rows {
        rows := rows[id := SimpleUpdate(rows[id], updateValues)];
        updated := true;
      } else {
        updated := false;
      }
    }

    /** `delete_scheduled_task`: removes the row with that id, if any. */
    method DeleteScheduledTask(id: string)
      requires Valid()
      modifies this
      ensures Valid()
      ensures rows == old(rows) - {id}
      ensures Lookup(rows, id) == None
      ensures forall other :: other != id ==> Lookup(rows, other) == old(Lookup(rows, other))
    {
      rows := rows - {id};
    }
  }

  /**
   * A caller's view of a task's life: created, read back, started, completed.
   * Every assertion follows from the contracts above.
   */
  method PurgeHistoryLifecycle() {
    var store := new TaskStore();
    var params: Json.JsonMapping := Json.JObject([Json.Member("before", Json.JNumber(500))]);
    var t1 := ScheduledTask("t1", "purge_history", Scheduled, 1000, Some("room1"), Some(params), None, None);
    store.UpsertScheduledTask(t1);
    var got := store.GetScheduledTask("t1");
    assert got == Some(t1);

    ghost var before := store.rows;
    var found := store.UpdateScheduledTask("t1", Some(1005), Some(Active), None, None);
    UpdateThenGet(before, "t1", Some(1005), Some(Active), None, None);
    assert found;
    got := store.GetScheduledTask("t1");
    assert got == Some(t1.(status := Active, timestamp := 1005));
    assert store.rows.Keys == {"t1"};
    CompleteTask(store, got.value);
  }

  /** The next step, on a store holding one active task: it completes with a result. */
  method CompleteTask(store: TaskStore, task: ScheduledTask)
    requires store.Valid() && store.rows.Keys == {task.id} && task.id != "t2"
    requires Lookup(store.rows, task.id) == Some(task)
    modifies store
  {
    var rowsDeleted: Json.JsonMapping := Json.JObject([Json.Member("rows_deleted", Json.JNumber(42))]);
    ghost var before := store.rows;
    var found := store.UpdateScheduledTask(task.id, None, Some(Complete), Some(rowsDeleted), None);
    UpdateThenGet(before, task.id, None, Some(Complete), Some(rowsDeleted), None);
    assert found;
    var got := store.GetScheduledTask(task.id);
    assert got == Some(task.(status := Complete, result := Some(rowsDeleted)));
    assert store.rows.Keys == {task.id};
    ListThenDelete(store, task.id);
  }

  /** The rest of a caller's view, on a store holding one task: a missed update, a listing, a delete. */
  method ListThenDelete(store: TaskStore, id: string)
    requires store.Valid() && store.rows.Keys == {id} && id != "t2"
    modifies store
  {
    var missing := store.UpdateScheduledTask("t2", None, Some(Failed), None, None);
    assert !missing;

    var all := store.GetScheduledTasks(Unfiltered);
    assert |all| == 1;

    store.DeleteScheduledTask(id);
    var got := store.GetScheduledTask(id);
    assert got == None;
  }
}
