# Scheduled-task store

A model of the task-scheduler store of Synapse (`TaskSchedulerWorkerStore`).
This store keeps the `scheduled_tasks` table for the background-task runner.
Each row is one task: its `id` (the primary key), `action`, `status`,
`timestamp`, an optional `resource_id`, optional JSON `params` and `result`,
and an optional `error`. The store offers five operations. It lists tasks
through three optional filters, gets a task by id, upserts a whole task,
partially updates the lifecycle fields of a task, and deletes a task.

The model has four modules:

- `Wrappers` (Wrappers.dfy) holds `Option` and `Result`.
- `Json` (Json.dfy) holds an abstract JSON value and its serialised form at
  the token level of RFC 8259, section 2. `Encode` stands for `json.dumps`
  and `Decode` for `json.loads`. Like `json.loads`, which builds a Python
  dictionary, `Decode` keeps one member per name in an object: the member
  stays where the name first appears and takes the value of its last
  occurrence. The round trip is proved (`DecodeEncoded`) for values whose
  objects have distinct names at every depth (`WellNamed`).
- `ScheduledTasks` (ScheduledTasks.dfy) holds the four-valued `TaskStatus`,
  the text each status is stored as, and the `ScheduledTask` record.
- `TaskSchedulerStore` (TaskSchedulerStore.dfy) holds the rest:
  - the stored `Row`, with the status as text and `params`/`result` as JSON
    text, where `None` is SQL NULL;
  - row decoding (`ConvertRow`) and row encoding (`EncodeTask`);
  - the three-way filters and the WHERE clauses built from them;
  - the class `TaskStore`. Its field `rows: map<string, Row>` is the table,
    and its methods change that field the way each operation changes the
    table.

The read side consists of functions over the map: `Lookup`, `MatchingIds`
and `Selects`. Lemmas about these functions state what holds across several
operations: upsert then get, update then get, and the list query with no
filters. The invariant `TaskStore.Valid()` says two things. Every row is
stored under its own id, and every row can be decoded. All operations
preserve it.

Three client methods play a caller, one stage of a task's life each:
`PurgeHistoryLifecycle` creates a task, reads it back and starts it;
`CompleteTask` completes a started task with a result; `ListThenDelete`
lists the store and deletes the task. Every assertion in them follows from
the contracts alone.

## Model

| member | source | states |
|---|---|---|
| `Json.DecodeEncoded` | synapse/storage/databases/main/task_scheduler.py:116-117 | decoding the JSON text written for a value whose objects have distinct names gives back that value: `json.loads(json.dumps(v)) == v` |
| `Json.ParseEncoded` | synapse/storage/databases/main/task_scheduler.py:44-46 | parsing the text of a value whose objects have distinct names (`WellNamed`), followed by any further tokens, returns the value and exactly those tokens, so the JSON text is self-delimiting |
| `Json.DedupDistinct` | synapse/storage/databases/main/task_scheduler.py:44-46 | merging repeated names leaves a member list with distinct names unchanged, so decoding such an object keeps every member in order |
| `Json.DedupKeepsLastValue` | synapse/storage/databases/main/task_scheduler.py:44-46 | for every member list and every name, the object decoding builds has that name exactly when some member of the list has it, and then its value is that of the last member with the name, as in a dictionary built from the pairs |
| `Json.DedupKeepsFirstOrder` | synapse/storage/databases/main/task_scheduler.py:44-46 | the names of a decoded object keep the order in which each first occurs in the text, as the insertion order of a dictionary does |
| `Json.RepeatedNameKeepsLast` | synapse/storage/databases/main/task_scheduler.py:44-46 | decoding `{"a": 1, "b": 2, "a": 3}` gives `{"a": 3, "b": 2}`: one member per name, at the first position, with the last value, as a Python dictionary built by `json.loads` |
| `ScheduledTasks.StatusText` | synapse/storage/databases/main/task_scheduler.py:113 | the text a status is stored as parses back to that same status |
| `ScheduledTasks.ParseStatusExact` | synapse/storage/databases/main/task_scheduler.py:42 | converting stored status text succeeds exactly for the four status texts, and the result is stored under that same text |
| `ScheduledTasks.StatusTextInjective` | synapse/storage/databases/main/task_scheduler.py:83-88 | two statuses are stored as the same text only if they are the same status, so a status filter on the stored text filters the statuses |
| `TaskSchedulerStore.ConvertRow` | synapse/storage/databases/main/task_scheduler.py:41-47 | decoding fails exactly when the status text is unknown or a present JSON column does not parse to `null` or an object, and an unknown status is the error reported. On success, NULL `params`/`result` stay absent, and so does a present column whose text is JSON `null` (`json.loads` gives None). Any other present column is its decoded JSON object, and every other field passes through unchanged |
| `TaskSchedulerStore.StoredNullReadsAbsent` | synapse/storage/databases/main/task_scheduler.py:43-46 | a row whose `params` column holds the JSON text `null` decodes to a task with no `params` |
| `TaskSchedulerStore.EncodeColumn` | synapse/storage/databases/main/task_scheduler.py:116-117 | an absent `params`/`result` is stored as NULL, and a present one is stored as text, never as NULL |
| `TaskSchedulerStore.ConvertEncodedTask` | synapse/storage/databases/main/task_scheduler.py:108-121 | the row upsert writes for a task reads back as exactly that task. `params`/`result` are NULL exactly when absent |
| `TaskSchedulerStore.Lookup` | synapse/storage/databases/main/task_scheduler.py:166-183 | get returns a task exactly when a row with that id exists. That task has the id asked for and is the decoding of the row; None means there is no such row |
| `TaskSchedulerStore.UpsertThenGet` | synapse/storage/databases/main/task_scheduler.py:108-121 | after an upsert, getting the task's id returns a task equal to the one upserted, whether or not a row existed before. Every other id reads as before, and the table stays well-formed |
| `TaskSchedulerStore.UpdateThenGet` | synapse/storage/databases/main/task_scheduler.py:141-156 | a partial update on a missing id leaves the table unchanged. On an existing id, `id`, `action`, `resource_id` and `params` do not change. Each supplied field takes the supplied value, and each field passed as None keeps its old value, so None cannot clear a field. Every other task is untouched |
| `TaskSchedulerStore.FilterArgument` | synapse/storage/databases/main/task_scheduler.py:71-88 | a value passes a filter argument exactly when the argument is None, or it is the empty list and the value is NULL (as documented at line 58; see ## Findings), or it is a non-empty list that contains the value |
| `TaskSchedulerStore.SelectsUnfiltered` | synapse/storage/databases/main/task_scheduler.py:57 | with every filter None, every task is selected |
| `TaskSchedulerStore.UnfilteredMatchesAll` | synapse/storage/databases/main/task_scheduler.py:90-92 | with no filters, the selected ids are exactly the stored ids |
| `TaskSchedulerStore.AllClausesHoldConcat` | synapse/storage/databases/main/task_scheduler.py:91-92 | the AND-join of two lists of clauses holds exactly when each list's AND-join holds |
| `TaskSchedulerStore.ClausesMatchFilters` | synapse/storage/databases/main/task_scheduler.py:71-92 | a well-formed row satisfies the clauses built for a query exactly when its decoded task passes all three filters, with an empty list read as documented at line 58; see ## Findings |
| `TaskSchedulerStore.BuildClauses` | synapse/storage/databases/main/task_scheduler.py:69-92 | builds exactly one clause per filter that is not None, so the clause count is the number of such filters. There is no WHERE clause exactly when every filter is None. A well-formed row satisfies all clauses exactly when its task is selected (the AND join), with an empty list read as documented at line 58; see ## Findings |
| `TaskSchedulerStore.StatusTextsContain` | synapse/storage/databases/main/task_scheduler.py:83-87 | a status's stored text is among the texts passed for a status filter exactly when the status is among the statuses asked for |
| `TaskSchedulerStore.AsWrittenAgreesOnNonEmptyList` | synapse/storage/databases/main/task_scheduler.py:77-82 | on a non-empty list, the membership clause as written and the documented filter accept the same rows |
| `TaskSchedulerStore.EmptyListMissesNullAsWritten` | synapse/storage/databases/main/task_scheduler.py:77-82 | for a task without a resource id, `resource_ids=[]` selects it as documented, but the membership clause built as written rejects its row |
| `TaskSchedulerStore.DistinctIdsCount` | synapse/storage/databases/main/task_scheduler.py:97-100 | a list of tasks with pairwise distinct ids has as many ids as tasks, which is what lets the list query's count equal the row count |
| `TaskSchedulerStore.TaskStore.GetScheduledTasks` | synapse/storage/databases/main/task_scheduler.py:49-100 | each returned task is the decoded stored task with its id, and no id comes back twice. The returned ids are exactly the stored ids whose tasks pass every filter, with an empty list read as documented at line 58; see ## Findings. With no filters, as many tasks come back as there are rows. No order is promised |
| `TaskSchedulerStore.TaskStore.GetScheduledTask` | synapse/storage/databases/main/task_scheduler.py:158-183 | returns the decoded task stored under the id, or None when there is no such row |
| `TaskSchedulerStore.TaskStore.UpsertScheduledTask` | synapse/storage/databases/main/task_scheduler.py:102-121 | replaces or inserts the whole row under the task's id, leaves every other row alone, and keeps the table well-formed. Getting that id afterwards returns the task |
| `TaskSchedulerStore.TaskStore.UpdateScheduledTask` | synapse/storage/databases/main/task_scheduler.py:123-156 | builds the update values from the supplied fields and sets just those columns on the row with that id. It returns true exactly when that row existed, and leaves the table unchanged otherwise |
| `TaskSchedulerStore.TaskStore.DeleteScheduledTask` | synapse/storage/databases/main/task_scheduler.py:185-195 | removes the row with that id, and does nothing when there is none. Getting that id afterwards returns None, and every other id reads as before |

## Left out

- synapse/rest/client/receipts.py is not part of this model. It is an HTTP servlet for read receipts and has nothing to do with the task table.
- SQL text, `make_in_list_sql_clause` and dialect differences are not modelled. A clause is a value (`Clause`), and its meaning is a predicate on rows.
- The database pool, `runInteraction`, transactions and async plumbing are not modelled. Each operation is one atomic step on the map, and concurrency and isolation belong to the database.
- Storage failures (lost connections, constraint violations) are not modelled.
- Malformed stored JSON and unknown status text are handled by `ConvertRow`, which returns `Err`. `TaskStore.Valid()` rules them out inside the store.
- JSON text is modelled at the token level. Character escapes, number spelling and whitespace are not modelled. Numbers are integers only, so JSON floats are left out.
- `params` and `result` are JSON objects (`Json.JsonMapping`), as the source's `JsonMapping` type says, with distinct member names at every depth, as a Python dictionary has. A stored column whose text parses to a JSON value other than an object or `null` is treated as malformed (`MalformedParams`/`MalformedResult`). The source would pass such a value through untyped, but no writer in the store produces it.
- Timestamps are unbounded integers. The 64-bit width of the database column is not modelled.
- `_convert_row_to_task` rewrites the row dictionary in place. The model decodes a row value into a new task value, because the dictionary is not used afterwards.
- synapse/types, where `ScheduledTask` and `TaskStatus` are declared, is not part of this model. The model defines both types from the stored columns. The status texts are the four stored values `scheduled`, `active`, `complete` and `failed`.
- TaskSchedulerStore.TaskStore.UpdateScheduledTask: requires at least one field other than the id. With all of them None, the source passes an empty update to `simple_update`, whose behaviour is not part of this model.
- TaskSchedulerStore.TaskStore.GetScheduledTasks: the order of the returned list is unspecified. The source sets no ORDER BY, so the model promises nothing about order.

## Findings

| source | as written | input that shows it | evidently intended | confidence | as-written member | corrected member |
|---|---|---|---|---|---|---|
| synapse/storage/databases/main/task_scheduler.py:77-82 | a filter given as an empty list still goes through `make_in_list_sql_clause`, which makes a membership test of the column against zero values. No row passes that test, and a NULL column never passes a membership test in SQL | `get_scheduled_tasks(resource_ids=[])` with a stored task whose `resource_id` is NULL: the task is not returned, because the query returns no rows at all | line 58: an empty list selects the rows whose column is NULL | medium, not executed; `make_in_list_sql_clause` is not part of this model, and standard SQL membership semantics are assumed | `TaskSchedulerStore.EmptyListMissesNullAsWritten` (over `ClauseHoldsAsWritten`) | `TaskSchedulerStore.BuildClauses` (over `ClauseHolds`, with the three-way filter `FilterOf`) |
