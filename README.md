# qyu-store-redis, modelled in Dafny

qyu is a distributed task-queue system. Its state store keeps three kinds of records: workflows
(named templates), jobs (one run of a workflow, with a payload) and tasks (units of work of a
job, optionally children of a parent task). This project models the Redis implementation of
that store, `Qyu::Store::Redis::Adapter`, and its `ConfigurationValidator`.

The adapter keeps each record as a Redis hash under a composite key:
- `workflow:<name>:<id>`
- `job:<id>`
- `task:<name>:<queue>:<job_id>:<parent_id>:<id>`

It answers queries by enumerating keys with `KEYS` glob patterns. Descriptors and payloads
travel as JSON text. Tasks are created idempotently: a request for a task with the same name,
queue, job, parent and payload returns the existing id. The model of that request compares
payloads as JSON documents, which corrects the adapter's own comparison (see "## Findings").
A worker claims a task with a time-bounded lease, which can be renewed and released.

Layout, one module per file:

- `serialization.dfy` (`Serialization`): JSON values and the round trip storing performs. A
  symbol key or symbol value comes back as a string, at every depth.
- `payloads.dfy` (`Payloads`): `compare_payloads` as written, and the payload comparison
  find-or-create needs.
- `keyspace.dfy` (`Keyspace`): keys, `KEYS` patterns, hashes, `HGETALL` and `HMSET` on an
  in-memory keyspace, and the keyspace invariant that the adapter's writes keep.
- `entities.dfy` (`Entities`): workflows, jobs and the task finders, as functions of the
  keyspace.
- `dedup.dfy` (`TaskDedup`): `find_or_persist_task`.
- `task_state.dfy` (`TaskState`): `lock_task!`, `unlock_task!`, `renew_lock_lease` and `update_status`.
- `adapter.dfy` (`Adapter`): the adapter as a class holding the keyspace. Its methods perform
  the writes in place, and each is proved to produce the keyspace and reply of the functions
  above. `find_or_persist_task` keeps its loop over the candidate keys.
- `configuration_validator.dfy` (`ConfigurationValidator`): the validator class and
  `valid_config?`.

Generated UUIDs and the clock are parameters. `id`/`freshId` stand for `SecureRandom.uuid`, with
the assumption that no stored key carries it yet. `token` stands for the lease UUID. `now` is the
current time in whole seconds.

## Model

| member | source | states |
|---|---|---|
| Serialization.Encode | lib/qyu/store/redis/adapter.rb:234-240 | parsing what was serialised yields a document with string keys only and no symbol values, at every depth; hashes stay hashes with the same key names; arrays stay arrays of the same length |
| Serialization.EncodePayload | lib/qyu/store/redis/adapter.rb:234-240 | a stored payload has exactly the stringified names of the given keys, and every nested value is string-keyed |
| Serialization.EncodePlain | lib/qyu/store/redis/adapter.rb:234-240 | a document that already has string keys survives the round trip unchanged |
| Serialization.EncodeIdempotent | lib/qyu/store/redis/adapter.rb:234-240 | serialising and parsing a parsed document again changes nothing |
| Serialization.EncodePayloadPlain | lib/qyu/store/redis/adapter.rb:234-240 | a string-keyed payload is stored exactly as given |
| Payloads.ComparePayloads | lib/qyu/store/redis/adapter.rb:242-244 | `compare_payloads` as written: the two payloads are equal once their top-level keys are symbolised; what it accepts and rejects is stated by the lemmas below |
| Payloads.PayloadsMatch | lib/qyu/store/redis/adapter.rb:242-244 | the corrected comparison: equal after the JSON round trip storing performs; it agrees with `compare_payloads` where that is right (`MatchAgreesWithCompare`) |
| Payloads.SymbolizeHash | lib/qyu/store/redis/adapter.rb:246-248 | the result has one key per top-level key name, holding that key's value (the symbol's value when both spellings exist); nested values are untouched |
| Payloads.StoredPayloadComparesEqual | lib/qyu/store/redis/adapter.rb:242-248 | when nested keys are strings and no value is a symbol, the comparison as written recognises a stored payload as equal to the payload it was stored from |
| Payloads.NestedSymbolKeyDefeatsComparison | lib/qyu/store/redis/adapter.rb:242-248 | the comparison as written rejects the stored form of `{a: {b: 1}}` when compared with `{a: {b: 1}}` |
| Payloads.SymbolValueDefeatsComparison | lib/qyu/store/redis/adapter.rb:242-248 | the comparison as written rejects the stored form of `{a: :b}` when compared with `{a: :b}`, because `to_json` writes the symbol value as a string |
| Payloads.StoredPayloadMatches | lib/qyu/store/redis/adapter.rb:242-248 | under the corrected comparison, a stored payload always matches the payload it was stored from, whatever its key types |
| Payloads.MatchAgreesWithCompare | lib/qyu/store/redis/adapter.rb:242-248 | on payloads whose nested keys are strings and that hold no symbol values, the corrected comparison holds iff the written one does |
| Payloads.EncodedIsSymbolized | lib/qyu/store/redis/adapter.rb:242-248 | for string-keyed nested values without symbols, the stored payload is the symbolised hash written with string keys |
| Keyspace.Segments | lib/qyu/store/redis/adapter.rb:115 | the segments of the interpolated keys at lines 23, 55 and 115: the family tag first, the record id last |
| Keyspace.KeyStringInjective | lib/qyu/store/redis/adapter.rb:115 | two keys whose segments contain no colon have equal key strings only if they are the same key, so modelling keys by their segments loses nothing |
| Keyspace.JoinInjective | lib/qyu/store/redis/adapter.rb:115 | colon-free segments joined with `:` determine the segments |
| Keyspace.KeysMatching | lib/qyu/store/redis/adapter.rb:101 | `KEYS` returns exactly the listed keys that match the pattern, each once, never more keys than exist |
| Keyspace.CountMatching | lib/qyu/store/redis/adapter.rb:87 | the number of keys `KEYS` returns equals the number of stored keys matching the pattern |
| Keyspace.HSet | lib/qyu/store/redis/adapter.rb:24 | `HMSET` adds the key when absent, overwrites only the given fields, and leaves every other key unchanged |
| Keyspace.HSetValid | lib/qyu/store/redis/adapter.rb:24 | writing a well-formed hash under an existing key, or under a new key with a fresh id, keeps the keyspace invariant |
| Adapter.RedisAdapter.HMSet | lib/qyu/store/redis/adapter.rb:24 | the in-place `HMSET` leaves the keyspace that `Keyspace.HSet` describes |
| Entities.FirstKeyMatch | lib/qyu/store/redis/adapter.rb:29 | `KEYS(...).first` is nil exactly when no stored key matches, and otherwise a matching stored key |
| Entities.FindTask | lib/qyu/store/redis/adapter.rb:130-136 | `find_task(id)`: the hash under the first key of `task:*:*:*:*:<id>`, nil when there is none; stated by `FindTaskFinds` |
| Entities.FindTaskFinds | lib/qyu/store/redis/adapter.rb:130-136 | `find_task(id)` is nil iff no task has that id, and is that task's hash otherwise |
| Entities.PersistWorkflow | lib/qyu/store/redis/adapter.rb:20-26 | `persist_workflow`: one `HMSET` under `workflow:<name>:<id>` with the serialised descriptor, returning name, id and the descriptor as given; stated by the lemmas below |
| Entities.FindWorkflow | lib/qyu/store/redis/adapter.rb:28-34 | `find_workflow(id)`: the first key of `workflow:*:<id>` read back, nil when there is none; stated by `FindWorkflowFinds` |
| Entities.FindWorkflowByName | lib/qyu/store/redis/adapter.rb:36-42 | `find_workflow_by_name(name)`: the first key of `workflow:<name>:*` read back; stated by `FindWorkflowByNameFinds` and `PersistThenFindWorkflowByName` |
| Entities.PersistWorkflowValid | lib/qyu/store/redis/adapter.rb:20-26 | persisting a workflow keeps the keyspace invariant |
| Entities.PersistThenFindWorkflow | lib/qyu/store/redis/adapter.rb:20-34 | persisting adds exactly one key, and `find_workflow(id)` then returns that name, id and descriptor (as parsed) |
| Entities.FindWorkflowByNameFinds | lib/qyu/store/redis/adapter.rb:36-42 | on any valid keyspace, `find_workflow_by_name(name)` is nil exactly when no stored workflow has the name, and otherwise the hash of a stored workflow of that name |
| Entities.PersistThenFindWorkflowByName | lib/qyu/store/redis/adapter.rb:20-42 | after persisting, `find_workflow_by_name(name)` finds a workflow of that name, and it is the new one if none had that name before |
| Entities.PersistFindWorkflowRoundTrip | lib/qyu/store/redis/adapter.rb:20-34 | with a string-keyed descriptor, `find_workflow` returns exactly what `persist_workflow` returned |
| Entities.FindWorkflowFinds | lib/qyu/store/redis/adapter.rb:28-34 | `find_workflow(id)` is nil iff no workflow has that id, and is that workflow's hash otherwise |
| Entities.PersistJob | lib/qyu/store/redis/adapter.rb:53-62 | `persist_job`: one `HMSET` under `job:<id>` with the serialised workflow and payload, returning the job hash of line 61; stated by the lemmas below |
| Entities.FindJob | lib/qyu/store/redis/adapter.rb:64-71 | `find_job(id)`: `HGETALL job:<id>`, nil for the empty hash, with `id` set; stated by `FindJobFinds` |
| Entities.SelectJobs | lib/qyu/store/redis/adapter.rb:73-84 | `select_jobs(limit, offset)`: the hashes of the `KEYS job:*` window, `[]` where the slice is nil; stated by the `SelectJobs*` lemmas |
| Entities.RubySlice | lib/qyu/store/redis/adapter.rb:75 | Ruby's `array[start, length]`: nil for a negative length or a start outside the array, counting a negative start from the end |
| Entities.CountJobs | lib/qyu/store/redis/adapter.rb:86-88 | `count_jobs`: the length of `KEYS job:*`; stated by `CountJobsCounts` |
| Entities.PersistJobValid | lib/qyu/store/redis/adapter.rb:53-62 | persisting a job keeps the keyspace invariant |
| Entities.PersistThenFindJob | lib/qyu/store/redis/adapter.rb:53-71 | the job returned by `persist_job` carries its id, and `find_job` on that id returns that id, workflow and payload (as parsed) |
| Entities.PersistFindJobRoundTrip | lib/qyu/store/redis/adapter.rb:53-71 | with string-keyed workflow and payload, `find_job` returns exactly the job `persist_job` returned |
| Entities.FindJobFinds | lib/qyu/store/redis/adapter.rb:64-71 | `find_job(id)` is nil iff `job:<id>` is absent, and is the stored hash otherwise |
| Entities.CountJobsCounts | lib/qyu/store/redis/adapter.rb:86-88 | `count_jobs` is the number of stored jobs |
| Entities.PersistJobCounts | lib/qyu/store/redis/adapter.rb:86-88 | `persist_job` raises `count_jobs` by exactly one |
| Entities.PersistJobAddsOneJob | lib/qyu/store/redis/adapter.rb:53-62 | the stored jobs after `persist_job` are the ones before plus the new key, which was not among them |
| Entities.SelectJobsEmpty | lib/qyu/store/redis/adapter.rb:73-77 | `select_jobs` returns no job for a negative limit, an offset at or past the job count, or a negative offset reaching back before the first job |
| Entities.SelectJobsWindow | lib/qyu/store/redis/adapter.rb:73-84 | for an offset within the job list and a non-negative limit, `select_jobs` returns `min(limit, count - offset)` jobs, taken in order from position `offset` |
| Entities.SelectJobsFromEnd | lib/qyu/store/redis/adapter.rb:73-84 | a negative offset within the job list selects the same jobs as that offset counted from the front |
| Entities.SelectJobsStored | lib/qyu/store/redis/adapter.rb:73-84 | every hash `select_jobs` returns is a stored job |
| Entities.IdsOf | lib/qyu/store/redis/adapter.rb:141-143 | `task_keys.map { hget(key, 'id') }.uniq`, nil for no keys; stated by `IdsOfKeys` |
| Entities.FindTaskIdsByJobIdAndName | lib/qyu/store/redis/adapter.rb:138-144 | `find_task_ids_by_job_id_and_name`; stated by `FindTaskIdsByJobIdAndNameFinds` |
| Entities.FindTaskIdsByJobIdNameAndParentTaskIds | lib/qyu/store/redis/adapter.rb:146-154 | `find_task_ids_by_job_id_name_and_parent_task_ids`; stated by `FindTaskIdsByParentsFinds` |
| Entities.SelectTasksByJobId | lib/qyu/store/redis/adapter.rb:156-164 | `select_tasks_by_job_id`; stated by `SelectTasksByJobIdNil` and `SelectTasksByJobIdFinds` |
| Entities.Uniq | lib/qyu/store/redis/adapter.rb:141-143 | `uniq` keeps exactly the elements of its input, each once |
| Entities.ChildKeys | lib/qyu/store/redis/adapter.rb:147-149 | the flat-mapped `KEYS` lists hold exactly the tasks of that job and name whose parent is one of the given ids |
| Entities.IdsOfKeys | lib/qyu/store/redis/adapter.rb:141-143 | the ids read from task keys are each key's id, each once, and nil is returned only for no keys |
| Entities.FindTaskIdsByJobIdAndNameFinds | lib/qyu/store/redis/adapter.rb:138-144 | the result is nil iff the job has no task of that name; otherwise it holds every such task's id exactly once |
| Entities.FindTaskIdsByParentsFinds | lib/qyu/store/redis/adapter.rb:146-154 | the result is nil iff no task of that job and name has one of the parents; otherwise it holds every such task's id exactly once |
| Entities.SelectTasksByJobIdNil | lib/qyu/store/redis/adapter.rb:156-158 | `select_tasks_by_job_id` is nil iff the job has no task |
| Entities.SelectTasksByJobIdFinds | lib/qyu/store/redis/adapter.rb:156-164 | otherwise it returns one entry per task of the job, every task of the job is there, and nothing else is |
| TaskDedup.FindOrPersistTask | lib/qyu/store/redis/adapter.rb:99-128 | `find_or_persist_task` with the corrected payload comparison: the id of a matching candidate with the keyspace unchanged, or the fresh id after writing the new task; stated by the lemmas below |
| TaskDedup.ScanForPayload | lib/qyu/store/redis/adapter.rb:103-111 | the `existent_keys.each` loop with its `break`, comparing with `PayloadsMatch`; stated by `ScanFinds` |
| TaskDedup.NewTask | lib/qyu/store/redis/adapter.rb:113-125 | the `HMSET` of a new task under `task:<name>:<queue>:<job_id>:<parent_id>:<id>`; stated by `FindOrPersistCreates` |
| TaskDedup.ScanFinds | lib/qyu/store/redis/adapter.rb:103-111 | the scan finds an id iff some scanned task's payload matches, and the id is that task's |
| TaskDedup.IdentityKeys | lib/qyu/store/redis/adapter.rb:101 | the identity pattern lists exactly the stored tasks with that name, queue, job and parent |
| TaskDedup.ExistingTaskIdFinds | lib/qyu/store/redis/adapter.rb:99-111 | find-or-create returns without writing iff an equal task is stored, and then returns the id of such a task |
| TaskDedup.FindOrPersistValid | lib/qyu/store/redis/adapter.rb:99-128 | find-or-create keeps the keyspace invariant |
| TaskDedup.FindOrPersistFinds | lib/qyu/store/redis/adapter.rb:99-111 | when an equal task exists, the keyspace is unchanged and that task's id is returned |
| TaskDedup.FindOrPersistCreates | lib/qyu/store/redis/adapter.rb:113-127 | otherwise exactly one key is added, holding the given fields; the stored payload matches the given one; no other key changes; the fresh id is returned |
| TaskDedup.FindOrPersistIdempotent | lib/qyu/store/redis/adapter.rb:99-128 | a second identical call returns the same id and writes nothing |
| TaskState.SecondsAfterTime | lib/qyu/store/redis/adapter.rb:277-279 | `seconds_after_time(seconds, start)`: the clock reading `seconds` later, in whole seconds |
| TaskState.LockTask | lib/qyu/store/redis/adapter.rb:166-185 | `lock_task!` on the keyspaces the corrected `unlock_task!` keeps; stated by `LockTaskSpec` |
| TaskState.UnlockTask | lib/qyu/store/redis/adapter.rb:187-197 | `unlock_task!`, releasing the lease by removing both lease fields (the correction in "## Findings"); stated by `UnlockTaskSpec` |
| TaskState.RenewLockLease | lib/qyu/store/redis/adapter.rb:199-215 | `renew_lock_lease`; stated by `RenewLockLeaseSpec` |
| TaskState.UpdateStatus | lib/qyu/store/redis/adapter.rb:217-221 | `update_status`; stated by `UpdateStatusSpec` |
| TaskState.MissingTask | lib/qyu/store/redis/adapter.rb:166-221 | for an id no task has, locking, unlocking, renewing and updating status fail and write nothing |
| TaskState.LockTaskSpec | lib/qyu/store/redis/adapter.rb:166-185 | locking succeeds iff the task has no lease or its lease ended before now; on success only `locked_by` and `locked_until` change, to the token and `now + lease_time`; otherwise nothing changes |
| TaskState.LockExcludes | lib/qyu/store/redis/adapter.rb:166-185 | while a lease runs (up to and including its end), no other lock on the task succeeds |
| TaskState.LockAfterExpiry | lib/qyu/store/redis/adapter.rb:166-185 | after a lease's end, the task can be locked again |
| TaskState.UnlockTaskSpec | lib/qyu/store/redis/adapter.rb:187-197 | unlocking succeeds iff the token holds the lease; it removes both lease fields and nothing else |
| TaskState.LockThenUnlock | lib/qyu/store/redis/adapter.rb:166-197 | with the corrected release, the locking worker can unlock, after which the task can be locked at once; another token cannot unlock |
| TaskState.RenewLockLeaseSpec | lib/qyu/store/redis/adapter.rb:199-215 | renewing succeeds iff the token holds a lease that has not yet ended; only `locked_until` moves, to `now + lease_time` |
| TaskState.LockThenRenew | lib/qyu/store/redis/adapter.rb:166-215 | the holder can extend a running lease, which then excludes other lockers until its new end; another token cannot extend it |
| TaskState.RenewAfterExpiry | lib/qyu/store/redis/adapter.rb:199-215 | a lease that has ended cannot be renewed, even by its holder |
| TaskState.UpdateStatusSpec | lib/qyu/store/redis/adapter.rb:217-221 | `update_status` on a stored task returns true and changes only its `status` field |
| TaskState.LeaseOperationsValid | lib/qyu/store/redis/adapter.rb:166-221 | every lease operation and the status update keep the keyspace invariant |
| TaskState.UnlockTaskAsWritten | lib/qyu/store/redis/adapter.rb:187-197 | `unlock_task!` as written: the holder's release writes nil, stored as the empty string, into both lease fields |
| TaskState.LockTaskAsWritten | lib/qyu/store/redis/adapter.rb:166-185 | `lock_task!` as written: `DateTime.parse` raises on a `locked_until` that is not a time; otherwise it is `TaskState.LockTask` |
| TaskState.LockTaskAsWrittenAgrees | lib/qyu/store/redis/adapter.rb:166-185 | on every keyspace satisfying the invariant, locking as written never raises and equals `TaskState.LockTask` |
| TaskState.UnlockThenLockRaises | lib/qyu/store/redis/adapter.rb:166-197 | as written, after a worker locks a task and releases it with its token, the next `lock_task!` on that task raises |
| Adapter.RedisAdapter.constructor | lib/qyu/store/redis/adapter.rb:15-17 | a new adapter is attached to an existing database, any keyspace satisfying the invariant (the empty one among them), and holds it unchanged |
| Adapter.RedisAdapter.PersistWorkflow | lib/qyu/store/redis/adapter.rb:20-26 | the in-place write yields the keyspace and reply of `Entities.PersistWorkflow` and keeps the invariant |
| Adapter.RedisAdapter.PersistJob | lib/qyu/store/redis/adapter.rb:53-62 | the in-place write yields the keyspace and job of `Entities.PersistJob` and keeps the invariant |
| Adapter.RedisAdapter.ScanExistent | lib/qyu/store/redis/adapter.rb:103-111 | the `existent_keys.each` loop with its `break` returns the id of the first candidate whose stored payload matches, the same answer as `TaskDedup.ScanForPayload`, and changes nothing |
| Adapter.RedisAdapter.FindOrPersistTask | lib/qyu/store/redis/adapter.rb:99-128 | the loop over the candidate keys, with its early exit, yields the id and keyspace of `TaskDedup.FindOrPersistTask` and keeps the invariant |
| Adapter.RedisAdapter.LockTask | lib/qyu/store/redis/adapter.rb:166-185 | the in-place lock yields the keyspace and lease of `TaskState.LockTask` and keeps the invariant |
| Adapter.RedisAdapter.UnlockTask | lib/qyu/store/redis/adapter.rb:187-197 | the in-place release yields the keyspace and reply of `TaskState.UnlockTask` and keeps the invariant |
| Adapter.RedisAdapter.RenewLockLease | lib/qyu/store/redis/adapter.rb:199-215 | the in-place renewal yields the keyspace and new end of `TaskState.RenewLockLease` and keeps the invariant |
| Adapter.RedisAdapter.UpdateStatus | lib/qyu/store/redis/adapter.rb:217-221 | the in-place update yields the keyspace and reply of `TaskState.UpdateStatus` and keeps the invariant |
| ConfigurationValidator.Validator.constructor | lib/qyu/store/redis/configuration_validator.rb:10-13 | a new validator holds the configuration and no errors |
| ConfigurationValidator.Validator.Validate | lib/qyu/store/redis/configuration_validator.rb:20-28 | `validate` appends one message per nil required attribute, in order, unless a truthy url is given; earlier errors are kept |
| ConfigurationValidator.Validator.IsValid | lib/qyu/store/redis/configuration_validator.rb:15-18 | `valid?` validates, then answers whether the error list is empty |
| ConfigurationValidator.ValidConfig | lib/qyu/store/redis/adapter.rb:10-12 | `valid_config?` holds iff the configuration gives a truthy url, or a non-nil host and a non-nil port |
| ConfigurationValidator.MissingForSnoc | lib/qyu/store/redis/configuration_validator.rb:22-26 | checking one more attribute appends exactly its message when it is nil, and nothing otherwise |
| ConfigurationValidator.MessagesEmptyIffUsable | lib/qyu/store/redis/configuration_validator.rb:15-28 | no message is collected iff the url is truthy or both host and port are non-nil |
| ConfigurationValidator.MessagesWithoutUrl | lib/qyu/store/redis/configuration_validator.rb:20-28 | without a truthy url, the messages are "host must be present." when host is nil, then "port must be present." when port is nil |
| ConfigurationValidator.EmptyConfigRejected | lib/qyu/store/redis/configuration_validator.rb:20-28 | the empty configuration yields both messages and is not valid |
| ConfigurationValidator.OnlyConnectionSettingsMatter | lib/qyu/store/redis/configuration_validator.rb:20-28 | configurations that agree on url truthiness and on host and port being nil get the same messages |

## Left out

- Connection setup is not modelled: `initialize`'s client construction, `init_client`, `load_config` and the class-level configuration they write. These build a Redis client; the model holds the database directly.
- `with_connection` and `transaction` only yield, and calls run one at a time in the model. So the check-then-write races in `find_or_persist_task` and `lock_task!` (`KEYS`/`HGETALL` followed by `HMSET`, with no `WATCH` or `MULTI`) are not modelled.
- The debug logging is left out.
- `delete_workflow`, `delete_workflow_by_name`, `delete_job` and `clear_completed_jobs` are left out. Their bodies are empty placeholders that return nil and touch nothing.
- Workflow name uniqueness is not enforced, as in the source (a TODO in `persist_workflow`). The `WorkflowNotUnique` and `TaskNotFound` error classes are never raised by the adapter.
- Redis leaves the order of `KEYS` unspecified. The model enumerates keys in insertion order. Two kinds of statement depend on that order: which key `.first` picks, and which jobs fall in the window of `select_jobs` (`Entities.SelectJobsWindow` and `Entities.SelectJobsFromEnd` give positions in that order). The `order` argument of `select_jobs` is ignored, as in the source.
- `select_jobs` converts `limit` and `offset` with `.to_i`. The model takes them as integers already, so a string or nil argument (nil gives 0) is not modelled.
- Key segments are assumed free of `:` and of glob characters. Under that assumption the segment-wise pattern matching is exact (`Keyspace.KeyStringInjective`). A name containing `*` or `:` would let a pattern match other keys. A nil `parent_task_id` interpolates as the empty segment, which is how the model writes it.
- Time is whole seconds. `locked_until` is stored through `Time#to_s`, which has one-second resolution, and the sub-second part of `DateTime.now` is not modelled.
- UUID generation is not modelled. Ids and lease tokens are parameters, and freshness is a precondition.
- JSON floating-point numbers are not modelled, and neither is a parse failure on a missing or corrupt payload.
- TaskDedup.FindOrPersistTask takes the payload as a hash. The source accepts any payload `to_json` can write. With nil, a String or an Integer, the first call stores it. The next identical call finds that task as a candidate, and `symbolize_hash` calls `.map` on the non-hash (adapter.rb line 247), which raises `NoMethodError`. So TaskDedup.FindOrPersistIdempotent holds in the source only for hash payloads.
- TaskDedup.ScanForPayload compares payloads with the corrected `Payloads.PayloadsMatch`, not with `compare_payloads` as written. They agree on payloads whose nested keys are all strings and that hold no symbol values (`Payloads.MatchAgreesWithCompare`). They differ only on the inputs of "## Findings" row 1.
- TaskDedup.FindOrPersistTask, TaskDedup.ExistingTaskIdFinds, TaskDedup.FindOrPersistFinds and TaskDedup.FindOrPersistIdempotent use that corrected comparison through `ScanForPayload`.
- Adapter.RedisAdapter.ScanExistent and Adapter.RedisAdapter.FindOrPersistTask use the corrected comparison too, and are proved equal to the `TaskDedup` functions.
- Hash keys are Strings or Symbols only. `symbolize_hash` calls `to_sym` on each key (adapter.rb line 247). A caller's payload with another kind of key, such as the Integer `1`, makes `compare_payloads` raise `NoMethodError` as soon as a candidate task exists. That error is not modelled.
- When a Ruby hash has both the string and the symbol spelling of a key, `Serialization.Encode` keeps the symbol's value. Ruby keeps whichever of the two was inserted last, and the model does not track insertion order.
- Payloads.SymbolizeHash keeps the symbol's value too when a hash has both spellings of a name. `symbolize_hash` ends in `.to_h` (adapter.rb line 247), which keeps the pair inserted last: on `{a: 1, "a" => 2}` Ruby gives `{a: 2}` where the model gives `{a: 1}`. Payloads.ComparePayloads inherits that difference on such hashes.
- TaskState.UnlockTask removes `locked_by` and `locked_until`, the evidently intended release. The source writes nil into both fields, which the Redis client sends as the empty string. The next `lock_task!` on that task then calls `DateTime.parse("")` (adapter.rb lines 174 and 193), which raises `ArgumentError`. `TaskState.UnlockTaskAsWritten`, `TaskState.LockTaskAsWritten` and `TaskState.UnlockThenLockRaises` model that (see "## Findings").
- TaskState.LockThenUnlock states the intended behaviour: a released task can be locked again at once. The code as written raises at that point instead (`TaskState.UnlockThenLockRaises`).
- TaskState.LockTask, TaskState.RenewLockLease, the lease lemmas and the `Adapter.RedisAdapter` lease methods work on keyspaces released the corrected way. Only `TaskState.LockTaskAsWritten` reads a `locked_until` that is not a time.
- TaskState.UnlockTask takes the token as a string, so a nil `lease_token` is not modelled. In the source, `unlock_task!(id, nil)` on a task that was never locked finds `task['locked_by'].eql?(nil)` true (adapter.rb line 192). It returns true and writes nil into both lease fields, so the next `lock_task!` on that task raises as in "## Findings" row 2. `Adapter.RedisAdapter.UnlockTask` inherits the same restriction.
- TaskState.RenewLockLease returns nil for a task without `locked_until`. The source's `fetch` raises `KeyError` there.
- ConfigurationValidator.ValidConfig follows the code, which rejects the empty configuration (`EmptyConfigRejected`). The test at spec/qyu/store/redis/adapter_spec.rb:8 expects `valid_config?({})` to be true.
- Configuration keys are looked up by symbol name. String keys, which `config[:url]` would not see, are not distinguished from symbol keys.

## Findings

| source | as written | input that shows it | evidently intended | confidence | as-written member | corrected member |
|---|---|---|---|---|---|---|
| lib/qyu/store/redis/adapter.rb:242-248 | `compare_payloads` symbolises only top-level keys, while the stored payload has string keys at every depth | call `find_or_persist_task` twice with payload `{a: {b: 1}}`: the stored `{"a"=>{"b"=>1}}` symbolises to `{a: {"b"=>1}}`, which differs from `{a: {b: 1}}`, so the second call creates a duplicate task. Likewise `{a: :b}` is stored as `{"a"=>"b"}`, and `"b"` is not `:b` (`Payloads.SymbolValueDefeatsComparison`) | compare the payloads as JSON documents, both normalised by the same round trip that storing performs | medium, not executed | Payloads.NestedSymbolKeyDefeatsComparison | Payloads.StoredPayloadMatches |
| lib/qyu/store/redis/adapter.rb:187-197 | `unlock_task!` releases the lease by writing nil into `locked_by` and `locked_until`; the Redis client stores nil as the empty string, so the field is no longer nil and `lock_task!` passes it to `DateTime.parse` (line 174) | `lock_task!(id, 60)` gives `[uuid, t]`; `unlock_task!(id, uuid)` gives true; the next `lock_task!(id, 60)` raises `ArgumentError` on `DateTime.parse("")`, so a released task can never be locked again | remove both lease fields (`HDEL`), so that a released task reads as never locked | medium, not executed (it depends on how the Redis client encodes nil) | TaskState.UnlockThenLockRaises | TaskState.LockThenUnlock |
