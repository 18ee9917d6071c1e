/** Idempotent task creation: `find_or_persist_task` (lib/qyu/store/redis/adapter.rb lines
    99-128). A task is identified by its name, queue, job, parent and payload; a second request
    for the same task returns the existing id and writes nothing. */
module TaskDedup {
  import opened Serialization
  import opened Payloads
  import opened Keyspace
  import opened Entities

  /** `task:<name>:<queue>:<job_id>:<parent_id>:*` */
  function TaskIdentity(name: string, queueName: string, jobId: string, parentTaskId: string): Pattern {
    TaskPattern(Is(name), Is(queueName), Is(jobId), Is(parentTaskId), Any)
  }

  /** The hash of a newly created task (no status, no lease). */
  function TaskHash(id: string, name: string, queueName: string, payload: Payload, jobId: string, parentTaskId: string)
    : Record
  {
    map[IdField := Str(id), NameField := Str(name), QueueNameField := Str(queueName),
        PayloadField := Doc(Object(payload)), JobIdField := Str(jobId), ParentTaskIdField := Str(parentTaskId)]
  }

  ghost predicate StoredTasks(s: Store, keys: seq<StoreKey>) {
    forall k :: k in keys ==> k in s.records && k.TaskKey? && WellFormed(k, s.records[k])
  }

  /** `parse { task['payload'] }` of a stored task. */
  function StoredPayload(s: Store, k: StoreKey): Payload
    requires k in s.records && k.TaskKey? && WellFormed(k, s.records[k])
  {
    s.records[k][PayloadField].doc.fields
  }

  /** The scan over `existent_keys`: the id of the first task whose stored payload matches. */
  function ScanForPayload(s: Store, keys: seq<StoreKey>, payload: Payload): Option<string>
    requires StoredTasks(s, keys)
  {
    if keys == [] then None
    else if PayloadsMatch(StoredPayload(s, keys[0]), payload) then Some(s.records[keys[0]][IdField].s)
    else ScanForPayload(s, keys[1..], payload)
  }

  /** The id find-or-create returns without writing, if any. */
  function ExistingTaskId(s: Store, name: string, queueName: string, payload: Payload, jobId: string, parentTaskId: string)
    : Option<string>
    requires Valid(s)
  {
    ScanForPayload(s, KeysMatching(s.listing, TaskIdentity(name, queueName, jobId, parentTaskId)), payload)
  }

  /** `find_or_persist_task(name, queue_name, payload, job_id, parent_task_id)`, with `freshId`
      standing for the UUID generated when no equal task exists. */
  function FindOrPersistTask(s: Store, name: string, queueName: string, payload: Payload, jobId: string,
                             parentTaskId: string, freshId: string): (Store, string)
    requires Valid(s)
  {
    match ExistingTaskId(s, name, queueName, payload, jobId, parentTaskId)
    case Some(id) => (s, id)
    case None => (NewTask(s, name, queueName, payload, jobId, parentTaskId, freshId), freshId)
  }

  /** The HMSET that creates a task under `id`. */
  function NewTask(s: Store, name: string, queueName: string, payload: Payload, jobId: string,
                   parentTaskId: string, id: string): Store
  {
    HSet(s, TaskKey(name, queueName, jobId, parentTaskId, id),
         TaskHash(id, name, queueName, EncodePayload(payload), jobId, parentTaskId))
  }

  /** The same task: a stored task with these four key fields whose payload matches. */
  ghost predicate SameTask(s: Store, k: StoreKey, name: string, queueName: string, payload: Payload,
                           jobId: string, parentTaskId: string)
  {
    && k in s.records && k.TaskKey? && WellFormed(k, s.records[k])
    && k == TaskKey(name, queueName, jobId, parentTaskId, k.id)
    && PayloadsMatch(StoredPayload(s, k), payload)
  }

  // ---------------------------------------------------------------- lemmas

  /** The scan finds an id exactly when some scanned task's payload matches, and the id it
      returns is that task's. */
  lemma {:induction false} ScanFinds(s: Store, keys: seq<StoreKey>, payload: Payload)
    requires StoredTasks(s, keys)
    ensures ScanForPayload(s, keys, payload).None? <==>
              forall k :: k in keys ==> !PayloadsMatch(StoredPayload(s, k), payload)
    ensures ScanForPayload(s, keys, payload).Some? ==>
              exists k :: k in keys && PayloadsMatch(StoredPayload(s, k), payload)
                          && ScanForPayload(s, keys, payload).value == k.id
  {
    if keys != [] {
      var k0 := keys[0];
      ScanFinds(s, keys[1..], payload);
      if PayloadsMatch(StoredPayload(s, k0), payload) {
        assert s.records[k0][IdField] == Str(k0.id);
        assert k0 in keys;
      } else {
        assert forall k :: k in keys <==> k == k0 || k in keys[1..];
      }
    }
  }

  /** Find-or-create returns without writing exactly when the same task is stored, and then
      returns the id of such a task. */
  lemma ExistingTaskIdFinds(s: Store, name: string, queueName: string, payload: Payload, jobId: string,
                            parentTaskId: string)
    requires Valid(s)
    ensures var r := ExistingTaskId(s, name, queueName, payload, jobId, parentTaskId);
      && (r.None? <==> forall k :: !SameTask(s, k, name, queueName, payload, jobId, parentTaskId))
      && (r.Some? ==> exists k :: SameTask(s, k, name, queueName, payload, jobId, parentTaskId) && r.value == k.id)
  {
    var keys := KeysMatching(s.listing, TaskIdentity(name, queueName, jobId, parentTaskId));
    IdentityKeys(s, name, queueName, jobId, parentTaskId);
    ScanFinds(s, keys, payload);
    assert forall k :: SameTask(s, k, name, queueName, payload, jobId, parentTaskId) <==>
                         k in keys && PayloadsMatch(StoredPayload(s, k), payload);
  }

  /** `KEYS task:<name>:<queue>:<job_id>:<parent_id>:*` lists exactly the stored tasks with
      those four segments. */
  lemma IdentityKeys(s: Store, name: string, queueName: string, jobId: string, parentTaskId: string)
    requires Valid(s)
    ensures var keys := KeysMatching(s.listing, TaskIdentity(name, queueName, jobId, parentTaskId));
      && StoredTasks(s, keys)
      && forall k :: k in keys <==> k in s.records && k == TaskKey(name, queueName, jobId, parentTaskId, k.id)
  {
  }

  /** Find-or-create keeps the keyspace invariant. */
  lemma FindOrPersistValid(s: Store, name: string, queueName: string, payload: Payload, jobId: string,
                           parentTaskId: string, freshId: string)
    requires Valid(s) && IdUnused(s, freshId)
    ensures Valid(FindOrPersistTask(s, name, queueName, payload, jobId, parentTaskId, freshId).0)
  {
    NewTaskValid(s, name, queueName, payload, jobId, parentTaskId, freshId);
  }

  lemma NewTaskValid(s: Store, name: string, queueName: string, payload: Payload, jobId: string,
                     parentTaskId: string, id: string)
    requires Valid(s) && IdUnused(s, id)
    ensures Valid(NewTask(s, name, queueName, payload, jobId, parentTaskId, id))
  {
    var k := TaskKey(name, queueName, jobId, parentTaskId, id);
    var h := TaskHash(id, name, queueName, EncodePayload(payload), jobId, parentTaskId);
    assert k !in s.records;
    TaskHashWellFormed(name, queueName, payload, jobId, parentTaskId, id);
    assert HGetAll(s, k) + h == h;
    HSetValid(s, k, h);
  }

  lemma TaskHashWellFormed(name: string, queueName: string, payload: Payload, jobId: string,
                           parentTaskId: string, id: string)
    ensures WellFormed(TaskKey(name, queueName, jobId, parentTaskId, id),
                       TaskHash(id, name, queueName, EncodePayload(payload), jobId, parentTaskId))
  {
  }

  /** When the same task is stored, find-or-create returns its id and the keyspace is
      unchanged. */
  lemma FindOrPersistFinds(s: Store, name: string, queueName: string, payload: Payload, jobId: string,
                           parentTaskId: string, freshId: string)
    requires Valid(s)
    requires exists k :: SameTask(s, k, name, queueName, payload, jobId, parentTaskId)
    ensures var (s', id) := FindOrPersistTask(s, name, queueName, payload, jobId, parentTaskId, freshId);
      && s' == s
      && exists k :: SameTask(s, k, name, queueName, payload, jobId, parentTaskId) && id == k.id
  {
    ExistingTaskIdFinds(s, name, queueName, payload, jobId, parentTaskId);
  }

  /** When no stored task with the same name, queue, job and parent has a matching payload,
      find-or-create adds exactly one key, `task:name:queue:job:parent:freshId`, whose fields
      are the arguments (the payload as JSON gives it back), changes no other key, and returns
      `freshId`. */
  lemma FindOrPersistCreates(s: Store, name: string, queueName: string, payload: Payload, jobId: string,
                             parentTaskId: string, freshId: string)
    requires Valid(s) && IdUnused(s, freshId)
    requires forall k :: !SameTask(s, k, name, queueName, payload, jobId, parentTaskId)
    ensures var (s', id) := FindOrPersistTask(s, name, queueName, payload, jobId, parentTaskId, freshId);
      var k := TaskKey(name, queueName, jobId, parentTaskId, freshId);
      && id == freshId
      && s'.records.Keys == s.records.Keys + {k}
      && |s'.records| == |s.records| + 1
      && (forall k' :: k' in s.records ==> s'.records[k'] == s.records[k'])
      && HasText(s'.records[k], IdField, freshId) && HasText(s'.records[k], NameField, name)
      && HasText(s'.records[k], QueueNameField, queueName) && HasText(s'.records[k], JobIdField, jobId)
      && HasText(s'.records[k], ParentTaskIdField, parentTaskId)
      && s'.records[k][PayloadField] == Doc(Object(EncodePayload(payload)))
      && PayloadsMatch(s'.records[k][PayloadField].doc.fields, payload)
  {
    ExistingTaskIdFinds(s, name, queueName, payload, jobId, parentTaskId);
    assert FindOrPersistTask(s, name, queueName, payload, jobId, parentTaskId, freshId)
        == (NewTask(s, name, queueName, payload, jobId, parentTaskId, freshId), freshId);
    NewTaskWrites(s, name, queueName, payload, jobId, parentTaskId, freshId);
    TaskHashFields(freshId, name, queueName, EncodePayload(payload), jobId, parentTaskId);
  }

  lemma TaskHashFields(id: string, name: string, queueName: string, payload: Payload, jobId: string, parentTaskId: string)
    ensures var h := TaskHash(id, name, queueName, payload, jobId, parentTaskId);
      && HasText(h, IdField, id) && HasText(h, NameField, name)
      && HasText(h, QueueNameField, queueName) && HasText(h, JobIdField, jobId)
      && HasText(h, ParentTaskIdField, parentTaskId)
      && h[PayloadField] == Doc(Object(payload))
  {
  }

  lemma NewTaskWrites(s: Store, name: string, queueName: string, payload: Payload, jobId: string,
                      parentTaskId: string, id: string)
    requires IdUnused(s, id)
    ensures var s' := NewTask(s, name, queueName, payload, jobId, parentTaskId, id);
      var k := TaskKey(name, queueName, jobId, parentTaskId, id);
      && s'.records.Keys == s.records.Keys + {k}
      && |s'.records| == |s.records| + 1
      && (forall k' :: k' in s.records ==> s'.records[k'] == s.records[k'])
      && s'.records[k] == TaskHash(id, name, queueName, EncodePayload(payload), jobId, parentTaskId)
      && PayloadsMatch(s'.records[k][PayloadField].doc.fields, payload)
  {
    var k := TaskKey(name, queueName, jobId, parentTaskId, id);
    assert k !in s.records;
    StoredPayloadMatches(payload);
  }

  /** Calling find-or-create twice with the same name, queue, payload, job and parent returns
      the same id both times, and the second call writes nothing. */
  lemma FindOrPersistIdempotent(s: Store, name: string, queueName: string, payload: Payload, jobId: string,
                                parentTaskId: string, freshId: string, freshId2: string)
    requires Valid(s) && IdUnused(s, freshId)
    ensures var (s1, id1) := FindOrPersistTask(s, name, queueName, payload, jobId, parentTaskId, freshId);
      Valid(s1) &&
      FindOrPersistTask(s1, name, queueName, payload, jobId, parentTaskId, freshId2) == (s1, id1)
  {
    var (s1, id1) := FindOrPersistTask(s, name, queueName, payload, jobId, parentTaskId, freshId);
    FindOrPersistValid(s, name, queueName, payload, jobId, parentTaskId, freshId);
    ExistingTaskIdFinds(s, name, queueName, payload, jobId, parentTaskId);
    if ExistingTaskId(s, name, queueName, payload, jobId, parentTaskId).None? {
      var k := TaskKey(name, queueName, jobId, parentTaskId, freshId);
      FindOrPersistCreates(s, name, queueName, payload, jobId, parentTaskId, freshId);
      assert SameTask(s1, k, name, queueName, payload, jobId, parentTaskId);
      forall k' | SameTask(s1, k', name, queueName, payload, jobId, parentTaskId) ensures k' == k {
        if k' != k {
          assert k' in s.records;
          assert SameTask(s, k', name, queueName, payload, jobId, parentTaskId);
        }
      }
      ExistingTaskIdFinds(s1, name, queueName, payload, jobId, parentTaskId);
    }
  }
}
