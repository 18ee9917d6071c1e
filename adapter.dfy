/** The adapter object (lib/qyu/store/redis/adapter.rb): its writes performed in place on the
    keyspace it holds. `records` and `listing` are the Redis database behind the client; each
    method changes them as the corresponding command sequence does, and its postcondition ties
    the new keyspace and the reply to the functions of modules Entities, TaskDedup and TaskState,
    whose properties are proved there. The keyspace invariant holds between calls. */
module Adapter {
  import opened Serialization
  import opened Payloads
  import opened Keyspace
  import Entities
  import TaskDedup
  import TaskState

  class RedisAdapter {
    var records: map<StoreKey, Record>
    var listing: seq<StoreKey>

    /** The keyspace as a value. */
    function State(): Store
      reads this
    {
      Store(records, listing)
    }

    ghost predicate Valid()
      reads this
    {
      Keyspace.Valid(State())
    }

    /** `initialize(config)`: a client attached to an existing database `s`, whose contents the
        adapter's earlier writes left valid (an empty database is one such). */
    constructor(s: Store)
      requires Keyspace.Valid(s)
      ensures Valid() && State() == s
    {
      records := s.records;
      listing := s.listing;
    }

    /** `HMSET key f1 v1 ...` */
    method HMSet(k: StoreKey, fields: Record)
      modifies this
      ensures State() == HSet(old(State()), k, fields)
    {
      if k in records {
        records := records[k := records[k] + fields];
      } else {
        records := records[k := fields];
        listing := listing + [k];
      }
    }

    /** `persist_workflow(name, descriptor)`; `id` is the generated UUID. */
    method PersistWorkflow(name: string, descriptor: Json, id: string) returns (workflow: Record)
      requires Valid() && IdUnused(State(), id)
      modifies this
      ensures Valid()
      ensures (State(), workflow) == Entities.PersistWorkflow(old(State()), name, descriptor, id)
    {
      Entities.PersistWorkflowValid(State(), name, descriptor, id);
      HMSet(WorkflowKey(name, id), Entities.WorkflowHash(name, id, Encode(descriptor)));
      workflow := Entities.WorkflowHash(name, id, descriptor);
    }

    /** `persist_job(workflow, payload)`, which returns the new job hash (line 61); `id` is the
        generated UUID. */
    method PersistJob(workflow: Json, payload: Json, id: string) returns (job: Record)
      requires Valid() && IdUnused(State(), id)
      modifies this
      ensures Valid()
      ensures (State(), job) == Entities.PersistJob(old(State()), workflow, payload, id)
    {
      Entities.PersistJobValid(State(), workflow, payload, id);
      HMSet(JobKey(id), Entities.JobHash(id, Encode(workflow), Encode(payload)));
      job := Entities.JobHash(id, workflow, payload);
    }

    /** `find_or_persist_task(name, queue_name, payload, job_id, parent_task_id)`: scans the
        tasks with the same name, queue, job and parent for one whose stored payload matches,
        and creates the task under `freshId` when none does. */
    method FindOrPersistTask(name: string, queueName: string, payload: Payload, jobId: string,
                             parentTaskId: string, freshId: string) returns (taskId: string)
      requires Valid() && IdUnused(State(), freshId)
      modifies this
      ensures Valid()
      ensures (State(), taskId) == TaskDedup.FindOrPersistTask(old(State()), name, queueName, payload, jobId, parentTaskId, freshId)
    {
      ghost var s := State();
      var existentKeys := KeysMatching(listing, TaskDedup.TaskIdentity(name, queueName, jobId, parentTaskId));
      TaskDedup.IdentityKeys(s, name, queueName, jobId, parentTaskId);
      var found := ScanExistent(existentKeys, payload);
      if found.Some? {
        taskId := found.value;
      } else {
        TaskDedup.NewTaskValid(s, name, queueName, payload, jobId, parentTaskId, freshId);
        taskId := freshId;
        HMSet(TaskKey(name, queueName, jobId, parentTaskId, taskId),
              TaskDedup.TaskHash(taskId, name, queueName, EncodePayload(payload), jobId, parentTaskId));
      }
    }

    /** The loop of `find_or_persist_task` over `existent_keys`: reads each task and stops at
        the first whose stored payload matches, giving its id. */
    method ScanExistent(existentKeys: seq<StoreKey>, payload: Payload) returns (taskId: Option<string>)
      requires TaskDedup.StoredTasks(State(), existentKeys)
      ensures taskId == TaskDedup.ScanForPayload(State(), existentKeys, payload)
    {
      var i := 0;
      while i < |existentKeys|
        invariant i <= |existentKeys|
        invariant TaskDedup.ScanForPayload(State(), existentKeys, payload)
                    == TaskDedup.ScanForPayload(State(), existentKeys[i..], payload)
      {
        var task := records[existentKeys[i]];
        var taskPayload := task[PayloadField].doc.fields;
        if PayloadsMatch(taskPayload, payload) {
          return Some(task[IdField].s);
        }
        assert existentKeys[i..][1..] == existentKeys[i + 1..];
        i := i + 1;
      }
      return None;
    }

    /** `lock_task!(id, lease_time)` at clock reading `now`; `token` is the generated UUID. */
    method LockTask(id: string, leaseTime: int, now: int, token: string) returns (lease: Option<TaskState.Lease>)
      requires Valid()
      modifies this
      ensures Valid()
      ensures (State(), lease) == TaskState.LockTask(old(State()), id, leaseTime, now, token)
    {
      TaskState.LeaseOperationsValid(State(), id, leaseTime, now, token, "");
      var taskKey := Entities.FirstKey(State(), Entities.TaskById(id));
      if taskKey.None? {
        return None;
      }
      var task := HGetAll(State(), taskKey.value);
      if TaskState.Lockable(task, now) {
        var lockedUntil := TaskState.SecondsAfterTime(leaseTime, now);
        HMSet(taskKey.value, map[LockedByField := Str(token), LockedUntilField := Time(lockedUntil)]);
        lease := Some(TaskState.Lease(token, lockedUntil));
      } else {
        lease := None;
      }
    }

    /** `unlock_task!(id, lease_token)` */
    method UnlockTask(id: string, token: string) returns (ok: bool)
      requires Valid()
      modifies this
      ensures Valid()
      ensures (State(), ok) == TaskState.UnlockTask(old(State()), id, token)
    {
      var taskKey := Entities.FirstKey(State(), Entities.TaskById(id));
      if taskKey.None? {
        return false;
      }
      var k := taskKey.value;
      if k in records && TaskState.HeldWith(records[k], token) {
        TaskState.ClearLeaseValid(State(), k);
        records := records[k := records[k] - {LockedByField, LockedUntilField}];
        ok := true;
      } else {
        ok := false;
      }
    }

    /** `renew_lock_lease(id, lease_time, lease_token)` at clock reading `now`. */
    method RenewLockLease(id: string, leaseTime: int, token: string, now: int) returns (lockedUntil: Option<int>)
      requires Valid()
      modifies this
      ensures Valid()
      ensures (State(), lockedUntil) == TaskState.RenewLockLease(old(State()), id, leaseTime, token, now)
    {
      TaskState.LeaseOperationsValid(State(), id, leaseTime, now, token, "");
      var taskKey := Entities.FirstKey(State(), Entities.TaskById(id));
      if taskKey.None? {
        return None;
      }
      var task := HGetAll(State(), taskKey.value);
      var leaseEnd := TaskState.LeaseEnd(task);
      if leaseEnd.Some? && TaskState.HeldWith(task, token) && leaseEnd.value > now {
        var until := TaskState.SecondsAfterTime(leaseTime, now);
        HMSet(taskKey.value, map[LockedUntilField := Time(until)]);
        lockedUntil := Some(until);
      } else {
        lockedUntil := None;
      }
    }

    /** `update_status(id, status)` */
    method UpdateStatus(id: string, status: string) returns (ok: Option<bool>)
      requires Valid()
      modifies this
      ensures Valid()
      ensures (State(), ok) == TaskState.UpdateStatus(old(State()), id, status)
    {
      TaskState.LeaseOperationsValid(State(), id, 0, 0, "", status);
      var taskKey := Entities.FirstKey(State(), Entities.TaskById(id));
      if taskKey.None? {
        return None;
      }
      HMSet(taskKey.value, map[StatusField := Str(status)]);
      ok := Some(true);
    }
  }
}
