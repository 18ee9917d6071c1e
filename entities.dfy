/** Workflow, job and task records: how the adapter writes them and how its finders read them
    back (lib/qyu/store/redis/adapter.rb, the Workflow and Job sections and the task finders).

    Every operation here is a function of the keyspace. Writes give the new keyspace; the class
    in module Adapter performs them in place. */
module Entities {
  import opened Serialization
  import opened Keyspace

  // ---------------------------------------------------------------- patterns used by the adapter

  function WorkflowById(id: string): Pattern { WorkflowPattern(Any, Is(id)) }
  function WorkflowByName(name: string): Pattern { WorkflowPattern(Is(name), Any) }
  function AllJobs(): Pattern { JobPattern(Any) }
  function TaskById(id: string): Pattern { TaskPattern(Any, Any, Any, Any, Is(id)) }
  function TasksByJob(jobId: string): Pattern { TaskPattern(Any, Any, Is(jobId), Any, Any) }
  function TasksByJobAndName(jobId: string, name: string): Pattern {
    TaskPattern(Is(name), Any, Is(jobId), Any, Any)
  }
  function TasksByJobNameAndParent(jobId: string, name: string, parent: string): Pattern {
    TaskPattern(Is(name), Any, Is(jobId), Is(parent), Any)
  }

  /** `@client.keys(pattern).first` */
  function FirstKey(s: Store, p: Pattern): Option<StoreKey> {
    First(KeysMatching(s.listing, p))
  }

  /** `HGET key field`: nil when the field is absent. */
  datatype Field = Nil | Present(value: Value)

  function HGet(s: Store, k: StoreKey, f: string): Field {
    var r := HGetAll(s, k);
    if f in r then Present(r[f]) else Nil
  }

  // ---------------------------------------------------------------- record shapes

  /** The hash of a workflow with the given descriptor. */
  function WorkflowHash(name: string, id: string, descriptor: Json): Record {
    map[NameField := Str(name), IdField := Str(id), DescriptorField := Doc(descriptor)]
  }

  /** The hash of a job. */
  function JobHash(id: string, workflow: Json, payload: Json): Record {
    map[IdField := Str(id), WorkflowField := Doc(workflow), PayloadField := Doc(payload)]
  }

  // ---------------------------------------------------------------- workflows

  /** `persist_workflow(name, descriptor)` with `id` standing for the fresh UUID: the new
      keyspace and the hash returned to the caller (which holds the descriptor as given). */
  function PersistWorkflow(s: Store, name: string, descriptor: Json, id: string): (Store, Record) {
    (HSet(s, WorkflowKey(name, id), WorkflowHash(name, id, Encode(descriptor))),
     WorkflowHash(name, id, descriptor))
  }

  /** `find_workflow(id)` */
  function FindWorkflow(s: Store, id: string): Option<Record> {
    match FirstKey(s, WorkflowById(id))
    case None => None
    case Some(k) => Some(HGetAll(s, k))
  }

  /** `find_workflow_by_name(name)` */
  function FindWorkflowByName(s: Store, name: string): Option<Record> {
    match FirstKey(s, WorkflowByName(name))
    case None => None
    case Some(k) => Some(HGetAll(s, k))
  }

  // ---------------------------------------------------------------- jobs

  /** `persist_job(workflow, payload)` with `id` standing for the fresh UUID: the new keyspace
      and the hash returned to the caller (its id, and the workflow and payload as given). */
  function PersistJob(s: Store, workflow: Json, payload: Json, id: string): (Store, Record) {
    (HSet(s, JobKey(id), JobHash(id, Encode(workflow), Encode(payload))),
     JobHash(id, workflow, payload))
  }

  /** `find_job(id)`: nil when HGETALL gives the empty hash. */
  function FindJob(s: Store, id: string): Option<Record> {
    var job := HGetAll(s, JobKey(id));
    if job == map[] then None else Some(job[IdField := Str(id)])
  }

  /** The job keys in enumeration order. */
  function JobKeys(s: Store): seq<StoreKey> {
    KeysMatching(s.listing, AllJobs())
  }

  /** Ruby's `array[start, length]`: a negative start counts from the end; a start before the
      beginning or past the end, or a negative length, gives nil; a start equal to the size
      gives the empty array. */
  function RubySlice<T>(xs: seq<T>, start: int, length: int): Option<seq<T>> {
    var st := if start < 0 then start + |xs| else start;
    if st < 0 || st > |xs| || length < 0 then None
    else Some(xs[st..if st + length < |xs| then st + length else |xs|])
  }

  /** `select_jobs(limit, offset)`; the ordering argument is ignored, as in the source. */
  function SelectJobs(s: Store, limit: int, offset: int): seq<Record> {
    match RubySlice(JobKeys(s), offset, limit)
    case None => []
    case Some(part) => seq(|part|, i requires 0 <= i < |part| => HGetAll(s, part[i]))
  }

  /** `count_jobs` */
  function CountJobs(s: Store): nat {
    |JobKeys(s)|
  }

  // ---------------------------------------------------------------- tasks

  /** `find_task(id)` */
  function FindTask(s: Store, id: string): Option<Record> {
    match FirstKey(s, TaskById(id))
    case None => None
    case Some(k) => Some(HGetAll(s, k))
  }

  /** Ruby's `uniq`: the first occurrence of each element, in order. */
  function Uniq<T(==,!new)>(xs: seq<T>): (r: seq<T>)
    ensures forall x :: x in r <==> x in xs
    ensures Distinct(r)
    ensures |r| <= |xs|
  {
    if xs == [] then []
    else
      var rest := Uniq(xs[..|xs| - 1]);
      assert forall x :: x in xs <==> x in xs[..|xs| - 1] || x == xs[|xs| - 1];
      if xs[|xs| - 1] in rest then rest else rest + [xs[|xs| - 1]]
  }

  /** `task_keys.map { |task_key| @client.hget(task_key, 'id') }.uniq`, nil for no keys. */
  function IdsOf(s: Store, keys: seq<StoreKey>): Option<seq<Field>> {
    if keys == [] then None
    else Some(Uniq(seq(|keys|, i requires 0 <= i < |keys| => HGet(s, keys[i], IdField))))
  }

  /** `find_task_ids_by_job_id_and_name(job_id, name)` */
  function FindTaskIdsByJobIdAndName(s: Store, jobId: string, name: string): Option<seq<Field>> {
    IdsOf(s, KeysMatching(s.listing, TasksByJobAndName(jobId, name)))
  }

  /** `parent_task_ids.flat_map { |p| @client.keys("task:<name>:*:<job_id>:<p>:*") }` */
  function ChildKeys(s: Store, jobId: string, name: string, parents: seq<string>): (r: seq<StoreKey>)
    ensures forall k :: k in r <==>
      k in s.listing && k.TaskKey? && k.name == name && k.jobId == jobId && k.parentTaskId in parents
  {
    if parents == [] then []
    else
      var first := KeysMatching(s.listing, TasksByJobNameAndParent(jobId, name, parents[0]));
      var rest := ChildKeys(s, jobId, name, parents[1..]);
      assert forall p :: p in parents <==> p == parents[0] || p in parents[1..];
      first + rest
  }

  /** `find_task_ids_by_job_id_name_and_parent_task_ids(job_id, name, parent_task_ids)` */
  function FindTaskIdsByJobIdNameAndParentTaskIds(s: Store, jobId: string, name: string, parents: seq<string>)
    : Option<seq<Field>>
  {
    IdsOf(s, ChildKeys(s, jobId, name, parents))
  }

  /** `select_tasks_by_job_id(job_id)`: nil when the job has no task. */
  function SelectTasksByJobId(s: Store, jobId: string): Option<seq<Record>> {
    var keys := KeysMatching(s.listing, TasksByJob(jobId));
    if keys == [] then None
    else Some(seq(|keys|, i requires 0 <= i < |keys| => HGetAll(s, keys[i])))
  }

  // ---------------------------------------------------------------- lemmas: lookups by id

  /** `.first` on the `KEYS` result is nil exactly when no stored key matches the pattern, and
      otherwise some stored key that matches. */
  lemma FirstKeyMatch(s: Store, p: Pattern)
    requires Valid(s)
    ensures FirstKey(s, p).None? <==> MatchingKeys(s, p) == {}
    ensures FirstKey(s, p).Some? ==> FirstKey(s, p).value in MatchingKeys(s, p)
  {
    var ks := KeysMatching(s.listing, p);
    if ks != [] {
      assert ks[0] in MatchingKeys(s, p);
    }
    if MatchingKeys(s, p) != {} {
      var k :| k in MatchingKeys(s, p);
      assert k in ks;
    }
  }

  /** A key written under a fresh id is the only stored match of a pattern that fixes that id. */
  lemma FreshKeyOnlyMatch(s: Store, k: StoreKey, fields: Record, p: Pattern)
    requires IdUnused(s, k.id) && Matches(p, k)
    requires forall k' :: Matches(p, k') ==> k'.id == k.id
    ensures MatchingKeys(HSet(s, k, fields), p) == {k}
  {
  }

  ghost predicate IsTask(s: Store, k: StoreKey, id: string) {
    k in s.records && k.TaskKey? && k.id == id
  }

  /** The task key the lock operations, `find_task` and `update_status` look up is the one
      stored task key with that id, when there is one. */
  lemma FirstTaskKey(s: Store, id: string)
    requires Valid(s)
    ensures FirstKey(s, TaskById(id)).None? <==> forall k :: !IsTask(s, k, id)
    ensures forall k :: IsTask(s, k, id) ==> FirstKey(s, TaskById(id)) == Some(k)
  {
    FirstKeyMatch(s, TaskById(id));
    assert forall k :: IsTask(s, k, id) <==> k in MatchingKeys(s, TaskById(id));
  }
  /** `find_task(id)` returns the hash of the task with that id, and nil when there is none. */
  lemma FindTaskFinds(s: Store, id: string)
    requires Valid(s)
    ensures FindTask(s, id).None? <==> forall k :: !IsTask(s, k, id)
    ensures forall k :: IsTask(s, k, id) ==> FindTask(s, id) == Some(s.records[k])
  {
    FirstTaskKey(s, id);
  }

  // ---------------------------------------------------------------- lemmas: workflows

  /** Persisting a workflow under a fresh id keeps the keyspace invariant. */
  lemma PersistWorkflowValid(s: Store, name: string, descriptor: Json, id: string)
    requires Valid(s) && IdUnused(s, id)
    ensures Valid(PersistWorkflow(s, name, descriptor, id).0)
  {
    HSetValid(s, WorkflowKey(name, id), WorkflowHash(name, id, Encode(descriptor)));
  }

  /** After `persist_workflow(name, descriptor)` returns id `id`, `find_workflow(id)` returns that
      name, id and descriptor (as JSON gives it back), and exactly one key was added. */
  lemma PersistThenFindWorkflow(s: Store, name: string, descriptor: Json, id: string)
    requires Valid(s) && IdUnused(s, id)
    ensures var s' := PersistWorkflow(s, name, descriptor, id).0;
      && s'.records.Keys == s.records.Keys + {WorkflowKey(name, id)}
      && |s'.records| == |s.records| + 1
      && FindWorkflow(s', id) == Some(WorkflowHash(name, id, Encode(descriptor)))
  {
    var k := WorkflowKey(name, id);
    var s' := PersistWorkflow(s, name, descriptor, id).0;
    PersistWorkflowValid(s, name, descriptor, id);
    assert k !in s.records;
    FreshKeyOnlyMatch(s, k, WorkflowHash(name, id, Encode(descriptor)), WorkflowById(id));
    FirstKeyMatch(s', WorkflowById(id));
  }

  /** After `persist_workflow(name, descriptor)`, `find_workflow_by_name(name)` finds a workflow
      of that name; it is the new one when no workflow had that name before (names are not
      checked for uniqueness). */
  lemma PersistThenFindWorkflowByName(s: Store, name: string, descriptor: Json, id: string)
    requires Valid(s) && IdUnused(s, id)
    ensures var found := FindWorkflowByName(PersistWorkflow(s, name, descriptor, id).0, name);
      && found.Some? && HasText(found.value, NameField, name)
      && ((forall k :: k in s.records ==> !(k.WorkflowKey? && k.name == name)) ==>
            found == Some(WorkflowHash(name, id, Encode(descriptor))))
  {
    var s' := PersistWorkflow(s, name, descriptor, id).0;
    PersistWorkflowValid(s, name, descriptor, id);
    FirstKeyMatch(s', WorkflowByName(name));
    assert WorkflowKey(name, id) in MatchingKeys(s', WorkflowByName(name));
    if forall k :: k in s.records ==> !(k.WorkflowKey? && k.name == name) {
      OnlyWorkflowNamed(s, name, descriptor, id);
    }
  }

  /** When no workflow had the name, the new one is the only workflow of that name. */
  lemma OnlyWorkflowNamed(s: Store, name: string, descriptor: Json, id: string)
    requires forall k :: k in s.records ==> !(k.WorkflowKey? && k.name == name)
    requires forall k :: k in s.records <==> k in s.listing
    ensures MatchingKeys(PersistWorkflow(s, name, descriptor, id).0, WorkflowByName(name)) == {WorkflowKey(name, id)}
  {
  }

  /** A descriptor whose keys are all strings comes back from `find_workflow` exactly as it was
      returned by `persist_workflow`. */
  lemma PersistFindWorkflowRoundTrip(s: Store, name: string, descriptor: Json, id: string)
    requires Valid(s) && IdUnused(s, id) && Plain(descriptor)
    ensures var (s', returned) := PersistWorkflow(s, name, descriptor, id);
      FindWorkflow(s', id) == Some(returned)
  {
    PersistThenFindWorkflow(s, name, descriptor, id);
    EncodePlain(descriptor);
  }

  /** `find_workflow(id)` returns a stored workflow hash with that id, or nil when there is none. */
  lemma FindWorkflowFinds(s: Store, id: string)
    requires Valid(s)
    ensures FindWorkflow(s, id).None? <==> forall k :: k in s.records ==> !(k.WorkflowKey? && k.id == id)
    ensures forall k :: k in s.records && k.WorkflowKey? && k.id == id ==> FindWorkflow(s, id) == Some(s.records[k])
  {
    FirstKeyMatch(s, WorkflowById(id));
  }

  /** `find_workflow_by_name(name)` returns nil exactly when no stored workflow has that name, and
      otherwise the hash of some stored workflow of that name (names are not kept unique). */
  lemma FindWorkflowByNameFinds(s: Store, name: string)
    requires Valid(s)
    ensures FindWorkflowByName(s, name).None? <==> forall k :: k in s.records ==> !(k.WorkflowKey? && k.name == name)
    ensures FindWorkflowByName(s, name).Some? ==>
      exists k :: k in s.records && k.WorkflowKey? && k.name == name && FindWorkflowByName(s, name) == Some(s.records[k])
  {
    FirstKeyMatch(s, WorkflowByName(name));
  }

  // ---------------------------------------------------------------- lemmas: jobs

  lemma PersistJobValid(s: Store, workflow: Json, payload: Json, id: string)
    requires Valid(s) && IdUnused(s, id)
    ensures Valid(PersistJob(s, workflow, payload, id).0)
  {
    HSetValid(s, JobKey(id), JobHash(id, Encode(workflow), Encode(payload)));
  }

  /** After `persist_job(workflow, payload)` returns a job, `find_job` on the returned id gives
      that id, workflow and payload (as JSON gives them back). */
  lemma PersistThenFindJob(s: Store, workflow: Json, payload: Json, id: string)
    requires Valid(s) && IdUnused(s, id)
    ensures var (s', job) := PersistJob(s, workflow, payload, id);
      && IdField in job && job[IdField].Str?
      && FindJob(s', job[IdField].s) == Some(JobHash(job[IdField].s, Encode(workflow), Encode(payload)))
  {
    assert JobKey(id) !in s.records;
    var h := JobHash(id, Encode(workflow), Encode(payload));
    assert h[IdField := Str(id)] == h;
    assert IdField in h;
  }

  /** With string keys only, the job comes back exactly as `persist_job` returned it. */
  lemma PersistFindJobRoundTrip(s: Store, workflow: Json, payload: Json, id: string)
    requires Valid(s) && IdUnused(s, id) && Plain(workflow) && Plain(payload)
    ensures var (s', returned) := PersistJob(s, workflow, payload, id);
      IdField in returned && returned[IdField].Str? && FindJob(s', returned[IdField].s) == Some(returned)
  {
    PersistThenFindJob(s, workflow, payload, id);
    EncodePlain(workflow);
    EncodePlain(payload);
  }

  /** `find_job(id)` is nil exactly when no job has that id, and the stored hash otherwise. */
  lemma FindJobFinds(s: Store, id: string)
    requires Valid(s)
    ensures FindJob(s, id).None? <==> JobKey(id) !in s.records
    ensures JobKey(id) in s.records ==> FindJob(s, id) == Some(s.records[JobKey(id)])
  {
    if JobKey(id) in s.records {
      var r := s.records[JobKey(id)];
      assert IdField in r;
      assert r[IdField := Str(id)] == r;
    }
  }

  /** The stored jobs. */
  ghost function StoredJobs(s: Store): set<StoreKey> {
    set k | k in s.records && k.JobKey?
  }

  /** `count_jobs` is the number of stored jobs. */
  lemma CountJobsCounts(s: Store)
    requires Valid(s)
    ensures CountJobs(s) == |StoredJobs(s)|
  {
    CountMatching(s, AllJobs());
    assert MatchingKeys(s, AllJobs()) == StoredJobs(s);
  }

  /** `persist_job` raises `count_jobs` by exactly one. */
  lemma PersistJobCounts(s: Store, workflow: Json, payload: Json, id: string)
    requires Valid(s) && IdUnused(s, id)
    ensures CountJobs(PersistJob(s, workflow, payload, id).0) == CountJobs(s) + 1
  {
    var s' := PersistJob(s, workflow, payload, id).0;
    PersistJobValid(s, workflow, payload, id);
    CountJobsCounts(s);
    CountJobsCounts(s');
    PersistJobAddsOneJob(s, workflow, payload, id);
  }

  lemma PersistJobAddsOneJob(s: Store, workflow: Json, payload: Json, id: string)
    requires IdUnused(s, id)
    ensures StoredJobs(PersistJob(s, workflow, payload, id).0) == StoredJobs(s) + {JobKey(id)}
    ensures JobKey(id) !in StoredJobs(s)
  {
  }
  /** `select_jobs(limit, offset)` returns nothing for a negative limit, an offset at or past
      the number of jobs, or a negative offset that reaches back before the first job. */
  lemma SelectJobsEmpty(s: Store, limit: int, offset: int)
    requires limit < 0 || offset >= CountJobs(s) || offset + CountJobs(s) < 0
    ensures SelectJobs(s, limit, offset) == []
  {
  }

  /** A negative offset counts back from the end of the job list, as in Ruby's
      `array[start, length]`. */
  lemma SelectJobsFromEnd(s: Store, limit: int, offset: int)
    requires offset < 0 <= offset + CountJobs(s)
    ensures SelectJobs(s, limit, offset) == SelectJobs(s, limit, offset + CountJobs(s))
  {
  }

  /** For an offset within the job list and a non-negative limit, `select_jobs` returns `limit`
      jobs, or all the remaining ones when fewer are left, taken from position `offset` on. */
  lemma SelectJobsWindow(s: Store, limit: int, offset: int)
    requires 0 <= offset <= CountJobs(s) && 0 <= limit
    ensures var r := SelectJobs(s, limit, offset);
      && |r| == (if offset + limit <= CountJobs(s) then limit else CountJobs(s) - offset)
      && forall i :: 0 <= i < |r| ==> r[i] == HGetAll(s, JobKeys(s)[offset + i])
  {
  }

  /** Every hash `select_jobs` returns is a stored job. */
  lemma SelectJobsStored(s: Store, limit: int, offset: int)
    requires Valid(s)
    ensures var r := SelectJobs(s, limit, offset);
      forall i :: 0 <= i < |r| ==> exists k :: k in s.records && k.JobKey? && r[i] == s.records[k]
  {
    var r := SelectJobs(s, limit, offset);
    SelectJobsFromKeys(s, limit, offset);
    forall i | 0 <= i < |r| ensures exists k :: k in s.records && k.JobKey? && r[i] == s.records[k] {
      assert r[i] in r;
      var k :| k in JobKeys(s) && r[i] == HGetAll(s, k);
    }
  }

  lemma SelectJobsFromKeys(s: Store, limit: int, offset: int)
    ensures forall t :: t in SelectJobs(s, limit, offset) ==> exists k :: k in JobKeys(s) && t == HGetAll(s, k)
  {
    var r := SelectJobs(s, limit, offset);
    var keys := JobKeys(s);
    forall t | t in r ensures exists k :: k in keys && t == HGetAll(s, k) {
      var i :| 0 <= i < |r| && r[i] == t;
      var st := if offset < 0 then offset + |keys| else offset;
      var part := RubySlice(keys, offset, limit).value;
      assert part[i] == keys[st + i];
      assert keys[st + i] in keys;
    }
  }

  // ---------------------------------------------------------------- lemmas: task finders

  /** Ids read from well-formed task hashes are the ids of their keys. */
  lemma IdsOfKeys(s: Store, keys: seq<StoreKey>)
    requires Valid(s)
    requires forall k :: k in keys ==> k in s.records
    ensures IdsOf(s, keys).None? <==> keys == []
    ensures IdsOf(s, keys).Some? ==> Distinct(IdsOf(s, keys).value)
    ensures IdsOf(s, keys).Some? ==>
      forall v :: v in IdsOf(s, keys).value <==> exists k :: k in keys && v == Present(Str(k.id))
  {
    if keys != [] {
      forall k | k in keys ensures HGet(s, k, IdField) == Present(Str(k.id)) {
        assert WellFormed(k, s.records[k]);
      }
      IdFieldsOf(s, keys);
    }
  }

  /** The id fields read from hashes that hold their keys' ids are exactly those ids. */
  lemma IdFieldsOf(s: Store, keys: seq<StoreKey>)
    requires forall k :: k in keys ==> HGet(s, k, IdField) == Present(Str(k.id))
    ensures var raw := seq(|keys|, i requires 0 <= i < |keys| => HGet(s, keys[i], IdField));
      forall v :: v in raw <==> exists k :: k in keys && v == Present(Str(k.id))
  {
    var raw := seq(|keys|, i requires 0 <= i < |keys| => HGet(s, keys[i], IdField));
    forall v ensures v in raw <==> exists k :: k in keys && v == Present(Str(k.id)) {
      if v in raw {
        var i :| 0 <= i < |keys| && raw[i] == v;
        assert keys[i] in keys;
      }
      if exists k :: k in keys && v == Present(Str(k.id)) {
        var k :| k in keys && v == Present(Str(k.id));
        var i :| 0 <= i < |keys| && keys[i] == k;
        assert raw[i] == v;
      }
    }
  }

  /** `find_task_ids_by_job_id_and_name`: nil when the job has no task of that name; otherwise
      each id of such a task, once. */
  lemma FindTaskIdsByJobIdAndNameFinds(s: Store, jobId: string, name: string)
    requires Valid(s)
    ensures var r := FindTaskIdsByJobIdAndName(s, jobId, name);
      && (r.None? <==> forall k :: k in s.records ==> !(k.TaskKey? && k.jobId == jobId && k.name == name))
      && (r.Some? ==> Distinct(r.value))
      && (r.Some? ==> forall v :: v in r.value <==>
            exists k :: k in s.records && k.TaskKey? && k.jobId == jobId && k.name == name && v == Present(Str(k.id)))
  {
    var keys := KeysMatching(s.listing, TasksByJobAndName(jobId, name));
    IdsOfKeys(s, keys);
    if keys == [] {
      forall k | k in s.records ensures !(k.TaskKey? && k.jobId == jobId && k.name == name) {
        assert !Matches(TasksByJobAndName(jobId, name), k);
      }
    } else {
      assert Matches(TasksByJobAndName(jobId, name), keys[0]);
    }
  }

  /** `find_task_ids_by_job_id_name_and_parent_task_ids`: nil when no task of that job and name
      has one of the parents; otherwise each id of such a task, once. */
  lemma FindTaskIdsByParentsFinds(s: Store, jobId: string, name: string, parents: seq<string>)
    requires Valid(s)
    ensures var r := FindTaskIdsByJobIdNameAndParentTaskIds(s, jobId, name, parents);
      && (r.None? <==> forall k :: k in s.records ==>
            !(k.TaskKey? && k.jobId == jobId && k.name == name && k.parentTaskId in parents))
      && (r.Some? ==> Distinct(r.value))
      && (r.Some? ==> forall v :: v in r.value <==>
            exists k :: k in s.records && k.TaskKey? && k.jobId == jobId && k.name == name
                        && k.parentTaskId in parents && v == Present(Str(k.id)))
  {
    var keys := ChildKeys(s, jobId, name, parents);
    IdsOfKeys(s, keys);
    if keys != [] {
      assert keys[0] in keys;
    }
  }

  /** `select_tasks_by_job_id` is nil exactly when the job has no task. */
  lemma SelectTasksByJobIdNil(s: Store, jobId: string)
    requires Valid(s)
    ensures SelectTasksByJobId(s, jobId).None? <==> forall k :: k in s.records ==> !(k.TaskKey? && k.jobId == jobId)
  {
    var p := TasksByJob(jobId);
    var keys := KeysMatching(s.listing, p);
    if keys == [] {
      forall k | k in s.records ensures !(k.TaskKey? && k.jobId == jobId) {
        assert k !in keys;
      }
    } else {
      assert keys[0] in keys;
    }
  }

  /** Otherwise it holds the hash of every task of the job, one entry per task. */
  lemma SelectTasksByJobIdFinds(s: Store, jobId: string)
    requires Valid(s)
    requires SelectTasksByJobId(s, jobId).Some?
    ensures var r := SelectTasksByJobId(s, jobId).value;
      && |r| == |set k | k in s.records && k.TaskKey? && k.jobId == jobId|
      && (forall k :: k in s.records && k.TaskKey? && k.jobId == jobId ==> s.records[k] in r)
      && (forall t :: t in r ==> exists k :: k in s.records && k.TaskKey? && k.jobId == jobId && t == s.records[k])
  {
    SelectTasksByJobIdCount(s, jobId);
    SelectTasksByJobIdMembers(s, jobId);
  }

  lemma SelectTasksByJobIdCount(s: Store, jobId: string)
    requires Valid(s)
    requires SelectTasksByJobId(s, jobId).Some?
    ensures |SelectTasksByJobId(s, jobId).value| == |set k | k in s.records && k.TaskKey? && k.jobId == jobId|
  {
    var p := TasksByJob(jobId);
    CountMatching(s, p);
    TasksOfJob(s, jobId);
  }

  lemma TasksOfJob(s: Store, jobId: string)
    ensures MatchingKeys(s, TasksByJob(jobId)) == set k | k in s.records && k.TaskKey? && k.jobId == jobId
  {
  }

  lemma SelectTasksByJobIdMembers(s: Store, jobId: string)
    requires Valid(s)
    requires SelectTasksByJobId(s, jobId).Some?
    ensures var r := SelectTasksByJobId(s, jobId).value;
      && (forall k :: k in s.records && k.TaskKey? && k.jobId == jobId ==> s.records[k] in r)
      && (forall t :: t in r ==> exists k :: k in s.records && k.TaskKey? && k.jobId == jobId && t == s.records[k])
  {
    var keys := KeysMatching(s.listing, TasksByJob(jobId));
    var r := SelectTasksByJobId(s, jobId).value;
    forall k | k in s.records && k.TaskKey? && k.jobId == jobId ensures s.records[k] in r {
      assert k in keys;
      var i :| 0 <= i < |keys| && keys[i] == k;
      assert r[i] == s.records[k];
    }
    forall t | t in r ensures exists k :: k in s.records && k.TaskKey? && k.jobId == jobId && t == s.records[k] {
      var i :| 0 <= i < |r| && r[i] == t;
      assert keys[i] in keys;
    }
  }
}
