/** The state a worker changes on a stored task: its lease and its status (lib/qyu/store/redis/adapter.rb lines 166-221).

    A worker takes a task by writing a lease into the task's hash: `locked_by`, a token only
    the worker knows, and `locked_until`, the time the lease runs out. A task can be locked when
    it holds no lease or its lease has run out; only the holder of the token can release or
    extend the lease, and only while it runs. Time is whole seconds: `now` stands for the clock
    reading each call makes, and `token` for the UUID `lock_task!` generates. `update_status`
    writes the status field of a task and touches nothing else. */
module TaskState {
  import opened Keyspace
  import opened Entities

  /** The lease handed to the worker that locked a task. */
  datatype Lease = Lease(token: string, lockedUntil: int)

  /** `seconds_after_time(seconds, start_time)` */
  function SecondsAfterTime(seconds: int, start: int): int {
    start + seconds
  }

  /** The end of a task's lease, when it holds one. */
  function LeaseEnd(r: Record): Option<int> {
    if LockedUntilField in r && r[LockedUntilField].Time? then Some(r[LockedUntilField].t) else None
  }

  /** The task can be locked at `now`: it holds no lease, or its lease ended before `now`. */
  predicate Lockable(r: Record, now: int) {
    match LeaseEnd(r)
    case None => true
    case Some(t) => t < now
  }

  /** The task's lease is held with `token`. */
  predicate HeldWith(r: Record, token: string) {
    LockedByField in r && r[LockedByField] == Str(token)
  }

  /** `lock_task!(id, lease_time)`: the new keyspace and the lease, or nil when there is no
      such task or its lease still runs. */
  function LockTask(s: Store, id: string, leaseTime: int, now: int, token: string): (Store, Option<Lease>) {
    match FirstKey(s, TaskById(id))
    case None => (s, None)
    case Some(k) =>
      if Lockable(HGetAll(s, k), now) then
        var until := SecondsAfterTime(leaseTime, now);
        (HSet(s, k, map[LockedByField := Str(token), LockedUntilField := Time(until)]), Some(Lease(token, until)))
      else (s, None)
  }

  /** The task's hash with its lease removed. */
  function ClearLease(s: Store, k: StoreKey): Store
    requires k in s.records
  {
    Store(s.records[k := s.records[k] - {LockedByField, LockedUntilField}], s.listing)
  }

  /** `unlock_task!(id, lease_token)`: releases the lease when `token` holds it. */
  function UnlockTask(s: Store, id: string, token: string): (Store, bool) {
    match FirstKey(s, TaskById(id))
    case None => (s, false)
    case Some(k) =>
      if k in s.records && HeldWith(s.records[k], token) then (ClearLease(s, k), true) else (s, false)
  }

  /** `renew_lock_lease(id, lease_time, lease_token)`: moves the end of a running lease held
      with `token` to `leaseTime` seconds after `now`, and returns it. */
  function RenewLockLease(s: Store, id: string, leaseTime: int, token: string, now: int): (Store, Option<int>) {
    match FirstKey(s, TaskById(id))
    case None => (s, None)
    case Some(k) =>
      var r := HGetAll(s, k);
      match LeaseEnd(r)
      case None => (s, None)
      case Some(t) =>
        if HeldWith(r, token) && t > now then
          var until := SecondsAfterTime(leaseTime, now);
          (HSet(s, k, map[LockedUntilField := Time(until)]), Some(until))
        else (s, None)
  }

  /** `update_status(id, status)`: nil when there is no such task, true once written. */
  function UpdateStatus(s: Store, id: string, status: string): (Store, Option<bool>) {
    match FirstKey(s, TaskById(id))
    case None => (s, None)
    case Some(k) => (HSet(s, k, map[StatusField := Str(status)]), Some(true))
  }

  // ---------------------------------------------------------------- lemmas

  /** The key every lease operation looks up for a stored task's id is that task's key. */
  lemma TaskKeyFirst(s: Store, k: StoreKey)
    requires Valid(s) && k in s.records && k.TaskKey?
    ensures FirstKey(s, TaskById(k.id)) == Some(k)
  {
    FirstTaskKey(s, k.id);
    assert IsTask(s, k, k.id);
  }

  lemma LockTaskAt(s: Store, k: StoreKey, leaseTime: int, now: int, token: string)
    requires k in s.records && FirstKey(s, TaskById(k.id)) == Some(k)
    ensures LockTask(s, k.id, leaseTime, now, token) ==
      if Lockable(s.records[k], now)
      then (Store(s.records[k := s.records[k][LockedByField := Str(token)][LockedUntilField := Time(now + leaseTime)]], s.listing),
            Some(Lease(token, now + leaseTime)))
      else (s, None)
  {
    var r := s.records[k];
    assert r + map[LockedByField := Str(token), LockedUntilField := Time(now + leaseTime)]
        == r[LockedByField := Str(token)][LockedUntilField := Time(now + leaseTime)];
  }

  lemma UnlockTaskAt(s: Store, k: StoreKey, token: string)
    requires k in s.records && FirstKey(s, TaskById(k.id)) == Some(k)
    ensures UnlockTask(s, k.id, token) ==
      if HeldWith(s.records[k], token) then (ClearLease(s, k), true) else (s, false)
  {
  }

  lemma RenewLockLeaseAt(s: Store, k: StoreKey, leaseTime: int, token: string, now: int)
    requires k in s.records && FirstKey(s, TaskById(k.id)) == Some(k)
    ensures RenewLockLease(s, k.id, leaseTime, token, now) ==
      if HeldWith(s.records[k], token) && LeaseEnd(s.records[k]).Some? && LeaseEnd(s.records[k]).value > now
      then (Store(s.records[k := s.records[k][LockedUntilField := Time(now + leaseTime)]], s.listing),
            Some(now + leaseTime))
      else (s, None)
  {
    var r := s.records[k];
    assert r + map[LockedUntilField := Time(now + leaseTime)] == r[LockedUntilField := Time(now + leaseTime)];
  }

  /** On an id no task carries, every lease operation and the status update fail and write
      nothing. */
  lemma MissingTask(s: Store, id: string, leaseTime: int, now: int, token: string, status: string)
    requires Valid(s)
    requires forall k :: !IsTask(s, k, id)
    ensures LockTask(s, id, leaseTime, now, token) == (s, None)
    ensures UnlockTask(s, id, token) == (s, false)
    ensures RenewLockLease(s, id, leaseTime, token, now) == (s, None)
    ensures UpdateStatus(s, id, status) == (s, None)
  {
    FirstTaskKey(s, id);
  }

  /** Locking a task succeeds exactly when its lease is absent or over. On success only the
      task's `locked_by` and `locked_until` change, to the new token and `now + leaseTime`;
      otherwise nothing changes. */
  lemma LockTaskSpec(s: Store, k: StoreKey, leaseTime: int, now: int, token: string)
    requires Valid(s) && k in s.records && k.TaskKey?
    ensures var (s', lease) := LockTask(s, k.id, leaseTime, now, token);
      && (lease.Some? <==> Lockable(s.records[k], now))
      && (lease.Some? ==>
            && lease.value == Lease(token, now + leaseTime)
            && s'.listing == s.listing && s'.records.Keys == s.records.Keys
            && s'.records[k] == s.records[k][LockedByField := Str(token)][LockedUntilField := Time(now + leaseTime)]
            && forall k' :: k' in s.records && k' != k ==> s'.records[k'] == s.records[k'])
      && (lease.None? ==> s' == s)
  {
    TaskKeyFirst(s, k);
    LockTaskAt(s, k, leaseTime, now, token);
  }

  /** While a lease runs, no one else can lock the task, whatever token they would get. */
  lemma LockExcludes(s: Store, k: StoreKey, leaseTime: int, now: int, token: string,
                     leaseTime2: int, now2: int, token2: string)
    requires Valid(s) && k in s.records && k.TaskKey?
    requires LockTask(s, k.id, leaseTime, now, token).1.Some?
    requires now2 <= now + leaseTime
    ensures var s1 := LockTask(s, k.id, leaseTime, now, token).0;
      LockTask(s1, k.id, leaseTime2, now2, token2) == (s1, None)
  {
    TaskKeyFirst(s, k);
    LockTaskAt(s, k, leaseTime, now, token);
    var s1 := LockTask(s, k.id, leaseTime, now, token).0;
    assert FirstKey(s1, TaskById(k.id)) == Some(k) by { assert s1.listing == s.listing; }
    LockTaskAt(s1, k, leaseTime2, now2, token2);
  }

  /** Once a lease has run out, the task can be locked again. */
  lemma LockAfterExpiry(s: Store, k: StoreKey, leaseTime: int, now: int, token: string,
                        leaseTime2: int, now2: int, token2: string)
    requires Valid(s) && k in s.records && k.TaskKey?
    requires LockTask(s, k.id, leaseTime, now, token).1.Some?
    requires now2 > now + leaseTime
    ensures var s1 := LockTask(s, k.id, leaseTime, now, token).0;
      LockTask(s1, k.id, leaseTime2, now2, token2).1 == Some(Lease(token2, now2 + leaseTime2))
  {
    TaskKeyFirst(s, k);
    LockTaskAt(s, k, leaseTime, now, token);
    var s1 := LockTask(s, k.id, leaseTime, now, token).0;
    assert FirstKey(s1, TaskById(k.id)) == Some(k) by { assert s1.listing == s.listing; }
    LockTaskAt(s1, k, leaseTime2, now2, token2);
  }

  /** Unlocking succeeds exactly when the token holds the lease; it then removes both lease
      fields and nothing else. */
  lemma UnlockTaskSpec(s: Store, k: StoreKey, token: string)
    requires Valid(s) && k in s.records && k.TaskKey?
    ensures var (s', ok) := UnlockTask(s, k.id, token);
      && (ok <==> HeldWith(s.records[k], token))
      && (ok ==>
            && s'.listing == s.listing && s'.records.Keys == s.records.Keys
            && LockedByField !in s'.records[k] && LockedUntilField !in s'.records[k]
            && (forall f :: f in s.records[k] && f != LockedByField && f != LockedUntilField ==>
                  f in s'.records[k] && s'.records[k][f] == s.records[k][f])
            && forall k' :: k' in s.records && k' != k ==> s'.records[k'] == s.records[k'])
      && (!ok ==> s' == s)
  {
    TaskKeyFirst(s, k);
    UnlockTaskAt(s, k, token);
    ClearLeaseFields(s, k);
  }

  lemma ClearLeaseFields(s: Store, k: StoreKey)
    requires k in s.records
    ensures var s' := ClearLease(s, k);
      && s'.listing == s.listing && s'.records.Keys == s.records.Keys
      && LockedByField !in s'.records[k] && LockedUntilField !in s'.records[k]
      && (forall f :: f in s.records[k] && f != LockedByField && f != LockedUntilField ==>
            f in s'.records[k] && s'.records[k][f] == s.records[k][f])
      && forall k' :: k' in s.records && k' != k ==> s'.records[k'] == s.records[k']
  {
  }

  /** The worker that locked a task can release it, and the task can then be locked again at
      once; a different token cannot release it. */
  lemma LockThenUnlock(s: Store, k: StoreKey, leaseTime: int, now: int, token: string,
                       other: string, leaseTime2: int, now2: int, token2: string)
    requires Valid(s) && k in s.records && k.TaskKey?
    requires LockTask(s, k.id, leaseTime, now, token).1.Some?
    requires other != token
    ensures var s1 := LockTask(s, k.id, leaseTime, now, token).0;
      && UnlockTask(s1, k.id, other) == (s1, false)
      && UnlockTask(s1, k.id, token).1
      && LockTask(UnlockTask(s1, k.id, token).0, k.id, leaseTime2, now2, token2).1
           == Some(Lease(token2, now2 + leaseTime2))
  {
    TaskKeyFirst(s, k);
    LockTaskAt(s, k, leaseTime, now, token);
    var s1 := LockTask(s, k.id, leaseTime, now, token).0;
    assert FirstKey(s1, TaskById(k.id)) == Some(k) by { assert s1.listing == s.listing; }
    UnlockTaskAt(s1, k, other);
    UnlockTaskAt(s1, k, token);
    var s2 := UnlockTask(s1, k.id, token).0;
    assert FirstKey(s2, TaskById(k.id)) == Some(k) by { assert s2.listing == s.listing; }
    assert LeaseEnd(s2.records[k]).None?;
    LockTaskAt(s2, k, leaseTime2, now2, token2);
  }

  /** Renewing succeeds exactly when the token holds a lease that has not run out; it then
      moves only `locked_until`, to `now + leaseTime`. */
  lemma RenewLockLeaseSpec(s: Store, k: StoreKey, leaseTime: int, token: string, now: int)
    requires Valid(s) && k in s.records && k.TaskKey?
    ensures var (s', until) := RenewLockLease(s, k.id, leaseTime, token, now);
      && (until.Some? <==> HeldWith(s.records[k], token) && LeaseEnd(s.records[k]).Some?
                           && LeaseEnd(s.records[k]).value > now)
      && (until.Some? ==>
            && until.value == now + leaseTime
            && s'.listing == s.listing && s'.records.Keys == s.records.Keys
            && s'.records[k] == s.records[k][LockedUntilField := Time(now + leaseTime)]
            && forall k' :: k' in s.records && k' != k ==> s'.records[k'] == s.records[k'])
      && (until.None? ==> s' == s)
  {
    TaskKeyFirst(s, k);
    RenewLockLeaseAt(s, k, leaseTime, token, now);
  }

  /** The lease holder can extend a running lease, and the extended lease excludes others until
      its new end; another token cannot extend it. */
  lemma LockThenRenew(s: Store, k: StoreKey, leaseTime: int, now: int, token: string,
                      other: string, leaseTime2: int, now2: int, now3: int, token3: string)
    requires Valid(s) && k in s.records && k.TaskKey?
    requires LockTask(s, k.id, leaseTime, now, token).1.Some?
    requires other != token
    requires now2 < now + leaseTime
    requires now3 <= now2 + leaseTime2
    ensures var s1 := LockTask(s, k.id, leaseTime, now, token).0;
      && RenewLockLease(s1, k.id, leaseTime2, other, now2) == (s1, None)
      && RenewLockLease(s1, k.id, leaseTime2, token, now2).1 == Some(now2 + leaseTime2)
      && LockTask(RenewLockLease(s1, k.id, leaseTime2, token, now2).0, k.id, leaseTime, now3, token3).1.None?
  {
    TaskKeyFirst(s, k);
    LockThenRenewAt(s, k, leaseTime, now, token, other, leaseTime2, now2, now3, token3);
  }

  lemma LockThenRenewAt(s: Store, k: StoreKey, leaseTime: int, now: int, token: string,
                        other: string, leaseTime2: int, now2: int, now3: int, token3: string)
    requires k in s.records && FirstKey(s, TaskById(k.id)) == Some(k)
    requires LockTask(s, k.id, leaseTime, now, token).1.Some?
    requires other != token
    requires now2 < now + leaseTime
    requires now3 <= now2 + leaseTime2
    ensures var s1 := LockTask(s, k.id, leaseTime, now, token).0;
      && RenewLockLease(s1, k.id, leaseTime2, other, now2) == (s1, None)
      && RenewLockLease(s1, k.id, leaseTime2, token, now2).1 == Some(now2 + leaseTime2)
      && LockTask(RenewLockLease(s1, k.id, leaseTime2, token, now2).0, k.id, leaseTime, now3, token3).1.None?
  {
    LockTaskAt(s, k, leaseTime, now, token);
    var s1 := LockTask(s, k.id, leaseTime, now, token).0;
    assert FirstKey(s1, TaskById(k.id)) == Some(k) by { assert s1.listing == s.listing; }
    assert HeldWith(s1.records[k], token) && !HeldWith(s1.records[k], other);
    assert LeaseEnd(s1.records[k]) == Some(now + leaseTime);
    RenewLockLeaseAt(s1, k, leaseTime2, other, now2);
    RenewLockLeaseAt(s1, k, leaseTime2, token, now2);
    var s2 := RenewLockLease(s1, k.id, leaseTime2, token, now2).0;
    assert FirstKey(s2, TaskById(k.id)) == Some(k) by { assert s2.listing == s.listing; }
    assert LeaseEnd(s2.records[k]) == Some(now2 + leaseTime2);
    LockTaskAt(s2, k, leaseTime, now3, token3);
  }

  /** Once a lease has run out, not even its holder can renew it. */
  lemma RenewAfterExpiry(s: Store, k: StoreKey, leaseTime: int, now: int, token: string,
                         leaseTime2: int, now2: int)
    requires Valid(s) && k in s.records && k.TaskKey?
    requires LockTask(s, k.id, leaseTime, now, token).1.Some?
    requires now2 >= now + leaseTime
    ensures var s1 := LockTask(s, k.id, leaseTime, now, token).0;
      RenewLockLease(s1, k.id, leaseTime2, token, now2) == (s1, None)
  {
    TaskKeyFirst(s, k);
    LockTaskAt(s, k, leaseTime, now, token);
    var s1 := LockTask(s, k.id, leaseTime, now, token).0;
    assert FirstKey(s1, TaskById(k.id)) == Some(k) by { assert s1.listing == s.listing; }
    RenewLockLeaseAt(s1, k, leaseTime2, token, now2);
  }

  /** Updating the status of a task writes its `status` field and nothing else. */
  lemma UpdateStatusSpec(s: Store, k: StoreKey, status: string)
    requires Valid(s) && k in s.records && k.TaskKey?
    ensures var (s', ok) := UpdateStatus(s, k.id, status);
      && ok == Some(true)
      && s'.listing == s.listing && s'.records.Keys == s.records.Keys
      && s'.records[k] == s.records[k][StatusField := Str(status)]
      && forall k' :: k' in s.records && k' != k ==> s'.records[k'] == s.records[k']
  {
    TaskKeyFirst(s, k);
    var r := s.records[k];
    assert r + map[StatusField := Str(status)] == r[StatusField := Str(status)];
  }

  /** Every lease operation and the status update keep the keyspace invariant. */
  lemma LeaseOperationsValid(s: Store, id: string, leaseTime: int, now: int, token: string, status: string)
    requires Valid(s)
    ensures Valid(LockTask(s, id, leaseTime, now, token).0)
    ensures Valid(UnlockTask(s, id, token).0)
    ensures Valid(RenewLockLease(s, id, leaseTime, token, now).0)
    ensures Valid(UpdateStatus(s, id, status).0)
  {
    FirstKeyMatch(s, TaskById(id));
    if FirstKey(s, TaskById(id)).Some? {
      var k := FirstKey(s, TaskById(id)).value;
      assert k in s.records && k.TaskKey?;
      LockTaskValid(s, k, leaseTime, now, token);
      RenewLockLeaseValid(s, k, leaseTime, token, now);
      WriteLeaseValid(s, k, map[StatusField := Str(status)]);
      ClearLeaseValid(s, k);
    }
  }

  lemma LockTaskValid(s: Store, k: StoreKey, leaseTime: int, now: int, token: string)
    requires Valid(s) && k in s.records && k.TaskKey? && FirstKey(s, TaskById(k.id)) == Some(k)
    ensures Valid(LockTask(s, k.id, leaseTime, now, token).0)
  {
    WriteLeaseValid(s, k, map[LockedByField := Str(token), LockedUntilField := Time(SecondsAfterTime(leaseTime, now))]);
  }

  lemma RenewLockLeaseValid(s: Store, k: StoreKey, leaseTime: int, token: string, now: int)
    requires Valid(s) && k in s.records && k.TaskKey? && FirstKey(s, TaskById(k.id)) == Some(k)
    ensures Valid(RenewLockLease(s, k.id, leaseTime, token, now).0)
  {
    WriteLeaseValid(s, k, map[LockedUntilField := Time(SecondsAfterTime(leaseTime, now))]);
  }

  /** Writing text into `locked_by` or `status`, or a time into `locked_until`, of a stored task
      keeps the keyspace invariant. */
  lemma WriteLeaseValid(s: Store, k: StoreKey, fields: Record)
    requires Valid(s) && k in s.records && k.TaskKey?
    requires forall f :: f in fields ==> f in {LockedByField, LockedUntilField, StatusField}
    requires LockedByField in fields ==> fields[LockedByField].Str?
    requires StatusField in fields ==> fields[StatusField].Str?
    requires LockedUntilField in fields ==> fields[LockedUntilField].Time?
    ensures Valid(HSet(s, k, fields))
  {
    var r := s.records[k] + fields;
    assert forall f :: f in r && f !in {LockedByField, LockedUntilField, StatusField} ==> r[f] == s.records[k][f];
    assert WellFormed(k, r);
    HSetValid(s, k, fields);
  }

  lemma ClearLeaseValid(s: Store, k: StoreKey)
    requires Valid(s) && k in s.records
    ensures Valid(ClearLease(s, k))
  {
    assert WellFormed(k, s.records[k] - {LockedByField, LockedUntilField});
  }

  // ---------------------------------------------------------------- as written: release by nil

  /** What a call gives back: a value, or the exception it raises. */
  datatype Outcome<T> = Returns(value: T) | Raises(error: string)

  /** `unlock_task!(id, lease_token)` as written: it releases the lease by `HMSET`ting nil into
      both lease fields, which the Redis client sends, and Redis stores, as the empty string. */
  function UnlockTaskAsWritten(s: Store, id: string, token: string): (Store, bool) {
    match FirstKey(s, TaskById(id))
    case None => (s, false)
    case Some(k) =>
      if k in s.records && HeldWith(s.records[k], token)
      then (HSet(s, k, map[LockedByField := Str(""), LockedUntilField := Str("")]), true)
      else (s, false)
  }

  /** `lock_task!(id, lease_time)` as written, on a task whose `locked_until` may hold text that
      is not a time: `DateTime.parse` rejects it with `ArgumentError`. On a stored time, or
      without the field, it is `LockTask`. */
  function LockTaskAsWritten(s: Store, id: string, leaseTime: int, now: int, token: string)
    : Outcome<(Store, Option<Lease>)>
  {
    match FirstKey(s, TaskById(id))
    case None => Returns((s, None))
    case Some(k) =>
      var r := HGetAll(s, k);
      if LockedUntilField in r && !r[LockedUntilField].Time? then Raises("ArgumentError")
      else Returns(LockTask(s, id, leaseTime, now, token))
  }

  /** On the keyspaces the corrected operations keep, locking as written never raises and is
      `LockTask`. */
  lemma LockTaskAsWrittenAgrees(s: Store, id: string, leaseTime: int, now: int, token: string)
    requires Valid(s)
    ensures LockTaskAsWritten(s, id, leaseTime, now, token) == Returns(LockTask(s, id, leaseTime, now, token))
  {
    FirstKeyMatch(s, TaskById(id));
    if FirstKey(s, TaskById(id)).Some? {
      var k := FirstKey(s, TaskById(id)).value;
      assert WellFormed(k, s.records[k]);
    }
  }

  /** As written, a task released by its holder can never be locked again: the next
      `lock_task!` reads `locked_until` as the empty string and raises. */
  lemma UnlockThenLockRaises(s: Store, k: StoreKey, leaseTime: int, now: int, token: string,
                             leaseTime2: int, now2: int, token2: string)
    requires Valid(s) && k in s.records && k.TaskKey?
    requires LockTask(s, k.id, leaseTime, now, token).1.Some?
    ensures var s1 := LockTask(s, k.id, leaseTime, now, token).0;
      && UnlockTaskAsWritten(s1, k.id, token).1
      && LockTaskAsWritten(UnlockTaskAsWritten(s1, k.id, token).0, k.id, leaseTime2, now2, token2).Raises?
  {
    TaskKeyFirst(s, k);
    LockTaskAt(s, k, leaseTime, now, token);
    var s1 := LockTask(s, k.id, leaseTime, now, token).0;
    assert FirstKey(s1, TaskById(k.id)) == Some(k) by { assert s1.listing == s.listing; }
    ReleaseThenLockRaisesAt(s1, k, token, leaseTime2, now2, token2);
  }

  lemma ReleaseThenLockRaisesAt(s: Store, k: StoreKey, token: string, leaseTime: int, now: int, token2: string)
    requires k in s.records && FirstKey(s, TaskById(k.id)) == Some(k) && HeldWith(s.records[k], token)
    ensures UnlockTaskAsWritten(s, k.id, token).1
    ensures LockTaskAsWritten(UnlockTaskAsWritten(s, k.id, token).0, k.id, leaseTime, now, token2).Raises?
  {
    var s2 := UnlockTaskAsWritten(s, k.id, token).0;
    assert FirstKey(s2, TaskById(k.id)) == Some(k) by { assert s2.listing == s.listing; }
    assert s2.records[k][LockedUntilField] == Str("");
  }
}
