/** The Redis keyspace the adapter works on: a flat namespace of hashes.

    Each key has one of three fixed shapes, `workflow:<name>:<id>`, `job:<id>` and
    `task:<name>:<queue>:<job_id>:<parent_id>:<id>`. A key is modelled by its segments
    (`StoreKey`), and `KeyString` proves that this loses nothing as long as no segment
    contains the separator. A `KEYS` glob is modelled segment by segment (`Pattern`): `*` stands
    for any value in its position. */
module Keyspace {
  import opened Serialization

  datatype Option<T> = None | Some(value: T)

  /** A record key, by its segments. A nil parent task id is written as the empty segment. */
  datatype StoreKey =
    | WorkflowKey(name: string, id: string)
    | JobKey(id: string)
    | TaskKey(name: string, queueName: string, jobId: string, parentTaskId: string, id: string)

  /** One glob segment: `*` or a literal. */
  datatype Seg = Any | Is(value: string)

  /** A `KEYS` pattern over one key family. */
  datatype Pattern =
    | WorkflowPattern(name: Seg, id: Seg)
    | JobPattern(id: Seg)
    | TaskPattern(name: Seg, queueName: Seg, jobId: Seg, parentTaskId: Seg, id: Seg)

  /** A hash field value: plain text, a JSON document (held as what parsing it gives back),
      or a timestamp in whole seconds. */
  datatype Value = Str(s: string) | Doc(doc: Json) | Time(t: int)

  /** A Redis hash. */
  type Record = map<string, Value>

  /** The keyspace: the hashes by key, and `listing`, the order in which `KEYS` enumerates the
      keys. Redis leaves that order unspecified; the model fixes one (new keys go last). Three
      things depend on it: which key the finders take with `.first`, which jobs fall in the
      window of `select_jobs`, and which matching task find-or-create's scan meets first. */
  datatype Store = Store(records: map<StoreKey, Record>, listing: seq<StoreKey>)

  // ---------------------------------------------------------------- key strings

  ghost predicate ColonFree(s: string) {
    ':' !in s
  }

  /** The segments of a key: the family's type tag first, the record's id last. */
  function Segments(k: StoreKey): (r: seq<string>)
    ensures |r| > 1 && r[0] in ["workflow", "job", "task"] && r[|r| - 1] == k.id
  {
    match k
    case WorkflowKey(n, i) => ["workflow", n, i]
    case JobKey(i) => ["job", i]
    case TaskKey(n, q, j, p, i) => ["task", n, q, j, p, i]
  }

  /** Segments joined by `:`. */
  function Join(segs: seq<string>): string
    requires |segs| > 0
  {
    if |segs| == 1 then segs[0] else segs[0] + ":" + Join(segs[1..])
  }

  /** The Redis key string of a record key (the interpolations at adapter.rb lines 23, 55, 115). */
  function KeyString(k: StoreKey): string {
    Join(Segments(k))
  }

  ghost predicate KeyColonFree(k: StoreKey) {
    forall i :: 1 <= i < |Segments(k)| ==> ColonFree(Segments(k)[i])
  }

  /** Two distinct keys with colon-free segments have distinct key strings, so modelling keys by
      their segments is exact. */
  lemma KeyStringInjective(k1: StoreKey, k2: StoreKey)
    requires KeyColonFree(k1) && KeyColonFree(k2)
    requires KeyString(k1) == KeyString(k2)
    ensures k1 == k2
  {
    var s1, s2 := Segments(k1), Segments(k2);
    assert forall i :: 0 <= i < |s1| ==> ColonFree(s1[i]) by {
      assert ColonFree(s1[0]);
    }
    assert forall i :: 0 <= i < |s2| ==> ColonFree(s2[i]) by {
      assert ColonFree(s2[0]);
    }
    JoinInjective(s1, s2);
  }

  lemma {:induction false} JoinInjective(xs: seq<string>, ys: seq<string>)
    requires |xs| > 0 && |ys| > 0
    requires forall i :: 0 <= i < |xs| ==> ColonFree(xs[i])
    requires forall i :: 0 <= i < |ys| ==> ColonFree(ys[i])
    requires Join(xs) == Join(ys)
    ensures xs == ys
  {
    JoinHasColon(xs);
    JoinHasColon(ys);
    if |xs| > 1 && |ys| > 1 {
      SplitAtColon(xs[0], Join(xs[1..]), ys[0], Join(ys[1..]));
      JoinInjective(xs[1..], ys[1..]);
      assert xs == [xs[0]] + xs[1..] && ys == [ys[0]] + ys[1..];
    } else {
      // a single segment has no colon, a longer join has one
      assert |xs| == 1 && |ys| == 1;
    }
  }

  lemma JoinHasColon(xs: seq<string>)
    requires |xs| > 0
    ensures |xs| > 1 ==> |Join(xs)| > |xs[0]| && Join(xs)[|xs[0]|] == ':'
  {
  }

  /** The first colon of `a:r` ends `a` when `a` has none. */
  lemma SplitAtColon(a: string, r1: string, c: string, r2: string)
    requires ColonFree(a) && ColonFree(c)
    requires a + ":" + r1 == c + ":" + r2
    ensures a == c && r1 == r2
  {
    var s, t := a + ":" + r1, c + ":" + r2;
    assert s[|a|] == ':' && t[|c|] == ':';
    assert |a| == |c|;
    assert a == s[..|a|] && c == t[..|c|];
    assert r1 == s[|a| + 1..] && r2 == t[|c| + 1..];
  }

  // ---------------------------------------------------------------- patterns

  predicate SegMatches(g: Seg, v: string) {
    g.Any? || g.value == v
  }

  /** A key matches a pattern of its own family when every literal segment is equal. */
  predicate Matches(p: Pattern, k: StoreKey) {
    match (p, k)
    case (WorkflowPattern(n, i), WorkflowKey(kn, ki)) => SegMatches(n, kn) && SegMatches(i, ki)
    case (JobPattern(i), JobKey(ki)) => SegMatches(i, ki)
    case (TaskPattern(n, q, j, pa, i), TaskKey(kn, kq, kj, kp, ki)) =>
      SegMatches(n, kn) && SegMatches(q, kq) && SegMatches(j, kj) && SegMatches(pa, kp) && SegMatches(i, ki)
    case _ => false
  }

  ghost predicate Distinct<T>(xs: seq<T>) {
    forall i, j :: 0 <= i < j < |xs| ==> xs[i] != xs[j]
  }

  /** `KEYS pattern`: the keys of `keys` that match, in enumeration order. */
  function KeysMatching(keys: seq<StoreKey>, p: Pattern): (r: seq<StoreKey>)
    ensures forall k :: k in r <==> k in keys && Matches(p, k)
    ensures |r| <= |keys|
    ensures Distinct(keys) ==> Distinct(r)
  {
    if keys == [] then []
    else
      var rest := KeysMatching(keys[1..], p);
      assert Distinct(keys) ==> keys[0] !in keys[1..];
      if Matches(p, keys[0]) then [keys[0]] + rest else rest
  }

  function First<T>(xs: seq<T>): (r: Option<T>)
    ensures r.None? <==> xs == []
    ensures r.Some? ==> r.value in xs
  {
    if xs == [] then None else Some(xs[0])
  }

  /** The keys of the store that match a pattern. */
  ghost function MatchingKeys(s: Store, p: Pattern): set<StoreKey> {
    set k | k in s.records && Matches(p, k)
  }

  // ---------------------------------------------------------------- records

  const IdField := "id"
  const NameField := "name"
  const DescriptorField := "descriptor"
  const WorkflowField := "workflow"
  const PayloadField := "payload"
  const QueueNameField := "queue_name"
  const JobIdField := "job_id"
  const ParentTaskIdField := "parent_task_id"
  const StatusField := "status"
  const LockedByField := "locked_by"
  const LockedUntilField := "locked_until"

  predicate HasText(r: Record, f: string, v: string) {
    f in r && r[f] == Str(v)
  }

  predicate HasDoc(r: Record, f: string) {
    f in r && r[f].Doc?
  }

  /** What the adapter's own writes guarantee about each family of record. */
  ghost predicate WellFormed(k: StoreKey, r: Record) {
    match k
    case WorkflowKey(n, i) =>
      HasText(r, IdField, i) && HasText(r, NameField, n) && HasDoc(r, DescriptorField)
    case JobKey(i) =>
      HasText(r, IdField, i) && HasDoc(r, WorkflowField) && HasDoc(r, PayloadField)
    case TaskKey(n, q, j, p, i) =>
      && HasText(r, IdField, i) && HasText(r, NameField, n) && HasText(r, QueueNameField, q)
      && HasText(r, JobIdField, j) && HasText(r, ParentTaskIdField, p)
      && HasDoc(r, PayloadField) && r[PayloadField].doc.Object?
      && (StatusField in r ==> r[StatusField].Str?)
      && (LockedByField in r ==> r[LockedByField].Str?)
      && (LockedUntilField in r ==> r[LockedUntilField].Time?)
  }

  /** The keyspace invariant: the listing enumerates exactly the stored keys once each, every
      record is well formed, and no two keys carry the same id (ids are fresh UUIDs). */
  ghost predicate Valid(s: Store) {
    && (forall k :: k in s.records <==> k in s.listing)
    && Distinct(s.listing)
    && (forall k :: k in s.records ==> WellFormed(k, s.records[k]))
    && (forall k1, k2 :: k1 in s.records && k2 in s.records && k1.id == k2.id ==> k1 == k2)
  }

  /** A fresh id: no stored key carries it. */
  ghost predicate IdUnused(s: Store, id: string) {
    forall k :: k in s.records ==> k.id != id
  }

  /** `HGETALL key`: the empty hash when the key is absent. */
  function HGetAll(s: Store, k: StoreKey): Record {
    if k in s.records then s.records[k] else map[]
  }

  /** `HMSET key f1 v1 ...`: sets the given fields of one hash, creating the key when absent;
      no other key and no other field of that hash changes. */
  function HSet(s: Store, k: StoreKey, fields: Record): (r: Store)
    ensures r.records.Keys == s.records.Keys + {k}
    ensures r.records[k] == HGetAll(s, k) + fields
    ensures forall k' :: k' in s.records && k' != k ==> r.records[k'] == s.records[k']
    ensures k in s.records ==> r.listing == s.listing
    ensures k !in s.records ==> r.listing == s.listing + [k]
  {
    if k in s.records then Store(s.records[k := s.records[k] + fields], s.listing)
    else Store(s.records[k := fields], s.listing + [k])
  }

  /** Writing a well-formed hash under an existing key, or under a new key with a fresh id,
      keeps the keyspace invariant. */
  lemma HSetValid(s: Store, k: StoreKey, fields: Record)
    requires Valid(s)
    requires WellFormed(k, HGetAll(s, k) + fields)
    requires k !in s.records ==> IdUnused(s, k.id)
    ensures Valid(HSet(s, k, fields))
  {
    var r := HSet(s, k, fields);
    if k !in s.records {
      forall i, j | 0 <= i < j < |r.listing| ensures r.listing[i] != r.listing[j] {
        if j == |s.listing| {
          assert r.listing[i] in s.records;
        }
      }
    }
  }

  // ---------------------------------------------------------------- counting

  lemma {:induction false} DistinctCardinality<T>(xs: seq<T>)
    requires Distinct(xs)
    ensures |set x | x in xs| == |xs|
  {
    if xs != [] {
      var rest := xs[1..];
      DistinctCardinality(rest);
      assert (set x | x in xs) == {xs[0]} + (set x | x in rest);
      assert xs[0] !in rest;
    }
  }

  /** `KEYS pattern` returns each matching stored key exactly once. */
  lemma CountMatching(s: Store, p: Pattern)
    requires Valid(s)
    ensures |KeysMatching(s.listing, p)| == |MatchingKeys(s, p)|
  {
    var ks := KeysMatching(s.listing, p);
    DistinctCardinality(ks);
    assert (set x | x in ks) == MatchingKeys(s, p);
  }
}
