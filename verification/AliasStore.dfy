/** The durable resolver of `rvm-context-service/src/resolver.rs`: objects, aliases and two
    outboxes in one database, and a vector index that follows by replaying jobs. */
module AliasStore {
  import opened Types
  import opened Bytes
  import opened Authority

  const MAX_RVF_BYTES: nat := 16 * 1024 * 1024
  const MAX_SEARCH_QUERY_BYTES: nat := 4 * 1024
  const MAX_SEARCH_RESULTS: nat := 64

  /** A logical key: a name without revision and view. */
  datatype Name = Name(authority: string, tenant: string, subject: Subject, collection: Collection, path: seq<string>)

  function LogicalKey(uri: Uri): Name {
    Name(uri.authority, uri.tenant, uri.subject, uri.collection, uri.path)
  }

  predicate IsWithin(root: Name, candidate: Name) {
    && root.authority == candidate.authority && root.tenant == candidate.tenant && root.subject == candidate.subject
    && root.collection == candidate.collection && root.path <= candidate.path
  }

  /** The versionless URI of a name, for a view. */
  function UriOf(n: Name, view: Option<ProgressiveView>): (uri: Uri)
    ensures LogicalKey(uri) == n
  {
    Uri(n.authority, n.tenant, n.subject, n.collection, n.path, None, view)
  }

  /** A name may be shown to whoever may search `target`, however narrow the scope. */
  ghost predicate Inside(target: Uri, n: Name) {
    forall scope: ContextScope :: scope.Allows(target, Search) ==> scope.Allows(UriOf(n, target.view), Search)
  }

  /** A logical key keeps everything of a URI but revision and view. */
  lemma KeyExactly(t: Uri, u: Uri)
    ensures LogicalKey(t) == LogicalKey(u) <==> t == u.(revision := t.revision, view := t.view)
  {}

  /** Being within a root is being open to every scope that covers the root. */
  lemma WithinIffInside(target: Uri, n: Name)
    ensures IsWithin(LogicalKey(target), n) <==> Inside(target, n)
  {
    if Inside(target, n) {
      var all := {MANIFEST, ABSTRACT, OVERVIEW, CONTENT};
      var scope := ContextScope(target.authority, target.tenant, target.subject, target.collection, target.path, all);
      assert scope.Allows(target, Search);
      assert scope.Allows(UriOf(n, target.view), Search);
    }
  }

  type Revision = Bytes32

  /** An embedding; nothing about its numbers matters here. */
  type Vector = seq<int>

  datatype AliasSnapshot = AliasSnapshot(alias: Name, revision: Revision, generation: u64, tombstone: bool)

  datatype IndexJob = Erase | Upsert(revision: Revision, vector: Vector)

  datatype Point = Point(id: Bytes32, vector: Vector)

  datatype ContextHit = ContextHit(name: Name, revision: Revision, generation: Option<u64>)

  type Objects = map<(Name, Revision), seq<byte>>
  type Aliases = map<Name, AliasSnapshot>
  type IndexJobs = map<Name, IndexJob>
  type Index = map<Name, Point>

  /** What the service is built from: the content hash, the identifier of an index point,
      the embedding of a stored object (none when its profile is invalid), and the hash
      that names a tombstone. */
  datatype Functions = Functions(
    digest: seq<byte> -> Revision, pointId: (Name, Revision) -> Bytes32,
    vectorOf: (Revision, seq<byte>) -> Option<Vector>, tombstoneRevision: (Name, Revision, u64) -> Revision)

  /** Where replaying a job may break off: before or inside the index, or between the
      index and the removal of the job. A crash at that point looks the same. */
  datatype Fault = NoFault | BeforeErase | AfterErase | BeforeRemoval

  // ---- what holds in every state ---------------------------------------------------------------

  predicate IsLive(aliases: Aliases, n: Name) {
    n in aliases && !aliases[n].tombstone
  }

  /** Every object is stored under its own hash. */
  ghost predicate ContentAddressed(f: Functions, objects: Objects) {
    forall n, rev :: (n, rev) in objects ==> f.digest(objects[(n, rev)]) == rev
  }

  /** Every live alias names a stored object that has an embedding. */
  ghost predicate Backed(f: Functions, aliases: Aliases, objects: Objects) {
    forall n :: IsLive(aliases, n) ==> StoredFor(f, aliases[n].revision, n, objects)
  }

  ghost predicate StoredFor(f: Functions, rev: Revision, n: Name, objects: Objects) {
    (n, rev) in objects && f.vectorOf(rev, objects[(n, rev)]).Some?
  }

  /** The point a live alias should have. */
  ghost function PointOf(f: Functions, n: Name, rev: Revision, objects: Objects): Point
    requires StoredFor(f, rev, n, objects)
  {
    Point(f.pointId(n, rev), f.vectorOf(rev, objects[(n, rev)]).value)
  }

  /** A pending job is what brings the index to the present state of its alias. */
  ghost predicate JobsCurrent(f: Functions, jobs: IndexJobs, aliases: Aliases, objects: Objects) {
    forall n :: n in jobs ==> n in aliases && JobFits(f, jobs[n], aliases[n], n, objects)
  }

  ghost predicate JobFits(f: Functions, job: IndexJob, alias: AliasSnapshot, n: Name, objects: Objects) {
    match job
    case Erase => alias.tombstone
    case Upsert(rev, vector) =>
      !alias.tombstone && rev == alias.revision && StoredFor(f, rev, n, objects)
      && vector == f.vectorOf(rev, objects[(n, rev)]).value
  }

  /** Without a pending job the index holds exactly the live alias's point, and nothing for
      a tombstone or an unknown name. */
  ghost predicate IndexAgrees(f: Functions, jobs: IndexJobs, aliases: Aliases, objects: Objects, index: Index) {
    && (forall n :: n in index ==> n in aliases)
    && forall n :: n !in jobs ==> AgreesAt(f, aliases, objects, index, n)
  }

  ghost predicate AgreesAt(f: Functions, aliases: Aliases, objects: Objects, index: Index, n: Name) {
    if IsLive(aliases, n)
    then n in index && StoredFor(f, aliases[n].revision, n, objects)
      && index[n] == PointOf(f, n, aliases[n].revision, objects)
    else n !in index
  }

  /** What the index holds for a name once a job was applied. */
  ghost predicate Reflects(f: Functions, index: Index, n: Name, job: IndexJob) {
    match job
    case Erase => n !in index
    case Upsert(rev, vector) => n in index && index[n] == Point(f.pointId(n, rev), vector)
  }

  /** A forgotten alias still has its purge job or the replicas confirmed the purge. */
  ghost predicate PurgesKept(aliases: Aliases, purgeJobs: set<Name>, purged: set<Name>) {
    forall n :: n in aliases && aliases[n].tombstone ==> n in purgeJobs || n in purged
  }

  /** The job that was applied may be dropped: the index then agrees. */
  lemma AppliedAgrees(f: Functions, jobs: IndexJobs, aliases: Aliases, objects: Objects, index: Index, n: Name)
    requires JobsCurrent(f, jobs, aliases, objects) && n in jobs && Reflects(f, index, n, jobs[n])
    ensures AgreesAt(f, aliases, objects, index, n)
  {}

  /** Dropping a job that was replaced since it was read would leave the index wrong for
      good: after the first of two updates is applied, only comparing keeps the second. */
  lemma UncheckedRemovalBreaks(f: Functions, n: Name, earlier: Revision, later: Revision, a: seq<byte>, b: seq<byte>)
    requires f.pointId(n, earlier) != f.pointId(n, later) && f.vectorOf(earlier, a).Some? && f.vectorOf(later, b).Some?
    ensures
      var objects: Objects := map[(n, earlier) := a, (n, later) := b];
      var aliases: Aliases := map[n := AliasSnapshot(n, later, 2, false)];
      var jobs: IndexJobs := map[n := Upsert(later, f.vectorOf(later, objects[(n, later)]).value)];
      var index: Index := map[n := Point(f.pointId(n, earlier), f.vectorOf(earlier, a).value)];
      && JobsCurrent(f, jobs, aliases, objects) && IndexAgrees(f, jobs, aliases, objects, index)
      && !IndexAgrees(f, jobs - {n}, aliases, objects, index)
  {
    var aliases: Aliases := map[n := AliasSnapshot(n, later, 2, false)];
    var jobs: IndexJobs := map[n := Upsert(later, f.vectorOf(later, b).value)];
    assert earlier != later;
    assert IsLive(aliases, n) && n !in jobs - {n};
  }

  // ---- the resolver --------------------------------------------------------------------------------

  class PersistentContextResolver {
    const functions: Functions
    const maxObjects: nat
    const maxAliases: nat
    var objects: Objects
    var aliases: Aliases
    var indexJobs: IndexJobs
    var purgeJobs: set<Name>
    var index: Index
    /** Purges the sink has confirmed. */
    ghost var purged: set<Name>

    /** The source of truth and what follows from it, in every reachable state. */
    ghost predicate Valid()
      reads this
    {
      && |objects| <= maxObjects && |aliases| <= maxAliases
      && (forall n :: n in aliases ==> aliases[n].alias == n && aliases[n].generation >= 1)
      && ContentAddressed(functions, objects) && Backed(functions, aliases, objects)
      && JobsCurrent(functions, indexJobs, aliases, objects)
      && IndexAgrees(functions, indexJobs, aliases, objects, index)
      && PurgesKept(aliases, purgeJobs, purged)
    }

    /** An empty database and index. */
    constructor (functions: Functions, maxObjects: nat, maxAliases: nat)
      ensures Valid() && objects == map[] && aliases == map[] && indexJobs == map[] && index == map[]
    {
      this.functions := functions;
      this.maxObjects := maxObjects;
      this.maxAliases := maxAliases;
      objects, aliases, indexJobs, purgeJobs, index, purged := map[], map[], map[], {}, map[], {};
    }

    // ---- replaying jobs ----------------------------------------------------------------------------

    /** Applies one job to the index: erase the scope, then insert the point. As long as some
        job of the name is pending, no stopping point violates the invariant. */
    method Apply(n: Name, job: IndexJob, fault: Fault) returns (ok: bool)
      requires Valid() && n in indexJobs
      modifies `index
      ensures Valid()
      ensures ok ==> Reflects(functions, index, n, job)
      ensures fault.NoFault? || fault.BeforeRemoval? ==> ok
    {
      if fault.BeforeErase? {
        return false;
      }
      index := index - {n};
      if fault.AfterErase? {
        return false;
      }
      if job.Upsert? {
        index := index[n := Point(functions.pointId(n, job.revision), job.vector)];
      }
      return true;
    }

    /** Removes a job unless it was replaced since it was read. */
    method RemoveJobIfUnchanged(n: Name, expected: IndexJob)
      requires Valid() && Reflects(functions, index, n, expected)
      modifies `indexJobs
      ensures Valid()
      ensures indexJobs ==
        if n in old(indexJobs) && old(indexJobs)[n] == expected then old(indexJobs) - {n} else old(indexJobs)
    {
      if n in indexJobs && indexJobs[n] == expected {
        AppliedAgrees(functions, indexJobs, aliases, objects, index, n);
        indexJobs := indexJobs - {n};
      }
    }

    /** Replays the index outbox. It can break off anywhere, is then repeatable, and once it
        gets through, the index is exactly what the aliases say. */
    method DrainIndexJobs(faults: nat -> Fault) returns (ok: bool)
      requires Valid()
      modifies `index, `indexJobs
      ensures Valid()
      ensures ok ==> indexJobs == map[]
      ensures (forall k :: faults(k) == NoFault) ==> ok
      ensures indexJobs.Keys <= old(indexJobs).Keys
    {
      hide Backed, ContentAddressed, JobFits, AgreesAt, PurgesKept;
      var jobs := indexJobs;
      var k := 0;
      while jobs != map[]
        invariant Valid() && jobs == indexJobs && indexJobs.Keys <= old(indexJobs).Keys
        decreases |jobs|
      {
        var n :| n in jobs;
        var job := jobs[n];
        var applied := Apply(n, job, faults(k));
        if !applied {
          return false;
        }
        if faults(k).BeforeRemoval? {
          return false;
        }
        RemoveJobIfUnchanged(n, job);
        ghost var before := jobs;
        jobs := jobs - {n};
        FewerJobs(before, n);
        k := k + 1;
      }
      return true;
    }

    /** Replays the purge outbox: a job goes only after its sink confirmed. */
    method DrainPurgeJobs(confirms: Name -> bool) returns (ok: bool)
      requires Valid()
      modifies `purgeJobs, `purged
      ensures Valid()
      ensures ok <==> forall n :: n in old(purgeJobs) ==> confirms(n)
      ensures ok ==> purgeJobs == {}
      ensures forall n :: n in old(purgeJobs) && n !in purgeJobs ==> confirms(n)
      ensures purgeJobs <= old(purgeJobs) && purged == old(purged) + (old(purgeJobs) - purgeJobs)
    {
      hide Backed, ContentAddressed, JobsCurrent, IndexAgrees;
      var jobs := purgeJobs;
      while jobs != {}
        invariant Valid() && jobs == purgeJobs <= old(purgeJobs)
        invariant forall n :: n in old(purgeJobs) && n !in purgeJobs ==> confirms(n)
        invariant purged == old(purged) + (old(purgeJobs) - purgeJobs)
        decreases |jobs|
      {
        var n :| n in jobs;
        if !confirms(n) {
          return false;
        }
        purged := purged + {n};
        purgeJobs := purgeJobs - {n};
        jobs := jobs - {n};
      }
      return true;
    }

    method Maintenance(faults: nat -> Fault, confirms: Name -> bool) returns (ok: bool)
      requires Valid()
      modifies `index, `indexJobs, `purgeJobs, `purged
      ensures Valid()
      ensures ok ==> indexJobs == map[] && purgeJobs == {}
    {
      ok := DrainIndexJobs(faults);
      if ok {
        ok := DrainPurgeJobs(confirms);
      }
    }

    // ---- mutations ------------------------------------------------------------------------------------

    /** Stores an immutable object. It conflicts only with different bytes of the same digest
        stored before. */
    method Put(target: Uri, rvf: seq<byte>, commits: bool) returns (r: Result<(), ContextError>)
      requires Valid()
      modifies `objects
      ensures Valid()
      ensures
        var key := (LogicalKey(target), functions.digest(rvf));
        && (r.Ok? <==>
              && |rvf| <= 0x100_0000 && target.revision == Some(functions.digest(rvf))
              && if key in old(objects) then old(objects)[key] == rvf else |old(objects)| < maxObjects && commits)
        && (r.Ok? ==> key in objects && objects[key] == rvf)
      ensures objects == old(objects) ||
        (r.Ok? && objects == old(objects)[(LogicalKey(target), functions.digest(rvf)) := rvf])
      ensures r == Err(RevisionConflict) <==>
        var key := (LogicalKey(target), functions.digest(rvf));
        && |rvf| <= 0x100_0000 && target.revision == Some(functions.digest(rvf))
        && key in old(objects) && old(objects)[key] != rvf
      ensures r == Err(RevisionConflict) ==>
        var earlier := old(objects)[(LogicalKey(target), functions.digest(rvf))];
        earlier != rvf && functions.digest(earlier) == functions.digest(rvf)
      ensures r.Err? ==>
        var revision := functions.digest(rvf);
        match r.error
        case ObjectTooLarge => |rvf| > 0x100_0000
        case PinnedUriRequired => |rvf| <= 0x100_0000 && target.revision.None?
        case RevisionHashMismatch => |rvf| <= 0x100_0000 && target.revision.Some? && target.revision.value != revision
        case RevisionConflict => (LogicalKey(target), revision) in old(objects)
        case ObjectTableFull =>
          && |rvf| <= 0x100_0000 && target.revision == Some(revision)
          && (LogicalKey(target), revision) !in old(objects) && |old(objects)| == maxObjects
        case BackendUnavailable =>
          && |rvf| <= 0x100_0000 && target.revision == Some(revision) && !commits
          && (LogicalKey(target), revision) !in old(objects) && |old(objects)| < maxObjects
        case _ => false
    {
      if |rvf| > MAX_RVF_BYTES {
        return Err(ObjectTooLarge);
      }
      if target.revision.None? {
        return Err(PinnedUriRequired);
      }
      var revision := target.revision.value;
      if functions.digest(rvf) != revision {
        return Err(RevisionHashMismatch);
      }
      var key := (LogicalKey(target), revision);
      if key in objects {
        if objects[key] == rvf {
          return Ok(());
        }
        return Err(RevisionConflict);
      }
      if |objects| >= maxObjects {
        return Err(ObjectTableFull);
      }
      if !commits {
        return Err(BackendUnavailable);
      }
      ghost var before := objects;
      objects := objects[key := rvf];
      PutKeeps(functions, before, aliases, indexJobs, index, key, rvf);
      return Ok(());
    }

    /** The cause of each refusal of a swap. */
    ghost predicate SwapRefused(target: Uri, expected: Option<AliasSnapshot>, nextRevision: Revision, commits: bool,
                                error: ContextError)
      reads this
    {
      var n := LogicalKey(target);
      match error
      case ImmutableRevision => target.revision.Some?
      case RevisionNotFound => target.revision.None? && (n, nextRevision) !in objects
      case Tombstoned => target.revision.None? && n in aliases && aliases[n].tombstone
      case AliasConflict =>
        && target.revision.None?
        && if n in aliases then !aliases[n].tombstone && expected != Some(aliases[n]) else expected.Some?
      case AliasGenerationExhausted =>
        && target.revision.None? && n in aliases && expected == Some(aliases[n])
        && !aliases[n].tombstone && aliases[n].generation == 0xFFFF_FFFF_FFFF_FFFF
      case AliasTableFull => target.revision.None? && n !in aliases && expected.None? && |aliases| == maxAliases
      case BackendUnavailable =>
        && target.revision.None? && (n, nextRevision) in objects
        && (!commits || functions.vectorOf(nextRevision, objects[(n, nextRevision)]).None?)
      case _ => false
    }

    /** The generation after the expected one, if the alias stands as expected (lines 636-666). */
    method NextGeneration(n: Name, expected: Option<AliasSnapshot>) returns (r: Result<u64, ContextError>)
      requires |aliases| <= maxAliases
      ensures r.Ok? <==>
        if n in aliases
        then !aliases[n].tombstone && expected == Some(aliases[n]) && aliases[n].generation < 0xFFFF_FFFF_FFFF_FFFF
        else expected.None? && |aliases| < maxAliases
      ensures r.Ok? ==> r.value as int == if expected.Some? then expected.value.generation as int + 1 else 1
      ensures r.Err? ==>
        match r.error
        case Tombstoned => n in aliases && aliases[n].tombstone
        case AliasConflict =>
          if n in aliases then !aliases[n].tombstone && expected != Some(aliases[n]) else expected.Some?
        case AliasGenerationExhausted =>
          && n in aliases && expected == Some(aliases[n])
          && !aliases[n].tombstone && aliases[n].generation == 0xFFFF_FFFF_FFFF_FFFF
        case AliasTableFull => n !in aliases && expected.None? && |aliases| == maxAliases
        case _ => false
    {
      if n in aliases {
        var current := aliases[n];
        if current.tombstone {
          return Err(Tombstoned);
        }
        if expected != Some(current) {
          return Err(AliasConflict);
        }
        if current.generation == 0xFFFF_FFFF_FFFF_FFFF {
          return Err(AliasGenerationExhausted);
        }
        return Ok(current.generation + 1);
      }
      if expected.Some? {
        return Err(AliasConflict);
      }
      if |aliases| >= maxAliases {
        return Err(AliasTableFull);
      }
      return Ok(1);
    }

    /** The next snapshot and its index job, if the object is there and the alias stands as
        expected (lines 605-662). */
    method NextSnapshot(target: Uri, expected: Option<AliasSnapshot>, nextRevision: Revision)
        returns (r: Result<(AliasSnapshot, IndexJob), ContextError>)
      requires |aliases| <= maxAliases
      ensures r.Ok? <==>
        var n := LogicalKey(target);
        && target.revision.None? && StoredFor(functions, nextRevision, n, objects)
        && if n in aliases
           then !aliases[n].tombstone && expected == Some(aliases[n]) && aliases[n].generation < 0xFFFF_FFFF_FFFF_FFFF
           else expected.None? && |aliases| < maxAliases
      ensures r.Ok? ==>
        && r.value.0.alias == LogicalKey(target) && r.value.0.revision == nextRevision && !r.value.0.tombstone
        && r.value.0.generation as int == (if expected.Some? then expected.value.generation as int + 1 else 1)
        && JobFits(functions, r.value.1, r.value.0, r.value.0.alias, objects)
      ensures r.Err? ==> SwapRefused(target, expected, nextRevision, true, r.error)
    {
      if target.revision.Some? {
        return Err(ImmutableRevision);
      }
      var n := LogicalKey(target);
      if (n, nextRevision) !in objects {
        return Err(RevisionNotFound);
      }
      var vector := functions.vectorOf(nextRevision, objects[(n, nextRevision)]);
      if vector.None? {
        return Err(BackendUnavailable);
      }
      var job := Upsert(nextRevision, vector.value);
      var generation := NextGeneration(n, expected);
      if generation.Err? {
        return Err(generation.error);
      }
      return Ok((AliasSnapshot(n, nextRevision, generation.value, false), job));
    }

    /** Creates or advances an alias and queues its index update, in one transaction. */
    method CompareAndSwapAlias(target: Uri, expected: Option<AliasSnapshot>, nextRevision: Revision, commits: bool,
                               faults: nat -> Fault) returns (r: Result<AliasSnapshot, ContextError>)
      requires Valid()
      modifies `aliases, `indexJobs, `index
      ensures Valid()
      ensures r.Err? ==> aliases == old(aliases) && indexJobs == old(indexJobs) && index == old(index)
      ensures
        var n := LogicalKey(target);
        r.Ok? <==>
          && target.revision.None? && StoredFor(functions, nextRevision, n, objects) && commits
          && if n in old(aliases)
             then !old(aliases)[n].tombstone && expected == Some(old(aliases)[n])
               && old(aliases)[n].generation < 0xFFFF_FFFF_FFFF_FFFF
             else expected.None? && |old(aliases)| < maxAliases
      ensures r.Ok? ==>
        var n := LogicalKey(target);
        && (n, nextRevision) in objects
        && expected == (if n in old(aliases) then Some(old(aliases)[n]) else None)
        && r.value.alias == n && r.value.revision == nextRevision && !r.value.tombstone
        && r.value.generation as int == (if expected.Some? then expected.value.generation as int + 1 else 1)
        && (n in old(aliases) ==> !old(aliases)[n].tombstone)
        && aliases == old(aliases)[n := r.value]
      ensures r.Err? ==> old(SwapRefused(target, expected, nextRevision, commits, r.error))
    {
      hide Backed, ContentAddressed, JobsCurrent, IndexAgrees, PurgesKept;
      var next := NextSnapshot(target, expected, nextRevision);
      if next.Err? {
        return Err(next.error);
      }
      if !commits {
        return Err(BackendUnavailable);
      }
      CommitSwap(next.value.0, next.value.1);
      var _ := DrainIndexJobs(faults);
      return Ok(next.value.0);
    }

    /** The writes of a swap, in one transaction (lines 675-687). */
    method CommitSwap(snapshot: AliasSnapshot, job: IndexJob)
      requires Valid() && !snapshot.tombstone && JobFits(functions, job, snapshot, snapshot.alias, objects)
      requires snapshot.alias in aliases || |aliases| < maxAliases
      requires snapshot.generation >= 1
      modifies `aliases, `indexJobs
      ensures Valid() && aliases == old(aliases)[snapshot.alias := snapshot]
      ensures indexJobs == old(indexJobs)[snapshot.alias := job]
    {
      hide Backed, ContentAddressed, JobsCurrent, IndexAgrees, PurgesKept, JobFits;
      AdvanceKeeps(functions, objects, aliases, indexJobs, index, purgeJobs, purged, snapshot, job);
      aliases := aliases[snapshot.alias := snapshot];
      indexJobs := indexJobs[snapshot.alias := job];
    }

    /** Turns an alias into a tombstone for good, drops every object under its name and
        queues erasure and purge, in one transaction. */
    method Forget(target: Uri, expected: AliasSnapshot, commits: bool, faults: nat -> Fault, confirms: Name -> bool)
        returns (r: Result<AliasSnapshot, ContextError>)
      requires Valid()
      modifies `aliases, `objects, `indexJobs, `index, `purgeJobs, `purged
      ensures Valid()
      ensures r.Err? ==>
        && aliases == old(aliases) && objects == old(objects) && indexJobs == old(indexJobs) && index == old(index)
        && purgeJobs == old(purgeJobs)
      ensures
        var n := LogicalKey(target);
        r.Ok? <==>
          && target.revision.None? && expected.generation < 0xFFFF_FFFF_FFFF_FFFF && IsLive(old(aliases), n)
          && expected == old(aliases)[n] && commits
      ensures r.Ok? ==>
        var n := LogicalKey(target);
        && n in old(aliases) && expected == old(aliases)[n] && !expected.tombstone
        && r.value.tombstone && r.value.generation == expected.generation + 1 && r.value.alias == n
        && r.value.revision == functions.tombstoneRevision(n, expected.revision, r.value.generation)
        && aliases == old(aliases)[n := r.value]
        && (forall key :: key in objects <==> key in old(objects) && key.0 != n)
        && (forall key :: key in objects ==> objects[key] == old(objects)[key])
        && (n in indexJobs || n !in index) && (n in purgeJobs || n in purged)
      ensures r.Err? ==>
        var n := LogicalKey(target);
        match r.error
        case ImmutableRevision => target.revision.Some?
        case AliasGenerationExhausted => target.revision.None? && expected.generation == 0xFFFF_FFFF_FFFF_FFFF
        case AliasNotFound => target.revision.None? && n !in old(aliases)
        case Tombstoned => target.revision.None? && n in old(aliases) && old(aliases)[n].tombstone
        case AliasConflict => target.revision.None? && IsLive(old(aliases), n) && expected != old(aliases)[n]
        case BackendUnavailable => target.revision.None? && IsLive(old(aliases), n) && !commits
        case _ => false
    {
      hide Backed, ContentAddressed, JobsCurrent, IndexAgrees, PurgesKept;
      if target.revision.Some? {
        return Err(ImmutableRevision);
      }
      var n := LogicalKey(target);
      if expected.generation == 0xFFFF_FFFF_FFFF_FFFF {
        return Err(AliasGenerationExhausted);
      }
      var generation := expected.generation + 1;
      var snapshot := AliasSnapshot(n, functions.tombstoneRevision(n, expected.revision, generation), generation, true);
      if n !in aliases {
        return Err(AliasNotFound);
      }
      var current := aliases[n];
      if current.tombstone {
        return Err(Tombstoned);
      }
      if current != expected {
        return Err(AliasConflict);
      }
      if !commits {
        return Err(BackendUnavailable);
      }
      CommitForget(snapshot);
      var _ := Maintenance(faults, confirms);
      ForgottenGone(functions, indexJobs, aliases, objects, index, purgeJobs, purged, n);
      return Ok(snapshot);
    }

    /** The writes of a forget, in one transaction (lines 732-767). */
    method CommitForget(snapshot: AliasSnapshot)
      requires Valid() && snapshot.alias in aliases && snapshot.tombstone && snapshot.generation >= 1
      modifies `aliases, `objects, `indexJobs, `purgeJobs
      ensures Valid() && objects == Without(old(objects), snapshot.alias)
      ensures aliases == old(aliases)[snapshot.alias := snapshot]
      ensures indexJobs == old(indexJobs)[snapshot.alias := Erase] && purgeJobs == old(purgeJobs) + {snapshot.alias}
    {
      hide Backed, ContentAddressed, JobsCurrent, IndexAgrees, PurgesKept, Without, IsLive, StoredFor;
      var n := snapshot.alias;
      ForgetKeeps(functions, objects, aliases, indexJobs, index, purgeJobs, purged, snapshot);
      FewerObjects(objects, n);
      ReplacedSize(aliases, n, snapshot);
      objects := Without(objects, n);
      aliases := aliases[n := snapshot];
      indexJobs := indexJobs[n := Erase];
      purgeJobs := purgeJobs + {n};
    }

    // ---- reading ------------------------------------------------------------------------------------

    /** Restarting replays the index outbox before anything is served. */
    method Reopen(faults: nat -> Fault, confirms: Name -> bool) returns (r: Result<(), ContextError>)
      requires Valid()
      modifies `index, `indexJobs, `purgeJobs, `purged
      ensures Valid()
      ensures r.Ok? ==> indexJobs == map[]
      ensures r.Err? ==> r.error == BackendUnavailable
      ensures (forall k :: faults(k) == NoFault) ==> r.Ok?
    {
      var drained := DrainIndexJobs(faults);
      if !drained {
        return Err(BackendUnavailable);
      }
      var _ := DrainPurgeJobs(confirms);
      return Ok(());
    }

    /** The object a name stands for. A live alias always finds its object. */
    method ResolvedFor(target: Uri) returns (r: Result<(Revision, Option<AliasSnapshot>, seq<byte>), ContextError>)
      requires Valid()
      ensures target.revision.None? ==>
        && (r == Err(AliasNotFound) <==> LogicalKey(target) !in aliases)
        && (r == Err(Tombstoned) <==> LogicalKey(target) in aliases && aliases[LogicalKey(target)].tombstone)
        && (r.Ok? <==> IsLive(aliases, LogicalKey(target)))
      ensures target.revision.Some? ==>
        && (r.Ok? <==> (LogicalKey(target), target.revision.value) in objects)
        && (r.Ok? ==> r.value.0 == target.revision.value && r.value.1 == None)
        && (r.Err? ==> r.error == RevisionNotFound)
      ensures r.Ok? ==>
        && (LogicalKey(target), r.value.0) in objects && r.value.2 == objects[(LogicalKey(target), r.value.0)]
        && functions.digest(r.value.2) == r.value.0
        && (target.revision.None? ==>
              r.value.1 == Some(aliases[LogicalKey(target)]) && r.value.0 == aliases[LogicalKey(target)].revision)
    {
      hide JobsCurrent, IndexAgrees, PurgesKept;
      var n := LogicalKey(target);
      var revision: Revision;
      var alias := None;
      if target.revision.Some? {
        revision := target.revision.value;
      } else {
        if n !in aliases {
          return Err(AliasNotFound);
        }
        if aliases[n].tombstone {
          return Err(Tombstoned);
        }
        revision := aliases[n].revision;
        alias := Some(aliases[n]);
        assert StoredFor(functions, revision, n, objects);
      }
      if (n, revision) !in objects {
        return Err(RevisionNotFound);
      }
      return Ok((revision, alias, objects[(n, revision)]));
    }

    /** The index library's search below a root: distinct points of the scope, all of them
        unless the limit is reached. Their ranking is not part of this model. */
    method SearchIndex(root: Name, limit: nat) returns (matches: seq<(Name, Bytes32)>)
      ensures |matches| <= limit
      ensures forall k :: 0 <= k < |matches| ==>
        matches[k].0 in index && IsWithin(root, matches[k].0) && matches[k].1 == index[matches[k].0].id
      ensures forall j, k :: 0 <= j < k < |matches| ==> matches[j].0 != matches[k].0
      ensures |matches| < limit ==>
        forall n :: n in index && IsWithin(root, n) ==> exists k :: 0 <= k < |matches| && matches[k].0 == n
    {
      hide IsWithin;
      matches := [];
      var rest := index.Keys;
      while rest != {} && |matches| < limit
        invariant rest <= index.Keys && |matches| <= limit
        invariant forall k :: 0 <= k < |matches| ==>
          matches[k].0 in index && IsWithin(root, matches[k].0) && matches[k].1 == index[matches[k].0].id
            && matches[k].0 !in rest
        invariant forall j, k :: 0 <= j < k < |matches| ==> matches[j].0 != matches[k].0
        invariant forall n :: n in index && IsWithin(root, n) && n !in rest ==>
          exists k :: 0 <= k < |matches| && matches[k].0 == n
        decreases |rest|
      {
        var n :| n in rest;
        rest := rest - {n};
        if IsWithin(root, n) {
          ghost var before := matches;
          matches := matches + [(n, index[n].id)];
          forall m | m in index && IsWithin(root, m) && m !in rest
            ensures exists k :: 0 <= k < |matches| && matches[k].0 == m
          {
            if m == n {
              assert matches[|before|].0 == m;
            } else {
              var k :| 0 <= k < |before| && before[k].0 == m;
              assert matches[k].0 == m;
            }
          }
        }
      }
    }

    /** Searches below a versionless root after replaying the outbox. Whatever the index
        yields is then a live alias at its present revision: no hit is skipped as forgotten,
        none is refused as out of scope or out of date, and with room to spare every live
        alias below the root is found. */
    method Search(target: Uri, query: seq<byte>, limit: nat, queryVector: Option<Vector>, faults: nat -> Fault)
        returns (r: Result<seq<ContextHit>, ContextError>)
      requires Valid()
      modifies `index, `indexJobs
      ensures Valid()
      ensures r.Ok? ==> 0 < |query| <= 4096 && 0 < limit <= 64 && indexJobs == map[]
      ensures r == Err(InvalidQuery) <==> query == [] || |query| > 4096
      ensures r == Err(InvalidResultLimit) <==> 0 < |query| <= 4096 && !(0 < limit <= 64)
      ensures r.Err? ==> r.error in {InvalidQuery, InvalidResultLimit, BackendUnavailable, RevisionNotFound}
      ensures r.Err? && r.error == RevisionNotFound ==>
        target.revision.Some? && (LogicalKey(target), target.revision.value) !in objects
      ensures target.revision.Some? && r.Ok? ==>
        && r.value == [ContextHit(LogicalKey(target), target.revision.value, None)]
        && StoredFor(functions, target.revision.value, LogicalKey(target), objects)
      ensures
        (&& 0 < |query| <= 4096 && 0 < limit <= 64 && queryVector.Some? && (forall k :: faults(k) == NoFault))
        ==> (r.Ok? <==> target.revision.Some? ==>
               StoredFor(functions, target.revision.value, LogicalKey(target), objects))
      ensures target.revision.None? && r.Ok? ==>
        && |r.value| <= limit
        && (forall k :: 0 <= k < |r.value| ==> CurrentHit(r.value[k]) && Inside(target, r.value[k].name))
        && (forall j, k :: 0 <= j < k < |r.value| ==> r.value[j].name != r.value[k].name)
        && (|r.value| < limit ==> forall n :: IsLive(aliases, n) && Inside(target, n) ==>
              exists k :: 0 <= k < |r.value| && r.value[k].name == n)
    {
      hide Backed, ContentAddressed, JobsCurrent, IndexAgrees, PurgesKept;
      if query == [] || |query| > MAX_SEARCH_QUERY_BYTES {
        return Err(InvalidQuery);
      }
      if limit == 0 || limit > MAX_SEARCH_RESULTS {
        return Err(InvalidResultLimit);
      }
      var drained := DrainIndexJobs(faults);
      if !drained || queryVector.None? {
        return Err(BackendUnavailable);
      }
      if target.revision.Some? {
        r := SearchPinned(target);
        return;
      }
      DrainedIndex(functions, indexJobs, aliases, objects, index);
      var matches := SearchIndex(LogicalKey(target), limit);
      var hits := CurrentHits(target, matches);
      forall n ensures IsWithin(LogicalKey(target), n) <==> Inside(target, n) { WithinIffInside(target, n); }
      forall n | IsLive(aliases, n) && IsWithin(LogicalKey(target), n) && |hits| < limit
        ensures exists k :: 0 <= k < |hits| && hits[k].name == n
      {
        var k :| 0 <= k < |matches| && matches[k].0 == n;
        assert hits[k].name == n;
      }
      return Ok(hits);
    }

    /** The hits for matches of an up-to-date index (lines 470-495): each match is in scope,
        live and at its present point, so nothing is skipped or refused. */
    method CurrentHits(target: Uri, matches: seq<(Name, Bytes32)>) returns (hits: seq<ContextHit>)
      requires forall k :: 0 <= k < |matches| ==>
        && IsWithin(LogicalKey(target), matches[k].0) && IsLive(aliases, matches[k].0)
        && matches[k].1 == functions.pointId(matches[k].0, aliases[matches[k].0].revision)
      ensures |hits| == |matches| && forall k :: 0 <= k < |hits| ==> hits[k].name == matches[k].0 && CurrentHit(hits[k])
    {
      hits := [];
      for k := 0 to |matches|
        invariant |hits| == k
        invariant forall j :: 0 <= j < k ==> hits[j].name == matches[j].0 && CurrentHit(hits[j])
      {
        var item := matches[k];
        if !IsWithin(LogicalKey(target), item.0) {
          assert false;
        }
        if item.0 !in aliases || aliases[item.0].tombstone {
          assert false;
        }
        var snapshot := aliases[item.0];
        if item.1 != functions.pointId(item.0, snapshot.revision) {
          assert false;
        }
        hits := hits + [ContextHit(item.0, snapshot.revision, Some(snapshot.generation))];
      }
    }

    /** A hit that shows a live alias as it is now. */
    ghost predicate CurrentHit(hit: ContextHit)
      reads this
    {
      && IsLive(aliases, hit.name) && hit.revision == aliases[hit.name].revision
      && hit.generation == Some(aliases[hit.name].generation)
    }

    method SearchPinned(target: Uri) returns (r: Result<seq<ContextHit>, ContextError>)
      requires Valid() && target.revision.Some?
      ensures r.Err? ==> r.error in {RevisionNotFound, BackendUnavailable}
      ensures r == Err(RevisionNotFound) <==> (LogicalKey(target), target.revision.value) !in objects
      ensures r.Ok? <==> StoredFor(functions, target.revision.value, LogicalKey(target), objects)
      ensures r.Ok? ==> r.value == [ContextHit(LogicalKey(target), target.revision.value, None)]
    {
      var n, revision := LogicalKey(target), target.revision.value;
      if (n, revision) !in objects {
        return Err(RevisionNotFound);
      }
      var vector := functions.vectorOf(revision, objects[(n, revision)]);
      if vector.None? {
        return Err(BackendUnavailable);
      }
      return Ok([ContextHit(n, revision, None)]);
    }
  }

  /** With the outbox empty the index holds the live aliases, each at its own point. */
  lemma DrainedIndex(f: Functions, jobs: IndexJobs, aliases: Aliases, objects: Objects, index: Index)
    requires IndexAgrees(f, jobs, aliases, objects, index) && jobs == map[]
    ensures forall n :: n in index <==> IsLive(aliases, n)
    ensures forall n :: n in index ==> index[n].id == f.pointId(n, aliases[n].revision)
  {
    forall n
      ensures (n in index <==> IsLive(aliases, n)) && (n in index ==> index[n].id == f.pointId(n, aliases[n].revision))
    {
      assert n !in jobs;
      assert AgreesAt(f, aliases, objects, index, n);
    }
  }

  /** The objects of all other names. */
  function Without(objects: Objects, n: Name): Objects {
    map key | key in objects && key.0 != n :: objects[key]
  }

  lemma FewerJobs(jobs: IndexJobs, n: Name)
    requires n in jobs
    ensures |jobs - {n}| < |jobs|
  {
    assert (jobs - {n}).Keys == jobs.Keys - {n};
  }

  lemma FewerObjects(objects: Objects, n: Name)
    ensures |Without(objects, n)| <= |objects|
  {
    SubsetSize(Without(objects, n).Keys, objects.Keys);
  }

  lemma ReplacedSize(aliases: Aliases, n: Name, snapshot: AliasSnapshot)
    requires n in aliases
    ensures |aliases[n := snapshot]| == |aliases|
  {
    assert aliases[n := snapshot].Keys == aliases.Keys;
  }

  lemma PutKeeps(f: Functions, objects: Objects, aliases: Aliases, jobs: IndexJobs, index: Index, key: (Name, Revision),
                 rvf: seq<byte>)
    requires ContentAddressed(f, objects) && Backed(f, aliases, objects) && JobsCurrent(f, jobs, aliases, objects)
    requires IndexAgrees(f, jobs, aliases, objects, index) && key !in objects && f.digest(rvf) == key.1
    ensures
      var objects' := objects[key := rvf];
      && ContentAddressed(f, objects') && Backed(f, aliases, objects') && JobsCurrent(f, jobs, aliases, objects')
      && IndexAgrees(f, jobs, aliases, objects', index)
  {}

  lemma AdvanceKeeps(f: Functions, objects: Objects, aliases: Aliases, jobs: IndexJobs, index: Index,
                     purgeJobs: set<Name>, purged: set<Name>, snapshot: AliasSnapshot, job: IndexJob)
    requires Backed(f, aliases, objects) && JobsCurrent(f, jobs, aliases, objects)
    requires IndexAgrees(f, jobs, aliases, objects, index) && PurgesKept(aliases, purgeJobs, purged)
    requires !snapshot.tombstone && JobFits(f, job, snapshot, snapshot.alias, objects)
    ensures
      var n := snapshot.alias;
      var aliases', jobs' := aliases[n := snapshot], jobs[n := job];
      && Backed(f, aliases', objects) && JobsCurrent(f, jobs', aliases', objects)
      && IndexAgrees(f, jobs', aliases', objects, index) && PurgesKept(aliases', purgeJobs, purged)
  {}

  lemma ForgetKeeps(f: Functions, objects: Objects, aliases: Aliases, jobs: IndexJobs, index: Index,
                    purgeJobs: set<Name>, purged: set<Name>, snapshot: AliasSnapshot)
    requires ContentAddressed(f, objects) && Backed(f, aliases, objects) && JobsCurrent(f, jobs, aliases, objects)
    requires IndexAgrees(f, jobs, aliases, objects, index) && PurgesKept(aliases, purgeJobs, purged)
      && snapshot.tombstone
    ensures
      var n := snapshot.alias;
      var objects', aliases', jobs' := Without(objects, n), aliases[n := snapshot], jobs[n := Erase];
      && ContentAddressed(f, objects') && Backed(f, aliases', objects') && JobsCurrent(f, jobs', aliases', objects')
      && IndexAgrees(f, jobs', aliases', objects', index) && PurgesKept(aliases', purgeJobs + {n}, purged)
  {}

  lemma ForgottenGone(f: Functions, jobs: IndexJobs, aliases: Aliases, objects: Objects, index: Index,
                      purgeJobs: set<Name>, purged: set<Name>, n: Name)
    requires IndexAgrees(f, jobs, aliases, objects, index) && PurgesKept(aliases, purgeJobs, purged)
    requires n in aliases && aliases[n].tombstone
    ensures (n in jobs || n !in index) && (n in purgeJobs || n in purged)
  {
    assert n !in jobs ==> AgreesAt(f, aliases, objects, index, n);
  }
}
