/** The single-record synchronisers and the target synchroniser of
    pkg/server/event/sync/store.go: each makes one table of the datastore
    converge to the desired record(s) of one application.

    Every routine is a method over the tables it touches and the envelope it
    reads from; each is proved equal to a ghost specification function of the
    old state, and what the synchroniser promises is stated on those
    functions and in the lemmas beside them. */
module Sync {
  import opened Datastore
  import opened Model

  /** The desired state of one application, as the driver materialised it.
      Routines that copy a creation time into a desired record, or fill a
      desired record from the store, write it back here. */
  class DataStoreApp {
    var project: Project
    var appMeta: Application
    var env: Env
    var eb: EnvBinding
    var comps: array<ApplicationComponent>
    var policies: array<ApplicationPolicy>
    var workflow: Workflow
    var targets: array<Target>
    var record: Option<WorkflowRecord>
    var revision: Option<ApplicationRevision>

    constructor (project: Project, appMeta: Application, env: Env, eb: EnvBinding,
                 comps: array<ApplicationComponent>, policies: array<ApplicationPolicy>,
                 workflow: Workflow, targets: array<Target>,
                 record: Option<WorkflowRecord>, revision: Option<ApplicationRevision>)
      ensures this.project == project && this.appMeta == appMeta && this.env == env && this.eb == eb
      ensures this.comps == comps && this.policies == policies && this.workflow == workflow
      ensures this.targets == targets && this.record == record && this.revision == revision
    {
      this.project, this.appMeta, this.env, this.eb := project, appMeta, env, eb;
      this.comps, this.policies, this.workflow := comps, policies, workflow;
      this.targets, this.record, this.revision := targets, record, revision;
    }
  }

  /** Every record present in `rows` is still present, unchanged, in `rows'`. */
  ghost predicate Keeps<K, V>(rows: map<K, V>, rows': map<K, V>)
  {
    forall k | k in rows :: k in rows' && rows'[k] == rows[k]
  }

  /** The table after a single-record sync, the error it returned, and the
      desired record as the caller holds it afterwards. */
  datatype Synced<K, V> = Synced(rows: map<K, V>, outcome: Outcome, desired: V)

  // ---------------------------------------------------------------- project

  /** The project sync creates with the default owner and description. */
  function Defaulted(project: Project): Project
  {
    project.(owner := DefaultAdminUserName, description := AutoGenProj)
  }

  ghost function ProjectSync(rows: map<string, Project>, faults: map<Op<string>, Error>,
                             project: Project, hasService: bool): (r: Step<string, Project>)
    // an existing project is never modified; the only record ever added is the defaulted one
    ensures Keeps(rows, r.rows)
    ensures forall k | k in r.rows && k !in rows :: k == project.name && r.rows[k] == Defaulted(project)
    // present: nothing to do
    ensures GetOp(project.name) !in faults && project.name in rows ==> r == Step(rows, Pass)
    // any other lookup error is returned
    ensures GetOp(project.name) in faults && faults[GetOp(project.name)] != RecordNotExist
      ==> r == Step(rows, Fail(faults[GetOp(project.name)]))
    // without a project service nothing is created and no creation error arises
    ensures !hasService ==> r.rows == rows && (r.outcome.Fail? ==> GetOp(project.name) in faults)
    // missing: created through the service with the defaults
    ensures GetOp(project.name) !in faults && project.name !in rows && hasService && CreateOp(project.name) !in faults
      ==> r == Step(rows[project.name := Defaulted(project)], Pass)
    // missing: a creation error is returned as it is, "already exists" included
    ensures GetOp(project.name) !in faults && project.name !in rows && hasService && CreateOp(project.name) in faults
      ==> r == Step(rows, Fail(faults[CreateOp(project.name)]))
  {
    match GetRow(rows, faults, project.name)
    case Ok(_) => Step(rows, Pass)
    case Err(e) =>
      if e != RecordNotExist then Step(rows, Fail(e))
      else if hasService then CreateRow(rows, faults, project.name, Defaulted(project))
      else Step(rows, Pass)
  }

  method StoreProject(project: Project, ds: Table<string, Project>, projectService: Service?<string, Project>)
    returns (err: Outcome)
    requires projectService != null ==> projectService.table == ds
    modifies ds`rows
    ensures Step(ds.rows, err) == ProjectSync(old(ds.rows), ds.faults, project, projectService != null)
  {
    var cur := ds.Get(project.name);
    if cur.Ok? {
      return Pass;
    }
    if cur.error != RecordNotExist {
      return Fail(cur.error);
    }
    if projectService != null {
      var p := Defaulted(project);
      err := projectService.Create(p.name, p);
      return;
    }
    return Pass;
  }

  // ------------------------------------------- app meta, workflow, revision

  /** The lookup-then-overwrite-or-add pattern. The stored record is looked up
      under `probe`; if found, the desired record inherits from it (its
      creation time) and is Put under `key`; if missing, the desired record is
      Added under `key` as it is. */
  ghost function GetOrPut<K, V>(rows: map<K, V>, faults: map<Op<K>, Error>, probe: K, key: K, d: V,
                                inherit: (V, V) -> V): (r: Synced<K, V>)
    // a lookup error other than RecordNotExist is returned and nothing changes
    ensures GetOp(probe) in faults && faults[GetOp(probe)] != RecordNotExist
      ==> r == Synced(rows, Fail(faults[GetOp(probe)]), d)
    // found: the desired record inherits from the stored one and overwrites it
    ensures GetOp(probe) !in faults && probe in rows
      ==> r.desired == inherit(d, rows[probe])
          && (PutOp(key) !in faults && key in rows ==> r.rows == rows[key := r.desired] && r.outcome == Pass)
    // missing: the desired record is added unchanged
    ensures GetOp(probe) !in faults && probe !in rows
      ==> r.desired == d && (AddOp(key) !in faults && key !in rows ==> r.rows == rows[key := d] && r.outcome == Pass)
    // a failing write is returned: an injected Put or Add fault, or the store's
    // conflict error when the written key is missing (Put) or present (Add)
    ensures GetOp(probe) !in faults && probe in rows && PutOp(key) in faults ==> r.outcome == Fail(faults[PutOp(key)])
    ensures GetOp(probe) !in faults && probe in rows && PutOp(key) !in faults && key !in rows ==> r.outcome == Fail(RecordNotExist)
    ensures GetOp(probe) !in faults && probe !in rows && AddOp(key) in faults ==> r.outcome == Fail(faults[AddOp(key)])
    ensures GetOp(probe) !in faults && probe !in rows && AddOp(key) !in faults && key in rows ==> r.outcome == Fail(RecordExist)
    // only `key` is ever written, nothing is removed, a failed call writes
    // nothing, and a successful one has written the desired record
    ensures r.outcome.Fail? ==> r.rows == rows
    ensures r.outcome == Pass ==> r.rows == rows[key := r.desired]
  {
    match GetRow(rows, faults, probe)
    case Ok(cur) =>
      var d' := inherit(d, cur);
      var s := PutRow(rows, faults, key, d');
      Synced(s.rows, s.outcome, d')
    case Err(e) =>
      if e != RecordNotExist then Synced(rows, Fail(e), d)
      else
        var s := AddRow(rows, faults, key, d);
        Synced(s.rows, s.outcome, d)
  }

  /** Lookup-then-overwrite-or-add is idempotent: when the record is looked
      up under the key it is written to, and inheriting from an equal record
      changes nothing, a second run with the record as the caller now holds
      it succeeds and changes nothing. */
  lemma GetOrPutIdempotent<K, V>(rows: map<K, V>, faults: map<Op<K>, Error>, key: K, d: V, inherit: (V, V) -> V)
    requires forall v :: inherit(v, v) == v
    requires GetOp(key) !in faults && PutOp(key) !in faults && AddOp(key) !in faults
    ensures var r := GetOrPut(rows, faults, key, key, d, inherit);
      r.outcome == Pass && GetOrPut(r.rows, faults, key, key, r.desired, inherit) == Synced(r.rows, Pass, r.desired)
  {
  }

  function AppCreateTime(d: Application, cur: Application): Application { d.(createTime := cur.createTime) }
  function WorkflowCreateTime(d: Workflow, cur: Workflow): Workflow { d.(createTime := cur.createTime) }
  function RevisionCreateTime(d: ApplicationRevision, cur: ApplicationRevision): ApplicationRevision
  {
    d.(createTime := cur.createTime)
  }

  method StoreAppMeta(app: DataStoreApp, ds: Table<string, Application>) returns (err: Outcome)
    modifies app`appMeta, ds`rows
    ensures Synced(ds.rows, err, app.appMeta)
         == GetOrPut(old(ds.rows), ds.faults, old(app.appMeta.name), old(app.appMeta.name), old(app.appMeta), AppCreateTime)
    // an update keeps the stored creation time
    ensures var n := old(app.appMeta.name);
      n in old(ds.rows) && GetOp(n) !in ds.faults && PutOp(n) !in ds.faults
      ==> err == Pass && ds.rows == old(ds.rows)[n := old(app.appMeta).(createTime := old(ds.rows)[n].createTime)]
  {
    var cur := ds.Get(app.appMeta.name);
    if cur.Ok? {
      app.appMeta := app.appMeta.(createTime := cur.value.createTime);
      err := ds.Put(app.appMeta.name, app.appMeta);
      return;
    }
    if cur.error != RecordNotExist {
      return Fail(cur.error);
    }
    err := ds.Add(app.appMeta.name, app.appMeta);
  }

  method StoreWorkflow(app: DataStoreApp, ds: Table<Key, Workflow>) returns (err: Outcome)
    modifies app`workflow, ds`rows
    ensures Synced(ds.rows, err, app.workflow)
         == GetOrPut(old(ds.rows), ds.faults, Key(app.appMeta.name, old(app.workflow.name)),
                     WorkflowKey(old(app.workflow)), old(app.workflow), WorkflowCreateTime)
    // an update of the application's own workflow keeps the stored creation time
    ensures var k := WorkflowKey(old(app.workflow));
      k.scope == app.appMeta.name && k in old(ds.rows) && GetOp(k) !in ds.faults && PutOp(k) !in ds.faults
      ==> err == Pass && ds.rows == old(ds.rows)[k := old(app.workflow).(createTime := old(ds.rows)[k].createTime)]
  {
    var cur := ds.Get(Key(app.appMeta.name, app.workflow.name));
    if cur.Ok? {
      app.workflow := app.workflow.(createTime := cur.value.createTime);
      err := ds.Put(WorkflowKey(app.workflow), app.workflow);
      return;
    }
    if cur.error != RecordNotExist {
      return Fail(cur.error);
    }
    err := ds.Add(WorkflowKey(app.workflow), app.workflow);
  }

  method StoreApplicationRevision(app: DataStoreApp, ds: Table<Key, ApplicationRevision>) returns (err: Outcome)
    modifies app`revision, ds`rows
    // no revision: nothing to do
    ensures old(app.revision).None? ==> err == Pass && ds.rows == old(ds.rows) && app.revision == old(app.revision)
    ensures old(app.revision).Some?
      ==> app.revision.Some?
          && Synced(ds.rows, err, app.revision.value)
          == GetOrPut(old(ds.rows), ds.faults, Key(app.appMeta.name, old(app.revision).value.version),
                      RevisionKey(old(app.revision).value), old(app.revision).value, RevisionCreateTime)
  {
    if app.revision.None? {
      return Pass;
    }
    var rev := app.revision.value;
    var cur := ds.Get(Key(app.appMeta.name, rev.version));
    if cur.Ok? {
      rev := rev.(createTime := cur.value.createTime);
      app.revision := Some(rev);
      err := ds.Put(RevisionKey(rev), rev);
      return;
    }
    if cur.error != RecordNotExist {
      return Fail(cur.error);
    }
    err := ds.Add(RevisionKey(rev), rev);
  }

  // -------------------------------------------------------------------- env

  /** Target lists are compared as sequences. */
  predicate SameTargets(a: seq<string>, b: seq<string>)
  {
    a == b
  }

  ghost function EnvSync(rows: map<string, Env>, faults: map<Op<string>, Error>, env: Env): (r: Synced<string, Env>)
    // a lookup error other than RecordNotExist is returned and nothing changes
    ensures GetOp(env.name) in faults && faults[GetOp(env.name)] != RecordNotExist
      ==> r == Synced(rows, Fail(faults[GetOp(env.name)]), env)
    // present with the same targets: nothing is written
    ensures GetOp(env.name) !in faults && env.name in rows && SameTargets(rows[env.name].targets, env.targets)
      ==> r == Synced(rows, Pass, env)
    // present with other targets: overwritten, keeping the stored creation time
    ensures GetOp(env.name) !in faults && env.name in rows && !SameTargets(rows[env.name].targets, env.targets)
      ==> r.desired == env.(createTime := rows[env.name].createTime)
          && (PutOp(env.name) !in faults ==> r == Synced(rows[env.name := r.desired], Pass, r.desired))
          // a failing overwrite is returned
          && (PutOp(env.name) in faults ==> r == Synced(rows, Fail(faults[PutOp(env.name)]), r.desired))
    // missing: created through the env service; "already exists" counts as success
    ensures GetOp(env.name) !in faults && env.name !in rows
      ==> r.desired == env && r.outcome != Fail(AlreadyExists)
          && (CreateOp(env.name) !in faults ==> r == Synced(rows[env.name := env], Pass, env))
          // any other creation error is returned
          && (CreateOp(env.name) in faults && faults[CreateOp(env.name)] != AlreadyExists ==>
                r == Synced(rows, Fail(faults[CreateOp(env.name)]), env))
          && (CreateOp(env.name) in faults && faults[CreateOp(env.name)] == AlreadyExists ==> r == Synced(rows, Pass, env))
    // only the env's own key is ever written, and a failed call writes nothing
    ensures r.outcome.Fail? ==> r.rows == rows
    ensures r.rows == rows || r.rows == rows[env.name := r.desired]
  {
    match GetRow(rows, faults, env.name)
    case Ok(cur) =>
      if SameTargets(cur.targets, env.targets) then Synced(rows, Pass, env)
      else
        var d := env.(createTime := cur.createTime);
        var s := PutRow(rows, faults, env.name, d);
        Synced(s.rows, s.outcome, d)
    case Err(e) =>
      if e != RecordNotExist then Synced(rows, Fail(e), env)
      else
        var s := CreateRow(rows, faults, env.name, env);
        Synced(s.rows, if s.outcome == Fail(AlreadyExists) then Pass else s.outcome, env)
  }

  /** A second env sync with the env as the caller now holds it, after one
      that succeeded, succeeds and changes nothing. */
  lemma EnvIdempotent(rows: map<string, Env>, faults: map<Op<string>, Error>, env: Env)
    requires GetOp(env.name) !in faults && EnvSync(rows, faults, env).outcome == Pass
    ensures var r := EnvSync(rows, faults, env);
      EnvSync(r.rows, faults, r.desired) == Synced(r.rows, Pass, r.desired)
  {
  }

  method StoreEnv(app: DataStoreApp, ds: Table<string, Env>, envService: Service<string, Env>) returns (err: Outcome)
    requires envService.table == ds
    modifies app`env, ds`rows
    ensures Synced(ds.rows, err, app.env) == EnvSync(old(ds.rows), ds.faults, old(app.env))
  {
    var cur := ds.Get(app.env.name);
    if cur.Ok? {
      if SameTargets(cur.value.targets, app.env.targets) {
        return Pass;
      }
      app.env := app.env.(createTime := cur.value.createTime);
      err := ds.Put(app.env.name, app.env);
      return;
    }
    if cur.error != RecordNotExist {
      return Fail(cur.error);
    }
    var e := envService.Create(app.env.name, app.env);
    if e.Fail? && e.error != AlreadyExists {
      return e;
    }
    return Pass;
  }

  // ------------------------------------------------------------ env binding

  ghost function BindingSync(rows: map<Key, EnvBinding>, faults: map<Op<Key>, Error>, eb: EnvBinding)
    : (r: Synced<Key, EnvBinding>)
    // an existing binding is never modified; the only record ever added is `eb`
    ensures Keeps(rows, r.rows)
    ensures r.rows == rows || r.rows == rows[BindingKey(eb) := eb]
    // present: nothing is written, and the caller's binding is filled from the store
    ensures GetOp(BindingKey(eb)) !in faults && BindingKey(eb) in rows
      ==> r == Synced(rows, Pass, rows[BindingKey(eb)])
    // a lookup error other than RecordNotExist is returned
    ensures GetOp(BindingKey(eb)) in faults && faults[GetOp(BindingKey(eb))] != RecordNotExist
      ==> r == Synced(rows, Fail(faults[GetOp(BindingKey(eb))]), eb)
    // missing: added
    ensures BindingKey(eb) !in rows && GetOp(BindingKey(eb)) !in faults && AddOp(BindingKey(eb)) !in faults
      ==> r == Synced(rows[BindingKey(eb) := eb], Pass, eb)
    // missing: a failing insert is returned
    ensures BindingKey(eb) !in rows && GetOp(BindingKey(eb)) !in faults && AddOp(BindingKey(eb)) in faults
      ==> r == Synced(rows, Fail(faults[AddOp(BindingKey(eb))]), eb)
  {
    match GetRow(rows, faults, BindingKey(eb))
    case Ok(cur) => Synced(rows, Pass, cur)
    case Err(e) =>
      if e != RecordNotExist then Synced(rows, Fail(e), eb)
      else
        var s := AddRow(rows, faults, BindingKey(eb), eb);
        Synced(s.rows, s.outcome, eb)
  }

  method StoreEnvBinding(app: DataStoreApp, ds: Table<Key, EnvBinding>) returns (err: Outcome)
    modifies app`eb, ds`rows
    ensures Synced(ds.rows, err, app.eb) == BindingSync(old(ds.rows), ds.faults, old(app.eb))
  {
    var cur := ds.Get(BindingKey(app.eb));
    if cur.Ok? {
      app.eb := cur.value;
      return Pass;
    }
    if cur.error != RecordNotExist {
      return Fail(cur.error);
    }
    err := ds.Add(BindingKey(app.eb), app.eb);
  }

  // -------------------------------------------------------- workflow record

  /** Some stored record belongs to application `app` and is named `name`. */
  ghost predicate HasRecord(rows: map<Key, WorkflowRecord>, app: string, name: string)
  {
    exists k | k in rows :: rows[k].app == app && rows[k].name == name
  }

  ghost function RecordSync(rows: map<Key, WorkflowRecord>, faults: map<Op<Key>, Error>, app: string,
                            record: Option<WorkflowRecord>): (r: Step<Key, WorkflowRecord>)
    // an existing record is never modified; the only record ever added is the desired one
    ensures Keeps(rows, r.rows)
    ensures r.rows == rows || (record.Some? && r.rows == rows[RecordKey(record.value) := record.value])
    // no desired record: nothing to do
    ensures record.None? ==> r == Step(rows, Pass)
    // a list error is returned
    ensures record.Some? && ListOp in faults ==> r == Step(rows, Fail(faults[ListOp]))
    // a matching record exists: nothing is written
    ensures record.Some? && ListOp !in faults && HasRecord(rows, app, record.value.name) ==> r == Step(rows, Pass)
    // no matching record: the desired one is added
    ensures record.Some? && ListOp !in faults && !HasRecord(rows, app, record.value.name)
            && AddOp(RecordKey(record.value)) !in faults && RecordKey(record.value) !in rows
      ==> r == Step(rows[RecordKey(record.value) := record.value], Pass)
    // no matching record: a failing insert is returned, an injected fault or
    // the conflict with a record stored under the same key for another application
    ensures record.Some? && ListOp !in faults && !HasRecord(rows, app, record.value.name) && AddOp(RecordKey(record.value)) in faults
      ==> r == Step(rows, Fail(faults[AddOp(RecordKey(record.value))]))
    ensures record.Some? && ListOp !in faults && !HasRecord(rows, app, record.value.name)
            && AddOp(RecordKey(record.value)) !in faults && RecordKey(record.value) in rows
      ==> r == Step(rows, Fail(RecordExist))
  {
    if record.None? then Step(rows, Pass)
    else if ListOp in faults then Step(rows, Fail(faults[ListOp]))
    else if HasRecord(rows, app, record.value.name) then Step(rows, Pass)
    else AddRow(rows, faults, RecordKey(record.value), record.value)
  }

  /** A second record sync after one that succeeded changes nothing. */
  lemma RecordIdempotent(rows: map<Key, WorkflowRecord>, faults: map<Op<Key>, Error>, app: string,
                         record: Option<WorkflowRecord>)
    requires record.Some? ==> record.value.app == app
    requires RecordSync(rows, faults, app, record).outcome == Pass
    ensures var r := RecordSync(rows, faults, app, record);
      RecordSync(r.rows, faults, app, record) == Step(r.rows, Pass)
  {
  }

  method StoreWorkflowRecord(app: DataStoreApp, ds: Table<Key, WorkflowRecord>) returns (err: Outcome)
    modifies ds`rows
    ensures Step(ds.rows, err) == RecordSync(old(ds.rows), ds.faults, app.appMeta.name, app.record)
  {
    if app.record.None? {
      return Pass;
    }
    var rec := app.record.value;
    var appName := app.appMeta.name;
    var records: Result<seq<WorkflowRecord>>;
    ghost var keys: seq<Key>;
    records, keys := ds.List((r: WorkflowRecord) => r.app == appName && r.name == rec.name);
    if records.Ok? && |records.value| > 0 {
      assert ds.rows[keys[0]] == records.value[0];
      return Pass;
    }
    if records.Err? {
      return Fail(records.error);
    }
    assert !HasRecord(ds.rows, appName, rec.name) by {
      forall k | k in ds.rows
        ensures !(ds.rows[k].app == appName && ds.rows[k].name == rec.name)
      {
        assert k !in keys;
      }
    }
    err := ds.Add(RecordKey(rec), rec);
  }

  // ---------------------------------------------------------------- targets

  /** The target table after StoreTargets, the error returned, and the
      desired targets as the caller holds them afterwards (a lookup that
      finds a target fills the desired one from the store, in place). */
  datatype TargetsSynced = TargetsSynced(rows: map<string, Target>, outcome: Outcome, targets: seq<Target>)

  /** StoreTargets from position i on, the targets before i already handled:
      a found target is filled from the store; a missing one is created, an
      "already exists" report counting as success; any other error stops the
      loop and is returned. */
  ghost function TargetsFrom(rows: map<string, Target>, faults: map<Op<string>, Error>, ts: seq<Target>, i: nat)
    : (r: TargetsSynced)
    requires i <= |ts|
    ensures |r.targets| == |ts|
    // targets already handled keep their value
    ensures forall j | 0 <= j < i :: r.targets[j] == ts[j]
    // nothing is removed, and a run that succeeds leaves every target from i
    // on stored, unless the store answered its creation with "already exists"
    ensures forall k | k in rows :: k in r.rows
    ensures r.outcome == Pass ==> forall j | i <= j < |ts| ::
      ts[j].name in r.rows || (CreateOp(ts[j].name) in faults && faults[CreateOp(ts[j].name)] == AlreadyExists)
    decreases |ts| - i
  {
    if i == |ts| then TargetsSynced(rows, Pass, ts)
    else
      match GetRow(rows, faults, ts[i].name)
      case Ok(cur) =>
        assert forall j | i < j < |ts| :: ts[i := cur][j] == ts[j];
        TargetsFrom(rows, faults, ts[i := cur], i + 1)
      case Err(e) =>
        if e != RecordNotExist then TargetsSynced(rows, Fail(e), ts)
        else
          var s := CreateRow(rows, faults, ts[i].name, ts[i]);
          if s.outcome.Fail? && s.outcome.error != AlreadyExists then TargetsSynced(rows, s.outcome, ts)
          else TargetsFrom(s.rows, faults, ts, i + 1)
  }

  ghost function TargetsSync(rows: map<string, Target>, faults: map<Op<string>, Error>, ts: seq<Target>)
    : (r: TargetsSynced)
    ensures |r.targets| == |ts|
  {
    TargetsFrom(rows, faults, ts, 0)
  }

  /** StoreTargets never modifies an existing target, and every target it
      adds is a desired target stored under its own name. */
  lemma {:induction false} TargetsKeepExisting(rows: map<string, Target>, faults: map<Op<string>, Error>,
                                               ts: seq<Target>, i: nat)
    requires i <= |ts|
    ensures var r := TargetsFrom(rows, faults, ts, i);
      && Keeps(rows, r.rows)
      && forall k | k in r.rows && k !in rows :: exists j | i <= j < |ts| :: ts[j].name == k && r.rows[k] == ts[j]
    decreases |ts| - i, 1
  {
    if i < |ts| {
      match GetRow(rows, faults, ts[i].name)
      case Ok(cur) =>
        TargetsKeepFound(rows, faults, ts, i, cur);
      case Err(e) =>
        var s := CreateRow(rows, faults, ts[i].name, ts[i]);
        if e == RecordNotExist && !(s.outcome.Fail? && s.outcome.error != AlreadyExists) {
          TargetsKeepCreated(rows, faults, ts, i);
        }
    }
  }

  /** The found-target case of TargetsKeepExisting. */
  lemma {:induction false} TargetsKeepFound(rows: map<string, Target>, faults: map<Op<string>, Error>,
                                            ts: seq<Target>, i: nat, cur: Target)
    requires i < |ts| && GetRow(rows, faults, ts[i].name) == Ok(cur)
    ensures var r := TargetsFrom(rows, faults, ts, i);
      && Keeps(rows, r.rows)
      && forall k | k in r.rows && k !in rows :: exists j | i <= j < |ts| :: ts[j].name == k && r.rows[k] == ts[j]
    decreases |ts| - i, 0
  {
    var r := TargetsFrom(rows, faults, ts, i);
    TargetsKeepExisting(rows, faults, ts[i := cur], i + 1);
    forall k | k in r.rows && k !in rows
      ensures exists j | i <= j < |ts| :: ts[j].name == k && r.rows[k] == ts[j]
    {
      var j :| i + 1 <= j < |ts| && ts[i := cur][j].name == k && r.rows[k] == ts[i := cur][j];
      assert ts[j].name == k && r.rows[k] == ts[j];
    }
  }

  /** The created-target case of TargetsKeepExisting. */
  lemma {:induction false} TargetsKeepCreated(rows: map<string, Target>, faults: map<Op<string>, Error>,
                                              ts: seq<Target>, i: nat)
    requires i < |ts| && GetRow(rows, faults, ts[i].name) == Err(RecordNotExist)
    requires var s := CreateRow(rows, faults, ts[i].name, ts[i]); !(s.outcome.Fail? && s.outcome.error != AlreadyExists)
    ensures var r := TargetsFrom(rows, faults, ts, i);
      && Keeps(rows, r.rows)
      && forall k | k in r.rows && k !in rows :: exists j | i <= j < |ts| :: ts[j].name == k && r.rows[k] == ts[j]
    decreases |ts| - i, 0
  {
    var r := TargetsFrom(rows, faults, ts, i);
    var s := CreateRow(rows, faults, ts[i].name, ts[i]);
    TargetsKeepExisting(s.rows, faults, ts, i + 1);
    forall k | k in r.rows && k !in rows
      ensures exists j | i <= j < |ts| :: ts[j].name == k && r.rows[k] == ts[j]
    {
      if k in s.rows {
        assert ts[i].name == k && r.rows[k] == ts[i];
      }
    }
  }

  /** The error StoreTargets returns is a lookup error other than
      RecordNotExist or a creation error other than AlreadyExists of one of
      the targets: an "already exists" report never stops the loop. */
  lemma {:induction false} TargetsErrors(rows: map<string, Target>, faults: map<Op<string>, Error>,
                                         ts: seq<Target>, i: nat)
    requires i <= |ts|
    ensures var r := TargetsFrom(rows, faults, ts, i);
      r.outcome.Fail?
      ==> exists j | i <= j < |ts| ::
            || (GetOp(ts[j].name) in faults && faults[GetOp(ts[j].name)] == r.outcome.error && r.outcome.error != RecordNotExist)
            || (CreateOp(ts[j].name) in faults && faults[CreateOp(ts[j].name)] == r.outcome.error && r.outcome.error != AlreadyExists)
    decreases |ts| - i
  {
    if i < |ts| {
      var r := TargetsFrom(rows, faults, ts, i);
      match GetRow(rows, faults, ts[i].name)
      case Ok(cur) =>
        TargetsErrors(rows, faults, ts[i := cur], i + 1);
        if r.outcome.Fail? {
          var j :| i + 1 <= j < |ts| && (
            || (GetOp(ts[i := cur][j].name) in faults && faults[GetOp(ts[i := cur][j].name)] == r.outcome.error && r.outcome.error != RecordNotExist)
            || (CreateOp(ts[i := cur][j].name) in faults && faults[CreateOp(ts[i := cur][j].name)] == r.outcome.error && r.outcome.error != AlreadyExists));
          assert ts[i := cur][j] == ts[j];
        }
      case Err(e) =>
        var s := CreateRow(rows, faults, ts[i].name, ts[i]);
        if e == RecordNotExist && !(s.outcome.Fail? && s.outcome.error != AlreadyExists) {
          TargetsErrors(s.rows, faults, ts, i + 1);
        }
    }
  }

  /** Target t fails in the loop on table `rows` with `outcome`: its lookup
      fails other than with RecordNotExist, or it is missing and its creation
      fails other than with AlreadyExists. */
  ghost predicate TargetFails(rows: map<string, Target>, faults: map<Op<string>, Error>, t: Target, outcome: Outcome)
  {
    match GetRow(rows, faults, t.name)
    case Ok(_) => false
    case Err(e) =>
      if e != RecordNotExist then outcome == Fail(e)
      else
        var s := CreateRow(rows, faults, t.name, t);
        s.outcome.Fail? && s.outcome.error != AlreadyExists && outcome == s.outcome
  }

  /** Run r of the loop from i stopped at target j: the run over the targets
      before j succeeds, r keeps the table that run left and the targets it
      filled in, leaves the targets from j on untouched, and reports the
      failure of target j on that table. */
  ghost predicate AbortsAt(rows: map<string, Target>, faults: map<Op<string>, Error>, ts: seq<Target>, i: nat, j: nat, r: TargetsSynced)
    requires i <= j < |ts|
  {
    var p := TargetsFrom(rows, faults, ts[..j], i);
    && p.outcome == Pass
    && r.rows == p.rows
    && r.targets == p.targets + ts[j..]
    && TargetFails(p.rows, faults, ts[j], r.outcome)
  }

  /** The loop over no remaining targets succeeds and changes nothing. */
  lemma TargetsDone(rows: map<string, Target>, faults: map<Op<string>, Error>, ts: seq<Target>, i: nat)
    requires i <= |ts|
    ensures TargetsFrom(rows, faults, ts[..i], i) == TargetsSynced(rows, Pass, ts[..i])
  {
  }

  /** A found target i is filled in the same way whether or not the loop
      runs past position j. */
  lemma TargetsFoundPrefix(rows: map<string, Target>, faults: map<Op<string>, Error>, ts: seq<Target>, i: nat, j: nat, cur: Target)
    requires i < j <= |ts|
    requires GetRow(rows, faults, ts[i].name) == Ok(cur)
    ensures TargetsFrom(rows, faults, ts[..j], i) == TargetsFrom(rows, faults, ts[i := cur][..j], i + 1)
  {
    assert ts[i := cur][..j] == ts[..j][i := cur];
  }

  /** A missing target i is created in the same way whether or not the loop
      runs past position j. */
  lemma TargetsCreatedPrefix(rows: map<string, Target>, faults: map<Op<string>, Error>, ts: seq<Target>, i: nat, j: nat)
    requires i < j <= |ts|
    requires GetRow(rows, faults, ts[i].name) == Err(RecordNotExist)
    requires var s := CreateRow(rows, faults, ts[i].name, ts[i]); !(s.outcome.Fail? && s.outcome.error != AlreadyExists)
    ensures TargetsFrom(rows, faults, ts[..j], i) == TargetsFrom(CreateRow(rows, faults, ts[i].name, ts[i]).rows, faults, ts[..j], i + 1)
  {
    assert ts[..j][i] == ts[i];
  }

  /** A run that stops after filling in a found target i stops where the
      run from i + 1 stops. */
  lemma TargetsAbortFound(rows: map<string, Target>, faults: map<Op<string>, Error>, ts: seq<Target>, i: nat, j: nat,
                          cur: Target, r: TargetsSynced)
    requires i < j < |ts|
    requires GetRow(rows, faults, ts[i].name) == Ok(cur)
    requires AbortsAt(rows, faults, ts[i := cur], i + 1, j, r)
    ensures AbortsAt(rows, faults, ts, i, j, r)
  {
    TargetsFoundPrefix(rows, faults, ts, i, j, cur);
    assert ts[i := cur][j..] == ts[j..];
  }

  /** A run that stops after creating a missing target i stops where the run
      from i + 1 on the enlarged table stops. */
  lemma TargetsAbortCreated(rows: map<string, Target>, faults: map<Op<string>, Error>, ts: seq<Target>, i: nat, j: nat,
                            r: TargetsSynced)
    requires i < j < |ts|
    requires GetRow(rows, faults, ts[i].name) == Err(RecordNotExist)
    requires var s := CreateRow(rows, faults, ts[i].name, ts[i]); !(s.outcome.Fail? && s.outcome.error != AlreadyExists)
    requires AbortsAt(CreateRow(rows, faults, ts[i].name, ts[i]).rows, faults, ts, i + 1, j, r)
    ensures AbortsAt(rows, faults, ts, i, j, r)
  {
    var s := CreateRow(rows, faults, ts[i].name, ts[i]);
    TargetsCreatedPrefix(rows, faults, ts, i, j);
    assert TargetsFrom(rows, faults, ts[..j], i) == TargetsFrom(s.rows, faults, ts[..j], i + 1);
    assert AbortsAt(s.rows, faults, ts, i + 1, j, r);
  }

  /** A run that fails on target i stops there. */
  lemma TargetsAbortHere(rows: map<string, Target>, faults: map<Op<string>, Error>, ts: seq<Target>, i: nat)
    requires i < |ts|
    requires GetRow(rows, faults, ts[i].name).Err?
    requires var s := CreateRow(rows, faults, ts[i].name, ts[i]);
      GetRow(rows, faults, ts[i].name).error != RecordNotExist || (s.outcome.Fail? && s.outcome.error != AlreadyExists)
    ensures AbortsAt(rows, faults, ts, i, i, TargetsFrom(rows, faults, ts, i))
  {
    TargetsDone(rows, faults, ts, i);
    assert ts[..i] + ts[i..] == ts;
  }

  /** The loop stops at the first failing target and returns its error: a
      failed run is a successful run over the targets before some j, followed
      by the failure of target j on the table that run left; the targets from
      j on are neither attempted nor filled in, and the earlier writes remain. */
  lemma {:induction false} TargetsAbort(rows: map<string, Target>, faults: map<Op<string>, Error>, ts: seq<Target>, i: nat)
    requires i <= |ts|
    ensures var r := TargetsFrom(rows, faults, ts, i);
      r.outcome.Fail? ==> exists j | i <= j < |ts| :: AbortsAt(rows, faults, ts, i, j, r)
    decreases |ts| - i
  {
    var r := TargetsFrom(rows, faults, ts, i);
    if i < |ts| && r.outcome.Fail? {
      match GetRow(rows, faults, ts[i].name)
      case Ok(cur) =>
        TargetsAbort(rows, faults, ts[i := cur], i + 1);
        var j :| i + 1 <= j < |ts| && AbortsAt(rows, faults, ts[i := cur], i + 1, j, r);
        TargetsAbortFound(rows, faults, ts, i, j, cur, r);
      case Err(e) =>
        var s := CreateRow(rows, faults, ts[i].name, ts[i]);
        if e == RecordNotExist && !(s.outcome.Fail? && s.outcome.error != AlreadyExists) {
          TargetsAbort(s.rows, faults, ts, i + 1);
          var j :| i + 1 <= j < |ts| && AbortsAt(s.rows, faults, ts, i + 1, j, r);
          TargetsAbortCreated(rows, faults, ts, i, j, r);
        } else {
          TargetsAbortHere(rows, faults, ts, i);
        }
    }
  }

  /** StoreTargets either leaves every desired target stored (or reported
      as already existing by the store), or stops at the first failing
      target and returns its error, with the creations before it kept and
      no later target attempted. */
  lemma TargetsSyncOutcome(rows: map<string, Target>, faults: map<Op<string>, Error>, ts: seq<Target>)
    ensures var r := TargetsSync(rows, faults, ts);
      && (r.outcome == Pass ==> forall j | 0 <= j < |ts| ::
            ts[j].name in r.rows || (CreateOp(ts[j].name) in faults && faults[CreateOp(ts[j].name)] == AlreadyExists))
      && (r.outcome.Fail? ==> exists j | 0 <= j < |ts| :: AbortsAt(rows, faults, ts, 0, j, r))
  {
    TargetsAbort(rows, faults, ts, 0);
  }

  /** Neither a lookup nor a creation of any desired target from i on fails. */
  ghost predicate Reachable(faults: map<Op<string>, Error>, ts: seq<Target>, i: nat)
  {
    forall j | i <= j < |ts| :: GetOp(ts[j].name) !in faults && CreateOp(ts[j].name) !in faults
  }

  /** Every target is stored under its own name. */
  ghost predicate Named(rows: map<string, Target>)
  {
    forall k | k in rows :: rows[k].name == k
  }

  /** Every desired target before i is stored, and the caller's copy of it is
      the stored record. */
  ghost predicate Stored(rows: map<string, Target>, ts: seq<Target>, i: nat)
  {
    forall j | 0 <= j < i && j < |ts| :: ts[j].name in rows && rows[ts[j].name] == ts[j]
  }

  /** Without faults on the desired targets StoreTargets succeeds, every
      desired target is then stored, and the caller's copy of each is the
      stored record: either the one found or the one just created. */
  lemma {:induction false} TargetsConverge(rows: map<string, Target>, faults: map<Op<string>, Error>,
                                           ts: seq<Target>, i: nat)
    requires i <= |ts| && Reachable(faults, ts, i) && Stored(rows, ts, i) && Named(rows)
    ensures var r := TargetsFrom(rows, faults, ts, i);
      && r.outcome == Pass && Stored(r.rows, r.targets, |ts|)
      && forall j | 0 <= j < |ts| :: r.targets[j].name == ts[j].name
    decreases |ts| - i, 1
  {
    if i < |ts| {
      if ts[i].name in rows {
        TargetsConvergeFound(rows, faults, ts, i);
      } else {
        TargetsConvergeCreated(rows, faults, ts, i);
      }
    }
  }

  /** The found-target case of TargetsConverge. */
  lemma {:induction false} TargetsConvergeFound(rows: map<string, Target>, faults: map<Op<string>, Error>,
                                                ts: seq<Target>, i: nat)
    requires i <= |ts| && Reachable(faults, ts, i) && Stored(rows, ts, i) && Named(rows)
    requires i < |ts| && ts[i].name in rows
    ensures var r := TargetsFrom(rows, faults, ts, i);
      && r.outcome == Pass && Stored(r.rows, r.targets, |ts|)
      && forall j | 0 <= j < |ts| :: r.targets[j].name == ts[j].name
    decreases |ts| - i, 0
  {
    var ts' := ts[i := rows[ts[i].name]];
    assert Reachable(faults, ts', i + 1) && Stored(rows, ts', i + 1);
    TargetsConverge(rows, faults, ts', i + 1);
  }

  /** The created-target case of TargetsConverge. */
  lemma {:induction false} TargetsConvergeCreated(rows: map<string, Target>, faults: map<Op<string>, Error>,
                                                  ts: seq<Target>, i: nat)
    requires i <= |ts| && Reachable(faults, ts, i) && Stored(rows, ts, i) && Named(rows)
    requires i < |ts| && ts[i].name !in rows
    ensures var r := TargetsFrom(rows, faults, ts, i);
      && r.outcome == Pass && Stored(r.rows, r.targets, |ts|)
      && forall j | 0 <= j < |ts| :: r.targets[j].name == ts[j].name
    decreases |ts| - i, 0
  {
    var rows' := rows[ts[i].name := ts[i]];
    assert Stored(rows', ts, i + 1);
    TargetsConverge(rows', faults, ts, i + 1);
  }

  /** Once every desired target is stored as the caller holds it, StoreTargets
      changes nothing. */
  lemma {:induction false} TargetsStable(rows: map<string, Target>, faults: map<Op<string>, Error>,
                                         ts: seq<Target>, i: nat)
    requires i <= |ts| && Reachable(faults, ts, i) && Stored(rows, ts, |ts|)
    ensures TargetsFrom(rows, faults, ts, i) == TargetsSynced(rows, Pass, ts)
    decreases |ts| - i
  {
    if i < |ts| {
      assert ts[i := rows[ts[i].name]] == ts;
      TargetsStable(rows, faults, ts, i + 1);
    }
  }

  /** Running StoreTargets again on what a fault-free run left behind, with
      the caller's filled-in targets, changes nothing. */
  lemma TargetsIdempotent(rows: map<string, Target>, faults: map<Op<string>, Error>, ts: seq<Target>)
    requires Reachable(faults, ts, 0) && Named(rows)
    ensures var r := TargetsSync(rows, faults, ts);
      TargetsSync(r.rows, faults, r.targets) == TargetsSynced(r.rows, Pass, r.targets)
  {
    var r := TargetsSync(rows, faults, ts);
    TargetsConverge(rows, faults, ts, 0);
    assert Reachable(faults, r.targets, 0) by {
      forall j | 0 <= j < |r.targets|
        ensures GetOp(r.targets[j].name) !in faults && CreateOp(r.targets[j].name) !in faults
      {
        assert r.targets[j].name == ts[j].name;
      }
    }
    TargetsStable(r.rows, faults, r.targets, 0);
  }

  method StoreTargets(app: DataStoreApp, ds: Table<string, Target>, targetService: Service<string, Target>)
    returns (err: Outcome)
    requires targetService.table == ds
    modifies app.targets, ds`rows
    ensures var r := TargetsSync(old(ds.rows), ds.faults, old(app.targets[..]));
      ds.rows == r.rows && err == r.outcome && app.targets[..] == r.targets
  {
    var targets := app.targets;
    ghost var whole := TargetsSync(ds.rows, ds.faults, targets[..]);
    var i := 0;
    while i < targets.Length
      invariant 0 <= i <= targets.Length
      invariant TargetsFrom(ds.rows, ds.faults, targets[..], i) == whole
    {
      var t := targets[i];
      var cur := ds.Get(t.name);
      if cur.Ok? {
        ghost var before := targets[..];
        targets[i] := cur.value;
        assert targets[..] == before[i := cur.value];
      } else if cur.error != RecordNotExist {
        return Fail(cur.error);
      } else {
        var e := targetService.Create(t.name, t);
        if e.Fail? && e.error != AlreadyExists {
          return e;
        }
      }
      i := i + 1;
    }
    return Pass;
  }
}
