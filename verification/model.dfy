/** The persisted entities the synchroniser reads and writes, with their
    primary keys. Fields the synchroniser never inspects are folded into a
    single `detail` value; `createTime` stands for the record's creation
    timestamp. */
module Model {

  datatype Option<T> = None | Some(value: T)

  /** Primary key of a record scoped to an application: the owning
      application's key and the record's name (or version). */
  datatype Key = Key(scope: string, name: string)

  /** Project, also used as the creation request (the request carries the
      record the project service stores). */
  datatype Project = Project(name: string, alias: string, owner: string, description: string)

  /** Application metadata, keyed by name. */
  datatype Application = Application(name: string, createTime: int, detail: string)

  /** Environment, keyed by name; `targets` lists the names of the targets it
      binds. */
  datatype Env = Env(name: string, alias: string, description: string, project: string,
                     namespace: string, targets: seq<string>, createTime: int)

  /** Link from an application to its environment, keyed by (app, env name). */
  datatype EnvBinding = EnvBinding(app: string, name: string, detail: string)

  /** An application component or policy: both carry the application key, a
      name, the creator tag that decides whether sync may delete them, and a
      creation time. */
  datatype OwnedRecord = OwnedRecord(app: string, name: string, creator: string, createTime: int, detail: string)

  type ApplicationComponent = OwnedRecord
  type ApplicationPolicy = OwnedRecord

  datatype Workflow = Workflow(app: string, name: string, createTime: int, detail: string)

  datatype WorkflowRecord = WorkflowRecord(app: string, name: string, detail: string)

  datatype ApplicationRevision = ApplicationRevision(app: string, version: string, createTime: int, detail: string)

  /** Deployment target, keyed by name. */
  datatype Target = Target(name: string, alias: string, project: string, description: string,
                           cluster: string, variable: string)

  /** Owner given to a project created by sync. */
  const DefaultAdminUserName: string := "admin"
  /** Description given to a project created by sync (placeholder text). */
  const AutoGenProj: string := "auto-generated project"
  /** Creator tag of a component created by sync (placeholder text). */
  const AutoGenComp: string := "auto-generated component"
  /** Creator tag of a policy created by sync (placeholder text). */
  const AutoGenPolicy: string := "auto-generated policy"

  function BindingKey(eb: EnvBinding): Key { Key(eb.app, eb.name) }
  function OwnedKey(r: OwnedRecord): Key { Key(r.app, r.name) }
  function WorkflowKey(w: Workflow): Key { Key(w.app, w.name) }
  function RecordKey(r: WorkflowRecord): Key { Key(r.app, r.name) }
  function RevisionKey(r: ApplicationRevision): Key { Key(r.app, r.version) }

  /** Every component or policy is stored under its own primary key. */
  ghost predicate Keyed(rows: map<Key, OwnedRecord>)
  {
    forall k | k in rows :: OwnedKey(rows[k]) == k
  }
}
