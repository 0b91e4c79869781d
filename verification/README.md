# Application sync store, in Dafny

This project models the reconciliation layer of the KubeVela dashboard
server (velaux): the `Store*` routines of `pkg/server/event/sync/store.go`.
Given the desired state of one application (the `DataStoreApp` envelope),
they make a keyed datastore converge to it. Each routine either does
nothing, overwrites a stored record, or creates a new one. The component
and policy routines also delete records that sync itself created and that
are no longer wanted.

The project has five modules:

- `Datastore` (`datastore.dfy`) is the keyed store the routines talk to.
  - `Table<K, V>` holds one entity kind as a map from primary key to record. Its `Get`, `Add`, `Put`, `Delete` and `List` follow the datastore contract: a Get or Put of a missing key gives `RecordNotExist`, and an Add of a present key gives `RecordExist`.
  - A table's fault map names operations that fail with a given error and change nothing. This is how every error path of the routines is reached.
  - `Service<K, V>` stands for the project, environment and target creation services. Its `Create` inserts a record into its table or reports `AlreadyExists`.
- `Model` (`model.dfy`) holds the persisted entities, their primary keys and the sync constants.
- `Utils` (`utils.dfy`) holds the three-way name comparison used by the collection routines.
- `Sync` (`sync.dfy`) holds the envelope class `DataStoreApp`, the single-record routines and `StoreTargets`.
- `SyncCollection` (`sync_collection.dfy`) holds `StoreComponents` and `StorePolicy`.
  - These two differ only in the creator tag that marks a record as created by sync, so both call one routine, `SyncOwned`.

Each routine is an imperative method over the tables and the envelope. The
envelope's arrays and fields are updated in place, exactly where the Go
code writes into the caller's records:

- a copied `CreateTime`;
- an environment binding or target that `ds.Get` fills from the store.

Each method is proved equal to a ghost function of the old state (`ProjectSync`, `GetOrPut`, `EnvSync`, `BindingSync`, `RecordSync`, `TargetsFrom`, `OwnedSync`). What the routines promise is stated on those functions and in the lemmas beside them:

- which records are created, overwritten or left alone;
- which are deleted, and under what ownership tag;
- which errors are swallowed, returned or ignored, including the error of a failed write or creation, which is returned with nothing written;
- that the two loops stop at the first failing write or creation and return its error, keeping the writes before it and attempting none after it;
- convergence and idempotence.

The model follows the code in three places where one might expect otherwise:

- `StoreApplicationRevision` overwrites an existing revision, keeping its creation time. Revisions are not append-only.
- `StoreEnvBinding` never updates an existing binding. Instead, it fills the caller's binding from the store.
- `StorePolicy` decides whether a policy may be deleted from the creator tag alone. The comments at `store.go:188` and `store.go:213-214` speak of not deleting reference policies, but no reference-policy flag is consulted.

## Model

| member | source | states |
|---|---|---|
| Datastore.Table.Get | pkg/server/event/sync/store.go:50 | a lookup returns the stored record, `RecordNotExist` for a missing key, or an injected error |
| Datastore.Table.Add | pkg/server/event/sync/store.go:81 | an insert fails with `RecordExist` on a present key; a failed insert changes nothing |
| Datastore.Table.Put | pkg/server/event/sync/store.go:75 | an overwrite fails with `RecordNotExist` on a missing key; a failed overwrite changes nothing |
| Datastore.Table.Delete | pkg/server/event/sync/store.go:162 | a delete removes the key, fails with `RecordNotExist` if it is absent, and changes nothing on failure |
| Datastore.Table.List | pkg/server/event/sync/store.go:133 | a successful listing returns exactly the records that match the filter, each once; a failed one returns the injected error |
| Datastore.Service.Create | pkg/server/event/sync/store.go:62 | a creation service inserts the record, or reports `AlreadyExists` for a present key, or fails with an injected error and changes nothing |
| Sync.DataStoreApp.constructor | pkg/server/event/sync/store.go:35-46 | the envelope holds exactly the given project request, application, env, binding, component and policy arrays, workflow, targets, optional record and optional revision |
| Sync.ProjectSync | pkg/server/event/sync/store.go:49-66 | an existing project is never modified; present gives success with no write; other lookup errors are returned; without a service nothing is created; a missing project is created with owner `admin` and the auto-generated description; a creation error, `AlreadyExists` included, is returned with nothing written |
| Sync.StoreProject | pkg/server/event/sync/store.go:49-66 | the routine's new table and result are those of `ProjectSync` |
| Sync.GetOrPut | pkg/server/event/sync/store.go:69-82 | lookup-then-write: found means the desired record inherits from the stored one and overwrites it; missing means it is added unchanged; other lookup errors are returned with no write; an injected Put or Add error, `RecordNotExist` on overwrite of a missing key and `RecordExist` on add of a present key are returned; only the desired key is ever written; a failure writes nothing, a success stores the desired record under its key |
| Sync.GetOrPutIdempotent | pkg/server/event/sync/store.go:69-82 | with lookup and write keys equal, and inheriting from an equal record a no-op, a second run with the caller's record succeeds and changes nothing |
| Sync.StoreAppMeta | pkg/server/event/sync/store.go:69-82 | the application metadata follows `GetOrPut`; an update of a present application keeps its stored creation time |
| Sync.StoreWorkflow | pkg/server/event/sync/store.go:249-262 | the workflow is looked up under (application name, workflow name) and written under its own key; an update keeps the stored creation time |
| Sync.StoreApplicationRevision | pkg/server/event/sync/store.go:281-296 | no revision means success with no write; otherwise the revision follows `GetOrPut`, so an existing revision is overwritten with its creation time kept |
| Sync.EnvSync | pkg/server/event/sync/store.go:85-113 | equal target lists mean no write; different ones mean an overwrite keeping the creation time; a missing env is created through the service and `AlreadyExists` is success; the overwrite's error and any other creation error are returned; other lookup errors are returned; only the env's key is written; a failure writes nothing |
| Sync.EnvIdempotent | pkg/server/event/sync/store.go:85-113 | after a successful env sync, a second one with the caller's env succeeds and changes nothing |
| Sync.StoreEnv | pkg/server/event/sync/store.go:85-113 | the routine's new table, result and env are those of `EnvSync` |
| Sync.BindingSync | pkg/server/event/sync/store.go:116-127 | an existing binding is never modified and is copied into the caller's binding; a missing one is added, and the add's error is returned; other lookup errors are returned |
| Sync.StoreEnvBinding | pkg/server/event/sync/store.go:116-127 | the routine's new table, result and binding are those of `BindingSync` |
| Sync.RecordSync | pkg/server/event/sync/store.go:265-278 | no record means no write; a listing error is returned; any stored record with that application and name means no write; otherwise the record is added, and the add's error (an injected one, or `RecordExist` for a present key) is returned with nothing written; existing records are never modified |
| Sync.RecordIdempotent | pkg/server/event/sync/store.go:265-278 | after a successful record sync, a second one succeeds and changes nothing |
| Sync.StoreWorkflowRecord | pkg/server/event/sync/store.go:265-278 | the routine's new table and result are those of `RecordSync`, whatever order the listing returns |
| Sync.TargetsFrom | pkg/server/event/sync/store.go:300-321 | the target loop keeps the number of targets, never changes targets already handled, removes no record, and on success leaves every remaining desired target stored (or reported as already existing by the service) |
| Sync.TargetsDone | pkg/server/event/sync/store.go:300 | the loop over no remaining targets succeeds with no write |
| Sync.TargetsFoundPrefix | pkg/server/event/sync/store.go:301-304 | a found target is filled in the same way whether or not the loop continues past a later position |
| Sync.TargetsCreatedPrefix | pkg/server/event/sync/store.go:309-317 | a missing target is created in the same way whether or not the loop continues past a later position |
| Sync.TargetsAbortFound | pkg/server/event/sync/store.go:301-304 | a failed loop that first fills a found target stops where the loop from the next target stops |
| Sync.TargetsAbortCreated | pkg/server/event/sync/store.go:309-317 | a failed loop that first creates a missing target stops where the loop from the next target on the enlarged table stops |
| Sync.TargetsAbortHere | pkg/server/event/sync/store.go:305-319 | a target whose lookup fails other than with `RecordNotExist`, or whose creation fails other than with `AlreadyExists`, stops the loop there with that error |
| Sync.TargetsAbort | pkg/server/event/sync/store.go:300-321 | a failed loop is a successful loop over the targets before some target j, followed by the failure of target j on the table that loop left; its error is returned, the earlier creations remain, and no later target is attempted or filled in |
| Sync.TargetsSyncOutcome | pkg/server/event/sync/store.go:299-322 | the whole target sync either stores every desired target (or has it reported as already existing) or stops at the first failing target as `TargetsAbort` states |
| Sync.TargetsSync | pkg/server/event/sync/store.go:299-322 | the whole target sync keeps the number of targets (its properties are the lemmas below) |
| Sync.StoreTargets | pkg/server/event/sync/store.go:299-322 | the loop's new table, result and filled-in targets are those of `TargetsFrom` from position 0 |
| Sync.TargetsKeepExisting | pkg/server/event/sync/store.go:300-316 | an existing target is never modified; every new key holds a desired target stored under its own name |
| Sync.TargetsErrors | pkg/server/event/sync/store.go:305-319 | a returned error is some target's lookup error other than `RecordNotExist`, or its creation error other than `AlreadyExists` |
| Sync.TargetsConverge | pkg/server/event/sync/store.go:299-322 | with no fault on any desired target, the sync succeeds, every desired target is stored, and the caller's copy equals the stored one with its name unchanged |
| Sync.TargetsStable | pkg/server/event/sync/store.go:300-304 | when every desired target is already stored as given, the loop succeeds and writes nothing |
| Sync.TargetsIdempotent | pkg/server/event/sync/store.go:299-322 | running the sync again on a fault-free run's result, with the filled-in targets, changes nothing |
| Utils.ThreeWaySliceCompare | pkg/server/event/sync/store.go:150 | kept, to-delete and to-add are existing ∩ desired, existing \ desired and desired \ existing, by membership |
| Utils.ComparisonPartitions | pkg/server/event/sync/store.go:150 | the three parts are pairwise disjoint and cover every name of either list |
| SyncCollection.UpsertFrom | pkg/server/event/sync/store.go:171-184 | the write loop keeps the number of records and their keys, and never changes records already written |
| SyncCollection.UpsertStores | pkg/server/event/sync/store.go:171-184 | a write loop that succeeds leaves every remaining desired record stored under its own key |
| SyncCollection.WriteStep | pkg/server/event/sync/store.go:172-183 | one write of the loop: a failed add or overwrite changes nothing; a successful one stores the record, stamped with the stored creation time when it overwrites, under the record's own key and touches no other key |
| SyncCollection.UpsertStep | pkg/server/event/sync/store.go:171-184 | after a successful write of a record the loop continues with the next record on the written table |
| SyncCollection.UpsertStepFail | pkg/server/event/sync/store.go:180-183 | a failed write of a record ends the loop with that write's error and the table unchanged |
| SyncCollection.UpsertDone | pkg/server/event/sync/store.go:171 | the write loop over no remaining records succeeds with no write |
| SyncCollection.UpsertWrittenPrefix | pkg/server/event/sync/store.go:172-183 | a successful add or stamped overwrite of a record happens in the same way whether or not the loop continues past a later position |
| SyncCollection.UpsertAbortWritten | pkg/server/event/sync/store.go:172-183 | a failed write loop that first writes a record stops where the loop from the next record stops |
| SyncCollection.UpsertAbortHere | pkg/server/event/sync/store.go:172-183 | a record whose add or overwrite fails stops the write loop there with that error |
| SyncCollection.UpsertAbort | pkg/server/event/sync/store.go:171-184 | a failed write loop is a successful loop over the records before some record j, followed by the failed add or stamped overwrite of record j on the table that loop left; its error is returned, the earlier writes remain, and no later record is attempted |
| SyncCollection.OwnedSyncOutcome | pkg/server/event/sync/store.go:130-186 | after a successful listing the sync either stores every desired record under its own key, or stops at the first failing write of the write loop and returns its error, as `UpsertAbort` states |
| SyncCollection.OwnedSync | pkg/server/event/sync/store.go:130-186 | a failed listing is returned with nothing written; the record count is kept |
| SyncCollection.IndexByName | pkg/server/event/sync/store.go:137-143 | the names of the listed records in order, and a map from each listed name to a listed record of that name |
| SyncCollection.DesiredNames | pkg/server/event/sync/store.go:145-148 | the names of the desired records in order |
| SyncCollection.DeletePhase | pkg/server/event/sync/store.go:153-168 | the delete loop removes exactly the listed records carrying the tag, named in to-delete, whose deletion does not fail; a failed deletion is ignored |
| SyncCollection.UpsertPhase | pkg/server/event/sync/store.go:171-184 | the write loop's new table, result and stamped records are those of `UpsertFrom` |
| SyncCollection.ListingOfApp | pkg/server/event/sync/store.go:133-143 | in a keyed table, the application's listing holds each record under its own key and names exactly the names the application has |
| SyncCollection.DeletedByListing | pkg/server/event/sync/store.go:150-168 | the delete loop over the listing and the comparison removes exactly the eligible, non-failing keys, whatever the listing order |
| SyncCollection.SyncOwned | pkg/server/event/sync/store.go:130-186 | the routine's new table, result and records are those of `OwnedSync` |
| SyncCollection.StoreComponents | pkg/server/event/sync/store.go:130-186 | `OwnedSync` with the component creator tag |
| SyncCollection.StorePolicy | pkg/server/event/sync/store.go:189-246 | `OwnedSync` with the policy creator tag |
| SyncCollection.UpsertKeeps | pkg/server/event/sync/store.go:171-184 | the write loop removes no record and keeps every record under its own key |
| SyncCollection.UpsertWrites | pkg/server/event/sync/store.go:171-184 | the write loop writes only the keys of desired records |
| SyncCollection.OwnedSyncFrame | pkg/server/event/sync/store.go:153-168 | after a successful listing, a stored record disappears exactly when it is eligible and its deletion does not fail; a record with another creator is never deleted; other undesired records are unchanged; new keys are desired keys; keying is preserved |
| SyncCollection.UpsertFaultsAgree | pkg/server/event/sync/store.go:171-184 | the write loop depends only on the Add and Put faults of the desired keys |
| SyncCollection.UpsertWithout | pkg/server/event/sync/store.go:171-184 | removing an undesired key before the write loop removes it from the result and changes nothing else |
| SyncCollection.DeleteFailureIgnored | pkg/server/event/sync/store.go:162-167 | a failed deletion never changes the result or the caller's records; the table differs at most by still holding that record |
| SyncCollection.UpsertConverge | pkg/server/event/sync/store.go:171-184 | with distinct names and no write faults, the write loop succeeds and stores every desired record, stamped, under its key |
| SyncCollection.OwnedConverge | pkg/server/event/sync/store.go:130-186 | with a successful listing, desired records of this application with distinct names and no write faults, the sync succeeds; each desired record is stored as the caller now holds it, with the stored creation time when it overwrote one |
| SyncCollection.UpsertStable | pkg/server/event/sync/store.go:171-184 | when every desired record is already stored as given, the write loop succeeds and writes nothing |
| SyncCollection.OwnedIdempotent | pkg/server/event/sync/store.go:130-186 | under the conditions of convergence, a second sync with the caller's records succeeds and changes nothing |

## Left out

- Logging and sanitising: the warnings logged on a failed deletion or write, and the sanitising of the application key, have no effect on state and are not modelled.
- The request context is not modelled.
- `ListOptions` and the backend's query machinery are not modelled. A listing is a filter over the table. A `ListOp` fault fails every listing of that table, whatever the filter.
- The datastore backend itself is not part of this model. Only the Get/Add/Put/List/Delete contract is modelled, with a fixed fault map standing in for backend failures. A backend that stamps creation or update times on Add or Put is not modelled.
- Service internals: the project, environment and target services are modelled as "insert, or report already exists, or fail". `ErrEnvAlreadyExists` and `ErrTargetExist` are both `AlreadyExists`.
- Request building: copying fields into `CreateEnvRequest` and `CreateTargetRequest` is not modelled. The service receives the record itself. The project creation request is the `Project` value.
- `utils.EqualSlice` is not part of this model. `SameTargets` takes it to be sequence equality.
- `utils.ThreeWaySliceCompare` is not part of this model. `Utils.ThreeWaySliceCompare` defines it by membership, and each part keeps its input order.
- Constants: the model package that defines them is not part of this model. `model.DefaultAdminUserName` is taken to be `admin`. Placeholder strings stand in for `model.AutoGenProj`, `model.AutoGenComp` and `model.AutoGenPolicy`, and no property depends on their values.
- Record fields that sync never inspects are folded into one `detail` string.
- Concurrency: concurrent callers and lost updates are out of scope, since the code is sequential.
- SyncCollection.StoreComponents: requires that every stored component sit under its own primary key. Keys are computed from the record, so the store guarantees this. Every deletion error, whatever it is (an injected `RecordNotExist` included), is ignored, as in the code.
- SyncCollection.StorePolicy: the same keyed-table requirement as `StoreComponents`.
- SyncCollection.IndexByName: when a listing holds two records with the same name, the map keeps the last. The contract states only that the chosen record is one of the listed records with that name, which in a keyed table is unique.
- SyncCollection.OwnedSync: states only the failed-listing case and the record count. Deletion is stated by `OwnedSyncFrame`, success and the stop at the first failing write by `OwnedSyncOutcome`, convergence and idempotence by `OwnedConverge` and `OwnedIdempotent`.
- SyncCollection.UpsertFrom: states the record count and keys; success and the stop at the first failing write are stated by `UpsertStores` and `UpsertAbort`.
- Sync.TargetsSync: states only the target count; success and the stop at the first failing target are stated by `TargetsSyncOutcome`.
- Sync.TargetsFrom: on success, a target whose creation the service answered with `AlreadyExists` need not be stored, because the code counts that answer as success. The stop at the first failing target is stated by `TargetsAbort`.
