# Schema manager of Spring Data Crate, modelled in Dafny

This project models `CratePersistentEntitySchemaManager`, the component of Spring
Data Crate that keeps CrateDB tables in step with the registered persistent
entities. On start it walks the mapping context's entities in order and, by
schema option,

- **CREATE / CREATE_DROP**: drops each entity's table (a drop that fails with
  `InvalidDataAccessResourceUsageException` is swallowed) and creates it from
  the table manager's full definition;
- **UPDATE**: reads the table's column metadata, asks the table manager for the
  missing columns and issues one alter-table action per column; a
  `NoSuchTableException` anywhere on that path makes it create the table instead.

An entity class is recorded as inspected once its entity has been processed
without an escaping exception. The first `DataAccessException` that escapes an
entity ends the pass. It is re-thrown unless `ignoreFailures` is set, in which
case the start ends normally. On stop, under CREATE_DROP only, the manager drops
the table of every inspected class; a drop failure other than invalid resource
usage escapes and ends the teardown.

The model is a pure state machine:

- `SchemaTypes` holds the entities, table definitions and metadata, and the four
  actions (drop, create, alter-add-column, read column metadata). It also holds
  the faults, the replies and the collaborators `Env`:
  - the database client, as a function from the actions issued so far and the
    next action to a reply;
  - the table manager's `createDefinition`, as an arbitrary function;
  - the table manager's `updateDefinition`, as an arbitrary function that
    yields "in sync", the columns to add, or an exception.
- `SchemaManager` holds one function per method of the Java class. Each returns
  the state reached (the trace of issued actions and the inspected set) and how
  the call ended (`Normal` or `Thrown(fault)`). `ReplyAt`, `Escapes`,
  `NoneEscape` and `StoppedBy` relate that outcome to the replies recorded
  along the trace: which failures escape, and which reply ended a step.
- `SchemaManagerProperties` holds the lemmas about whole runs:
  - which registry prefix a pass reaches before an exception ends it;
  - which actions each reached entity receives;
  - what the failure policy makes of an escaping exception;
  - what teardown drops after a CREATE_DROP start.
- `Collections` holds small sequence and set facts.

The alter actions of an UPDATE pass depend on the replies of the database and
of the diff, so its trace has no closed form. The model describes it instead as
a chain of per-entity steps: `Segmented` cuts the trace into the `UpdateEntity`
steps of the entities before some k, each ending normally exactly where the
next one starts, and `UpdateTablesStopsAtFirstFailure` shows that every UPDATE
pass is such a chain, completed or ended by entity k's failing step.

## Model

| member | source | states |
|---|---|---|
| SchemaManager.NewManagerWithOption | src/main/java/org/springframework/data/crate/core/mapping/schema/CratePersistentEntitySchemaManager.java:67-98 | a new manager keeps the given registry and option, and `ignoreFailures` starts false (the field initialiser, not the "Defaults to true" doc comment) |
| SchemaManager.NewManager | src/main/java/org/springframework/data/crate/core/mapping/schema/CratePersistentEntitySchemaManager.java:75-77 | the one-argument constructor selects UPDATE with failures not ignored |
| SchemaManager.SetIgnoreFailures | src/main/java/org/springframework/data/crate/core/mapping/schema/CratePersistentEntitySchemaManager.java:100-107 | sets the failure policy and changes nothing else |
| SchemaManager.AddInspected | src/main/java/org/springframework/data/crate/core/mapping/schema/CratePersistentEntitySchemaManager.java:213-218 | recording a class yields exactly the old set plus that class |
| SchemaManagerProperties.AddInspectedIdempotent | src/main/java/org/springframework/data/crate/core/mapping/schema/CratePersistentEntitySchemaManager.java:213-218 | recording a class twice equals recording it once; recording a present class changes nothing; the set only grows |
| SchemaManager.DropTable | src/main/java/org/springframework/data/crate/core/mapping/schema/CratePersistentEntitySchemaManager.java:181-188 | one drop action for the entity's table; the drop ends normally iff the client succeeded or failed with invalid resource usage; any other failure escapes unchanged |
| SchemaManager.CreateTable | src/main/java/org/springframework/data/crate/core/mapping/schema/CratePersistentEntitySchemaManager.java:190-194 | one create action carrying the table manager's full definition; ends normally iff the client succeeded, otherwise raises the client's fault |
| SchemaManager.GetTableMetadata | src/main/java/org/springframework/data/crate/core/mapping/schema/CratePersistentEntitySchemaManager.java:220-224 | one metadata read of the entity's table; on success the metadata carries the entity's table name and exactly the rows returned; a failure of the read is raised |
| SchemaManager.AlterColumns | src/main/java/org/springframework/data/crate/core/mapping/schema/CratePersistentEntitySchemaManager.java:202-206 | the actions issued are a prefix of one alter per column, in column order, each naming the definition's table; all of them when it ends normally; it ends normally iff every alter it issued succeeded; when it throws, every earlier alter succeeded and the fault is the failed reply to the last one issued |
| SchemaManager.AlterTable | src/main/java/org/springframework/data/crate/core/mapping/schema/CratePersistentEntitySchemaManager.java:196-211 | the read comes first and only alters follow it; a failed read or diff raises its fault after the read alone; an in-sync diff issues nothing more; a definition issues (a prefix of) one alter per column, all of them on a normal end, and then the step ends normally iff every alter succeeded, a throw being the failed reply to the last alter issued; the inspected set is untouched |
| SchemaManager.DropAndCreateEntity | src/main/java/org/springframework/data/crate/core/mapping/schema/CratePersistentEntitySchemaManager.java:159-163 | a drop, then (unless the drop failure escapes) a create from the full definition; the step ends normally iff no reply escaped (only an invalid-resource-usage drop failure is swallowed), and a throw is the escaping reply to its last action; the class is inspected iff the create succeeded |
| SchemaManager.UpdateEntity | src/main/java/org/springframework/data/crate/core/mapping/schema/CratePersistentEntitySchemaManager.java:168-178 | when the alter path raises NoSuchTable, exactly one create follows and its reply decides the outcome; otherwise nothing follows the alter path and its outcome stands; no drop is issued; the class is inspected iff the step ends normally, whichever branch was taken |
| SchemaManager.DropAndCreateTables | src/main/java/org/springframework/data/crate/core/mapping/schema/CratePersistentEntitySchemaManager.java:157-164 | only registered classes become inspected; a pass that ends normally issued exactly drop-then-create for every entity in registry order and inspected every class; the pass ends normally iff no reply to its actions escaped; when it throws, every earlier reply succeeded or was a swallowed drop failure, and the fault is the escaping reply to its last action |
| SchemaManager.UpdateTables | src/main/java/org/springframework/data/crate/core/mapping/schema/CratePersistentEntitySchemaManager.java:166-179 | the trace only grows and holds no drop; the inspected set grows by classes of the pass's entities only, and by every one of them on a normal end (the split of the trace into entity steps is `UpdateTablesStopsAtFirstFailure`) |
| SchemaManager.Start | src/main/java/org/springframework/data/crate/core/mapping/schema/CratePersistentEntitySchemaManager.java:118-121 | the start hook runs the selected pass from the state the constructor leaves (nothing issued, the empty inspected map of line 97); every class it records as inspected is registered; when failures are not ignored, a normal start inspected every registered class, and only then can a start throw |
| SchemaManager.Execute | src/main/java/org/springframework/data/crate/core/mapping/schema/CratePersistentEntitySchemaManager.java:133-155 | the state is the selected pass's state; the run throws iff the pass threw and failures are not ignored, and then with the pass's fault |
| SchemaManager.Lookup | src/main/java/org/springframework/data/crate/core/mapping/schema/CratePersistentEntitySchemaManager.java:128 | resolving a registered class yields a registered entity of that class |
| SchemaManager.DropTables | src/main/java/org/springframework/data/crate/core/mapping/schema/CratePersistentEntitySchemaManager.java:127-129 | the teardown loop over the inspected classes' tables: issues a prefix of one drop per table in order, all of them on a normal end; it ends normally iff every drop succeeded or failed with invalid resource usage; a throw is the escaping failure of the last drop issued, every earlier one having succeeded or been swallowed; the inspected set is untouched |
| SchemaManager.Destroy | src/main/java/org/springframework/data/crate/core/mapping/schema/CratePersistentEntitySchemaManager.java:123-131 | under CREATE or UPDATE nothing happens; under CREATE_DROP it issues drops only, one per key; it ends normally iff no drop failure escaped, exactly as many drops as there are inspected classes then; a throw is the escaping failure of the last drop issued |
| SchemaManagerProperties.UpdateEntityReadsOnce | src/main/java/org/springframework/data/crate/core/mapping/schema/CratePersistentEntitySchemaManager.java:168-178 | under UPDATE each entity receives exactly one metadata read, its first action |
| SchemaManagerProperties.UpdateCreatesMissingTable | src/main/java/org/springframework/data/crate/core/mapping/schema/CratePersistentEntitySchemaManager.java:170-175 | when the alter path raises NoSuchTable after the read alone (the read or the diff reported the table missing), the entity receives the read and one create from the full definition, no alter, and ends normally iff the create succeeded |
| SchemaManagerProperties.DropAndCreateTablesStopsAtFirstFailure | src/main/java/org/springframework/data/crate/core/mapping/schema/CratePersistentEntitySchemaManager.java:157-164 | a CREATE pass reaches some entity k: entities before k were dropped, re-created and inspected in order; it completed (k is the end) or stopped at entity k's drop or create, and its result is then exactly entity k's failed step from the state the earlier entities left, so later entities are never touched |
| SchemaManagerProperties.UpdateTablesStopsAtFirstFailure | src/main/java/org/springframework/data/crate/core/mapping/schema/CratePersistentEntitySchemaManager.java:166-179 | an UPDATE pass reaches some entity k: its trace splits at cut positions into the normal `UpdateEntity` steps of entities 0..k-1, one after the other with nothing in between, each from the state the earlier ones left; entities before k were inspected; the metadata reads are those of entities 0..k-1 (and of k when it threw), in registry order; no action is a drop; a normal pass ends at the last cut, and a pass that threw is exactly entity k's failed step from the state at cut k |
| SchemaManagerProperties.AlterTableTolerated | src/main/java/org/springframework/data/crate/core/mapping/schema/CratePersistentEntitySchemaManager.java:196-211 | the alter path ends normally or with NoSuchTable exactly when each of its replies was a success or a NoSuchTable (to the read or an alter) and the diff of the metadata read did not fail with another fault |
| SchemaManagerProperties.UpdateEntityCompletesIff | src/main/java/org/springframework/data/crate/core/mapping/schema/CratePersistentEntitySchemaManager.java:168-178 | under UPDATE, an entity's step ends normally iff every reply it got was a success or a NoSuchTable from the read or an alter (the create that follows then succeeding), and the diff of the metadata it read did not fail with another fault |
| SchemaManagerProperties.UpdateTablesCompletesWithoutFailures | src/main/java/org/springframework/data/crate/core/mapping/schema/CratePersistentEntitySchemaManager.java:166-179 | an UPDATE pass whose replies were all successes or NoSuchTable on an alter path, and whose diffs of the metadata actually read did not fail with another fault, ends normally: only a reply or diff that escapes an entity stops it |
| SchemaManagerProperties.UpdateTablesNormalTolerated | src/main/java/org/springframework/data/crate/core/mapping/schema/CratePersistentEntitySchemaManager.java:166-179 | conversely, every reply of an UPDATE pass that ended normally was a success or a NoSuchTable on an alter path |
| SchemaManagerProperties.ExecuteInspectsRegistryPrefix | src/main/java/org/springframework/data/crate/core/mapping/schema/CratePersistentEntitySchemaManager.java:133-155 | whatever the option and policy, the inspected classes are those of a registry prefix, the whole registry iff the pass did not throw; the run re-throws iff the pass threw and failures are not ignored |
| SchemaManagerProperties.SwallowedDropContinues | src/main/java/org/springframework/data/crate/core/mapping/schema/CratePersistentEntitySchemaManager.java:181-188 | under CREATE / CREATE_DROP, with or without ignoreFailures, a first drop failing with invalid resource usage is followed by that entity's create |
| SchemaManagerProperties.CreateDropStartCompletes | src/main/java/org/springframework/data/crate/core/mapping/schema/CratePersistentEntitySchemaManager.java:157-164 | a CREATE_DROP start of a new manager that ends normally dropped and re-created every table in registry order and inspected every class |
| SchemaManagerProperties.TeardownDropsRegistry | src/main/java/org/springframework/data/crate/core/mapping/schema/CratePersistentEntitySchemaManager.java:123-131 | with every (distinct) class inspected, a teardown that ends normally drops every registered table and nothing else, one drop per entity |
| SchemaManagerProperties.CreateDropLifecycle | src/main/java/org/springframework/data/crate/core/mapping/schema/CratePersistentEntitySchemaManager.java:119-131 | start then stop under CREATE_DROP: a normal start is drop+create per entity in order; a normal stop then drops each registered table once, in any enumeration order of the inspected set |

## Left out

- Logging: every `logger` call is dropped; it does not affect control flow.
- Concurrency: the inspected `ConcurrentHashMap` is a plain set. Its key-set iteration order in `destroy` is unspecified, so `Destroy` takes that order as the `keys` parameter. That parameter must enumerate the inspected set without repetition.
- Spring lifecycle wiring: `afterPropertiesSet` and `destroy` are the functions `Start` and `Destroy`, with no framework callbacks.
- Mapping context: the context is the ordered `registry` sequence passed to the constructor; how it discovers entities by reflection is not modelled. `getPersistentEntity(clazz)` is `Lookup` over that registry, and the contract of `Start` shows that it is only ever asked for registered classes.
- Null checks: the `notNull` assertions of the constructor are dropped, because Dafny values cannot be null.
- Unknown-option branch: the `default` branch that throws `IllegalArgumentException` is dropped. `SchemaOption` is closed, so that branch is unreachable.
- Table manager: `CratePersistentEntityTableManager` is not part of this model. `createDefinition` is an arbitrary total function, so a `MappingException` from it is not modelled. `updateDefinition` is an arbitrary function that may report in-sync, changes or a fault.
- Action classes: the action classes, `TableDefinition`, `Column`, `TableMetadata` and `ColumnMetadata` are not part of this model. They appear only as opaque values.
- `NoSuchTableException`: this class is not part of this model. It is taken to be a `DataAccessException` that is not an `InvalidDataAccessResourceUsageException`. So a drop failing with it escapes the drop like any other fault.
- Non-data-access exceptions: every fault the client raises is a `DataAccessException`. A runtime exception outside that hierarchy, which `execute` would not catch, is not modelled.
- Continuing past a failed table: the doc comment of `setIgnoreFailures` (lines 100-104) says failures are logged rather than propagated, which `Execute` models; its `@param` line reads as if `true` let the export continue past a failed table. The `try` of `execute` encloses the whole pass (lines 135-154), so the first escaping fault ends the pass under either setting. The model follows the code and does not model per-table continuation; `ExecuteInspectsRegistryPrefix` states what the code does.
- UpdateTablesNormalTolerated: a normal UPDATE pass is not shown to have only settled diffs in the sense of `DiffsSettle`, because that predicate also speaks of other registered entities sharing a table name, whose diffs the pass never computes; `UpdateEntityCompletesIff` gives the exact per-entity condition.
