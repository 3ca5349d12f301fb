/**
 The values the schema manager exchanges with its collaborators: the registered
 entities, the table definitions built for them, the actions handed to the
 database client and the client's replies.

 The table manager (which builds and diffs table definitions) and the database
 client are not modelled; they appear only as the function-typed fields of `Env`.
 */
module SchemaTypes {
  import opened Collections

  /** Identity of a registered entity class: the key of the inspected set. */
  type EntityType = string

  /** A persistent entity as the schema manager sees it: its class and its table. */
  datatype Entity = Entity(entityType: EntityType, tableName: string)

  /** One column of a table definition; only the table manager looks inside it. */
  datatype Column = Column(name: string, dataType: string)

  /** A table to create, or the columns to add to an existing table. */
  datatype TableDefinition = TableDefinition(name: string, columns: seq<Column>)

  /** One column of a table as the database reports it. */
  datatype ColumnMetadata = ColumnMetadata(name: string, dataType: string)

  /** What currently exists in the database under one table name. */
  datatype TableMetadata = TableMetadata(name: string, columns: seq<ColumnMetadata>)

  /** The four statements the schema manager hands to the database client. */
  datatype Action =
    | DropTableAction(table: string)
    | CreateTableAction(definition: TableDefinition)
    | AlterTableAction(table: string, column: Column)
    | ColumnMetadataAction(table: string)

  /** The data-access exceptions the client (or the table manager) can raise. */
  datatype Fault =
    | NoSuchTable          // the table does not exist
    | InvalidResourceUsage // invalid use of a resource, e.g. dropping a missing table
    | OtherDataAccess      // any other data-access failure

  /** The client's answer to one action: success (with the rows of a metadata
      read) or the exception it raised. */
  datatype Reply = Done(rows: seq<ColumnMetadata>) | Fail(fault: Fault)

  /** The table manager's diff of an entity against a table's live metadata:
      nothing to add, the columns to add, or an exception. */
  datatype Diff = InSync | Changes(definition: TableDefinition) | DiffFailed(fault: Fault)

  /** The collaborators of the schema manager.
      `execute` answers an action given every action issued before it, so the
      database may answer the same action differently as its state evolves. */
  datatype Env = Env(
    execute: (seq<Action>, Action) -> Reply,
    createDefinition: Entity -> TableDefinition,
    updateDefinition: (Entity, TableMetadata) -> Diff)

  /** The reconciliation policy. */
  datatype SchemaOption = Create | CreateDrop | Update

  /** How a step of the manager ended: normally, or with an exception that escapes it. */
  datatype Outcome = Normal | Thrown(fault: Fault)

  /** Everything the manager has done so far: the actions issued, in order, and
      the entity classes recorded as inspected. */
  datatype State = State(trace: seq<Action>, inspected: set<EntityType>)

  /** The state after a step, and how the step ended. */
  datatype Step = Step(state: State, outcome: Outcome)

  /** The classes of the given entities, in order. */
  function Types(es: seq<Entity>): (r: seq<EntityType>)
    ensures |r| == |es|
  {
    seq(|es|, i requires 0 <= i < |es| => es[i].entityType)
  }

  /** The classes of the given entities, as a set. */
  function TypesOf(es: seq<Entity>): set<EntityType>
  {
    Elements(Types(es))
  }

  /** No two entities share a class. */
  predicate DistinctTypes(es: seq<Entity>)
  {
    Distinct(Types(es))
  }

  /** The classes of a concatenation are the classes of its parts. */
  lemma TypesOfAppend(a: seq<Entity>, b: seq<Entity>)
    ensures Types(a + b) == Types(a) + Types(b)
    ensures TypesOf(a + b) == TypesOf(a) + TypesOf(b)
  {
  }

  /** The classes of a non-empty sequence: the first entity's and the rest's. */
  lemma TypesOfCons(es: seq<Entity>)
    requires es != []
    ensures TypesOf(es) == {es[0].entityType} + TypesOf(es[1..])
  {
    assert Types(es) == [es[0].entityType] + Types(es[1..]);
    ElementsAppend([es[0].entityType], Types(es[1..]));
  }

  /** A class is registered exactly when some entity has it. */
  lemma TypesOfMembership(es: seq<Entity>, t: EntityType)
    ensures t in TypesOf(es) <==> exists i :: 0 <= i < |es| && es[i].entityType == t
  {
    if t in TypesOf(es) {
      assert t in Types(es);
      var i :| 0 <= i < |es| && Types(es)[i] == t;
      assert es[i].entityType == t;
    } else {
      forall i | 0 <= i < |es| ensures es[i].entityType != t {
        assert Types(es)[i] == es[i].entityType;
      }
    }
  }
}
