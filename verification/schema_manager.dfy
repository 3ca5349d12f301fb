/**
 The schema manager: on start it walks the registered entities in registry order
 and, depending on the schema option, drops and re-creates each table or alters it
 towards the entity's definition; on stop, under CREATE_DROP, it drops the tables
 of the entity classes it recorded as inspected.

 Every operation is a pure function from the collaborators (`Env`) and the
 manager's state to the next state and the way the operation ended. An exception
 is an `Outcome` of `Thrown(fault)`: an operation that ends with one issues no
 further action, exactly as a Java exception unwinds the loop that raised it.
 */
module SchemaManager {
  import opened Collections
  import opened SchemaTypes

  /** The configuration of one schema manager. `registry` is the mapping
      context's persistent entities, in the order the context enumerates them. */
  datatype Manager = Manager(registry: seq<Entity>, option: SchemaOption, ignoreFailures: bool)

  /** The constructor taking an explicit schema option; failures are not ignored
      until `SetIgnoreFailures` says otherwise. */
  function NewManagerWithOption(registry: seq<Entity>, option: SchemaOption): (m: Manager)
    ensures m.registry == registry && m.option == option
    ensures !m.ignoreFailures
  {
    Manager(registry, option, false)
  }

  /** The one-argument constructor: it delegates with the UPDATE option. */
  function NewManager(registry: seq<Entity>): (m: Manager)
    ensures m.registry == registry
    ensures m.option == Update && !m.ignoreFailures
  {
    NewManagerWithOption(registry, Update)
  }

  /** Changes only the failure policy. */
  function SetIgnoreFailures(m: Manager, ignoreFailures: bool): (r: Manager)
    ensures r.ignoreFailures == ignoreFailures
    ensures r.registry == m.registry && r.option == m.option
  {
    m.(ignoreFailures := ignoreFailures)
  }

  /** A freshly constructed manager has issued nothing and inspected nothing. */
  const Initial: State := State([], {})

  /** Records an entity class as inspected; the set only ever grows by that class. */
  function AddInspected(inspected: set<EntityType>, entityType: EntityType): (r: set<EntityType>)
    ensures r == inspected + {entityType}
  {
    if entityType !in inspected then inspected + {entityType} else inspected
  }

  /** An action handed to the client, and the state it leaves: the action is
      recorded in the trace whatever the client answers. */
  datatype Issued = Issued(state: State, reply: Reply)

  function Issue(env: Env, st: State, a: Action): Issued
  {
    Issued(st.(trace := st.trace + [a]), env.execute(st.trace, a))
  }

  /** An unhandled reply: a failure raises the client's exception. */
  function OutcomeOf(reply: Reply): Outcome
  {
    if reply.Fail? then Thrown(reply.fault) else Normal
  }

  /** The reply the client gave to the action at position `i` of a trace. */
  function ReplyAt(env: Env, trace: seq<Action>, i: nat): Reply
    requires i < |trace|
  {
    env.execute(trace[..i], trace[i])
  }

  /** Whether a reply escapes the drop, create, alter or read that received
      it: every failure does, except invalid resource usage answering a drop. */
  predicate Escapes(a: Action, reply: Reply)
  {
    reply.Fail? && !(a.DropTableAction? && reply.fault == InvalidResourceUsage)
  }

  /** No action at positions `from` up to (excluding) `to` of a trace received
      a reply that escapes it. */
  predicate NoneEscape(env: Env, trace: seq<Action>, from: nat, to: nat)
    requires from <= to <= |trace|
  {
    forall i :: from <= i < to ==> !Escapes(trace[i], ReplyAt(env, trace, i))
  }

  /** The actions from position `from` on were answered without an escaping
      failure, except the last, whose reply `Fail(fault)` escaped it. */
  predicate StoppedBy(env: Env, trace: seq<Action>, from: nat, fault: Fault)
  {
    && from < |trace|
    && NoneEscape(env, trace, from, |trace| - 1)
    && ReplyAt(env, trace, |trace| - 1) == Fail(fault)
    && Escapes(trace[|trace| - 1], Fail(fault))
  }

  /** A stretch stopped by an escaping reply is not free of them. */
  lemma StoppedByEscapes(env: Env, trace: seq<Action>, from: nat, fault: Fault)
    requires StoppedBy(env, trace, from, fault)
    ensures !NoneEscape(env, trace, from, |trace|)
  {
    assert Escapes(trace[|trace| - 1], ReplyAt(env, trace, |trace| - 1));
  }

  /** A reply depends only on the actions before it, so extending the trace
      does not change it. */
  lemma ReplyAtPrefix(env: Env, t: seq<Action>, u: seq<Action>, i: nat)
    requires IsPrefix(t, u) && i < |t|
    ensures ReplyAt(env, t, i) == ReplyAt(env, u, i)
  {
    assert u[..i] == t[..i];
  }

  /** `NoneEscape` over a stretch of a trace survives extending the trace. */
  lemma NoneEscapeExtends(env: Env, t: seq<Action>, u: seq<Action>, from: nat, to: nat)
    requires IsPrefix(t, u) && from <= to <= |t|
    requires NoneEscape(env, t, from, to)
    ensures NoneEscape(env, u, from, to)
  {
    forall i | from <= i < to ensures !Escapes(u[i], ReplyAt(env, u, i)) {
      ReplyAtPrefix(env, t, u, i);
    }
  }

  /** A step that ended normally, followed by the rest of a pass: what the rest's
      replies say about its outcome holds for the whole. */
  lemma EscapesAcrossStep(env: Env, from: nat, mid: seq<Action>, trace: seq<Action>, outcome: Outcome)
    requires from <= |mid| && IsPrefix(mid, trace)
    requires NoneEscape(env, mid, from, |mid|)
    requires outcome.Normal? <==> NoneEscape(env, trace, |mid|, |trace|)
    requires outcome.Thrown? ==> StoppedBy(env, trace, |mid|, outcome.fault)
    ensures outcome.Normal? <==> NoneEscape(env, trace, from, |trace|)
    ensures outcome.Thrown? ==> StoppedBy(env, trace, from, outcome.fault)
  {
    NoneEscapeExtends(env, mid, trace, from, |mid|);
    if outcome.Thrown? {
      StoppedByEscapes(env, trace, from, outcome.fault);
    }
  }

  /** A single action whose reply escaped it stops the run right there. */
  lemma FirstActionStops(env: Env, st: seq<Action>, x: Action)
    requires Escapes(x, env.execute(st, x))
    ensures StoppedBy(env, st + [x], |st|, env.execute(st, x).fault)
    ensures !NoneEscape(env, st + [x], |st|, |st| + 1)
  {
    assert (st + [x])[..|st|] == st;
    StoppedByEscapes(env, st + [x], |st|, env.execute(st, x).fault);
  }

  /** One action whose reply did not escape it, in front of the rest of a run of
      actions: what holds of the rest holds of the whole run. */
  lemma ActionsStep(env: Env, st: seq<Action>, x: Action, rest: seq<Action>, trace: seq<Action>, outcome: Outcome)
    requires !Escapes(x, env.execute(st, x))
    requires IsPrefix(st + [x], trace)
    requires IsPrefix(trace[|st| + 1..], rest)
    requires outcome.Normal? ==> trace == st + [x] + rest
    requires outcome.Normal? <==> NoneEscape(env, trace, |st| + 1, |trace|)
    requires outcome.Thrown? ==> StoppedBy(env, trace, |st| + 1, outcome.fault)
    ensures IsPrefix(st, trace)
    ensures IsPrefix(trace[|st|..], [x] + rest)
    ensures outcome.Normal? ==> trace == st + ([x] + rest)
    ensures outcome.Normal? <==> NoneEscape(env, trace, |st|, |trace|)
    ensures outcome.Thrown? ==> StoppedBy(env, trace, |st|, outcome.fault)
  {
    SuffixCons(st, x, trace);
    PrefixPrepend(x, trace[|st| + 1..], rest);
    assert (st + [x])[..|st|] == st;
    assert NoneEscape(env, st + [x], |st|, |st| + 1);
    EscapesAcrossStep(env, |st|, st + [x], trace, outcome);
  }

  /** Drops an entity's table, given by its name. A failure because of invalid
      resource usage (the table is missing) is swallowed; any other failure
      escapes. */
  function DropTable(env: Env, st: State, table: string): (r: Step)
    ensures r.state == State(st.trace + [DropTableAction(table)], st.inspected)
    ensures var reply := env.execute(st.trace, DropTableAction(table));
            && (r.outcome.Normal? <==> reply.Done? || reply.fault == InvalidResourceUsage)
            && (r.outcome.Thrown? ==> reply == Fail(r.outcome.fault))
  {
    var issued := Issue(env, st, DropTableAction(table));
    if issued.reply == Fail(InvalidResourceUsage) then Step(issued.state, Normal)
    else Step(issued.state, OutcomeOf(issued.reply))
  }

  /** Creates an entity's table from the table manager's full definition; every
      failure escapes. */
  function CreateTable(env: Env, st: State, e: Entity): (r: Step)
    ensures r.state == State(st.trace + [CreateTableAction(env.createDefinition(e))], st.inspected)
    ensures var reply := env.execute(st.trace, CreateTableAction(env.createDefinition(e)));
            && (r.outcome.Normal? <==> reply.Done?)
            && (r.outcome.Thrown? ==> reply == Fail(r.outcome.fault))
  {
    var issued := Issue(env, st, CreateTableAction(env.createDefinition(e)));
    Step(issued.state, OutcomeOf(issued.reply))
  }

  /** The result of reading a table's column metadata. */
  datatype MetadataRead =
    | Found(state: State, metadata: TableMetadata)
    | ReadFailed(state: State, fault: Fault)

  /** Reads the live columns of an entity's table; the metadata carries the
      entity's table name and the rows the client returned. */
  function GetTableMetadata(env: Env, st: State, e: Entity): (r: MetadataRead)
    ensures r.state == State(st.trace + [ColumnMetadataAction(e.tableName)], st.inspected)
    ensures var reply := env.execute(st.trace, ColumnMetadataAction(e.tableName));
            && (r.Found? <==> reply.Done?)
            && (r.Found? ==> r.metadata == TableMetadata(e.tableName, reply.rows))
            && (r.ReadFailed? ==> reply == Fail(r.fault))
  {
    var issued := Issue(env, st, ColumnMetadataAction(e.tableName));
    match issued.reply
    case Done(rows) => Found(issued.state, TableMetadata(e.tableName, rows))
    case Fail(fault) => ReadFailed(issued.state, fault)
  }

  /** One add-column action per column, in column order, each naming `table`. */
  function AlterActions(table: string, columns: seq<Column>): (r: seq<Action>)
  {
    seq(|columns|, i requires 0 <= i < |columns| => AlterTableAction(table, columns[i]))
  }

  /** The add-column actions of a non-empty column list: the first column's, then the rest's. */
  lemma AlterActionsCons(table: string, columns: seq<Column>)
    requires columns != []
    ensures AlterActions(table, columns) == [AlterTableAction(table, columns[0])] + AlterActions(table, columns[1..])
  {
  }

  /** Issues the add-column actions of a definition one by one, stopping at the
      first failure. */
  function AlterColumns(env: Env, st: State, table: string, columns: seq<Column>): (r: Step)
    ensures r.state.inspected == st.inspected
    ensures IsPrefix(st.trace, r.state.trace)
    ensures IsPrefix(r.state.trace[|st.trace|..], AlterActions(table, columns))
    ensures r.outcome.Normal? ==> r.state.trace == st.trace + AlterActions(table, columns)
    ensures r.outcome.Normal? <==> NoneEscape(env, r.state.trace, |st.trace|, |r.state.trace|)
    ensures r.outcome.Thrown? ==> StoppedBy(env, r.state.trace, |st.trace|, r.outcome.fault)
    decreases |columns|
  {
    if columns == [] then Step(st, Normal)
    else
      var issued := Issue(env, st, AlterTableAction(table, columns[0]));
      if issued.reply.Fail? then
        FirstActionStops(env, st.trace, AlterTableAction(table, columns[0]));
        Step(issued.state, Thrown(issued.reply.fault))
      else
        var r := AlterColumns(env, issued.state, table, columns[1..]);
        AlterActionsCons(table, columns);
        ActionsStep(env, st.trace, AlterTableAction(table, columns[0]), AlterActions(table, columns[1..]),
                    r.state.trace, r.outcome);
        r
  }

  /** Brings an existing table up to date: reads its columns, asks the table
      manager for the missing ones and adds them. A metadata read that fails, or
      a diff that fails, ends the step with that exception. */
  function AlterTable(env: Env, st: State, e: Entity): (r: Step)
    ensures r.state.inspected == st.inspected
    ensures IsPrefix(st.trace, r.state.trace) && |st.trace| < |r.state.trace|
    ensures r.state.trace[|st.trace|] == ColumnMetadataAction(e.tableName)
    ensures forall i :: |st.trace| < i < |r.state.trace| ==> r.state.trace[i].AlterTableAction?
    ensures var after := st.trace + [ColumnMetadataAction(e.tableName)];
            var reply := env.execute(st.trace, ColumnMetadataAction(e.tableName));
            && (reply.Fail? ==> r == Step(State(after, st.inspected), Thrown(reply.fault)))
            && (reply.Done? ==>
                  var diff := env.updateDefinition(e, TableMetadata(e.tableName, reply.rows));
                  && (diff.InSync? ==> r == Step(State(after, st.inspected), Normal))
                  && (diff.DiffFailed? ==> r == Step(State(after, st.inspected), Thrown(diff.fault)))
                  && (diff.Changes? ==>
                        var alters := AlterActions(diff.definition.name, diff.definition.columns);
                        && IsPrefix(after, r.state.trace)
                        && IsPrefix(r.state.trace[|after|..], alters)
                        && (r.outcome.Normal? ==> r.state.trace == after + alters)
                        && (r.outcome.Normal? <==> NoneEscape(env, r.state.trace, |after|, |r.state.trace|))
                        && (r.outcome.Thrown? ==> StoppedBy(env, r.state.trace, |after|, r.outcome.fault))))
  {
    match GetTableMetadata(env, st, e)
    case ReadFailed(st1, fault) => Step(st1, Thrown(fault))
    case Found(st1, metadata) =>
      match env.updateDefinition(e, metadata)
      case DiffFailed(fault) => Step(st1, Thrown(fault))
      case InSync => Step(st1, Normal)
      case Changes(definition) =>
        var r := AlterColumns(env, st1, definition.name, definition.columns);
        PrefixTransitive(st.trace, st1.trace, r.state.trace);
        r
  }

  /** Marks an entity inspected after a step that ended normally. */
  function MarkInspected(s: Step, e: Entity): Step
  {
    if s.outcome.Normal? then Step(s.state.(inspected := AddInspected(s.state.inspected, e.entityType)), Normal)
    else s
  }

  /** Drops and re-creates one entity's table; the entity is marked inspected
      only once its create has succeeded. */
  function DropAndCreateEntity(env: Env, st: State, e: Entity): (r: Step)
    ensures var drop := DropTableAction(e.tableName);
            var create := CreateTableAction(env.createDefinition(e));
            var dropReply := env.execute(st.trace, drop);
            var dropEscapes := dropReply.Fail? && dropReply.fault != InvalidResourceUsage;
            && (dropEscapes ==> r == Step(State(st.trace + [drop], st.inspected), Thrown(dropReply.fault)))
            && (!dropEscapes ==>
                  && r.state.trace == st.trace + [drop, create]
                  && r.outcome == OutcomeOf(env.execute(st.trace + [drop], create)))
    ensures r.outcome.Normal? <==> NoneEscape(env, r.state.trace, |st.trace|, |r.state.trace|)
    ensures r.outcome.Thrown? ==> StoppedBy(env, r.state.trace, |st.trace|, r.outcome.fault)
    ensures r.outcome.Normal? ==> r.state.inspected == st.inspected + {e.entityType}
    ensures r.outcome.Thrown? ==> r.state.inspected == st.inspected
  {
    var dropped := DropTable(env, st, e.tableName);
    if dropped.outcome.Thrown? then
      StoppedByEscapes(env, dropped.state.trace, |st.trace|, dropped.outcome.fault);
      dropped
    else
      var created := CreateTable(env, dropped.state, e);
      ReplyAtPrefix(env, dropped.state.trace, created.state.trace, |st.trace|);
      if created.outcome.Thrown? then
        StoppedByEscapes(env, created.state.trace, |st.trace|, created.outcome.fault);
        created
      else MarkInspected(created, e)
  }

  /** Alters one entity's table, falling back to creating it when the alter
      path reports that the table does not exist; the entity is marked inspected
      whichever branch succeeded. */
  function UpdateEntity(env: Env, st: State, e: Entity): (r: Step)
    ensures var altered := AlterTable(env, st, e);
            var create := CreateTableAction(env.createDefinition(e));
            && (altered.outcome == Thrown(NoSuchTable) ==>
                  && r.state.trace == altered.state.trace + [create]
                  && r.outcome == OutcomeOf(env.execute(altered.state.trace, create)))
            && (altered.outcome != Thrown(NoSuchTable) ==>
                  r.state.trace == altered.state.trace && r.outcome == altered.outcome)
    ensures IsPrefix(st.trace, r.state.trace)
    ensures forall i :: |st.trace| <= i < |r.state.trace| ==> !r.state.trace[i].DropTableAction?
    ensures r.outcome.Normal? ==> r.state.inspected == st.inspected + {e.entityType}
    ensures r.outcome.Thrown? ==> r.state.inspected == st.inspected
  {
    var altered := AlterTable(env, st, e);
    var settled := if altered.outcome == Thrown(NoSuchTable) then CreateTable(env, altered.state, e) else altered;
    MarkInspected(settled, e)
  }

  /** Drop followed by create for every entity, in the given order. */
  function RebuildActions(createDefinition: Entity -> TableDefinition, es: seq<Entity>): seq<Action>
  {
    if es == [] then []
    else [DropTableAction(es[0].tableName), CreateTableAction(createDefinition(es[0]))]
         + RebuildActions(createDefinition, es[1..])
  }

  /** The CREATE / CREATE_DROP pass: drop and create every entity's table in
      order; the first exception ends the pass. */
  function DropAndCreateTables(env: Env, st: State, es: seq<Entity>): (r: Step)
    ensures IsPrefix(st.trace, r.state.trace)
    ensures st.inspected <= r.state.inspected <= st.inspected + TypesOf(es)
    ensures r.outcome.Normal? ==>
              && r.state.trace == st.trace + RebuildActions(env.createDefinition, es)
              && r.state.inspected == st.inspected + TypesOf(es)
    ensures r.outcome.Normal? <==> NoneEscape(env, r.state.trace, |st.trace|, |r.state.trace|)
    ensures r.outcome.Thrown? ==> StoppedBy(env, r.state.trace, |st.trace|, r.outcome.fault)
    decreases |es|
  {
    if es == [] then Step(st, Normal)
    else
      var first := DropAndCreateEntity(env, st, es[0]);
      if first.outcome.Thrown? then
        TypesOfCons(es);
        first
      else
        var r := DropAndCreateTables(env, first.state, es[1..]);
        RebuildStep(env, st, es, first.state, r);
        r
  }

  /** The first entity rebuilt without an escaping failure, in front of the
      rest of a CREATE / CREATE_DROP pass: what holds of the rest holds of the
      whole pass. */
  lemma RebuildStep(env: Env, st: State, es: seq<Entity>, first: State, r: Step)
    requires es != []
    requires first.trace == st.trace + [DropTableAction(es[0].tableName), CreateTableAction(env.createDefinition(es[0]))]
    requires first.inspected == st.inspected + {es[0].entityType}
    requires NoneEscape(env, first.trace, |st.trace|, |first.trace|)
    requires IsPrefix(first.trace, r.state.trace)
    requires first.inspected <= r.state.inspected <= first.inspected + TypesOf(es[1..])
    requires r.outcome.Normal? ==>
               && r.state.trace == first.trace + RebuildActions(env.createDefinition, es[1..])
               && r.state.inspected == first.inspected + TypesOf(es[1..])
    requires r.outcome.Normal? <==> NoneEscape(env, r.state.trace, |first.trace|, |r.state.trace|)
    requires r.outcome.Thrown? ==> StoppedBy(env, r.state.trace, |first.trace|, r.outcome.fault)
    ensures IsPrefix(st.trace, r.state.trace)
    ensures st.inspected <= r.state.inspected <= st.inspected + TypesOf(es)
    ensures r.outcome.Normal? ==>
              && r.state.trace == st.trace + RebuildActions(env.createDefinition, es)
              && r.state.inspected == st.inspected + TypesOf(es)
    ensures r.outcome.Normal? <==> NoneEscape(env, r.state.trace, |st.trace|, |r.state.trace|)
    ensures r.outcome.Thrown? ==> StoppedBy(env, r.state.trace, |st.trace|, r.outcome.fault)
  {
    TypesOfCons(es);
    EscapesAcrossStep(env, |st.trace|, first.trace, r.state.trace, r.outcome);
  }

  /** A trace holds no drop after `st` when neither of its two stretches does. */
  lemma NoDropsAfterStep(st: seq<Action>, first: seq<Action>, trace: seq<Action>)
    requires IsPrefix(st, first) && IsPrefix(first, trace)
    requires forall i :: |st| <= i < |first| ==> !first[i].DropTableAction?
    requires forall i :: |first| <= i < |trace| ==> !trace[i].DropTableAction?
    ensures forall i :: |st| <= i < |trace| ==> !trace[i].DropTableAction?
  {
    forall i | |st| <= i < |first| ensures !trace[i].DropTableAction? {
      assert trace[i] == first[i];
    }
  }

  /** The UPDATE pass: alter (or create) every entity's table in order; the
      first exception that escapes an entity ends the pass. */
  function UpdateTables(env: Env, st: State, es: seq<Entity>): (r: Step)
    ensures IsPrefix(st.trace, r.state.trace)
    ensures st.inspected <= r.state.inspected <= st.inspected + TypesOf(es)
    ensures r.outcome.Normal? ==> r.state.inspected == st.inspected + TypesOf(es)
    ensures forall i :: |st.trace| <= i < |r.state.trace| ==> !r.state.trace[i].DropTableAction?
    decreases |es|
  {
    if es == [] then Step(st, Normal)
    else
      var first := UpdateEntity(env, st, es[0]);
      if first.outcome.Thrown? then
        TypesOfCons(es);
        first
      else
        var r := UpdateTables(env, first.state, es[1..]);
        TypesOfCons(es);
        PrefixTransitive(st.trace, first.state.trace, r.state.trace);
        NoDropsAfterStep(st.trace, first.state.trace, r.state.trace);
        r
  }

  /** The pass the schema option selects. */
  function Reconcile(m: Manager, env: Env, st: State): Step
  {
    match m.option
    case Create => DropAndCreateTables(env, st, m.registry)
    case CreateDrop => DropAndCreateTables(env, st, m.registry)
    case Update => UpdateTables(env, st, m.registry)
  }

  /** Runs the selected pass under the failure policy: an escaping data-access
      exception is re-thrown unless failures are ignored, in which case the run
      ends normally. The state is the pass's state either way. */
  function Execute(m: Manager, env: Env, st: State): (r: Step)
    ensures r.state == Reconcile(m, env, st).state
    ensures r.outcome.Thrown? <==> Reconcile(m, env, st).outcome.Thrown? && !m.ignoreFailures
    ensures r.outcome.Thrown? ==> r.outcome == Reconcile(m, env, st).outcome
  {
    var pass := Reconcile(m, env, st);
    if pass.outcome.Thrown? && m.ignoreFailures then Step(pass.state, Normal) else pass
  }

  /** The start hook of a freshly constructed manager: the selected pass from
      the state the constructor leaves, nothing issued and nothing inspected.
      Every class it records as inspected is a registered one, so the stop
      hook can resolve it back to its entity; when failures are not ignored,
      a start that ends normally has inspected the whole registry, and only
      then can a start throw. */
  function Start(m: Manager, env: Env): (r: Step)
    ensures r.state.inspected <= TypesOf(m.registry)
    ensures !m.ignoreFailures && r.outcome.Normal? ==> r.state.inspected == TypesOf(m.registry)
    ensures r.outcome.Thrown? ==> !m.ignoreFailures
  {
    Execute(m, env, Initial)
  }

  /** The registered entity of a class: the first one in registry order. */
  function Lookup(registry: seq<Entity>, t: EntityType): (e: Entity)
    requires t in TypesOf(registry)
    ensures e in registry && e.entityType == t
    decreases |registry|
  {
    if registry[0].entityType == t then registry[0]
    else
      TypesOfCons(registry);
      Lookup(registry[1..], t)
  }

  /** One drop action per table, in order. */
  function DropActions(tables: seq<string>): seq<Action>
  {
    seq(|tables|, i requires 0 <= i < |tables| => DropTableAction(tables[i]))
  }

  /** The drops of a non-empty table list: the first table's, then the rest's. */
  lemma DropActionsCons(tables: seq<string>)
    requires tables != []
    ensures DropActions(tables) == [DropTableAction(tables[0])] + DropActions(tables[1..])
  {
  }

  /** The table of each key's entity, in key order. */
  function TeardownTables(registry: seq<Entity>, keys: seq<EntityType>): (r: seq<string>)
    requires forall t :: t in keys ==> t in TypesOf(registry)
    ensures |r| == |keys|
  {
    seq(|keys|, i requires 0 <= i < |keys| => Lookup(registry, keys[i]).tableName)
  }

  /** One drop per key, in key order, of the table of the key's entity. */
  function TeardownActions(registry: seq<Entity>, keys: seq<EntityType>): seq<Action>
    requires forall t :: t in keys ==> t in TypesOf(registry)
  {
    DropActions(TeardownTables(registry, keys))
  }

  /** Drops the given tables in turn; a swallowed drop failure moves on to the
      next table, any other ends the run. */
  function DropTables(env: Env, st: State, tables: seq<string>): (r: Step)
    ensures r.state.inspected == st.inspected
    ensures IsPrefix(st.trace, r.state.trace)
    ensures IsPrefix(r.state.trace[|st.trace|..], DropActions(tables))
    ensures r.outcome.Normal? ==> r.state.trace == st.trace + DropActions(tables)
    ensures r.outcome.Normal? <==> NoneEscape(env, r.state.trace, |st.trace|, |r.state.trace|)
    ensures r.outcome.Thrown? ==> StoppedBy(env, r.state.trace, |st.trace|, r.outcome.fault)
    ensures r.outcome.Thrown? ==> r.outcome.fault != InvalidResourceUsage
    decreases |tables|
  {
    if tables == [] then Step(st, Normal)
    else
      var dropped := DropTable(env, st, tables[0]);
      if dropped.outcome.Thrown? then
        FirstActionStops(env, st.trace, DropTableAction(tables[0]));
        dropped
      else
        var r := DropTables(env, dropped.state, tables[1..]);
        DropActionsCons(tables);
        ActionsStep(env, st.trace, DropTableAction(tables[0]), DropActions(tables[1..]), r.state.trace, r.outcome);
        r
  }

  /** The stop hook. Only under CREATE_DROP does it drop anything: the table of
      every inspected class, once each, in the order `keys` enumerates the
      inspected set (the order of a hash map's key set, which the model leaves
      open). Each key's entity is resolved before the drops start, which is the
      same as resolving it just before its drop, since resolving has no effect. */
  function Destroy(m: Manager, env: Env, st: State, keys: seq<EntityType>): (r: Step)
    requires Distinct(keys) && Elements(keys) == st.inspected
    requires st.inspected <= TypesOf(m.registry)
    ensures m.option != CreateDrop ==> r == Step(st, Normal)
    ensures m.option == CreateDrop ==>
              && r.state.inspected == st.inspected
              && IsPrefix(st.trace, r.state.trace)
              && IsPrefix(r.state.trace[|st.trace|..], TeardownActions(m.registry, keys))
              && (r.outcome.Normal? ==>
                    && r.state.trace == st.trace + TeardownActions(m.registry, keys)
                    && |r.state.trace| - |st.trace| == |st.inspected|)
              && (r.outcome.Normal? <==> NoneEscape(env, r.state.trace, |st.trace|, |r.state.trace|))
              && (r.outcome.Thrown? ==> StoppedBy(env, r.state.trace, |st.trace|, r.outcome.fault))
  {
    if m.option == CreateDrop then
      DistinctCardinality(keys);
      DropTables(env, st, TeardownTables(m.registry, keys))
    else Step(st, Normal)
  }
}
