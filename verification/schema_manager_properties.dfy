/**
 Properties of whole schema-manager runs: which entities a pass reaches before an
 exception ends it, which actions each reached entity receives, what the failure
 policy makes of an escaping exception, and what teardown drops after a
 successful CREATE_DROP start.
 */
module SchemaManagerProperties {
  import opened Collections
  import opened SchemaTypes
  import opened SchemaManager

  /** The metadata reads of a trace, in order. */
  function MetadataReads(trace: seq<Action>): (r: seq<Action>)
  {
    if trace == [] then []
    else (if trace[0].ColumnMetadataAction? then [trace[0]] else []) + MetadataReads(trace[1..])
  }

  /** One metadata read per entity, in order. */
  function ReadActions(es: seq<Entity>): seq<Action>
  {
    seq(|es|, i requires 0 <= i < |es| => ColumnMetadataAction(es[i].tableName))
  }

  /** The reads of a concatenation are the reads of its parts. */
  lemma {:induction false} MetadataReadsAppend(a: seq<Action>, b: seq<Action>)
    ensures MetadataReads(a + b) == MetadataReads(a) + MetadataReads(b)
  {
    if a != [] {
      assert (a + b)[0] == a[0];
      assert (a + b)[1..] == a[1..] + b;
      MetadataReadsAppend(a[1..], b);
    } else {
      assert a + b == b;
    }
  }

  /** A trace that opens with a read and issues nothing but alters, drops and
      creates after it holds exactly that one read. */
  lemma {:induction false} SingleRead(trace: seq<Action>)
    requires trace != [] && trace[0].ColumnMetadataAction?
    requires forall i :: 0 < i < |trace| ==> !trace[i].ColumnMetadataAction?
    ensures MetadataReads(trace) == [trace[0]]
  {
    NoReads(trace[1..]);
  }

  /** A trace without metadata reads has none to list. */
  lemma {:induction false} NoReads(trace: seq<Action>)
    requires forall i :: 0 <= i < |trace| ==> !trace[i].ColumnMetadataAction?
    ensures MetadataReads(trace) == []
  {
    if trace != [] {
      NoReads(trace[1..]);
    }
  }

  /** Under UPDATE each entity receives exactly one metadata read, and it is
      the first action issued for that entity. */
  lemma UpdateEntityReadsOnce(env: Env, st: State, e: Entity)
    ensures var r := UpdateEntity(env, st, e);
            && IsPrefix(st.trace, r.state.trace)
            && MetadataReads(r.state.trace[|st.trace|..]) == [ColumnMetadataAction(e.tableName)]
  {
    var altered := AlterTable(env, st, e);
    var r := UpdateEntity(env, st, e);
    var emitted := r.state.trace[|st.trace|..];
    assert emitted[0] == ColumnMetadataAction(e.tableName);
    forall i | 0 < i < |emitted| ensures !emitted[i].ColumnMetadataAction? {
      assert emitted[i] == r.state.trace[|st.trace| + i];
    }
    SingleRead(emitted);
  }

  /** Under UPDATE, when the metadata read or the diff reports the table
      missing, the entity receives its metadata read and then exactly one
      create from the full definition; no alter. */
  lemma UpdateCreatesMissingTable(env: Env, st: State, e: Entity)
    requires AlterTable(env, st, e).outcome == Thrown(NoSuchTable)
    requires AlterTable(env, st, e).state.trace == st.trace + [ColumnMetadataAction(e.tableName)]
    ensures var r := UpdateEntity(env, st, e);
            var create := CreateTableAction(env.createDefinition(e));
            var after := st.trace + [ColumnMetadataAction(e.tableName)];
            && r.state.trace == after + [create]
            && (r.outcome.Normal? <==> env.execute(after, create).Done?)
  {
  }

  /** The shape of a CREATE / CREATE_DROP pass that reached entity `k`: the
      first `k` entities were dropped, re-created and inspected in order; the
      pass either completed, or ended at entity `k`'s drop or create, and then
      its result is exactly that entity's failed step taken from the state the
      first `k` entities left. */
  ghost predicate RebuiltUpTo(env: Env, st: State, es: seq<Entity>, k: nat, r: Step)
    requires k <= |es|
  {
    && r.state.inspected == st.inspected + TypesOf(es[..k])
    && (r.outcome.Normal? ==> k == |es| && r.state.trace == st.trace + RebuildActions(env.createDefinition, es))
    && (r.outcome.Thrown? ==>
          && k < |es|
          && var done := st.trace + RebuildActions(env.createDefinition, es[..k]);
             var drop := DropTableAction(es[k].tableName);
             && (r.state.trace == done + [drop]
                 || r.state.trace == done + [drop, CreateTableAction(env.createDefinition(es[k]))])
             && r == DropAndCreateEntity(env, State(done, st.inspected + TypesOf(es[..k])), es[k]))
  }

  /** Taking one entity more than `k` from the second entity on is taking
      `k + 1` entities and dropping the first. */
  lemma PrefixCons(es: seq<Entity>, k: nat)
    requires k < |es|
    ensures es[..k + 1] == [es[0]] + es[1..][..k]
    ensures es[..k + 1][1..] == es[1..][..k]
    ensures TypesOf(es[..k + 1]) == {es[0].entityType} + TypesOf(es[1..][..k])
  {
    assert es[..k + 1] == [es[0]] + es[1..][..k];
    TypesOfCons(es[..k + 1]);
  }

  /** Rebuilding `k + 1` entities is rebuilding the first, then `k` of the rest. */
  lemma RebuildActionsPrefix(createDefinition: Entity -> TableDefinition, es: seq<Entity>, k: nat)
    requires k < |es|
    ensures RebuildActions(createDefinition, es[..k + 1])
            == [DropTableAction(es[0].tableName), CreateTableAction(createDefinition(es[0]))]
               + RebuildActions(createDefinition, es[1..][..k])
  {
    PrefixCons(es, k);
    assert es[..k + 1][0] == es[0];
  }

  /** One more rebuilt entity in front of a pass that reached entity `k` of the rest. */
  lemma RebuiltStep(env: Env, st: State, es: seq<Entity>, first: State, k: nat, r: Step)
    requires k < |es|
    requires first.trace == st.trace + [DropTableAction(es[0].tableName), CreateTableAction(env.createDefinition(es[0]))]
    requires first.inspected == st.inspected + {es[0].entityType}
    requires RebuiltUpTo(env, first, es[1..], k, r)
    ensures RebuiltUpTo(env, st, es, k + 1, r)
  {
    PrefixCons(es, k);
    assert first.inspected + TypesOf(es[1..][..k]) == st.inspected + TypesOf(es[..k + 1]);
    if r.outcome.Thrown? {
      RebuiltStepThrown(env, st, es, first, k, r);
    } else {
      assert es[..k + 1] == es;
      assert es[1..][..k] == es[1..];
      RebuildActionsPrefix(env.createDefinition, es, k);
    }
  }

  /** The Thrown branch of `RebuiltUpTo` for one more rebuilt entity. */
  lemma RebuiltStepThrown(env: Env, st: State, es: seq<Entity>, first: State, k: nat, r: Step)
    requires k < |es| && r.outcome.Thrown?
    requires first.trace == st.trace + [DropTableAction(es[0].tableName), CreateTableAction(env.createDefinition(es[0]))]
    requires first.inspected + TypesOf(es[1..][..k]) == st.inspected + TypesOf(es[..k + 1])
    requires RebuiltUpTo(env, first, es[1..], k, r)
    ensures k + 1 < |es|
    ensures var done := st.trace + RebuildActions(env.createDefinition, es[..k + 1]);
            var drop := DropTableAction(es[k + 1].tableName);
            && (r.state.trace == done + [drop]
                || r.state.trace == done + [drop, CreateTableAction(env.createDefinition(es[k + 1]))])
            && r == DropAndCreateEntity(env, State(done, st.inspected + TypesOf(es[..k + 1])), es[k + 1])
  {
    RebuildActionsPrefix(env.createDefinition, es, k);
    assert es[k + 1] == es[1..][k];
    assert first.trace + RebuildActions(env.createDefinition, es[1..][..k])
           == st.trace + RebuildActions(env.createDefinition, es[..k + 1]);
  }


  /** A CREATE / CREATE_DROP pass processes a prefix of the registry and stops
      at the first exception that escapes an entity. */
  lemma {:induction false} DropAndCreateTablesStopsAtFirstFailure(env: Env, st: State, es: seq<Entity>)
    ensures exists k: nat :: k <= |es| && RebuiltUpTo(env, st, es, k, DropAndCreateTables(env, st, es))
    decreases |es|
  {
    var r := DropAndCreateTables(env, st, es);
    if es == [] {
      assert RebuiltUpTo(env, st, es, 0, r);
    } else {
      var first := DropAndCreateEntity(env, st, es[0]);
      if first.outcome.Thrown? {
        assert es[..0] == [];
        assert st.trace + RebuildActions(env.createDefinition, es[..0]) == st.trace;
        assert RebuiltUpTo(env, st, es, 0, r);
      } else {
        DropAndCreateTablesStopsAtFirstFailure(env, first.state, es[1..]);
        var k: nat :| k <= |es[1..]| && RebuiltUpTo(env, first.state, es[1..], k, r);
        RebuiltStep(env, st, es, first.state, k, r);
      }
    }
  }

  /** The state in which entity `i` of an UPDATE pass from `st` starts when
      its actions begin at position `n` of `trace`: the actions before `n`
      issued, and the entities before `i` inspected. */
  function EntityStart(st: State, es: seq<Entity>, trace: seq<Action>, n: nat, i: nat): State
    requires n <= |trace| && i <= |es|
  {
    State(trace[..n], st.inspected + TypesOf(es[..i]))
  }

  /** `cuts` splits `trace` after `st` into the UPDATE steps of the first `k`
      entities: entity `i`'s step starts at `cuts[i]` and ends normally
      exactly where entity `i + 1`'s starts, so nothing else is issued
      between them. */
  predicate Segmented(env: Env, st: State, es: seq<Entity>, k: nat, cuts: seq<int>, trace: seq<Action>)
    requires k <= |es|
  {
    && |cuts| == k + 1 && cuts[0] == |st.trace|
    && (forall i :: 0 <= i <= k ==> 0 <= cuts[i] <= |trace|)
    && forall i :: 0 <= i < k ==>
         UpdateEntity(env, EntityStart(st, es, trace, cuts[i], i), es[i])
         == Step(EntityStart(st, es, trace, cuts[i + 1], i + 1), Normal)
  }

  /** Entity `i` of the rest, after the first entity, starts where entity
      `i + 1` of the whole registry does. */
  lemma EntityStartShift(st: State, es: seq<Entity>, first: State, trace: seq<Action>, n: nat, i: nat)
    requires i < |es| && n <= |trace|
    requires first.inspected == st.inspected + {es[0].entityType}
    ensures EntityStart(first, es[1..], trace, n, i) == EntityStart(st, es, trace, n, i + 1)
  {
    PrefixCons(es, i);
  }

  /** The segmentation of a trace that starts with the first entity's normal
      step and goes on with `k` steps of the rest. */
  lemma SegmentedStep(env: Env, st: State, es: seq<Entity>, first: State, k: nat, cuts: seq<int>, trace: seq<Action>)
    requires k < |es|
    requires UpdateEntity(env, st, es[0]) == Step(first, Normal)
    requires IsPrefix(first.trace, trace)
    requires Segmented(env, first, es[1..], k, cuts, trace)
    ensures Segmented(env, st, es, k + 1, [|st.trace|] + cuts, trace)
  {
    var c := [|st.trace|] + cuts;
    forall i | 0 <= i < k + 1
      ensures UpdateEntity(env, EntityStart(st, es, trace, c[i], i), es[i])
              == Step(EntityStart(st, es, trace, c[i + 1], i + 1), Normal)
    {
      if i == 0 {
        SegmentFirst(env, st, es, first, trace);
      } else {
        SegmentShifted(env, st, es, first, trace, cuts[i - 1], cuts[i], i);
      }
    }
  }

  /** The first entity's normal step is the first segment. */
  lemma SegmentFirst(env: Env, st: State, es: seq<Entity>, first: State, trace: seq<Action>)
    requires es != [] && UpdateEntity(env, st, es[0]) == Step(first, Normal)
    requires IsPrefix(first.trace, trace)
    ensures |st.trace| <= |first.trace|
    ensures UpdateEntity(env, EntityStart(st, es, trace, |st.trace|, 0), es[0])
            == Step(EntityStart(st, es, trace, |first.trace|, 1), Normal)
  {
    assert IsPrefix(st.trace, first.trace);
    assert es[..0] == [];
    assert EntityStart(st, es, trace, |st.trace|, 0) == st;
    PrefixCons(es, 0);
    assert EntityStart(st, es, trace, |first.trace|, 1) == first;
  }

  /** Segment `i - 1` of the rest is segment `i` of the whole pass. */
  lemma SegmentShifted(env: Env, st: State, es: seq<Entity>, first: State, trace: seq<Action>, n: nat, n': nat, i: nat)
    requires 1 <= i < |es| && n <= |trace| && n' <= |trace|
    requires first.inspected == st.inspected + {es[0].entityType}
    requires UpdateEntity(env, EntityStart(first, es[1..], trace, n, i - 1), es[1..][i - 1])
             == Step(EntityStart(first, es[1..], trace, n', i), Normal)
    ensures UpdateEntity(env, EntityStart(st, es, trace, n, i), es[i])
            == Step(EntityStart(st, es, trace, n', i + 1), Normal)
  {
    EntityStartShift(st, es, first, trace, n, i - 1);
    EntityStartShift(st, es, first, trace, n', i);
  }



  /** The shape of an UPDATE pass that reached entity `k`: `cuts` splits its
      trace into the normal steps of the first `k` entities, one after the
      other with nothing in between, and entity `k`'s actions begin at
      `cuts[k]`. */
  ghost predicate UpdatedUpTo(env: Env, st: State, es: seq<Entity>, k: nat, cuts: seq<int>, r: Step)
    requires k <= |es|
  {
    Segmented(env, st, es, k, cuts, r.state.trace) && ReachedAt(env, st, es, k, cuts[k], r)
  }

  /** What an UPDATE pass that reached entity `k`, whose actions begin
      at position `j` of the trace, looks like in terms of reads and drops: the first `k` entities were inspected and
      received exactly their metadata reads, in order, before `j`; the pass
      read entity `k` as well when an exception ended it, and then its result
      is exactly entity `k`'s failed step taken from the state reached at `j`.
      No action of the pass is a drop. */
  ghost predicate ReachedAt(env: Env, st: State, es: seq<Entity>, k: nat, j: nat, r: Step)
    requires k <= |es|
  {
    && IsPrefix(st.trace, r.state.trace)
    && |st.trace| <= j <= |r.state.trace|
    && r.state.inspected == st.inspected + TypesOf(es[..k])
    && (forall i :: |st.trace| <= i < |r.state.trace| ==> !r.state.trace[i].DropTableAction?)
    && MetadataReads(r.state.trace[|st.trace|..j]) == ReadActions(es[..k])
    && (r.outcome.Normal? ==>
          && k == |es| && j == |r.state.trace|
          && MetadataReads(r.state.trace[|st.trace|..]) == ReadActions(es))
    && (r.outcome.Thrown? ==>
          && k < |es|
          && MetadataReads(r.state.trace[|st.trace|..]) == ReadActions(es[..k + 1])
          && r == UpdateEntity(env, State(r.state.trace[..j], st.inspected + TypesOf(es[..k])), es[k]))
  }

  /** Reading `k + 1` entities is reading the first, then `k` of the rest. */
  lemma ReadActionsPrefix(es: seq<Entity>, k: nat)
    requires k < |es|
    ensures ReadActions(es[..k + 1]) == [ColumnMetadataAction(es[0].tableName)] + ReadActions(es[1..][..k])
  {
  }

  /** The reads of a stretch that starts with one entity's actions: that
      entity's read, then the reads of the rest of the stretch. */
  lemma ReadsAfterStep(st: State, first: State, trace: seq<Action>, j: nat, e: Entity)
    requires IsPrefix(st.trace, first.trace) && IsPrefix(first.trace, trace)
    requires |first.trace| <= j <= |trace|
    requires MetadataReads(first.trace[|st.trace|..]) == [ColumnMetadataAction(e.tableName)]
    ensures MetadataReads(trace[|st.trace|..j])
            == [ColumnMetadataAction(e.tableName)] + MetadataReads(trace[|first.trace|..j])
  {
    assert trace[|st.trace|..j] == first.trace[|st.trace|..] + trace[|first.trace|..j];
    MetadataReadsAppend(first.trace[|st.trace|..], trace[|first.trace|..j]);
  }

  /** The reads of a stretch that starts with the first entity's actions and
      goes on with the reads of `k` more entities: the reads of `k + 1` entities. */
  lemma ReadsOfOneMore(st: State, es: seq<Entity>, first: State, trace: seq<Action>, j: nat, k: nat)
    requires k < |es|
    requires IsPrefix(st.trace, first.trace) && IsPrefix(first.trace, trace)
    requires |first.trace| <= j <= |trace|
    requires MetadataReads(first.trace[|st.trace|..]) == [ColumnMetadataAction(es[0].tableName)]
    requires MetadataReads(trace[|first.trace|..j]) == ReadActions(es[1..][..k])
    ensures MetadataReads(trace[|st.trace|..j]) == ReadActions(es[..k + 1])
  {
    ReadsAfterStep(st, first, trace, j, es[0]);
    ReadActionsPrefix(es, k);
  }

  /** The facts `UpdatedStep` starts from: the first entity was updated
      normally and the rest of the pass reached entity `k` of the rest. */
  ghost predicate FirstUpdated(env: Env, st: State, es: seq<Entity>, first: State, k: nat, j: nat, r: Step)
    requires k < |es|
  {
    && IsPrefix(st.trace, first.trace)
    && MetadataReads(first.trace[|st.trace|..]) == [ColumnMetadataAction(es[0].tableName)]
    && (forall i :: |st.trace| <= i < |first.trace| ==> !first.trace[i].DropTableAction?)
    && first.inspected == st.inspected + {es[0].entityType}
    && ReachedAt(env, first, es[1..], k, j, r)
  }

  /** One more updated entity in front of a pass that reached entity `k` of the rest. */
  lemma UpdatedStep(env: Env, st: State, es: seq<Entity>, first: State, k: nat, j: nat, r: Step)
    requires k < |es|
    requires FirstUpdated(env, st, es, first, k, j, r)
    ensures ReachedAt(env, st, es, k + 1, j, r)
  {
    UpdatedStepCommon(env, st, es, first, k, j, r);
    if r.outcome.Thrown? {
      UpdatedStepThrown(env, st, es, first, k, j, r);
    } else {
      UpdatedStepNormal(env, st, es, first, k, j, r);
    }
  }

  /** What `ReachedAt` says whatever the outcome, for one more entity. */
  lemma UpdatedStepCommon(env: Env, st: State, es: seq<Entity>, first: State, k: nat, j: nat, r: Step)
    requires k < |es|
    requires FirstUpdated(env, st, es, first, k, j, r)
    ensures IsPrefix(st.trace, r.state.trace) && |st.trace| <= j <= |r.state.trace|
    ensures r.state.inspected == st.inspected + TypesOf(es[..k + 1])
    ensures forall i :: |st.trace| <= i < |r.state.trace| ==> !r.state.trace[i].DropTableAction?
    ensures MetadataReads(r.state.trace[|st.trace|..j]) == ReadActions(es[..k + 1])
  {
    PrefixTransitive(st.trace, first.trace, r.state.trace);
    PrefixCons(es, k);
    ReadsOfOneMore(st, es, first, r.state.trace, j, k);
    NoDropsAfterStep(st.trace, first.trace, r.state.trace);
  }

  /** The rest of `ReachedAt` for one more entity, when the pass threw. */
  lemma UpdatedStepThrown(env: Env, st: State, es: seq<Entity>, first: State, k: nat, j: nat, r: Step)
    requires k < |es| && r.outcome.Thrown?
    requires FirstUpdated(env, st, es, first, k, j, r)
    ensures k + 1 < |es|
    ensures MetadataReads(r.state.trace[|st.trace|..]) == ReadActions(es[..k + 2])
    ensures r == UpdateEntity(env, State(r.state.trace[..j], st.inspected + TypesOf(es[..k + 1])), es[k + 1])
  {
    var trace := r.state.trace;
    PrefixTransitive(st.trace, first.trace, trace);
    PrefixCons(es, k);
    assert trace[|first.trace|..|trace|] == trace[|first.trace|..];
    ReadsOfOneMore(st, es, first, trace, |trace|, k + 1);
    assert trace[|st.trace|..|trace|] == trace[|st.trace|..];
    assert es[k + 1] == es[1..][k];
    assert first.inspected + TypesOf(es[1..][..k]) == st.inspected + TypesOf(es[..k + 1]);
  }

  /** The rest of `ReachedAt` for one more entity, when the pass ended normally. */
  lemma UpdatedStepNormal(env: Env, st: State, es: seq<Entity>, first: State, k: nat, j: nat, r: Step)
    requires k < |es| && r.outcome.Normal?
    requires FirstUpdated(env, st, es, first, k, j, r)
    ensures k + 1 == |es| && j == |r.state.trace|
    ensures MetadataReads(r.state.trace[|st.trace|..]) == ReadActions(es)
  {
    var trace := r.state.trace;
    PrefixTransitive(st.trace, first.trace, trace);
    assert es[1..][..k] == es[1..];
    assert es[..k + 1] == es;
    assert trace[|first.trace|..|trace|] == trace[|first.trace|..];
    ReadsOfOneMore(st, es, first, trace, |trace|, k);
    assert trace[|st.trace|..|trace|] == trace[|st.trace|..];
  }

  /** An UPDATE pass over no entities completes at once. */
  lemma UpdatedNone(env: Env, st: State)
    ensures UpdatedUpTo(env, st, [], 0, [|st.trace|], UpdateTables(env, st, []))
  {
    var r := UpdateTables(env, st, []);
    assert r.state.trace[|st.trace|..] == [];
    assert Segmented(env, st, [], 0, [|st.trace|], r.state.trace);
  }

  /** An UPDATE pass whose first entity throws reached entity 0. */
  lemma UpdatedAtFirst(env: Env, st: State, es: seq<Entity>)
    requires es != [] && UpdateEntity(env, st, es[0]).outcome.Thrown?
    ensures UpdatedUpTo(env, st, es, 0, [|st.trace|], UpdateEntity(env, st, es[0]))
  {
    ReachedAtFirst(env, st, es);
    assert Segmented(env, st, es, 0, [|st.trace|], UpdateEntity(env, st, es[0]).state.trace);
  }

  /** The reads and drops of an UPDATE pass whose first entity throws. */
  lemma ReachedAtFirst(env: Env, st: State, es: seq<Entity>)
    requires es != [] && UpdateEntity(env, st, es[0]).outcome.Thrown?
    ensures ReachedAt(env, st, es, 0, |st.trace|, UpdateEntity(env, st, es[0]))
  {
    var r := UpdateEntity(env, st, es[0]);
    UpdateEntityReadsOnce(env, st, es[0]);
    assert es[..0] == [];
    ReadActionsPrefix(es, 0);
    assert r.state.trace[..|st.trace|] == st.trace;
    assert r.state.trace[|st.trace|..|st.trace|] == [];
  }

  /** An UPDATE pass processes a prefix of the registry: it takes the steps of
      the first `k` entities one after the other, each ending normally and
      reading its entity's metadata once, and either completes (`k` is the
      whole registry) or stops at entity `k`, whose step threw. */
  lemma {:induction false} UpdateTablesStopsAtFirstFailure(env: Env, st: State, es: seq<Entity>) returns (k: nat, cuts: seq<int>)
    ensures k <= |es| && UpdatedUpTo(env, st, es, k, cuts, UpdateTables(env, st, es))
    decreases |es|
  {
    if es == [] {
      UpdatedNone(env, st);
      k, cuts := 0, [|st.trace|];
    } else {
      var first := UpdateEntity(env, st, es[0]);
      if first.outcome.Thrown? {
        UpdatedAtFirst(env, st, es);
        k, cuts := 0, [|st.trace|];
      } else {
        var k', cuts' := UpdateTablesStopsAtFirstFailure(env, first.state, es[1..]);
        UpdatedUpToStep(env, st, es, first.state, k', cuts', UpdateTables(env, first.state, es[1..]));
        k, cuts := k' + 1, [|st.trace|] + cuts';
      }
    }
  }

  /** One more updated entity in front of a pass that reached entity `k` of
      the rest, with the cut of the first entity's step put in front. */
  lemma UpdatedUpToStep(env: Env, st: State, es: seq<Entity>, first: State, k: nat, cuts: seq<int>, r: Step)
    requires k < |es| && UpdateEntity(env, st, es[0]) == Step(first, Normal)
    requires IsPrefix(first.trace, r.state.trace)
    requires UpdatedUpTo(env, first, es[1..], k, cuts, r)
    ensures UpdatedUpTo(env, st, es, k + 1, [|st.trace|] + cuts, r)
  {
    UpdateEntityReadsOnce(env, st, es[0]);
    UpdatedStep(env, st, es, first, k, cuts[k], r);
    SegmentedStep(env, st, es, first, k, cuts, r.state.trace);
    assert ([|st.trace|] + cuts)[k + 1] == cuts[k];
  }

  /** The replies an UPDATE step survives: a success, or NoSuchTable answering
      a metadata read or an alter, which sends the entity to a create. */
  predicate UpdateTolerates(a: Action, reply: Reply)
  {
    reply.Done? || (reply.fault == NoSuchTable && (a.ColumnMetadataAction? || a.AlterTableAction?))
  }

  /** Every action at positions `from` up to (excluding) `to` of a trace got a
      reply an UPDATE step survives. */
  predicate Tolerated(env: Env, trace: seq<Action>, from: nat, to: nat)
    requires from <= to <= |trace|
  {
    forall i :: from <= i < to ==> UpdateTolerates(trace[i], ReplyAt(env, trace, i))
  }

  /** The diff of entity `e` against the metadata its read in state `st`
      returned, when that read succeeded, fails at most by reporting the table
      missing. */
  predicate DiffSettles(env: Env, st: State, e: Entity)
  {
    var reply := env.execute(st.trace, ColumnMetadataAction(e.tableName));
    reply.Done? ==>
      var diff := env.updateDefinition(e, TableMetadata(e.tableName, reply.rows));
      !(diff.DiffFailed? && diff.fault != NoSuchTable)
  }

  /** Tolerated replies over two adjacent stretches are tolerated over both. */
  lemma ToleratedJoin(env: Env, trace: seq<Action>, from: nat, mid: nat, to: nat)
    requires from <= mid <= to <= |trace|
    ensures Tolerated(env, trace, from, to) <==> Tolerated(env, trace, from, mid) && Tolerated(env, trace, mid, to)
  {
  }

  /** Tolerated replies over a stretch survive extending the trace. */
  lemma ToleratedExtends(env: Env, t: seq<Action>, u: seq<Action>, from: nat, to: nat)
    requires IsPrefix(t, u) && from <= to <= |t|
    ensures Tolerated(env, t, from, to) <==> Tolerated(env, u, from, to)
  {
    forall i | from <= i < to ensures ReplyAt(env, t, i) == ReplyAt(env, u, i) {
      ReplyAtPrefix(env, t, u, i);
    }
  }

  /** A stretch of non-drop actions none of whose replies escaped is tolerated. */
  lemma NoneEscapeTolerated(env: Env, trace: seq<Action>, from: nat, to: nat)
    requires from <= to <= |trace|
    requires forall i :: from <= i < to ==> !trace[i].DropTableAction?
    requires NoneEscape(env, trace, from, to)
    ensures Tolerated(env, trace, from, to)
  {
    forall i | from <= i < to ensures UpdateTolerates(trace[i], ReplyAt(env, trace, i)) {
      assert !Escapes(trace[i], ReplyAt(env, trace, i));
    }
  }

  /** The last action of a trace, and its reply. */
  lemma ToleratedLast(env: Env, trace: seq<Action>, x: Action, from: nat)
    requires from <= |trace|
    ensures Tolerated(env, trace + [x], from, |trace| + 1)
            <==> Tolerated(env, trace, from, |trace|) && UpdateTolerates(x, env.execute(trace, x))
  {
    ToleratedExtends(env, trace, trace + [x], from, |trace|);
    ToleratedJoin(env, trace + [x], from, |trace|, |trace| + 1);
    assert (trace + [x])[..|trace|] == trace;
    assert ReplyAt(env, trace + [x], |trace|) == env.execute(trace, x);
  }

  /** The alter path of an UPDATE step, through the metadata read and the
      diff, in terms of its replies: it ended normally, or with NoSuchTable,
      exactly when its replies were tolerated and the diff settled. */
  lemma AlterTableTolerated(env: Env, st: State, e: Entity)
    ensures var altered := AlterTable(env, st, e);
            (altered.outcome.Normal? || altered.outcome == Thrown(NoSuchTable))
            <==> Tolerated(env, altered.state.trace, |st.trace|, |altered.state.trace|) && DiffSettles(env, st, e)
  {
    var altered := AlterTable(env, st, e);
    var trace := altered.state.trace;
    var read := ColumnMetadataAction(e.tableName);
    var after := st.trace + [read];
    var reply := env.execute(st.trace, read);
    assert IsPrefix(after, trace);
    ToleratedExtends(env, after, trace, |st.trace|, |after|);
    ToleratedLast(env, st.trace, read, |st.trace|);
    assert Tolerated(env, st.trace, |st.trace|, |st.trace|);
    if reply.Done? && env.updateDefinition(e, TableMetadata(e.tableName, reply.rows)).Changes? {
      ToleratedJoin(env, trace, |st.trace|, |after|, |trace|);
      AltersTolerated(env, trace, |after|, altered.outcome);
    }
  }

  /** A run of alters from position `from` to the end of a trace ended
      normally, or with NoSuchTable, exactly when its replies were tolerated. */
  lemma AltersTolerated(env: Env, trace: seq<Action>, from: nat, outcome: Outcome)
    requires from <= |trace|
    requires forall i :: from <= i < |trace| ==> trace[i].AlterTableAction?
    requires outcome.Normal? <==> NoneEscape(env, trace, from, |trace|)
    requires outcome.Thrown? ==> StoppedBy(env, trace, from, outcome.fault)
    ensures (outcome.Normal? || outcome == Thrown(NoSuchTable)) <==> Tolerated(env, trace, from, |trace|)
  {
    if outcome.Normal? {
      NoneEscapeTolerated(env, trace, from, |trace|);
    } else {
      var last := |trace| - 1;
      NoneEscapeTolerated(env, trace, from, last);
      ToleratedJoin(env, trace, from, last, |trace|);
      assert trace[last].AlterTableAction?;
    }
  }

  /** Under UPDATE, an entity's step ends normally exactly when every reply it
      got was a success or a NoSuchTable from the alter path (which the create
      that follows then answered with success), and the diff against the
      metadata it read did not fail otherwise. */
  lemma UpdateEntityCompletesIff(env: Env, st: State, e: Entity)
    ensures var r := UpdateEntity(env, st, e);
            r.outcome.Normal?
            <==> Tolerated(env, r.state.trace, |st.trace|, |r.state.trace|) && DiffSettles(env, st, e)
  {
    var altered := AlterTable(env, st, e);
    AlterTableTolerated(env, st, e);
    if altered.outcome == Thrown(NoSuchTable) {
      ToleratedLast(env, altered.state.trace, CreateTableAction(env.createDefinition(e)), |st.trace|);
    }
  }

  /** Every metadata read at positions `from` on that succeeded gives, for
      every entity of that table, a diff that fails at most by reporting the
      table missing. */
  predicate DiffsSettle(env: Env, es: seq<Entity>, trace: seq<Action>, from: nat)
  {
    forall i, e :: from <= i < |trace| && trace[i].ColumnMetadataAction? && e in es
                   && e.tableName == trace[i].table && ReplyAt(env, trace, i).Done? ==>
      var diff := env.updateDefinition(e, TableMetadata(e.tableName, ReplyAt(env, trace, i).rows));
      !(diff.DiffFailed? && diff.fault != NoSuchTable)
  }

  /** Under UPDATE, a pass in which every reply was a success or a NoSuchTable
      from some entity's alter path, and the diffs of the metadata actually
      read did not fail otherwise, ends normally: only a reply or a diff that
      escapes an entity stops the pass. */
  lemma UpdateTablesCompletesWithoutFailures(env: Env, st: State, es: seq<Entity>)
    ensures var r := UpdateTables(env, st, es);
            (Tolerated(env, r.state.trace, |st.trace|, |r.state.trace|)
             && DiffsSettle(env, es, r.state.trace, |st.trace|)) ==> r.outcome.Normal?
  {
    var r := UpdateTables(env, st, es);
    var trace := r.state.trace;
    if r.outcome.Thrown? && Tolerated(env, trace, |st.trace|, |trace|) && DiffsSettle(env, es, trace, |st.trace|) {
      var k, cuts := UpdateTablesStopsAtFirstFailure(env, st, es);
      EntityThrowShows(env, |st.trace|, es, k, EntityStart(st, es, trace, cuts[k], k));
    }
  }

  /** Under UPDATE, a pass that ended normally got only replies its entities'
      steps survive: successes, and NoSuchTable on some alter path. */
  lemma {:induction false} UpdateTablesNormalTolerated(env: Env, st: State, es: seq<Entity>)
    ensures var r := UpdateTables(env, st, es);
            r.outcome.Normal? ==> Tolerated(env, r.state.trace, |st.trace|, |r.state.trace|)
    decreases |es|
  {
    var r := UpdateTables(env, st, es);
    if es != [] && r.outcome.Normal? {
      var first := UpdateEntity(env, st, es[0]);
      assert r == UpdateTables(env, first.state, es[1..]);
      UpdateTablesNormalTolerated(env, first.state, es[1..]);
      UpdateEntityCompletesIff(env, st, es[0]);
      ToleratedExtends(env, first.state.trace, r.state.trace, |st.trace|, |first.state.trace|);
      ToleratedJoin(env, r.state.trace, |st.trace|, |first.state.trace|, |r.state.trace|);
    }
  }

  /** A step of entity `k` that threw, taken after position `from`, got a
      reply it does not survive, or read metadata whose diff failed. */
  lemma EntityThrowShows(env: Env, from: nat, es: seq<Entity>, k: nat, mid: State)
    requires k < |es| && from <= |mid.trace|
    requires UpdateEntity(env, mid, es[k]).outcome.Thrown?
    ensures var trace := UpdateEntity(env, mid, es[k]).state.trace;
            !Tolerated(env, trace, from, |trace|) || !DiffsSettle(env, es, trace, from)
  {
    var trace := UpdateEntity(env, mid, es[k]).state.trace;
    UpdateEntityCompletesIff(env, mid, es[k]);
    ToleratedJoin(env, trace, from, |mid.trace|, |trace|);
    UpdateEntityReadsAt(env, mid, es[k]);
  }

  /** An UPDATE step's first action is its entity's metadata read. */
  lemma UpdateEntityReadsAt(env: Env, st: State, e: Entity)
    ensures var r := UpdateEntity(env, st, e);
            |st.trace| < |r.state.trace| && r.state.trace[|st.trace|] == ColumnMetadataAction(e.tableName)
  {
  }

  /** Whatever the option and the failure policy, a run leaves inspected
      exactly the classes of a prefix of the registry: all of it when no
      exception escaped an entity, and otherwise the entities before the one
      that failed. The run re-throws that exception exactly when failures are
      not ignored. */
  lemma ExecuteInspectsRegistryPrefix(m: Manager, env: Env, st: State)
    ensures var pass := Reconcile(m, env, st);
            var r := Execute(m, env, st);
            && (r.outcome.Thrown? <==> pass.outcome.Thrown? && !m.ignoreFailures)
            && exists k: nat :: k <= |m.registry|
                 && r.state.inspected == st.inspected + TypesOf(m.registry[..k])
                 && (pass.outcome.Normal? <==> k == |m.registry|)
  {
    var k: nat;
    if m.option == Update {
      k := UpdatePassInspectsPrefix(env, st, m.registry);
    } else {
      k := RebuildPassInspectsPrefix(env, st, m.registry);
    }
    assert Execute(m, env, st).state.inspected == st.inspected + TypesOf(m.registry[..k]);
  }

  /** The registry prefix an UPDATE pass inspected: all of it iff the pass
      ended normally. */
  lemma UpdatePassInspectsPrefix(env: Env, st: State, es: seq<Entity>) returns (k: nat)
    ensures k <= |es|
    ensures UpdateTables(env, st, es).state.inspected == st.inspected + TypesOf(es[..k])
    ensures UpdateTables(env, st, es).outcome.Normal? <==> k == |es|
  {
    var cuts;
    k, cuts := UpdateTablesStopsAtFirstFailure(env, st, es);
    assert es[..|es|] == es;
  }

  /** The registry prefix a CREATE / CREATE_DROP pass inspected: all of it iff
      the pass ended normally. */
  lemma RebuildPassInspectsPrefix(env: Env, st: State, es: seq<Entity>) returns (k: nat)
    ensures k <= |es|
    ensures DropAndCreateTables(env, st, es).state.inspected == st.inspected + TypesOf(es[..k])
    ensures DropAndCreateTables(env, st, es).outcome.Normal? <==> k == |es|
  {
    DropAndCreateTablesStopsAtFirstFailure(env, st, es);
    k :| k <= |es| && RebuiltUpTo(env, st, es, k, DropAndCreateTables(env, st, es));
    assert es[..|es|] == es;
  }

  /** A swallowed drop failure does not depend on the failure policy: with or
      without `ignoreFailures`, a CREATE / CREATE_DROP start whose first drop
      fails with invalid resource usage goes on to create that entity's table. */
  lemma SwallowedDropContinues(m: Manager, env: Env)
    requires m.option != Update && m.registry != []
    requires env.execute([], DropTableAction(m.registry[0].tableName)) == Fail(InvalidResourceUsage)
    ensures var r := Start(m, env);
            && |r.state.trace| >= 2
            && r.state.trace[..2] == [DropTableAction(m.registry[0].tableName),
                                      CreateTableAction(env.createDefinition(m.registry[0]))]
  {
  }

  /** The registered entity of a class, when no two entities share a class. */
  lemma LookupUnique(registry: seq<Entity>, e: Entity)
    requires DistinctTypes(registry) && e in registry
    ensures e.entityType in TypesOf(registry) && Lookup(registry, e.entityType) == e
  {
    var i :| 0 <= i < |registry| && registry[i] == e;
    TypesOfMembership(registry, e.entityType);
    var found := Lookup(registry, e.entityType);
    var j :| 0 <= j < |registry| && registry[j] == found;
    assert Types(registry)[i] == e.entityType == Types(registry)[j];
  }

  /** A registry without repeated classes has one class per entity. */
  lemma DistinctTypesCardinality(registry: seq<Entity>)
    requires DistinctTypes(registry)
    ensures |TypesOf(registry)| == |registry|
  {
    DistinctCardinality(Types(registry));
  }

  /** A CREATE_DROP start that ends normally completed its pass: every table
      was dropped and re-created in registry order and every class inspected. */
  lemma CreateDropStartCompletes(registry: seq<Entity>, env: Env)
    requires Start(NewManagerWithOption(registry, CreateDrop), env).outcome.Normal?
    ensures var start := Start(NewManagerWithOption(registry, CreateDrop), env);
            && start.state.trace == RebuildActions(env.createDefinition, registry)
            && start.state.inspected == TypesOf(registry)
  {
  }

  /** `drops` drops every table of the registry and nothing else, one drop per
      entity. */
  predicate DropsEachTableOnce(registry: seq<Entity>, drops: seq<Action>)
  {
    && |drops| == |registry|
    && (forall e :: e in registry ==> DropTableAction(e.tableName) in drops)
    && (forall i :: 0 <= i < |drops| ==> exists e :: e in registry && drops[i] == DropTableAction(e.tableName))
  }

  /** A CREATE_DROP teardown that ends normally, over a registry without
      repeated classes whose every class was inspected, drops every registered
      table once and nothing else. */
  lemma TeardownDropsRegistry(registry: seq<Entity>, env: Env, st: State, keys: seq<EntityType>)
    requires DistinctTypes(registry)
    requires Distinct(keys) && Elements(keys) == st.inspected && st.inspected == TypesOf(registry)
    ensures var stop := Destroy(NewManagerWithOption(registry, CreateDrop), env, st, keys);
            stop.outcome.Normal? ==>
              DropsEachTableOnce(registry, stop.state.trace[|st.trace|..])
  {
    var stop := Destroy(NewManagerWithOption(registry, CreateDrop), env, st, keys);
    if stop.outcome.Normal? {
      var drops := stop.state.trace[|st.trace|..];
      assert drops == TeardownActions(registry, keys);
      DistinctTypesCardinality(registry);
      forall e | e in registry ensures DropTableAction(e.tableName) in drops {
        LookupUnique(registry, e);
        assert e.entityType in Elements(keys);
        var i :| 0 <= i < |keys| && keys[i] == e.entityType;
        assert drops[i] == DropTableAction(e.tableName);
      }
      forall i | 0 <= i < |drops| ensures exists e :: e in registry && drops[i] == DropTableAction(e.tableName) {
        var e := Lookup(registry, keys[i]);
        assert drops[i] == DropTableAction(e.tableName);
      }
    }
  }

  /** CREATE_DROP over a registry without repeated classes: a start that ends
      normally drops and re-creates every table in registry order; a teardown
      that then ends normally drops every registered table once and nothing
      else, in whatever order the inspected set is enumerated. */
  lemma CreateDropLifecycle(registry: seq<Entity>, env: Env, keys: seq<EntityType>)
    requires DistinctTypes(registry)
    requires Start(NewManagerWithOption(registry, CreateDrop), env).outcome.Normal?
    requires Distinct(keys) && Elements(keys) == Start(NewManagerWithOption(registry, CreateDrop), env).state.inspected
    ensures var m := NewManagerWithOption(registry, CreateDrop);
            var start := Start(m, env);
            var stop := Destroy(m, env, start.state, keys);
            && start.state.trace == RebuildActions(env.createDefinition, registry)
            && (stop.outcome.Normal? ==>
                  DropsEachTableOnce(registry, stop.state.trace[|start.state.trace|..]))
  {
    CreateDropStartCompletes(registry, env);
    var start := Start(NewManagerWithOption(registry, CreateDrop), env);
    TeardownDropsRegistry(registry, env, start.state, keys);
  }

  /** Recording a class twice is recording it once; the set only grows. */
  lemma AddInspectedIdempotent(inspected: set<EntityType>, t: EntityType)
    ensures AddInspected(AddInspected(inspected, t), t) == AddInspected(inspected, t)
    ensures t in inspected ==> AddInspected(inspected, t) == inspected
    ensures inspected <= AddInspected(inspected, t)
  {
  }
}
