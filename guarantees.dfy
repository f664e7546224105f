/**
 * What a merge run promises, stated over the model in `Merge`: which rows keep their database
 * changes, what the write-back batches hold, and which calls each mode allows.
 */
module Guarantees {
  import opened Wrappers
  import opened Values
  import Text
  import Addresses
  import Parameters
  import MergeContext
  import Computed
  import Ordered
  import opened Merge

  // ---------------------------------------------------------------------------------------------
  // Accumulating a successful row

  /** No table is listed twice. */
  ghost predicate Distinct(tables: seq<string>)
  {
    forall i, j :: 0 <= i < j < |tables| ==> tables[i] != tables[j]
  }

  /**
   * Extending by distinct tables appends to a table's list its records in the grouping exactly
   * when it is one of the tables.
   */
  lemma {:induction false} ExtendKeysGet(into: Ordered.ListDict<Record>, ins: Ordered.ListDict<Record>,
                                         tables: seq<string>, t: string)
    requires Distinct(tables)
    ensures ExtendKeys(into, ins, tables).Get(t) == into.Get(t) + (if t in tables then ins.Get(t) else [])
    decreases |tables|
  {
    if tables != [] {
      var first := tables[0];
      var next := into.Extend(first, ins.Get(first));
      assert Distinct(tables[1..]) by {
        forall i, j | 0 <= i < j < |tables[1..]| ensures tables[1..][i] != tables[1..][j] {
          assert tables[1..][i] == tables[i + 1] && tables[1..][j] == tables[j + 1];
        }
      }
      ExtendKeysGet(next, ins, tables[1..], t);
      assert tables == [first] + tables[1..];
      if t == first {
        assert first !in tables[1..] by {
          forall i | 0 <= i < |tables[1..]| ensures tables[1..][i] != first {
            assert tables[1..][i] == tables[i + 1];
          }
        }
      }
    }
  }

  /** Extending a well-formed buffer table by table keeps it well formed. */
  lemma {:induction false} ExtendKeysValid(into: Ordered.ListDict<Record>, ins: Ordered.ListDict<Record>, tables: seq<string>)
    requires into.Valid()
    ensures ExtendKeys(into, ins, tables).Valid()
    decreases |tables|
  {
    if tables != [] {
      Ordered.ExtendValid(into, tables[0], ins.Get(tables[0]));
      ExtendKeysValid(into.Extend(tables[0], ins.Get(tables[0])), ins, tables[1..]);
    }
  }

  /**
   * When exactly the listed tables are stored, extending lists a table exactly when it was listed
   * before or is one of the given ones.
   */
  lemma {:induction false} ExtendKeysListed(into: Ordered.ListDict<Record>, ins: Ordered.ListDict<Record>,
                                            tables: seq<string>, t: string)
    requires into.Listed()
    ensures t in ExtendKeys(into, ins, tables).keys <==> t in into.keys || t in tables
    decreases |tables|
  {
    if tables != [] {
      var first, rest := tables[0], tables[1..];
      Ordered.ExtendListed(into, first, ins.Get(first));
      ExtendKeysListed(into.Extend(first, ins.Get(first)), ins, rest, t);
      assert tables == [first] + rest;
    }
  }

  /**
   * `setdefault(t, []).extend(records)` for every table of a well-formed grouping: each table's
   * list grows by exactly that table's records, and a well-formed buffer stays well formed and
   * gains the tables new to it.
   */
  lemma ExtendAllSpec(into: Ordered.ListDict<Record>, ins: Ordered.ListDict<Record>)
    requires ins.Valid()
    ensures forall t :: ExtendAll(into, ins).Get(t) == into.Get(t) + ins.Get(t)
    ensures into.Valid() ==> forall t :: t in ExtendAll(into, ins).keys <==> t in into.keys || t in ins.keys
    ensures into.Valid() ==> ExtendAll(into, ins).Valid()
  {
    if into.Valid() {
      ExtendKeysValid(into, ins, ins.keys);
      forall t ensures t in ExtendAll(into, ins).keys <==> t in into.keys || t in ins.keys {
        ExtendKeysListed(into, ins, ins.keys, t);
      }
    }
    forall t ensures ExtendAll(into, ins).Get(t) == into.Get(t) + ins.Get(t) {
      ExtendKeysGet(into, ins, ins.keys, t);
    }
  }

  /**
   * A successful row's contribution. It ends the run exactly when the row has update fields but
   * no `id`; otherwise the update batch gains the row's `(id, fields)` pair when there are
   * fields, and each table's insert batch gains the row's records for it.
   */
  lemma AccumulateSpec(b: Buffers, row: Row, ups: Record, ins: Ordered.ListDict<Record>)
    requires ins.Valid()
    ensures Accumulate(b, row, ups, ins).Err? <==> ups != map[] && "id" !in row
    ensures Accumulate(b, row, ups, ins).Err? ==> Accumulate(b, row, ups, ins).error == MissingRowId
    ensures var r := Accumulate(b, row, ups, ins);
            r.Ok? ==> r.value.updates == b.updates + (if ups != map[] then [(row["id"], ups)] else [])
    ensures var r := Accumulate(b, row, ups, ins);
            r.Ok? ==> forall t :: r.value.inserts.Get(t) == b.inserts.Get(t) + ins.Get(t)
    ensures var r := Accumulate(b, row, ups, ins);
            r.Ok? && b.inserts.Valid() ==> forall t :: t in r.value.inserts.keys <==> t in b.inserts.keys || t in ins.keys
    ensures var r := Accumulate(b, row, ups, ins);
            r.Ok? && b.inserts.Valid() ==> r.value.inserts.Valid()
  {
    ExtendAllSpec(b.inserts, ins);
  }

  // ---------------------------------------------------------------------------------------------
  // The buffers after the row loop

  /** The changes a row keeps: `Some` exactly when it succeeded. */
  function Kept(o: RowOutcome): (p: Option<Prepared>)
    ensures p.Some? <==> o.result.Ok? && o.result.value.Some?
  {
    if o.result.Ok? then o.result.value else None
  }

  /** The update pair a row contributes: one when it succeeded with update fields. */
  function KeptPair(row: Row, o: RowOutcome): UpdateBatch
  {
    match Kept(o)
    case Some(p) => if p.updates != map[] && "id" in row then [(row["id"], p.updates)] else []
    case None => []
  }

  /** The records for `table` a row contributes: its own when it succeeded. */
  function KeptInserts(o: RowOutcome, table: string): seq<Record>
  {
    match Kept(o)
    case Some(p) => p.inserts.Get(table)
    case None => []
  }

  /** The `(id, fields)` pairs of the first `n` rows that succeeded with update fields, in row order. */
  function KeptUpdates(rows: seq<Row>, outcomes: seq<RowOutcome>, n: nat): UpdateBatch
    requires n <= |rows| == |outcomes|
  {
    if n == 0 then [] else KeptUpdates(rows, outcomes, n - 1) + KeptPair(rows[n - 1], outcomes[n - 1])
  }

  /** The records for `table` of the first `n` rows that succeeded, in row order. */
  function KeptRecords(rows: seq<Row>, outcomes: seq<RowOutcome>, n: nat, table: string): seq<Record>
    requires n <= |rows| == |outcomes|
  {
    if n == 0 then [] else KeptRecords(rows, outcomes, n - 1, table) + KeptInserts(outcomes[n - 1], table)
  }

  /** A kept grouping lists each table once, each with at least one record. */
  ghost predicate WellFormedOutcome(o: RowOutcome)
  {
    Kept(o).Some? ==> Batched(Kept(o).value.inserts)
  }

  /** A well-formed insert buffer in which every listed table has records. */
  ghost predicate Batched(d: Ordered.ListDict<Record>)
  {
    d.Valid() && forall t :: t in d.keys ==> d.Get(t) != []
  }

  /** Every update pair carries at least one field. */
  ghost predicate Filled(u: UpdateBatch)
  {
    forall i :: 0 <= i < |u| ==> u[i].1 != map[]
  }

  /**
   * One row of the loop on buffers `b`: it ends the run exactly when it failed itself or kept
   * update fields without an `id`; otherwise the buffers grow by what it keeps, and stay batched.
   */
  lemma KeepStep(b: Buffers, row: Row, o: RowOutcome)
    requires WellFormedOutcome(o) && Batched(b.inserts) && Filled(b.updates)
    ensures var r := Keep(b, row, o.result);
            r.Err? <==> o.result.Err? || (Kept(o).Some? && Kept(o).value.updates != map[] && "id" !in row)
    ensures var r := Keep(b, row, o.result);
            r.Ok? ==>
              && r.value.updates == b.updates + KeptPair(row, o)
              && (forall t :: r.value.inserts.Get(t) == b.inserts.Get(t) + KeptInserts(o, t))
              && Batched(r.value.inserts)
              && Filled(r.value.updates)
  {
    if Kept(o).Some? {
      var p := Kept(o).value;
      AccumulateSpec(b, row, p.updates, p.inserts);
      var r := Keep(b, row, o.result);
      if r.Ok? {
        var d := r.value.inserts;
        forall t | t in d.keys ensures d.Get(t) != [] {
          if t in b.inserts.keys {
            assert b.inserts.Get(t) != [];
          } else {
            assert p.inserts.Get(t) != [];
          }
        }
      }
    }
  }

  /**
   * What the row loop buffers when no row ends the run: the update batch holds, in row order, one
   * pair per successful row with update fields, and every table's insert batch holds, in row order,
   * the records of the successful rows; rows whose message failed contribute nothing. Every
   * buffered table has records and every buffered update pair has fields.
   */
  lemma {:induction false} RowsBuffers(rows: seq<Row>, outcomes: seq<RowOutcome>, n: nat)
    requires n <= |rows| == |outcomes|
    requires forall i :: 0 <= i < |outcomes| ==> WellFormedOutcome(outcomes[i])
    ensures var r := RowsUpTo(rows, outcomes, n);
            r.result.Ok? ==>
              && r.result.value.updates == KeptUpdates(rows, outcomes, n)
              && (forall t :: r.result.value.inserts.Get(t) == KeptRecords(rows, outcomes, n, t))
              && Batched(r.result.value.inserts)
              && Filled(r.result.value.updates)
    decreases n
  {
    if n > 0 {
      RowsBuffers(rows, outcomes, n - 1);
      var prev := RowsUpTo(rows, outcomes, n - 1);
      if prev.result.Ok? {
        KeepStep(prev.result.value, rows[n - 1], outcomes[n - 1]);
      }
    }
  }

  // ---------------------------------------------------------------------------------------------
  // One row

  /** A row's changes are kept exactly when it was prepared and its message needed no sending or went out with status 0. */
  lemma RowKept(env: Env, job: Job, modes: Modes, params: MergeContext.Context, index: nat, row: Row, p: Prepared)
    ensures RowEffect(env, job, modes, params, index, row).result == Ok(Some(p)) <==>
              && Prepare(env, job, params, row) == Ok(p)
              && (modes.dryRun || modes.noEmail || env.sendmail(index, p.message) == Exited(0))
  {
  }

  /**
   * A row's changes are dropped, and the run goes on, exactly when its message was handed to the
   * transport and the transport exited with a non-zero status.
   */
  lemma RowDropped(env: Env, job: Job, modes: Modes, params: MergeContext.Context, index: nat, row: Row)
    ensures var prepared := Prepare(env, job, params, row);
            RowEffect(env, job, modes, params, index, row).result == Ok(None) <==>
              && prepared.Ok? && !modes.dryRun && !modes.noEmail
              && env.sendmail(index, prepared.value.message).Exited?
              && env.sendmail(index, prepared.value.message).status != 0
  {
  }

  /**
   * A row ends the run exactly when preparing it fails, with that failure and without a call, or
   * when the transport for its message cannot be started.
   */
  lemma RowEnds(env: Env, job: Job, modes: Modes, params: MergeContext.Context, index: nat, row: Row)
    ensures var prepared := Prepare(env, job, params, row);
            RowEffect(env, job, modes, params, index, row).result.Err? <==>
              || prepared.Err?
              || (!modes.dryRun && !modes.noEmail && env.sendmail(index, prepared.value.message).LaunchFailed?)
    ensures var prepared := Prepare(env, job, params, row);
            prepared.Err? ==> RowEffect(env, job, modes, params, index, row) == RowOutcome([], Err(prepared.error))
  {
  }

  /**
   * The only call a row makes is handing its message to the transport: once, when sending is on,
   * the row was prepared and the transport started; never under `--dry-run` or `--no-email`.
   */
  lemma RowCalls(env: Env, job: Job, modes: Modes, params: MergeContext.Context, index: nat, row: Row)
    ensures var prepared := Prepare(env, job, params, row);
            RowEffect(env, job, modes, params, index, row).calls ==
              if prepared.Ok? && !modes.dryRun && !modes.noEmail && env.sendmail(index, prepared.value.message).Exited?
              then [SendMail(prepared.value.message)]
              else []
    ensures modes.dryRun || modes.noEmail ==> RowEffect(env, job, modes, params, index, row).calls == []
  {
  }

  /**
   * A prepared row's message: the subject holds the rendered subject's text with every whitespace
   * run turned into one space, the body the rendered body's text without surrounding whitespace, and
   * the recipients are the `to`, `cc` and `bcc` lists expanded against the row's context.
   */
  lemma PreparedMessage(env: Env, job: Job, params: MergeContext.Context, row: Row)
    requires Prepare(env, job, params, row).Ok?
    ensures var p := Prepare(env, job, params, row).value;
            var ctx := MergeContext.ContextSpec(params, row, p.updates, p.inserts);
            var m := p.message;
            && env.render(job.subject, ctx).Some? && env.render(job.body, ctx).Some?
            && m.subject == Text.CollapseSpaces(Text.IsPySpace, env.render(job.subject, ctx).value)
            && m.body == Text.Strip(Text.IsPySpace, env.render(job.body, ctx).value)
            && Text.NonSpace(Text.IsPySpace, m.subject) == Text.NonSpace(Text.IsPySpace, env.render(job.subject, ctx).value)
            && (forall i :: 0 <= i < |m.subject| && Text.IsPySpace(m.subject[i]) ==> m.subject[i] == ' ')
            && (forall i :: 0 <= i < |m.subject| - 1 ==> !Text.IsPySpace(m.subject[i]) || !Text.IsPySpace(m.subject[i + 1]))
            && Text.NonSpace(Text.IsPySpace, m.body) == Text.NonSpace(Text.IsPySpace, env.render(job.body, ctx).value)
            && (m.body != [] ==> !Text.IsPySpace(m.body[0]) && !Text.IsPySpace(m.body[|m.body| - 1]))
            && Addresses.ConvertEmails(Expander(env, ctx), job.to) == Ok(m.to)
            && Addresses.ConvertEmails(Expander(env, ctx), job.cc) == Ok(m.cc)
            && Addresses.ConvertEmails(Expander(env, ctx), job.bcc) == Ok(m.bcc)
  {
    var p := Prepare(env, job, params, row).value;
    PreparedParts(env, job, params, row);
    ComposedMessage(env, job, MergeContext.ContextSpec(params, row, p.updates, p.inserts));
  }

  /** The message composed against any context, part by part. */
  lemma ComposedMessage(env: Env, job: Job, ctx: MergeContext.Context)
    requires Compose(env, job, ctx).Ok?
    ensures var m := Compose(env, job, ctx).value;
            && env.render(job.subject, ctx).Some? && env.render(job.body, ctx).Some?
            && m.subject == Text.CollapseSpaces(Text.IsPySpace, env.render(job.subject, ctx).value)
            && m.body == Text.Strip(Text.IsPySpace, env.render(job.body, ctx).value)
            && Text.NonSpace(Text.IsPySpace, m.subject) == Text.NonSpace(Text.IsPySpace, env.render(job.subject, ctx).value)
            && (forall i :: 0 <= i < |m.subject| && Text.IsPySpace(m.subject[i]) ==> m.subject[i] == ' ')
            && (forall i :: 0 <= i < |m.subject| - 1 ==> !Text.IsPySpace(m.subject[i]) || !Text.IsPySpace(m.subject[i + 1]))
            && Text.NonSpace(Text.IsPySpace, m.body) == Text.NonSpace(Text.IsPySpace, env.render(job.body, ctx).value)
            && (m.body != [] ==> !Text.IsPySpace(m.body[0]) && !Text.IsPySpace(m.body[|m.body| - 1]))
            && Addresses.ConvertEmails(Expander(env, ctx), job.to) == Ok(m.to)
            && Addresses.ConvertEmails(Expander(env, ctx), job.cc) == Ok(m.cc)
            && Addresses.ConvertEmails(Expander(env, ctx), job.bcc) == Ok(m.bcc)
  {
    assert Text.IsPySpace(' ');
    Text.CollapseKeepsText(Text.IsPySpace, env.render(job.subject, ctx).value);
    Text.StripKeepsText(Text.IsPySpace, env.render(job.body, ctx).value);
  }

  /** A kept row's insert grouping lists each table once, with records. */
  lemma RowWellFormed(env: Env, job: Job, modes: Modes, params: MergeContext.Context, index: nat, row: Row)
    ensures WellFormedOutcome(RowEffect(env, job, modes, params, index, row))
  {
    var o := RowEffect(env, job, modes, params, index, row);
    if Kept(o).Some? {
      KeptRowIsPrepared(env, job, modes, params, index, row);
      PreparedParts(env, job, params, row);
      if job.insert.Some? {
        var rules := job.insert.value;
        Computed.InsertsWellFormed(rules, Computed.EntryRecords(Computed.Snippets(env.py), rules, row), |rules|);
      }
    }
  }

  // ---------------------------------------------------------------------------------------------
  // The calls of a whole run

  /** Calls that hand a message to the transport. */
  ghost predicate MailOnly(calls: seq<Call>)
  {
    forall i :: 0 <= i < |calls| ==> calls[i].SendMail?
  }

  /** Calls that write back to the database. */
  ghost predicate WritesOnly(calls: seq<Call>)
  {
    forall i :: 0 <= i < |calls| ==> calls[i].AddRecords? || calls[i].PatchRecords?
  }

  /** What every row's outcome satisfies, whatever the row. */
  ghost predicate RowFacts(modes: Modes, o: RowOutcome)
  {
    && WellFormedOutcome(o)
    && MailOnly(o.calls)
    && (modes.dryRun || modes.noEmail ==> o.calls == [])
  }

  /** A row behaviour all of whose outcomes satisfy `RowFacts`. */
  ghost predicate EffectFacts(modes: Modes, effect: RowFunction)
  {
    forall params, index, row :: RowFacts(modes, effect(params, index, row))
  }

  /** Every row of a job is well formed and makes mail calls only, none when sending is off. */
  lemma EffectsFacts(env: Env, job: Job, modes: Modes)
    ensures EffectFacts(modes, Effects(env, job, modes))
  {
    forall params, index, row ensures RowFacts(modes, Effects(env, job, modes)(params, index, row)) {
      RowWellFormed(env, job, modes, params, index, row);
      RowCalls(env, job, modes, params, index, row);
    }
  }

  /** The row loop makes mail calls only, and none at all when sending is off. */
  lemma {:induction false} RowsCalls(modes: Modes, rows: seq<Row>, outcomes: seq<RowOutcome>, n: nat)
    requires n <= |rows| == |outcomes|
    requires forall i :: 0 <= i < |outcomes| ==> RowFacts(modes, outcomes[i])
    ensures MailOnly(RowsUpTo(rows, outcomes, n).calls)
    ensures modes.dryRun || modes.noEmail ==> RowsUpTo(rows, outcomes, n).calls == []
    decreases n
  {
    if n > 0 {
      RowsCalls(modes, rows, outcomes, n - 1);
      var prev := RowsUpTo(rows, outcomes, n - 1);
      if prev.result.Ok? {
        assert RowFacts(modes, outcomes[n - 1]);
        var calls := prev.calls + outcomes[n - 1].calls;
        forall i | 0 <= i < |calls| ensures calls[i].SendMail? {
          if i >= |prev.calls| {
            assert calls[i] == outcomes[n - 1].calls[i - |prev.calls|];
          }
        }
      }
    }
  }

  /** The write-back of buffers `b`: nothing on a dry run, and only write-back calls otherwise. */
  lemma FlushWrites(b: Buffers, update: Option<Computed.TableRule>, dryRun: bool)
    requires b.updates != [] ==> update.Some?
    ensures dryRun ==> FlushCalls(b, update, dryRun) == []
    ensures WritesOnly(FlushCalls(b, update, dryRun))
  {
  }

  /**
   * Outside a dry run there is one insert batch per buffered table, carrying exactly that table's
   * buffered records.
   */
  lemma FlushInserts(b: Buffers, update: Option<Computed.TableRule>, dryRun: bool)
    requires b.updates != [] ==> update.Some?
    requires Batched(b.inserts)
    ensures var calls := FlushCalls(b, update, dryRun);
            forall t, recs :: AddRecords(t, recs) in calls <==> !dryRun && recs != [] && recs == b.inserts.Get(t)
    ensures var calls := FlushCalls(b, update, dryRun);
            forall i, j ::
              (0 <= i < |calls| && 0 <= j < |calls| && calls[i].AddRecords? && calls[j].AddRecords? &&
               calls[i].table == calls[j].table) ==> i == j
  {
    FlushBatches(b, update, dryRun);
    FlushBatchesOnce(b, update, dryRun);
  }

  /** The insert batches of the write-back are exactly the buffered tables' non-empty record lists. */
  lemma FlushBatches(b: Buffers, update: Option<Computed.TableRule>, dryRun: bool)
    requires b.updates != [] ==> update.Some?
    requires Batched(b.inserts)
    ensures var calls := FlushCalls(b, update, dryRun);
            forall t, recs :: AddRecords(t, recs) in calls <==> !dryRun && recs != [] && recs == b.inserts.Get(t)
  {
    if !dryRun {
      var keys := b.inserts.keys;
      var adds := InsertCalls(b.inserts, |keys|);
      var calls := FlushCalls(b, update, dryRun);
      assert calls == adds + (if b.updates != [] then [PatchRecords(update.value.table, b.updates)] else []);
      forall t, recs | AddRecords(t, recs) in calls ensures recs != [] && recs == b.inserts.Get(t) {
        var i :| 0 <= i < |calls| && calls[i] == AddRecords(t, recs);
        assert i < |adds|;
        assert keys[i] in keys;
      }
      forall t, recs | recs != [] && recs == b.inserts.Get(t) ensures AddRecords(t, recs) in calls {
        assert t in keys;
        var i :| 0 <= i < |keys| && keys[i] == t;
        assert calls[i] == AddRecords(t, recs);
      }
    }
  }

  /** No table gets two insert batches. */
  lemma FlushBatchesOnce(b: Buffers, update: Option<Computed.TableRule>, dryRun: bool)
    requires b.updates != [] ==> update.Some?
    requires Batched(b.inserts)
    ensures var calls := FlushCalls(b, update, dryRun);
            forall i, j ::
              (0 <= i < |calls| && 0 <= j < |calls| && calls[i].AddRecords? && calls[j].AddRecords? &&
               calls[i].table == calls[j].table) ==> i == j
  {
    if !dryRun {
      var keys := b.inserts.keys;
      var adds := InsertCalls(b.inserts, |keys|);
      var calls := FlushCalls(b, update, dryRun);
      assert calls == adds + (if b.updates != [] then [PatchRecords(update.value.table, b.updates)] else []);
      assert forall i :: 0 <= i < |calls| && calls[i].AddRecords? ==> i < |adds| && calls[i].table == keys[i];
    }
  }

  /** Outside a dry run the update batch goes out, as the last call, exactly when there are updates. */
  lemma FlushUpdates(b: Buffers, update: Option<Computed.TableRule>, dryRun: bool)
    requires b.updates != [] ==> update.Some?
    ensures var calls := FlushCalls(b, update, dryRun);
            forall t, u :: PatchRecords(t, u) in calls <==> !dryRun && u != [] && u == b.updates && t == update.value.table
    ensures var calls := FlushCalls(b, update, dryRun);
            forall i :: 0 <= i < |calls| && calls[i].PatchRecords? ==> i == |calls| - 1
  {
    if !dryRun {
      var adds := InsertCalls(b.inserts, |b.inserts.keys|);
      var calls := FlushCalls(b, update, dryRun);
      assert calls == adds + (if b.updates != [] then [PatchRecords(update.value.table, b.updates)] else []);
      assert forall i :: 0 <= i < |adds| ==> !calls[i].PatchRecords?;
    }
  }

  // ---------------------------------------------------------------------------------------------
  // A run, for any row behaviour with the facts above

  /** The calls the row loop of a run makes: none when the subject or body does not compile. */
  ghost function LoopCalls(env: Env, job: Job, effect: RowFunction, params: MergeContext.Context, query: string): seq<Call>
  {
    var rows := env.sql(query);
    if env.compiles(job.subject) && env.compiles(job.body)
    then RowsUpTo(rows, Outcomes(effect, params, rows), |rows|).calls
    else []
  }

  /** The write-back calls of a run: none unless the templates compile and every row succeeded. */
  ghost function WriteCalls(env: Env, job: Job, modes: Modes, effect: RowFunction, params: MergeContext.Context,
                            query: string): seq<Call>
    requires EffectConfigured(job, effect)
  {
    var rows := env.sql(query);
    var outcomes := Outcomes(effect, params, rows);
    var r := RowsUpTo(rows, outcomes, |rows|);
    if env.compiles(job.subject) && env.compiles(job.body) && r.result.Ok?
    then
      RowsKeepUpdatesConfigured(job, rows, outcomes, |rows|);
      FlushCalls(r.result.value, job.update, modes.dryRun)
    else []
  }

  /**
   * A run whose parameters bound and whose query rendered is the query, then the row loop's
   * calls, then the write-back, and a run that ends in an error writes nothing back.
   */
  lemma JobParts(env: Env, job: Job, modes: Modes, supplied: seq<string>, effect: RowFunction,
                 params: MergeContext.Context, query: string)
    requires EffectConfigured(job, effect)
    requires Parameters.BindParams(job.parameters, supplied) == Ok(params)
    requires QueryText(env, job, params) == Ok(query)
    ensures JobRun(env, job, modes, supplied, effect).calls ==
              [RunQuery(query)] + LoopCalls(env, job, effect, params, query) + WriteCalls(env, job, modes, effect, params, query)
    ensures JobRun(env, job, modes, supplied, effect).outcome.Err? ==> WriteCalls(env, job, modes, effect, params, query) == []
  {
    var loop := LoopCalls(env, job, effect, params, query);
    assert [RunQuery(query)] + loop + [] == [RunQuery(query)] + loop;
  }

  /**
   * The row loop makes mail calls only, none on a dry run or under `--no-email`; the write-back
   * makes write-back calls only, none on a dry run.
   */
  lemma PartKinds(env: Env, job: Job, modes: Modes, effect: RowFunction, params: MergeContext.Context, query: string)
    requires EffectConfigured(job, effect) && EffectFacts(modes, effect)
    ensures MailOnly(LoopCalls(env, job, effect, params, query))
    ensures modes.dryRun || modes.noEmail ==> LoopCalls(env, job, effect, params, query) == []
    ensures WritesOnly(WriteCalls(env, job, modes, effect, params, query))
    ensures modes.dryRun ==> WriteCalls(env, job, modes, effect, params, query) == []
  {
    var rows := env.sql(query);
    var o := Outcomes(effect, params, rows);
    assert forall i :: 0 <= i < |o| ==> RowFacts(modes, o[i]);
    RowsCalls(modes, rows, o, |rows|);
    var r := RowsUpTo(rows, o, |rows|);
    if env.compiles(job.subject) && env.compiles(job.body) && r.result.Ok? {
      RowsKeepUpdatesConfigured(job, rows, o, |rows|);
      FlushWrites(r.result.value, job.update, modes.dryRun);
    }
  }

  /** The positions of the query, then mail, then write-back. */
  lemma Positions(query: Call, mail: seq<Call>, writes: seq<Call>)
    ensures var calls := [query] + mail + writes;
            && |calls| == 1 + |mail| + |writes|
            && calls[0] == query
            && (forall i :: 0 < i < 1 + |mail| ==> calls[i] == mail[i - 1])
            && (forall i :: 1 + |mail| <= i < |calls| ==> calls[i] == writes[i - 1 - |mail|])
  {
  }

  /** In the query, then mail, then write-back, the write-back calls are exactly those of the last part. */
  lemma WritesAtEnd(query: Call, mail: seq<Call>, writes: seq<Call>)
    requires query.RunQuery? && MailOnly(mail)
    ensures var calls := [query] + mail + writes;
            forall c :: c in calls && (c.AddRecords? || c.PatchRecords?) ==> c in writes
    ensures var calls := [query] + mail + writes;
            forall i :: 0 <= i < |calls| && (calls[i].AddRecords? || calls[i].PatchRecords?) ==>
              1 + |mail| <= i && calls[i] == writes[i - 1 - |mail|]
    ensures forall c :: c in writes ==> c in [query] + mail + writes
  {
    var calls := [query] + mail + writes;
    assert forall i :: 0 < i < 1 + |mail| ==> calls[i] == mail[i - 1];
  }

  /**
   * Each call of a run whose parameters bound and whose query rendered, by position: the query,
   * then mail, then write-back only.
   */
  lemma CallKinds(env: Env, job: Job, modes: Modes, supplied: seq<string>, effect: RowFunction,
                  params: MergeContext.Context, query: string)
    requires EffectConfigured(job, effect) && EffectFacts(modes, effect)
    requires Parameters.BindParams(job.parameters, supplied) == Ok(params)
    requires QueryText(env, job, params) == Ok(query)
    ensures var calls := JobRun(env, job, modes, supplied, effect).calls;
            var k := 1 + |LoopCalls(env, job, effect, params, query)|;
            && k <= |calls|
            && calls[0] == RunQuery(query)
            && (forall i :: 0 < i < k ==> calls[i].SendMail?)
            && (forall i :: k <= i < |calls| ==> calls[i].AddRecords? || calls[i].PatchRecords?)
  {
    JobParts(env, job, modes, supplied, effect, params, query);
    PartKinds(env, job, modes, effect, params, query);
    Positions(RunQuery(query), LoopCalls(env, job, effect, params, query), WriteCalls(env, job, modes, effect, params, query));
  }

  /** `QueryFirst` for any row behaviour. */
  lemma QueryFirstFor(env: Env, job: Job, modes: Modes, supplied: seq<string>, effect: RowFunction)
    requires EffectConfigured(job, effect) && EffectFacts(modes, effect)
    ensures var run := JobRun(env, job, modes, supplied, effect);
            var bound := Parameters.BindParams(job.parameters, supplied);
            run.calls != [] <==> bound.Ok? && QueryText(env, job, bound.value).Ok?
    ensures var run := JobRun(env, job, modes, supplied, effect);
            var bound := Parameters.BindParams(job.parameters, supplied);
            run.calls != [] && job.parameters.Some? ==>
              env.render(job.query, bound.value).Some? && run.calls[0] == RunQuery(env.render(job.query, bound.value).value)
    ensures var run := JobRun(env, job, modes, supplied, effect);
            run.calls != [] && job.parameters.None? ==> run.calls[0] == RunQuery(job.query)
    ensures var run := JobRun(env, job, modes, supplied, effect);
            forall i :: 0 < i < |run.calls| ==> !run.calls[i].RunQuery?
  {
    var bound := Parameters.BindParams(job.parameters, supplied);
    if bound.Ok? && QueryText(env, job, bound.value).Ok? {
      CallKinds(env, job, modes, supplied, effect, bound.value, QueryText(env, job, bound.value).value);
    }
  }

  /** `DryRunOnlyQueries` for any row behaviour. */
  lemma DryRunOnlyQueriesFor(env: Env, job: Job, modes: Modes, supplied: seq<string>, effect: RowFunction)
    requires EffectConfigured(job, effect) && EffectFacts(modes, effect)
    requires modes.dryRun
    ensures |JobRun(env, job, modes, supplied, effect).calls| <= 1
  {
    var bound := Parameters.BindParams(job.parameters, supplied);
    if bound.Ok? && QueryText(env, job, bound.value).Ok? {
      var query := QueryText(env, job, bound.value).value;
      JobParts(env, job, modes, supplied, effect, bound.value, query);
      PartKinds(env, job, modes, effect, bound.value, query);
    }
  }

  /** `NoEmailSendsNothing` for any row behaviour. */
  lemma NoEmailSendsNothingFor(env: Env, job: Job, modes: Modes, supplied: seq<string>, effect: RowFunction)
    requires EffectConfigured(job, effect) && EffectFacts(modes, effect)
    requires modes.noEmail
    ensures var calls := JobRun(env, job, modes, supplied, effect).calls;
            forall i :: 0 <= i < |calls| ==> !calls[i].SendMail?
  {
    var bound := Parameters.BindParams(job.parameters, supplied);
    if bound.Ok? && QueryText(env, job, bound.value).Ok? {
      var query := QueryText(env, job, bound.value).value;
      JobParts(env, job, modes, supplied, effect, bound.value, query);
      PartKinds(env, job, modes, effect, bound.value, query);
      var writes := WriteCalls(env, job, modes, effect, bound.value, query);
      Positions(RunQuery(query), [], writes);
    }
  }

  /** `AbortWritesNothing` for any row behaviour. */
  lemma AbortWritesNothingFor(env: Env, job: Job, modes: Modes, supplied: seq<string>, effect: RowFunction)
    requires EffectConfigured(job, effect) && EffectFacts(modes, effect)
    ensures var run := JobRun(env, job, modes, supplied, effect);
            run.outcome.Err? ==> forall i :: 0 <= i < |run.calls| ==> !run.calls[i].AddRecords? && !run.calls[i].PatchRecords?
  {
    var bound := Parameters.BindParams(job.parameters, supplied);
    if bound.Ok? && QueryText(env, job, bound.value).Ok? {
      var query := QueryText(env, job, bound.value).value;
      JobParts(env, job, modes, supplied, effect, bound.value, query);
      PartKinds(env, job, modes, effect, bound.value, query);
      var loop := LoopCalls(env, job, effect, bound.value, query);
      var writes := WriteCalls(env, job, modes, effect, bound.value, query);
      Positions(RunQuery(query), loop, writes);
    }
  }

  /** `WriteBackLast` for any row behaviour. */
  lemma WriteBackLastFor(env: Env, job: Job, modes: Modes, supplied: seq<string>, effect: RowFunction)
    requires EffectConfigured(job, effect) && EffectFacts(modes, effect)
    ensures var calls := JobRun(env, job, modes, supplied, effect).calls;
            forall i, j :: 0 <= i < j < |calls| && (calls[i].AddRecords? || calls[i].PatchRecords?) ==>
              calls[j].AddRecords? || calls[j].PatchRecords?
  {
    var bound := Parameters.BindParams(job.parameters, supplied);
    if bound.Ok? && QueryText(env, job, bound.value).Ok? {
      var query := QueryText(env, job, bound.value).value;
      CallKinds(env, job, modes, supplied, effect, bound.value, query);
      var calls := JobRun(env, job, modes, supplied, effect).calls;
      var k := 1 + |LoopCalls(env, job, effect, bound.value, query)|;
      forall i, j | 0 <= i < j < |calls| && (calls[i].AddRecords? || calls[i].PatchRecords?)
        ensures calls[j].AddRecords? || calls[j].PatchRecords?
      {
        assert k <= i;
      }
    }
  }

  /** A successful run: every row ran, and the write-back follows the rows' mail. */
  lemma SuccessParts(env: Env, job: Job, modes: Modes, supplied: seq<string>, effect: RowFunction,
                     params: MergeContext.Context, query: string)
    requires EffectConfigured(job, effect) && EffectFacts(modes, effect)
    requires Parameters.BindParams(job.parameters, supplied) == Ok(params)
    requires QueryText(env, job, params) == Ok(query)
    requires JobRun(env, job, modes, supplied, effect).outcome.Ok?
    ensures var rows := env.sql(query);
            var o := Outcomes(effect, params, rows);
            var r := RowsUpTo(rows, o, |rows|);
            && r.result.Ok?
            && UpdatesConfigured(job, r.result.value)
            && JobRun(env, job, modes, supplied, effect) ==
                 Run([RunQuery(query)] + r.calls + FlushCalls(r.result.value, job.update, modes.dryRun), Ok(|rows|))
            && MailOnly(r.calls)
            && r.result.value.updates == KeptUpdates(rows, o, |rows|)
            && (forall t :: r.result.value.inserts.Get(t) == KeptRecords(rows, o, |rows|, t))
            && Batched(r.result.value.inserts)
  {
    var rows := env.sql(query);
    var o := Outcomes(effect, params, rows);
    assert forall i :: 0 <= i < |o| ==> RowFacts(modes, o[i]);
    RowsKeepUpdatesConfigured(job, rows, o, |rows|);
    RowsCalls(modes, rows, o, |rows|);
    RowsBuffers(rows, o, |rows|);
  }

  /** `WriteBackInserts` for any row behaviour. */
  lemma WriteBackInsertsFor(env: Env, job: Job, modes: Modes, supplied: seq<string>, effect: RowFunction,
                            params: MergeContext.Context, query: string)
    requires EffectConfigured(job, effect) && EffectFacts(modes, effect)
    requires Parameters.BindParams(job.parameters, supplied) == Ok(params)
    requires QueryText(env, job, params) == Ok(query)
    requires JobRun(env, job, modes, supplied, effect).outcome.Ok?
    ensures JobRun(env, job, modes, supplied, effect).outcome == Ok(|env.sql(query)|)
    ensures var calls := JobRun(env, job, modes, supplied, effect).calls;
            var rows := env.sql(query);
            var o := Outcomes(effect, params, rows);
            forall t, recs :: AddRecords(t, recs) in calls <==>
              !modes.dryRun && recs != [] && recs == KeptRecords(rows, o, |rows|, t)
    ensures var calls := JobRun(env, job, modes, supplied, effect).calls;
            forall i, j ::
              (0 <= i < |calls| && 0 <= j < |calls| && calls[i].AddRecords? && calls[j].AddRecords? &&
               calls[i].table == calls[j].table) ==> i == j
  {
    SuccessParts(env, job, modes, supplied, effect, params, query);
    var rows := env.sql(query);
    var r := RowsUpTo(rows, Outcomes(effect, params, rows), |rows|);
    FlushInserts(r.result.value, job.update, modes.dryRun);
    WritesAtEnd(RunQuery(query), r.calls, FlushCalls(r.result.value, job.update, modes.dryRun));
  }

  /** `WriteBackUpdates` for any row behaviour. */
  lemma WriteBackUpdatesFor(env: Env, job: Job, modes: Modes, supplied: seq<string>, effect: RowFunction,
                            params: MergeContext.Context, query: string)
    requires EffectConfigured(job, effect) && EffectFacts(modes, effect)
    requires Parameters.BindParams(job.parameters, supplied) == Ok(params)
    requires QueryText(env, job, params) == Ok(query)
    requires JobRun(env, job, modes, supplied, effect).outcome.Ok?
    ensures var calls := JobRun(env, job, modes, supplied, effect).calls;
            var rows := env.sql(query);
            var o := Outcomes(effect, params, rows);
            forall t, u :: PatchRecords(t, u) in calls <==>
              && !modes.dryRun && u != [] && u == KeptUpdates(rows, o, |rows|)
              && job.update.Some? && t == job.update.value.table
    ensures var calls := JobRun(env, job, modes, supplied, effect).calls;
            forall i :: 0 <= i < |calls| && calls[i].PatchRecords? ==> i == |calls| - 1
  {
    SuccessParts(env, job, modes, supplied, effect, params, query);
    var rows := env.sql(query);
    var r := RowsUpTo(rows, Outcomes(effect, params, rows), |rows|);
    FlushUpdates(r.result.value, job.update, modes.dryRun);
    WritesAtEnd(RunQuery(query), r.calls, FlushCalls(r.result.value, job.update, modes.dryRun));
  }

  // ---------------------------------------------------------------------------------------------
  // The run of a job with its own rows

  /** With parameters declared, a different number of supplied values ends the run before any call. */
  lemma ParameterMismatch(env: Env, job: Job, modes: Modes, supplied: seq<string>)
    requires job.parameters.Some? && |job.parameters.value| != |supplied|
    ensures JobSpec(env, job, modes, supplied) == Run([], Err(ParameterCount(|job.parameters.value|, |supplied|)))
  {
  }

  /**
   * A run makes a call exactly when its parameters bind and its query renders. Its first call is
   * the query, rendered against the parameters when parameters are declared and as written
   * otherwise, and no later call is a query.
   */
  lemma QueryFirst(env: Env, job: Job, modes: Modes, supplied: seq<string>)
    ensures var run := JobSpec(env, job, modes, supplied);
            var bound := Parameters.BindParams(job.parameters, supplied);
            run.calls != [] <==> bound.Ok? && QueryText(env, job, bound.value).Ok?
    ensures var run := JobSpec(env, job, modes, supplied);
            var bound := Parameters.BindParams(job.parameters, supplied);
            run.calls != [] && job.parameters.Some? ==>
              env.render(job.query, bound.value).Some? && run.calls[0] == RunQuery(env.render(job.query, bound.value).value)
    ensures var run := JobSpec(env, job, modes, supplied);
            run.calls != [] && job.parameters.None? ==> run.calls[0] == RunQuery(job.query)
    ensures var run := JobSpec(env, job, modes, supplied);
            forall i :: 0 < i < |run.calls| ==> !run.calls[i].RunQuery?
  {
    EffectsConfigured(env, job, modes);
    EffectsFacts(env, job, modes);
    QueryFirstFor(env, job, modes, supplied, Effects(env, job, modes));
  }

  /** A dry run makes no call but its query: no mail and no write-back. */
  lemma DryRunOnlyQueries(env: Env, job: Job, modes: Modes, supplied: seq<string>)
    requires modes.dryRun
    ensures |JobSpec(env, job, modes, supplied).calls| <= 1
  {
    EffectsConfigured(env, job, modes);
    EffectsFacts(env, job, modes);
    DryRunOnlyQueriesFor(env, job, modes, supplied, Effects(env, job, modes));
  }

  /** Under `--no-email` no message is handed to the transport. */
  lemma NoEmailSendsNothing(env: Env, job: Job, modes: Modes, supplied: seq<string>)
    requires modes.noEmail
    ensures var calls := JobSpec(env, job, modes, supplied).calls;
            forall i :: 0 <= i < |calls| ==> !calls[i].SendMail?
  {
    EffectsConfigured(env, job, modes);
    EffectsFacts(env, job, modes);
    NoEmailSendsNothingFor(env, job, modes, supplied, Effects(env, job, modes));
  }

  /** A run that ends in an error writes nothing back, not even for rows that succeeded before it. */
  lemma AbortWritesNothing(env: Env, job: Job, modes: Modes, supplied: seq<string>)
    ensures var run := JobSpec(env, job, modes, supplied);
            run.outcome.Err? ==> forall i :: 0 <= i < |run.calls| ==> !run.calls[i].AddRecords? && !run.calls[i].PatchRecords?
  {
    EffectsConfigured(env, job, modes);
    EffectsFacts(env, job, modes);
    AbortWritesNothingFor(env, job, modes, supplied, Effects(env, job, modes));
  }

  /** Once the write-back has begun, only write-back follows: the database is written after all mail. */
  lemma WriteBackLast(env: Env, job: Job, modes: Modes, supplied: seq<string>)
    ensures var calls := JobSpec(env, job, modes, supplied).calls;
            forall i, j :: 0 <= i < j < |calls| && (calls[i].AddRecords? || calls[i].PatchRecords?) ==>
              calls[j].AddRecords? || calls[j].PatchRecords?
  {
    EffectsConfigured(env, job, modes);
    EffectsFacts(env, job, modes);
    WriteBackLastFor(env, job, modes, supplied, Effects(env, job, modes));
  }

  /**
   * What a successful run inserts, outside a dry run: for each table one insert batch holding, in
   * row order, the records of every successful row for that table, and no batch for a table that
   * no successful row inserted into. The run reports every row of the query result.
   */
  lemma WriteBackInserts(env: Env, job: Job, modes: Modes, supplied: seq<string>, params: MergeContext.Context, query: string)
    requires Parameters.BindParams(job.parameters, supplied) == Ok(params)
    requires QueryText(env, job, params) == Ok(query)
    requires JobSpec(env, job, modes, supplied).outcome.Ok?
    ensures JobSpec(env, job, modes, supplied).outcome == Ok(|env.sql(query)|)
    ensures var calls := JobSpec(env, job, modes, supplied).calls;
            var rows := env.sql(query);
            var o := Outcomes(Effects(env, job, modes), params, rows);
            forall t, recs :: AddRecords(t, recs) in calls <==>
              !modes.dryRun && recs != [] && recs == KeptRecords(rows, o, |rows|, t)
    ensures var calls := JobSpec(env, job, modes, supplied).calls;
            forall i, j ::
              (0 <= i < |calls| && 0 <= j < |calls| && calls[i].AddRecords? && calls[j].AddRecords? &&
               calls[i].table == calls[j].table) ==> i == j
  {
    EffectsConfigured(env, job, modes);
    EffectsFacts(env, job, modes);
    WriteBackInsertsFor(env, job, modes, supplied, Effects(env, job, modes), params, query);
  }

  /**
   * What a successful run updates, outside a dry run: exactly when some successful row computed
   * update fields, one update batch to the `update` table holding the `(id, fields)` pairs of
   * those rows in row order, as the last call.
   */
  lemma WriteBackUpdates(env: Env, job: Job, modes: Modes, supplied: seq<string>, params: MergeContext.Context, query: string)
    requires Parameters.BindParams(job.parameters, supplied) == Ok(params)
    requires QueryText(env, job, params) == Ok(query)
    requires JobSpec(env, job, modes, supplied).outcome.Ok?
    ensures var calls := JobSpec(env, job, modes, supplied).calls;
            var rows := env.sql(query);
            var o := Outcomes(Effects(env, job, modes), params, rows);
            forall t, u :: PatchRecords(t, u) in calls <==>
              && !modes.dryRun && u != [] && u == KeptUpdates(rows, o, |rows|)
              && job.update.Some? && t == job.update.value.table
    ensures var calls := JobSpec(env, job, modes, supplied).calls;
            forall i :: 0 <= i < |calls| && calls[i].PatchRecords? ==> i == |calls| - 1
  {
    EffectsConfigured(env, job, modes);
    EffectsFacts(env, job, modes);
    WriteBackUpdatesFor(env, job, modes, supplied, Effects(env, job, modes), params, query);
  }
}
