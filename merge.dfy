/**
 * The merge run itself: bind the parameters, run the query, then for each row compute its insert
 * records and update fields, build its context, render and address the message, hand it to the
 * mail transport unless sending is disabled, and keep the row's database changes only when it went
 * out. After the last row the collected inserts and updates are written back unless this is a dry
 * run. Every outbound interaction is recorded as a `Call`, in order.
 */
module Merge {
  import opened Wrappers
  import opened Values
  import Text
  import Addresses
  import Evaluator
  import Parameters
  import MergeContext
  import Computed
  import Ordered

  /** The job file, already loaded against its schema; absent optional keys are `None`. */
  datatype Job = Job(
    parameters: Option<seq<string>>,
    query: string,
    subject: string,
    body: string,
    update: Option<Computed.TableRule>,
    insert: Option<seq<Computed.TableRule>>,
    to: Option<seq<Addresses.Descriptor>>,
    cc: Option<seq<Addresses.Descriptor>>,
    bcc: Option<seq<Addresses.Descriptor>>)

  /** The `--dry-run` and `--no-email` switches. */
  datatype Modes = Modes(dryRun: bool, noEmail: bool)

  /** The message of one row, as handed to the transport. */
  datatype Message = Message(
    subject: string,
    to: seq<Addresses.Address>,
    cc: seq<Addresses.Address>,
    bcc: seq<Addresses.Address>,
    body: string)

  /** What becomes of starting the mail transport: its exit status, or no process at all. */
  datatype SendOutcome = Exited(status: int) | LaunchFailed

  /** The `(row id, updated fields)` pairs of the update batch. */
  type UpdateBatch = seq<(Value, Record)>

  /** An outbound interaction: the query, one message, one insert batch, the update batch. */
  datatype Call =
    | RunQuery(query: string)
    | SendMail(message: Message)
    | AddRecords(table: string, records: seq<Record>)
    | PatchRecords(table: string, updates: UpdateBatch)

  /**
   * The collaborators: Python for snippets, the template engine (whether a template compiles, and
   * its rendering, `None` on any failure such as an undefined name), the query service, and the
   * mail transport, consulted with the number of the row being sent.
   */
  datatype Env = Env(
    py: Evaluator.Python,
    compiles: string -> bool,
    render: (string, MergeContext.Context) -> Option<string>,
    sql: string -> seq<Row>,
    sendmail: (nat, Message) -> SendOutcome)

  /** Renders a template, failing with the template's source. */
  function Render(env: Env, template: string, ctx: MergeContext.Context): (r: Result<string, Error>)
    ensures r.Err? <==> env.render(template, ctx).None?
    ensures r.Err? ==> r.error == Template(template)
  {
    match env.render(template, ctx)
    case None => Err(Template(template))
    case Some(s) => Ok(s)
  }

  /** `expand`: recipient templates rendered against the row's context. */
  function Expander(env: Env, ctx: MergeContext.Context): Addresses.Expand
  {
    t => env.render(t, ctx)
  }

  /** Everything a row computes before anything is sent. */
  datatype Prepared = Prepared(inserts: Ordered.ListDict<Record>, updates: Record, message: Message)

  /** The message for a row rendered against `ctx`: subject, body and recipient lists. */
  function Compose(env: Env, job: Job, ctx: MergeContext.Context): Result<Message, Error>
  {
    match Render(env, job.subject, ctx)
    case Err(e) => Err(e)
    case Ok(subject) =>
      match Render(env, job.body, ctx)
      case Err(e) => Err(e)
      case Ok(body) =>
        var expand := Expander(env, ctx);
        match Addresses.ConvertEmails(expand, job.to)
        case Err(e) => Err(e)
        case Ok(to) =>
          match Addresses.ConvertEmails(expand, job.cc)
          case Err(e) => Err(e)
          case Ok(cc) =>
            match Addresses.ConvertEmails(expand, job.bcc)
            case Err(e) => Err(e)
            case Ok(bcc) =>
              Ok(Message(Text.CollapseSpaces(Text.IsPySpace, subject), to, cc, bcc, Text.Strip(Text.IsPySpace, body)))
  }

  /** A row's inserts, then its updates, then its context and message; the first failure wins. */
  function Prepare(env: Env, job: Job, params: MergeContext.Context, row: Row): Result<Prepared, Error>
  {
    var run := Computed.Snippets(env.py);
    match Computed.Inserts(run, job.insert, row)
    case Err(e) => Err(e)
    case Ok(ins) =>
      match Computed.Updates(run, job.update, row)
      case Err(e) => Err(e)
      case Ok(ups) =>
        match Compose(env, job, MergeContext.ContextSpec(params, row, ups, ins))
        case Err(e) => Err(e)
        case Ok(msg) => Ok(Prepared(ins, ups, msg))
  }

  /** What handing a row's message on leaves: the calls made, and whether the row succeeded. */
  datatype Delivery = Delivery(calls: seq<Call>, successful: Result<bool, Error>)

  /**
   * Sending is skipped, and the row succeeds, under `--dry-run` or `--no-email`. Otherwise the
   * message goes to the transport and the row succeeds exactly on exit status 0; a transport that
   * cannot be started ends the run.
   */
  function Deliver(env: Env, modes: Modes, index: nat, msg: Message): (d: Delivery)
    ensures modes.dryRun || modes.noEmail ==> d == Delivery([], Ok(true))
    ensures !modes.dryRun && !modes.noEmail && env.sendmail(index, msg).Exited? ==>
              d == Delivery([SendMail(msg)], Ok(env.sendmail(index, msg).status == 0))
    ensures !modes.dryRun && !modes.noEmail && env.sendmail(index, msg).LaunchFailed? ==>
              d == Delivery([], Err(TransportLaunch))
  {
    if !modes.dryRun && !modes.noEmail then
      match env.sendmail(index, msg)
      case Exited(status) => Delivery([SendMail(msg)], Ok(status == 0))
      case LaunchFailed => Delivery([], Err(TransportLaunch))
    else Delivery([], Ok(true))
  }

  /** The job-wide write-back buffers: `updates` and `table_to_inserts`. */
  datatype Buffers = Buffers(updates: UpdateBatch, inserts: Ordered.ListDict<Record>)

  /** The buffers before the first row. */
  function NoBuffers(): Buffers
  {
    Buffers([], Ordered.Empty())
  }

  /** `into` after `setdefault(t, []).extend(ins[t])` for each table `t` of `tables`, in order. */
  function ExtendKeys(into: Ordered.ListDict<Record>, ins: Ordered.ListDict<Record>, tables: seq<string>): Ordered.ListDict<Record>
    decreases |tables|
  {
    if tables == [] then into
    else ExtendKeys(into.Extend(tables[0], ins.Get(tables[0])), ins, tables[1..])
  }

  /** `table_to_inserts.setdefault(t, []).extend(records)` for each of the row's tables. */
  function ExtendAll(into: Ordered.ListDict<Record>, ins: Ordered.ListDict<Record>): Ordered.ListDict<Record>
  {
    ExtendKeys(into, ins, ins.keys)
  }

  /**
   * A successful row's contribution: its `(id, updates)` pair when it has update fields (a row
   * without an `id` column then ends the run), and its records appended per table.
   */
  function Accumulate(b: Buffers, row: Row, ups: Record, ins: Ordered.ListDict<Record>): Result<Buffers, Error>
  {
    if ups != map[] then
      if "id" in row then Ok(Buffers(b.updates + [(row["id"], ups)], ExtendAll(b.inserts, ins)))
      else Err(MissingRowId)
    else Ok(Buffers(b.updates, ExtendAll(b.inserts, ins)))
  }

  /**
   * What one row does on its own: the calls it makes, and then either the error that ends the
   * run or whether its computed changes are kept (`Some`, the row succeeded) or dropped (`None`).
   * None of this depends on earlier rows.
   */
  datatype RowOutcome = RowOutcome(calls: seq<Call>, result: Result<Option<Prepared>, Error>)

  /** The row numbered `index`: prepare it, then hand its message on. */
  function RowEffect(env: Env, job: Job, modes: Modes, params: MergeContext.Context, index: nat, row: Row): RowOutcome
  {
    match Prepare(env, job, params, row)
    case Err(e) => RowOutcome([], Err(e))
    case Ok(p) =>
      var d := Deliver(env, modes, index, p.message);
      match d.successful
      case Err(e) => RowOutcome(d.calls, Err(e))
      case Ok(successful) => RowOutcome(d.calls, Ok(if successful then Some(p) else None))
  }

  /** The buffers after a row: unchanged unless it succeeded, then its changes accumulated. */
  function Keep(b: Buffers, row: Row, result: Result<Option<Prepared>, Error>): Result<Buffers, Error>
  {
    match result
    case Err(e) => Err(e)
    case Ok(None) => Ok(b)
    case Ok(Some(p)) => Accumulate(b, row, p.updates, p.inserts)
  }

  /** What a row does, given the parameters, the row's number and the row. */
  type RowFunction = (MergeContext.Context, nat, Row) -> RowOutcome

  /** The rows of `job` under `modes`: each is prepared and its message handed on. */
  function Effects(env: Env, job: Job, modes: Modes): RowFunction
  {
    (params: MergeContext.Context, index: nat, row: Row) => RowEffect(env, job, modes, params, index, row)
  }

  /** Every row's outcome, by position. */
  function Outcomes(effect: RowFunction, params: MergeContext.Context, rows: seq<Row>): seq<RowOutcome>
  {
    seq(|rows|, i requires 0 <= i < |rows| => effect(params, i, rows[i]))
  }

  /** The calls made and the buffers kept (or the error that ended the run) after some rows. */
  datatype RowRun = RowRun(calls: seq<Call>, result: Result<Buffers, Error>)

  /** The row loop over the first `n` rows with the given outcomes; the first error ends it. */
  function RowsUpTo(rows: seq<Row>, outcomes: seq<RowOutcome>, n: nat): RowRun
    requires n <= |rows| == |outcomes|
  {
    if n == 0 then RowRun([], Ok(NoBuffers()))
    else
      var prev := RowsUpTo(rows, outcomes, n - 1);
      match prev.result
      case Err(_) => prev
      case Ok(b) => RowRun(prev.calls + outcomes[n - 1].calls, Keep(b, rows[n - 1], outcomes[n - 1].result))
  }

  /** One insert batch per buffered table, in the order the tables were first buffered. */
  function InsertCalls(inserts: Ordered.ListDict<Record>, n: nat): (calls: seq<Call>)
    requires n <= |inserts.keys|
    ensures |calls| == n
    ensures forall i :: 0 <= i < n ==> calls[i] == AddRecords(inserts.keys[i], inserts.Get(inserts.keys[i]))
  {
    if n == 0 then []
    else InsertCalls(inserts, n - 1) + [AddRecords(inserts.keys[n - 1], inserts.Get(inserts.keys[n - 1]))]
  }

  /**
   * The write-back: nothing on a dry run; otherwise an insert batch per buffered table, then the
   * update batch to the `update` table when there are updates.
   */
  function FlushCalls(b: Buffers, update: Option<Computed.TableRule>, dryRun: bool): seq<Call>
    requires b.updates != [] ==> update.Some?
  {
    if dryRun then []
    else InsertCalls(b.inserts, |b.inserts.keys|) +
         (if b.updates != [] then [PatchRecords(update.value.table, b.updates)] else [])
  }

  /** The whole run: every call made, in order, and the number of rows or the error that ended it. */
  datatype Run = Run(calls: seq<Call>, outcome: Result<nat, Error>)

  /** The query as issued: rendered against the parameters only when parameters are declared. */
  function QueryText(env: Env, job: Job, params: MergeContext.Context): Result<string, Error>
  {
    if job.parameters.Some? then Render(env, job.query, params) else Ok(job.query)
  }

  /** Buffered updates exist only for rows of a job with an `update` entry. */
  ghost predicate UpdatesConfigured(job: Job, b: Buffers)
  {
    b.updates != [] ==> job.update.Some?
  }

  /** A kept row carries update fields only for a job with an `update` entry. */
  ghost predicate OutcomeConfigured(job: Job, o: RowOutcome)
  {
    o.result.Ok? && o.result.value.Some? && o.result.value.value.updates != map[] ==> job.update.Some?
  }

  /** A row computes update fields only when the job has an `update` entry. */
  lemma RowKeepsUpdatesConfigured(env: Env, job: Job, modes: Modes, params: MergeContext.Context, index: nat, row: Row)
    ensures OutcomeConfigured(job, RowEffect(env, job, modes, params, index, row))
  {
    var o := RowEffect(env, job, modes, params, index, row);
    if o.result.Ok? && o.result.value.Some? {
      KeptRowIsPrepared(env, job, modes, params, index, row);
      PreparedParts(env, job, params, row);
    }
  }

  /** A kept row's changes are exactly what preparing it computed. */
  lemma KeptRowIsPrepared(env: Env, job: Job, modes: Modes, params: MergeContext.Context, index: nat, row: Row)
    requires RowEffect(env, job, modes, params, index, row).result.Ok?
    requires RowEffect(env, job, modes, params, index, row).result.value.Some?
    ensures Prepare(env, job, params, row) == Ok(RowEffect(env, job, modes, params, index, row).result.value.value)
  {
  }

  /**
   * A prepared row holds the row's computed inserts and updates, and the message composed against
   * the context built from them.
   */
  lemma PreparedParts(env: Env, job: Job, params: MergeContext.Context, row: Row)
    requires Prepare(env, job, params, row).Ok?
    ensures var p := Prepare(env, job, params, row).value;
            var run := Computed.Snippets(env.py);
            && Computed.Inserts(run, job.insert, row) == Ok(p.inserts)
            && Computed.Updates(run, job.update, row) == Ok(p.updates)
            && Compose(env, job, MergeContext.ContextSpec(params, row, p.updates, p.inserts)) == Ok(p.message)
  {
  }

  /** No row loop leaves buffered updates for a job without an `update` entry. */
  lemma {:induction false} RowsKeepUpdatesConfigured(job: Job, rows: seq<Row>, outcomes: seq<RowOutcome>, n: nat)
    requires n <= |rows| == |outcomes|
    requires forall i :: 0 <= i < |outcomes| ==> OutcomeConfigured(job, outcomes[i])
    ensures var r := RowsUpTo(rows, outcomes, n);
            r.result.Ok? ==> UpdatesConfigured(job, r.result.value)
    decreases n
  {
    if n > 0 {
      RowsKeepUpdatesConfigured(job, rows, outcomes, n - 1);
      assert OutcomeConfigured(job, outcomes[n - 1]);
    }
  }

  /** Whatever the row, it keeps update fields only for a job with an `update` entry. */
  ghost predicate EffectConfigured(job: Job, effect: RowFunction)
  {
    forall params, index, row :: OutcomeConfigured(job, effect(params, index, row))
  }

  /** A row of `job` computes update fields only when the job has an `update` entry. */
  lemma EffectsConfigured(env: Env, job: Job, modes: Modes)
    ensures EffectConfigured(job, Effects(env, job, modes))
  {
    forall params, index, row ensures OutcomeConfigured(job, Effects(env, job, modes)(params, index, row)) {
      RowKeepsUpdatesConfigured(env, job, modes, params, index, row);
    }
  }

  /**
   * `main` for a given row behaviour: bind parameters, issue the query, check that subject and
   * body compile, run the row loop, then write back.
   */
  function JobRun(env: Env, job: Job, modes: Modes, supplied: seq<string>, effect: RowFunction): Run
    requires EffectConfigured(job, effect)
  {
    match Parameters.BindParams(job.parameters, supplied)
    case Err(e) => Run([], Err(e))
    case Ok(params) =>
      match QueryText(env, job, params)
      case Err(e) => Run([], Err(e))
      case Ok(query) =>
        var rows := env.sql(query);
        var start := [RunQuery(query)];
        if !env.compiles(job.subject) then Run(start, Err(Template(job.subject)))
        else if !env.compiles(job.body) then Run(start, Err(Template(job.body)))
        else
          var outcomes := Outcomes(effect, params, rows);
          var r := RowsUpTo(rows, outcomes, |rows|);
          match r.result
          case Err(e) => Run(start + r.calls, Err(e))
          case Ok(b) =>
            RowsKeepUpdatesConfigured(job, rows, outcomes, |rows|);
            Run(start + r.calls + FlushCalls(b, job.update, modes.dryRun), Ok(|rows|))
  }

  /** `main`: the run of `job` with its own rows. */
  function JobSpec(env: Env, job: Job, modes: Modes, supplied: seq<string>): Run
  {
    EffectsConfigured(env, job, modes);
    JobRun(env, job, modes, supplied, Effects(env, job, modes))
  }

  /** Builds the row's context and message. */
  method ComposeMessage(env: Env, job: Job, params: MergeContext.Context, row: Row, ups: Record,
                        ins: Ordered.ListDict<Record>) returns (r: Result<Message, Error>)
    ensures r == Compose(env, job, MergeContext.ContextSpec(params, row, ups, ins))
  {
    var ctx := MergeContext.BuildContext(params, row, ups, ins);
    var rendered := Render(env, job.subject, ctx);
    if rendered.Err? {
      return Err(rendered.error);
    }
    var subject := Text.CollapseSpaces(Text.IsPySpace, rendered.value);
    rendered := Render(env, job.body, ctx);
    if rendered.Err? {
      return Err(rendered.error);
    }
    var body := Text.Strip(Text.IsPySpace, rendered.value);
    var expand := Expander(env, ctx);
    var to := Addresses.ConvertEmails(expand, job.to);
    if to.Err? {
      return Err(to.error);
    }
    var cc := Addresses.ConvertEmails(expand, job.cc);
    if cc.Err? {
      return Err(cc.error);
    }
    var bcc := Addresses.ConvertEmails(expand, job.bcc);
    if bcc.Err? {
      return Err(bcc.error);
    }
    return Ok(Message(subject, to.value, cc.value, bcc.value, body));
  }

  /** Extends each buffered table's list with the row's records for it, table by table. */
  method ExtendInserts(into: Ordered.ListDict<Record>, ins: Ordered.ListDict<Record>)
    returns (r: Ordered.ListDict<Record>)
    ensures r == ExtendAll(into, ins)
  {
    r := into;
    for i := 0 to |ins.keys|
      invariant ExtendKeys(r, ins, ins.keys[i..]) == ExtendAll(into, ins)
    {
      var table := ins.keys[i];
      assert ins.keys[i..][1..] == ins.keys[i + 1..];
      r := r.Extend(table, ins.Get(table));
    }
    assert ins.keys[|ins.keys|..] == [];
  }

  /** What row `index` does on its own: prepare it and hand its message on. */
  method ProcessRow(env: Env, job: Job, modes: Modes, params: MergeContext.Context, index: nat, row: Row)
    returns (calls: seq<Call>, result: Result<Option<Prepared>, Error>)
    ensures RowOutcome(calls, result) == RowEffect(env, job, modes, params, index, row)
  {
    var run := Computed.Snippets(env.py);
    var ins := Computed.ComputeInserts(run, job.insert, row);
    if ins.Err? {
      return [], Err(ins.error);
    }
    var ups := Computed.ComputeUpdates(run, job.update, row);
    if ups.Err? {
      return [], Err(ups.error);
    }
    var msg := ComposeMessage(env, job, params, row, ups.value, ins.value);
    if msg.Err? {
      return [], Err(msg.error);
    }
    var successful: bool;
    calls := [];
    if !modes.dryRun && !modes.noEmail {
      var outcome := env.sendmail(index, msg.value);
      if outcome.LaunchFailed? {
        return [], Err(TransportLaunch);
      }
      calls := [SendMail(msg.value)];
      successful := outcome.status == 0;
    } else {
      successful := true;
    }
    var prepared := Prepared(ins.value, ups.value, msg.value);
    result := Ok(if successful then Some(prepared) else None);
  }

  /** Adds a successful row's changes to the buffers: its update pair, then its records per table. */
  method KeepRow(b: Buffers, row: Row, outcome: Result<Option<Prepared>, Error>) returns (r: Result<Buffers, Error>)
    ensures r == Keep(b, row, outcome)
  {
    if outcome.Err? {
      return Err(outcome.error);
    }
    if outcome.value.None? {
      return Ok(b);
    }
    var p := outcome.value.value;
    var updates := b.updates;
    if p.updates != map[] {
      if "id" !in row {
        return Err(MissingRowId);
      }
      updates := updates + [(row["id"], p.updates)];
    }
    var inserts := ExtendInserts(b.inserts, p.inserts);
    r := Ok(Buffers(updates, inserts));
  }

  /** Once a row fails, every longer prefix of the rows ends the same way. */
  lemma {:induction false} RowsErrorPersists(rows: seq<Row>, outcomes: seq<RowOutcome>, n: nat, m: nat)
    requires n <= m <= |rows| == |outcomes|
    requires RowsUpTo(rows, outcomes, n).result.Err?
    ensures RowsUpTo(rows, outcomes, m) == RowsUpTo(rows, outcomes, n)
    decreases m
  {
    if m > n {
      RowsErrorPersists(rows, outcomes, n, m - 1);
    }
  }

  /** The write-back, batch by batch. */
  method Flush(b: Buffers, update: Option<Computed.TableRule>, dryRun: bool) returns (calls: seq<Call>)
    requires b.updates != [] ==> update.Some?
    ensures calls == FlushCalls(b, update, dryRun)
  {
    calls := [];
    if dryRun {
      return;
    }
    for i := 0 to |b.inserts.keys|
      invariant calls == InsertCalls(b.inserts, i)
    {
      var table := b.inserts.keys[i];
      calls := calls + [AddRecords(table, b.inserts.Get(table))];
    }
    if b.updates != [] {
      calls := calls + [PatchRecords(update.value.table, b.updates)];
    }
  }

  /** `outcomes` is what each of `rows` does on its own, the row numbered by its position. */
  ghost predicate Effected(env: Env, job: Job, modes: Modes, params: MergeContext.Context, rows: seq<Row>,
                           outcomes: seq<RowOutcome>)
  {
    && |outcomes| == |rows|
    && forall i {:trigger RowEffect(env, job, modes, params, i, rows[i])} :: 0 <= i < |rows| ==>
         outcomes[i] == RowEffect(env, job, modes, params, i, rows[i])
  }

  /**
   * One pass of the row loop: after the rows before `i` left `calls` and `buffers`, row `i` is
   * processed and kept, which is the run of the rows up to and including it.
   */
  method RunRow(env: Env, job: Job, modes: Modes, params: MergeContext.Context, rows: seq<Row>,
                ghost outcomes: seq<RowOutcome>, i: nat, calls: seq<Call>, buffers: Buffers)
    returns (after: seq<Call>, kept: Result<Buffers, Error>)
    requires i < |rows| && Effected(env, job, modes, params, rows, outcomes)
    requires RowsUpTo(rows, outcomes, i) == RowRun(calls, Ok(buffers))
    ensures RowsUpTo(rows, outcomes, i + 1) == RowRun(after, kept)
  {
    var rowCalls, outcome := ProcessRow(env, job, modes, params, i, rows[i]);
    after := calls + rowCalls;
    kept := KeepRow(buffers, rows[i], outcome);
  }

  /**
   * The row loop: each row in turn, stopping at the first row that ends the run. `outcomes` is
   * what each row does on its own.
   */
  method RunRows(env: Env, job: Job, modes: Modes, params: MergeContext.Context, rows: seq<Row>,
                 ghost outcomes: seq<RowOutcome>)
    returns (calls: seq<Call>, result: Result<Buffers, Error>)
    requires Effected(env, job, modes, params, rows, outcomes)
    ensures RowRun(calls, result) == RowsUpTo(rows, outcomes, |rows|)
  {
    var buffers := NoBuffers();
    calls := [];
    for i := 0 to |rows|
      invariant RowsUpTo(rows, outcomes, i) == RowRun(calls, Ok(buffers))
    {
      var kept;
      calls, kept := RunRow(env, job, modes, params, rows, outcomes, i, calls, buffers);
      if kept.Err? {
        RowsErrorPersists(rows, outcomes, i + 1, |rows|);
        return calls, kept;
      }
      buffers := kept.value;
    }
    result := Ok(buffers);
  }

  /** The outcomes of the configured row function are the ones the row loop performs. */
  lemma OutcomesEffected(env: Env, job: Job, modes: Modes, params: MergeContext.Context, rows: seq<Row>)
    ensures Effected(env, job, modes, params, rows, Outcomes(Effects(env, job, modes), params, rows))
  {
  }

  /** The whole run, as `main` performs it. */
  method RunJob(env: Env, job: Job, modes: Modes, supplied: seq<string>) returns (run: Run)
    ensures run == JobSpec(env, job, modes, supplied)
  {
    var bound := Parameters.BindParams(job.parameters, supplied);
    if bound.Err? {
      return Run([], Err(bound.error));
    }
    var params := bound.value;
    var query := QueryText(env, job, params);
    if query.Err? {
      return Run([], Err(query.error));
    }
    var rows := env.sql(query.value);
    var start := [RunQuery(query.value)];
    if !env.compiles(job.subject) {
      return Run(start, Err(Template(job.subject)));
    }
    if !env.compiles(job.body) {
      return Run(start, Err(Template(job.body)));
    }
    ghost var outcomes := Outcomes(Effects(env, job, modes), params, rows);
    assert Effected(env, job, modes, params, rows, outcomes) by {
      OutcomesEffected(env, job, modes, params, rows);
    }
    var calls, result := RunRows(env, job, modes, params, rows, outcomes);
    if result.Err? {
      return Run(start + calls, Err(result.error));
    }
    EffectsConfigured(env, job, modes);
    RowsKeepUpdatesConfigured(job, rows, outcomes, |rows|);
    var written := Flush(result.value, job.update, modes.dryRun);
    return Run(start + calls + written, Ok(|rows|));
  }
}
