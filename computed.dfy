/**
 * The computed fields of one row: each `update` field and each field of each `insert` entry is a
 * snippet run by `exec_with_return` against its own copy of the row. Insert records are grouped
 * per table in the order their entries appear (`setdefault(table, []).append(record)`).
 */
module Computed {
  import opened Wrappers
  import opened Values
  import opened Evaluator
  import Ordered

  /** A field name and the snippet that computes it, in the job file's order. */
  type FieldRule = (string, Code)

  /** The `update` entry or one `insert` entry: a table and its computed fields. */
  datatype TableRule = TableRule(table: string, fields: seq<FieldRule>)

  /** Where a snippet's value goes; it names the snippet in error messages. */
  datatype Target = InsertInto(table: string) | UpdateRow

  /** The site of the snippet computing `field` for `target`. */
  function SiteOf(target: Target, field: string): Site
  {
    match target
    case InsertInto(t) => InsertSite(t, field)
    case UpdateRow => UpdateSite(field)
  }

  /**
   * How a snippet is run: code, where its value goes, the field it computes and globals, to its
   * value or error. The merge uses `exec_with_return` (`Snippets`); the rules below hold for any
   * runner.
   */
  type Runner = (Code, Target, string, Row) -> Result<Value, Error>

  /** `exec_with_return` as a runner, each failure tagged with the snippet's site. */
  function Snippets(py: Python): Runner
  {
    (code, target, field, globals) => ExecWithReturn(py, code, SiteOf(target, field), globals)
  }

  /** A field's value: its snippet run with a fresh copy of the row as its globals. */
  function FieldValue(run: Runner, target: Target, rule: FieldRule, row: Row): Result<Value, Error>
  {
    run(rule.1, target, rule.0, row)
  }

  /** No later rule assigns the same field as rule `j`. */
  ghost predicate LastOf(fields: seq<FieldRule>, j: int)
    requires 0 <= j < |fields|
  {
    forall j' :: j < j' < |fields| ==> fields[j'].0 != fields[j].0
  }

  /**
   * The record left by evaluating rules `i..` into `acc`, one item assignment per rule; the first
   * failing snippet ends the computation.
   */
  function FieldsFrom(run: Runner, target: Target, fields: seq<FieldRule>, row: Row, acc: Record, i: nat)
    : Result<Record, Error>
    requires i <= |fields|
    decreases |fields| - i
  {
    if i == |fields| then Ok(acc)
    else
      match FieldValue(run, target, fields[i], row)
      case Err(e) => Err(e)
      case Ok(v) => FieldsFrom(run, target, fields, row, acc[fields[i].0 := v], i + 1)
  }

  /** The record of computed fields (`new_record` or `row_updates`). */
  function Fields(run: Runner, target: Target, fields: seq<FieldRule>, row: Row): Result<Record, Error>
  {
    FieldsFrom(run, target, fields, row, map[], 0)
  }

  /** Evaluation from `i` succeeds exactly when every remaining snippet does. */
  lemma {:induction false} FieldsFromSucceeds(run: Runner, target: Target, fields: seq<FieldRule>, row: Row,
                                              acc: Record, i: nat)
    requires i <= |fields|
    ensures FieldsFrom(run, target, fields, row, acc, i).Ok? <==>
            forall j :: i <= j < |fields| ==> FieldValue(run, target, fields[j], row).Ok?
    decreases |fields| - i
  {
    if i < |fields| && FieldValue(run, target, fields[i], row).Ok? {
      FieldsFromSucceeds(run, target, fields, row, acc[fields[i].0 := FieldValue(run, target, fields[i], row).value], i + 1);
    }
  }

  /** A failed evaluation reports the error of the first failing snippet from `i` on. */
  lemma {:induction false} FieldsFromFirstError(run: Runner, target: Target, fields: seq<FieldRule>, row: Row,
                                                acc: Record, i: nat)
    requires i <= |fields|
    requires FieldsFrom(run, target, fields, row, acc, i).Err?
    ensures exists j :: i <= j < |fields| &&
              (forall j' :: i <= j' < j ==> FieldValue(run, target, fields[j'], row).Ok?) &&
              FieldValue(run, target, fields[j], row) == Err(FieldsFrom(run, target, fields, row, acc, i).error)
    decreases |fields| - i
  {
    match FieldValue(run, target, fields[i], row)
    case Err(e) =>
    case Ok(v) =>
      FieldsFromFirstError(run, target, fields, row, acc[fields[i].0 := v], i + 1);
  }

  /** A successful evaluation from `i` adds to `acc` exactly the remaining rules' fields. */
  lemma {:induction false} FieldsFromKeys(run: Runner, target: Target, fields: seq<FieldRule>, row: Row,
                                          acc: Record, i: nat)
    requires i <= |fields|
    requires FieldsFrom(run, target, fields, row, acc, i).Ok?
    ensures FieldsFrom(run, target, fields, row, acc, i).value.Keys ==
              acc.Keys + (set j | i <= j < |fields| :: fields[j].0)
    decreases |fields| - i
  {
    if i < |fields| {
      var v := FieldValue(run, target, fields[i], row).value;
      FieldsFromKeys(run, target, fields, row, acc[fields[i].0 := v], i + 1);
      assert (set j | i <= j < |fields| :: fields[j].0) == {fields[i].0} + (set j | i + 1 <= j < |fields| :: fields[j].0);
    }
  }

  /** A successful evaluation from `i` keeps `acc` where no remaining rule writes. */
  lemma {:induction false} FieldsFromKeeps(run: Runner, target: Target, fields: seq<FieldRule>, row: Row,
                                           acc: Record, i: nat, k: string)
    requires i <= |fields|
    requires FieldsFrom(run, target, fields, row, acc, i).Ok?
    requires k in acc && forall j :: i <= j < |fields| ==> fields[j].0 != k
    ensures k in FieldsFrom(run, target, fields, row, acc, i).value
    ensures FieldsFrom(run, target, fields, row, acc, i).value[k] == acc[k]
    decreases |fields| - i
  {
    if i < |fields| {
      var v := FieldValue(run, target, fields[i], row).value;
      FieldsFromKeeps(run, target, fields, row, acc[fields[i].0 := v], i + 1, k);
    }
  }

  /**
   * A successful evaluation from `i` binds each remaining field to the value of the last rule
   * naming it.
   */
  lemma {:induction false} FieldsFromLast(run: Runner, target: Target, fields: seq<FieldRule>, row: Row,
                                          acc: Record, i: nat, j: nat)
    requires i <= j < |fields| && LastOf(fields, j)
    requires FieldsFrom(run, target, fields, row, acc, i).Ok?
    ensures fields[j].0 in FieldsFrom(run, target, fields, row, acc, i).value
    ensures Ok(FieldsFrom(run, target, fields, row, acc, i).value[fields[j].0]) == FieldValue(run, target, fields[j], row)
    decreases |fields| - i
  {
    var v := FieldValue(run, target, fields[i], row).value;
    var acc' := acc[fields[i].0 := v];
    if i < j {
      FieldsFromLast(run, target, fields, row, acc', i + 1, j);
    } else {
      FieldsFromKeeps(run, target, fields, row, acc', i + 1, fields[j].0);
    }
  }

  /**
   * The computed record: it succeeds exactly when every snippet does, and then holds exactly the
   * configured fields, each bound to its last rule's snippet evaluated against the row itself
   * (never against bindings an earlier snippet changed). A failure names the first failing field.
   */
  lemma FieldsSpec(run: Runner, target: Target, fields: seq<FieldRule>, row: Row)
    ensures Fields(run, target, fields, row).Ok? <==>
            forall j :: 0 <= j < |fields| ==> FieldValue(run, target, fields[j], row).Ok?
    ensures var r := Fields(run, target, fields, row);
            r.Ok? ==> r.value.Keys == (set j | 0 <= j < |fields| :: fields[j].0)
    ensures var r := Fields(run, target, fields, row);
            r.Ok? ==> forall j :: 0 <= j < |fields| && LastOf(fields, j) ==>
                        Ok(r.value[fields[j].0]) == run(fields[j].1, target, fields[j].0, row)
    ensures var r := Fields(run, target, fields, row);
            r.Err? ==> exists j :: 0 <= j < |fields| &&
                         (forall j' :: 0 <= j' < j ==> FieldValue(run, target, fields[j'], row).Ok?) &&
                         FieldValue(run, target, fields[j], row) == Err(r.error)
  {
    FieldsFromSucceeds(run, target, fields, row, map[], 0);
    if Fields(run, target, fields, row).Ok? {
      FieldsFromKeys(run, target, fields, row, map[], 0);
      forall j | 0 <= j < |fields| && LastOf(fields, j)
        ensures Ok(Fields(run, target, fields, row).value[fields[j].0]) == run(fields[j].1, target, fields[j].0, row)
      {
        FieldsFromLast(run, target, fields, row, map[], 0, j);
      }
    } else {
      FieldsFromFirstError(run, target, fields, row, map[], 0);
    }
  }

  /** Evaluates the field rules into a fresh record, one item assignment at a time. */
  method EvalFields(run: Runner, target: Target, fields: seq<FieldRule>, row: Row) returns (r: Result<Record, Error>)
    ensures r == Fields(run, target, fields, row)
  {
    var record: Record := map[];
    var i := 0;
    while i < |fields|
      invariant i <= |fields|
      invariant FieldsFrom(run, target, fields, row, record, i) == Fields(run, target, fields, row)
      decreases |fields| - i
    {
      var field := fields[i].0;
      var globals := row;
      var v := FieldValue(run, target, fields[i], globals);
      if v.Err? {
        return Err(v.error);
      }
      record := record[field := v.value];
      i := i + 1;
    }
    return Ok(record);
  }

  /** The number of the first `n` insert entries that name `table`. */
  function Count(rules: seq<TableRule>, table: string, n: nat): nat
    requires n <= |rules|
  {
    if n == 0 then 0
    else Count(rules, table, n - 1) + (if rules[n - 1].table == table then 1 else 0)
  }

  /** Each insert entry's record, computed from the row on its own, in entry order. */
  function EntryRecords(run: Runner, rules: seq<TableRule>, row: Row): seq<Result<Record, Error>>
  {
    seq(|rules|, j requires 0 <= j < |rules| => Fields(run, InsertInto(rules[j].table), rules[j].fields, row))
  }

  /**
   * `row_table_to_inserts` after the first `n` insert entries, given each entry's record: the
   * first failing entry ends the grouping, and each record is appended under its entry's table.
   */
  function InsertsUpTo(rules: seq<TableRule>, records: seq<Result<Record, Error>>, n: nat)
    : Result<Ordered.ListDict<Record>, Error>
    requires n <= |rules| == |records|
  {
    if n == 0 then Ok(Ordered.Empty())
    else
      match InsertsUpTo(rules, records, n - 1)
      case Err(e) => Err(e)
      case Ok(d) =>
        match records[n - 1]
        case Err(e) => Err(e)
        case Ok(rec) => Ok(d.Extend(rules[n - 1].table, [rec]))
  }

  /** Entry `j`'s record is the one its own fields compute. */
  lemma EntryRecordAt(run: Runner, rules: seq<TableRule>, row: Row, j: nat)
    requires j < |rules|
    ensures |EntryRecords(run, rules, row)| == |rules|
    ensures EntryRecords(run, rules, row)[j] == Fields(run, InsertInto(rules[j].table), rules[j].fields, row)
  {
  }

  /** The row's computed insert records per table; none without an `insert` key. */
  function Inserts(run: Runner, rules: Option<seq<TableRule>>, row: Row): Result<Ordered.ListDict<Record>, Error>
  {
    match rules
    case None => Ok(Ordered.Empty())
    case Some(rs) => InsertsUpTo(rs, EntryRecords(run, rs, row), |rs|)
  }

  /** The row's computed update record; empty without an `update` key. */
  function Updates(run: Runner, rule: Option<TableRule>, row: Row): Result<Record, Error>
  {
    match rule
    case None => Ok(map[])
    case Some(r) => Fields(run, UpdateRow, r.fields, row)
  }

  /** Once an insert entry fails, every longer prefix fails with the same error. */
  lemma {:induction false} InsertsErrorPersists(rules: seq<TableRule>, records: seq<Result<Record, Error>>, n: nat, m: nat)
    requires n <= m <= |rules| == |records|
    requires InsertsUpTo(rules, records, n).Err?
    ensures InsertsUpTo(rules, records, m) == InsertsUpTo(rules, records, n)
    decreases m
  {
    if m > n {
      InsertsErrorPersists(rules, records, n, m - 1);
    }
  }

  /** The first `n` insert entries succeed exactly when each entry's record does. */
  lemma {:induction false} InsertsSucceed(rules: seq<TableRule>, records: seq<Result<Record, Error>>, n: nat)
    requires n <= |rules| == |records|
    ensures InsertsUpTo(rules, records, n).Ok? <==> forall j :: 0 <= j < n ==> records[j].Ok?
    decreases n
  {
    if n > 0 {
      InsertsSucceed(rules, records, n - 1);
      InsertsStep(rules, records, n);
      if !InsertsUpTo(rules, records, n - 1).Ok? {
        var j :| 0 <= j < n - 1 && !records[j].Ok?;
        assert 0 <= j < n;
      }
    }
  }

  /** One more entry succeeds exactly when those before it did and its own record did. */
  lemma InsertsStep(rules: seq<TableRule>, records: seq<Result<Record, Error>>, n: nat)
    requires 0 < n <= |rules| == |records|
    ensures InsertsUpTo(rules, records, n).Ok? <==> InsertsUpTo(rules, records, n - 1).Ok? && records[n - 1].Ok?
  {
  }

  /** Some of the first `n` insert entries names `table` exactly when the count is positive. */
  lemma {:induction false} CountPositive(rules: seq<TableRule>, table: string, n: nat)
    requires n <= |rules|
    ensures Count(rules, table, n) > 0 <==> exists j :: 0 <= j < n && rules[j].table == table
    decreases n
  {
    if n > 0 {
      CountPositive(rules, table, n - 1);
      if Count(rules, table, n - 1) > 0 {
        var j :| 0 <= j < n - 1 && rules[j].table == table;
        assert 0 <= j < n;
      }
    }
  }

  /** After the first `n` entries each table has one record per entry naming it. */
  lemma {:induction false} InsertsCounted(rules: seq<TableRule>, records: seq<Result<Record, Error>>, n: nat, t: string)
    requires n <= |rules| == |records|
    requires InsertsUpTo(rules, records, n).Ok?
    ensures |InsertsUpTo(rules, records, n).value.Get(t)| == Count(rules, t, n)
    decreases n
  {
    if n > 0 {
      assert InsertsUpTo(rules, records, n - 1).Ok? && records[n - 1].Ok?;
      InsertsCounted(rules, records, n - 1, t);
      Ordered.ExtendSpec(InsertsUpTo(rules, records, n - 1).value, rules[n - 1].table, [records[n - 1].value]);
    }
  }

  /** After the first `n` entries a table is listed exactly when the count of entries naming it is positive. */
  lemma {:induction false} InsertsKeyed(rules: seq<TableRule>, records: seq<Result<Record, Error>>, n: nat, t: string)
    requires n <= |rules| == |records|
    requires InsertsUpTo(rules, records, n).Ok?
    requires InsertsUpTo(rules, records, n).value.Listed()
    ensures t in InsertsUpTo(rules, records, n).value.keys <==> Count(rules, t, n) > 0
    decreases n
  {
    if n > 0 {
      assert InsertsUpTo(rules, records, n - 1).Ok? && records[n - 1].Ok?;
      var prev := InsertsUpTo(rules, records, n - 1).value;
      InsertsWellFormed(rules, records, n - 1);
      InsertsKeyed(rules, records, n - 1, t);
      Ordered.ExtendListed(prev, rules[n - 1].table, [records[n - 1].value]);
    }
  }

  /** A table is listed exactly when some of the first `n` entries names it. */
  lemma InsertsListed(rules: seq<TableRule>, records: seq<Result<Record, Error>>, n: nat, t: string)
    requires n <= |rules| == |records|
    requires InsertsUpTo(rules, records, n).Ok?
    ensures t in InsertsUpTo(rules, records, n).value.keys <==> exists j :: 0 <= j < n && rules[j].table == t
  {
    InsertsWellFormed(rules, records, n);
    InsertsKeyed(rules, records, n, t);
    CountPositive(rules, t, n);
  }

  /**
   * The k-th record of a table is the record computed for the k-th insert entry naming that
   * table, in entry order.
   */
  lemma {:induction false} InsertsPlaced(rules: seq<TableRule>, records: seq<Result<Record, Error>>, n: nat, j: nat)
    requires j < n <= |rules| == |records|
    requires InsertsUpTo(rules, records, n).Ok?
    ensures records[j].Ok?
    ensures var d := InsertsUpTo(rules, records, n).value;
            Count(rules, rules[j].table, j) < |d.Get(rules[j].table)| &&
            d.Get(rules[j].table)[Count(rules, rules[j].table, j)] == records[j].value
    decreases n
  {
    var t := rules[j].table;
    InsertsSucceed(rules, records, n);
    InsertsCounted(rules, records, n - 1, t);
    if j < n - 1 {
      InsertsPlaced(rules, records, n - 1, j);
    }
  }

  /** The grouping lists each table once, and every listed table has at least one record. */
  lemma {:induction false} InsertsWellFormed(rules: seq<TableRule>, records: seq<Result<Record, Error>>, n: nat)
    requires n <= |rules| == |records|
    requires InsertsUpTo(rules, records, n).Ok?
    ensures InsertsUpTo(rules, records, n).value.Valid()
    ensures var d := InsertsUpTo(rules, records, n).value;
            forall t :: t in d.keys ==> d.Get(t) != []
    decreases n
  {
    if n > 0 {
      InsertsWellFormed(rules, records, n - 1);
      Ordered.ExtendValid(InsertsUpTo(rules, records, n - 1).value, rules[n - 1].table, [records[n - 1].value]);
    }
  }

  /** An entry naming `table` is counted before any later one. */
  lemma {:induction false} CountBelow(rules: seq<TableRule>, table: string, j: nat, n: nat)
    requires j < n <= |rules| && rules[j].table == table
    ensures Count(rules, table, j) < Count(rules, table, n)
    decreases n
  {
    if n > j + 1 {
      CountBelow(rules, table, j, n - 1);
    }
  }

  /**
   * Builds `row_table_to_inserts` as the merge loop does: evaluate each insert entry's fields into
   * a new record and append it to its table's list.
   */
  method ComputeInserts(run: Runner, rules: Option<seq<TableRule>>, row: Row)
    returns (r: Result<Ordered.ListDict<Record>, Error>)
    ensures r == Inserts(run, rules, row)
  {
    var byTable: Ordered.ListDict<Record> := Ordered.Empty();
    if rules.None? {
      return Ok(byTable);
    }
    var rs := rules.value;
    ghost var records := EntryRecords(run, rs, row);
    assert |records| == |rs|;
    for i := 0 to |rs|
      invariant InsertsUpTo(rs, records, i) == Ok(byTable)
    {
      var rule := rs[i];
      var record := EvalFields(run, InsertInto(rule.table), rule.fields, row);
      assert records[i] == record by { EntryRecordAt(run, rs, row, i); }
      if record.Err? {
        InsertsErrorPersists(rs, records, i + 1, |rs|);
        return Err(record.error);
      }
      byTable := byTable.Extend(rule.table, [record.value]);
    }
    return Ok(byTable);
  }

  /** Builds `row_updates`: the `update` entry's fields, or nothing without one. */
  method ComputeUpdates(run: Runner, rule: Option<TableRule>, row: Row) returns (r: Result<Record, Error>)
    ensures r == Updates(run, rule, row)
  {
    if rule.None? {
      return Ok(map[]);
    }
    r := EvalFields(run, UpdateRow, rule.value.fields, row);
  }
}
