/**
 * The per-row template context (`exp_context`): the parameter values, overwritten by the row's
 * fields, then an `updated_<f>` entry per computed update field, then an
 * `inserted_<table>_<n>_<f>` entry per field of the n-th computed record for each table.
 */
module MergeContext {
  import opened Values
  import Ordered

  /** The flat name-to-value mapping templates are rendered against. */
  type Context = map<string, Value>

  /** The decimal digits of `n`, as an f-string writes a non-negative integer. */
  function DecimalString(n: nat): (s: string)
    ensures |s| >= 1 && forall i :: 0 <= i < |s| ==> '0' <= s[i] <= '9'
  {
    var d := ['0' + (n % 10) as char];
    if n < 10 then d else DecimalString(n / 10) + d
  }

  /** The number a string of decimal digits stands for, most significant digit first. */
  function DigitsValue(s: string): int
    decreases |s|
  {
    if |s| == 0 then 0 else 10 * DigitsValue(s[..|s| - 1]) + (s[|s| - 1] as int - '0' as int)
  }

  /** `DecimalString(n)` spells `n`, with no leading zero unless `n` is zero. */
  lemma {:induction false} DecimalValue(n: nat)
    ensures DigitsValue(DecimalString(n)) == n
    ensures DecimalString(n)[0] == '0' ==> n == 0 && DecimalString(n) == "0"
  {
    if n >= 10 {
      DecimalValue(n / 10);
      var s := DecimalString(n);
      var h := DecimalString(n / 10);
      assert s == h + ['0' + (n % 10) as char];
      assert s[..|s| - 1] == h;
      assert s[0] == h[0];
    }
  }

  /** Different numbers have different decimal spellings. */
  lemma DecimalInjective(m: nat, n: nat)
    ensures DecimalString(m) == DecimalString(n) ==> m == n
  {
    DecimalValue(m);
    DecimalValue(n);
  }

  /** The key under which a computed update field appears. */
  function UpdatedKey(f: string): string { "updated_" + f }

  /** The part of an insert key that precedes the field name. */
  function InsertedPrefix(table: string, n: nat): string { "inserted_" + table + "_" + DecimalString(n) + "_" }

  /** The key under which field `f` of the n-th record for `table` appears. */
  function InsertedKey(table: string, n: nat, f: string): string { InsertedPrefix(table, n) + f }

  /** Two keys with the same prefix are equal only when their remainders are. */
  lemma PrefixInjective(p: string, f: string, g: string)
    ensures p + f == p + g ==> f == g
  {
    if p + f == p + g {
      assert f == (p + f)[|p|..];
      assert g == (p + g)[|p|..];
    }
  }

  /** An update key never equals an insert key: they differ in their first letter. */
  lemma UpdatedNotInserted(f: string, table: string, n: nat, g: string)
    ensures UpdatedKey(f) != InsertedKey(table, n, g)
  {
    assert UpdatedKey(f)[0] == 'u';
    assert InsertedKey(table, n, g)[0] == 'i';
  }

  /** `k` starts with `p`. */
  predicate StartsWith(k: string, p: string) {
    |p| <= |k| && k[..|p|] == p
  }

  /** A record's fields under `prefix`: `prefix + f` bound to the value of `f`. */
  function Prefixed(prefix: string, rec: Record): (layer: Context)
    ensures forall f :: f in rec ==> prefix + f in layer && layer[prefix + f] == rec[f]
  {
    forall f, g | f in rec && g in rec && prefix + f == prefix + g ensures f == g {
      PrefixInjective(prefix, f, g);
    }
    map f | f in rec :: prefix + f := rec[f]
  }

  /** A key is in the layer exactly when it is `prefix` followed by a field name. */
  lemma PrefixedKey(prefix: string, rec: Record, k: string)
    ensures k in Prefixed(prefix, rec) ==>
              StartsWith(k, prefix) && k[|prefix|..] in rec && Prefixed(prefix, rec)[k] == rec[k[|prefix|..]]
    ensures StartsWith(k, prefix) && k[|prefix|..] in rec ==> k in Prefixed(prefix, rec)
    ensures StartsWith(k, prefix) ==> k == prefix + k[|prefix|..]
  {
    if k in Prefixed(prefix, rec) {
      var f :| f in rec && k == prefix + f;
      assert k[..|prefix|] == prefix && k[|prefix|..] == f;
    }
    if StartsWith(k, prefix) {
      assert k == k[..|prefix|] + k[|prefix|..];
    }
  }

  /** Record `n` of `table` as a layer of insert keys: its fields under `inserted_<table>_<n>_`. */
  function InsertLayer(table: string): (nat, Record) -> Context
  {
    (n: nat, rec: Record) => Prefixed(InsertedPrefix(table, n), rec)
  }

  /** `ctx` with the layer of each of `recs`, numbered by position, written over it in order. */
  function Layered(ctx: Context, layer: (nat, Record) -> Context, recs: seq<Record>): Context
    decreases |recs|
  {
    if |recs| == 0 then ctx
    else
      var n := |recs| - 1;
      Layered(ctx, layer, recs[..n]) + layer(n, recs[n])
  }

  /** The context after writing the insert keys of the records of one table. */
  function RecordsFold(ctx: Context, table: string, recs: seq<Record>): Context
  {
    Layered(ctx, InsertLayer(table), recs)
  }

  /** The context after writing the insert keys of the given tables, in order. */
  function TablesFold(ctx: Context, tables: seq<string>, ins: Ordered.ListDict<Record>): Context
    decreases |tables|
  {
    if |tables| == 0 then ctx
    else
      var last := tables[|tables| - 1];
      RecordsFold(TablesFold(ctx, tables[..|tables| - 1], ins), last, ins.Get(last))
  }

  /** The context before any insert key is written: params, then row, then update keys. */
  function BaseContext(params: Context, row: Row, updates: Record): Context
  {
    (params + row) + Prefixed("updated_", updates)
  }

  /** `exp_context` for a row, its computed updates and its computed records per table. */
  function ContextSpec(params: Context, row: Row, updates: Record, ins: Ordered.ListDict<Record>): Context
  {
    TablesFold(BaseContext(params, row, updates), ins.keys, ins)
  }

  /** Field `f` of record `n` of `table` is one of the row's computed insert fields. */
  ghost predicate InsertField(ins: Ordered.ListDict<Record>, table: string, n: nat, f: string)
  {
    table in ins.keys && n < |ins.Get(table)| && f in ins.Get(table)[n]
  }

  /** The layer of some record among `recs` holds key `k`. */
  ghost predicate InSomeLayer(layer: (nat, Record) -> Context, recs: seq<Record>, k: string)
  {
    exists n: nat :: n < |recs| && k in layer(n, recs[n])
  }

  /** Some record among `recs`, numbered within `table`, writes key `k`. */
  ghost predicate Writes(table: string, recs: seq<Record>, k: string)
  {
    InSomeLayer(InsertLayer(table), recs, k)
  }

  /** `k` is written by some computed insert field. */
  ghost predicate IsInsertedKey(ins: Ordered.ListDict<Record>, k: string)
  {
    exists table :: table in ins.keys && Writes(table, ins.Get(table), k)
  }

  /** `k` is written by some computed update field. */
  ghost predicate IsUpdatedKey(updates: Record, k: string)
  {
    exists f :: f in updates && k == UpdatedKey(f)
  }

  /** The layers of a non-empty list hold a key when those before the last or the last one does. */
  lemma SomeLayerSnoc(layer: (nat, Record) -> Context, recs: seq<Record>, k: string)
    requires |recs| > 0
    ensures var m := |recs| - 1;
            InSomeLayer(layer, recs, k) <==> InSomeLayer(layer, recs[..m], k) || k in layer(m, recs[m])
  {
    var m := |recs| - 1;
    var front := recs[..m];
    if InSomeLayer(layer, recs, k) {
      var n: nat :| n < |recs| && k in layer(n, recs[n]);
      if n < m {
        assert front[n] == recs[n];
      }
    }
    if InSomeLayer(layer, front, k) {
      var n: nat :| n < |front| && k in layer(n, front[n]);
      assert front[n] == recs[n];
    }
  }

  /** Writing layers adds exactly the keys they hold. */
  lemma {:induction false} LayeredHas(ctx: Context, layer: (nat, Record) -> Context, recs: seq<Record>, k: string)
    ensures k in Layered(ctx, layer, recs) <==> k in ctx || InSomeLayer(layer, recs, k)
    decreases |recs|
  {
    if |recs| > 0 {
      LayeredHas(ctx, layer, recs[..|recs| - 1], k);
      SomeLayerSnoc(layer, recs, k);
    }
  }

  /** Writing layers leaves every key none of them holds alone. */
  lemma {:induction false} LayeredUntouched(ctx: Context, layer: (nat, Record) -> Context, recs: seq<Record>, k: string)
    requires k in ctx && !InSomeLayer(layer, recs, k)
    ensures k in Layered(ctx, layer, recs) && Layered(ctx, layer, recs)[k] == ctx[k]
    decreases |recs|
  {
    if |recs| > 0 {
      SomeLayerSnoc(layer, recs, k);
      LayeredUntouched(ctx, layer, recs[..|recs| - 1], k);
    }
  }

  /** A key only layer `n` holds has that layer's value once the layers are written. */
  lemma {:induction false} LayeredWritten(ctx: Context, layer: (nat, Record) -> Context, recs: seq<Record>, n: nat, k: string)
    requires n < |recs| && k in layer(n, recs[n])
    requires forall n': nat :: n' < |recs| && n' != n ==> k !in layer(n', recs[n'])
    ensures k in Layered(ctx, layer, recs) && Layered(ctx, layer, recs)[k] == layer(n, recs[n])[k]
    decreases |recs|
  {
    var m := |recs| - 1;
    if n < m {
      assert forall n': nat :: n' < m ==> recs[..m][n'] == recs[n'];
      LayeredWritten(ctx, layer, recs[..m], n, k);
    }
  }

  /** Writing one table's records adds exactly the keys they write. */
  lemma RecordsFoldHas(ctx: Context, table: string, recs: seq<Record>, k: string)
    ensures k in RecordsFold(ctx, table, recs) <==> k in ctx || Writes(table, recs, k)
  {
    LayeredHas(ctx, InsertLayer(table), recs, k);
  }

  /** Writing one table's records leaves every key they do not write alone. */
  lemma RecordsFoldUntouched(ctx: Context, table: string, recs: seq<Record>, k: string)
    requires k in ctx && !Writes(table, recs, k)
    ensures k in RecordsFold(ctx, table, recs) && RecordsFold(ctx, table, recs)[k] == ctx[k]
  {
    LayeredUntouched(ctx, InsertLayer(table), recs, k);
  }

  /** A key only record `n` writes holds that record's value once the records are written. */
  lemma RecordsFoldWritten(ctx: Context, table: string, recs: seq<Record>, n: nat, k: string)
    requires n < |recs| && k in Prefixed(InsertedPrefix(table, n), recs[n])
    requires forall n': nat :: n' < |recs| && n' != n ==> k !in Prefixed(InsertedPrefix(table, n'), recs[n'])
    ensures k in RecordsFold(ctx, table, recs)
    ensures RecordsFold(ctx, table, recs)[k] == Prefixed(InsertedPrefix(table, n), recs[n])[k]
  {
    var layer := InsertLayer(table);
    assert forall n': nat :: n' < |recs| && n' != n ==> k !in layer(n', recs[n']);
    LayeredWritten(ctx, layer, recs, n, k);
  }

  /** Some table among `tables` writes key `k`. */
  ghost predicate TablesWrite(tables: seq<string>, ins: Ordered.ListDict<Record>, k: string)
  {
    exists t :: t in tables && Writes(t, ins.Get(t), k)
  }

  /** Writing tables adds exactly the keys they write. */
  lemma {:induction false} TablesFoldHas(ctx: Context, tables: seq<string>, ins: Ordered.ListDict<Record>, k: string)
    ensures k in TablesFold(ctx, tables, ins) <==> k in ctx || TablesWrite(tables, ins, k)
    decreases |tables|
  {
    if |tables| > 0 {
      var m := |tables| - 1;
      TablesFoldHas(ctx, tables[..m], ins, k);
      RecordsFoldHas(TablesFold(ctx, tables[..m], ins), tables[m], ins.Get(tables[m]), k);
      TablesWriteSnoc(tables, ins, k);
    }
  }

  /** A non-empty list of tables writes a key when the tables before the last or the last one does. */
  lemma TablesWriteSnoc(tables: seq<string>, ins: Ordered.ListDict<Record>, k: string)
    requires |tables| > 0
    ensures var m := |tables| - 1;
            TablesWrite(tables, ins, k) <==> TablesWrite(tables[..m], ins, k) || Writes(tables[m], ins.Get(tables[m]), k)
  {
    var m := |tables| - 1;
    assert forall t :: t in tables <==> t in tables[..m] || t == tables[m] by {
      assert tables == tables[..m] + [tables[m]];
    }
  }

  /** Writing tables leaves every key they do not write alone. */
  lemma {:induction false} TablesFoldUntouched(ctx: Context, tables: seq<string>, ins: Ordered.ListDict<Record>, k: string)
    requires k in ctx && !TablesWrite(tables, ins, k)
    ensures k in TablesFold(ctx, tables, ins) && TablesFold(ctx, tables, ins)[k] == ctx[k]
    decreases |tables|
  {
    if |tables| > 0 {
      var m := |tables| - 1;
      assert tables == tables[..m] + [tables[m]];
      TablesFoldUntouched(ctx, tables[..m], ins, k);
      RecordsFoldUntouched(TablesFold(ctx, tables[..m], ins), tables[m], ins.Get(tables[m]), k);
    }
  }

  /** A key only record `n` of `table` writes holds that record's value once the tables are written. */
  lemma {:induction false} TablesFoldWritten(ctx: Context, tables: seq<string>, ins: Ordered.ListDict<Record>,
                                             table: string, n: nat, k: string)
    requires table in tables && n < |ins.Get(table)|
    requires k in Prefixed(InsertedPrefix(table, n), ins.Get(table)[n])
    requires forall n': nat :: n' < |ins.Get(table)| && n' != n ==>
               k !in Prefixed(InsertedPrefix(table, n'), ins.Get(table)[n'])
    requires forall t :: t in tables && t != table ==> !Writes(t, ins.Get(t), k)
    ensures k in TablesFold(ctx, tables, ins)
    ensures TablesFold(ctx, tables, ins)[k] == Prefixed(InsertedPrefix(table, n), ins.Get(table)[n])[k]
    decreases |tables|
  {
    var m := |tables| - 1;
    var last := tables[m];
    var prev := TablesFold(ctx, tables[..m], ins);
    assert tables == tables[..m] + [last];
    if last == table {
      RecordsFoldWritten(prev, last, ins.Get(last), n, k);
    } else {
      TablesFoldWritten(ctx, tables[..m], ins, table, n, k);
      RecordsFoldUntouched(prev, last, ins.Get(last), k);
    }
  }

  /**
   * The context holds exactly the parameters, the row's fields, an update key per computed update
   * field and the keys the computed insert fields write.
   */
  lemma ContextKeys(params: Context, row: Row, updates: Record, ins: Ordered.ListDict<Record>, k: string)
    ensures k in ContextSpec(params, row, updates, ins) <==>
            k in params || k in row || IsUpdatedKey(updates, k) || IsInsertedKey(ins, k)
  {
    TablesFoldHas(BaseContext(params, row, updates), ins.keys, ins, k);
    PrefixedKey("updated_", updates, k);
  }

  /** Every computed insert field writes its key. */
  lemma InsertFieldWrites(ins: Ordered.ListDict<Record>, table: string, n: nat, f: string)
    requires InsertField(ins, table, n, f)
    ensures IsInsertedKey(ins, InsertedKey(table, n, f))
  {
    assert Writes(table, ins.Get(table), InsertedKey(table, n, f));
  }

  /**
   * A row field keeps the row's value and wins over a parameter of the same name; a parameter
   * that no row field shadows keeps its value. Only a generated key of the same spelling can
   * replace either.
   */
  lemma RowFieldsOverParams(params: Context, row: Row, updates: Record, ins: Ordered.ListDict<Record>, k: string)
    requires k in params || k in row
    requires !IsUpdatedKey(updates, k) && !IsInsertedKey(ins, k)
    ensures k in ContextSpec(params, row, updates, ins)
    ensures ContextSpec(params, row, updates, ins)[k] == if k in row then row[k] else params[k]
  {
    PrefixedKey("updated_", updates, k);
    TablesFoldUntouched(BaseContext(params, row, updates), ins.keys, ins, k);
  }

  /** Every computed update field `f` appears as `updated_f` with its computed value. */
  lemma UpdatedEntry(params: Context, row: Row, updates: Record, ins: Ordered.ListDict<Record>, f: string)
    requires f in updates
    ensures UpdatedKey(f) in ContextSpec(params, row, updates, ins)
    ensures ContextSpec(params, row, updates, ins)[UpdatedKey(f)] == updates[f]
  {
    var k := UpdatedKey(f);
    forall t, n: nat | n < |ins.Get(t)| ensures k !in Prefixed(InsertedPrefix(t, n), ins.Get(t)[n]) {
      PrefixedKey(InsertedPrefix(t, n), ins.Get(t)[n], k);
      assert k[0] == 'u' && InsertedPrefix(t, n)[0] == 'i';
    }
    TablesFoldUntouched(BaseContext(params, row, updates), ins.keys, ins, k);
  }

  /**
   * Field `f` of the n-th record computed for `table` (n counted within that table) appears as
   * `inserted_<table>_<n>_<f>` with its computed value, provided no record of another table
   * writes the same key (the other records of the same table never do).
   */
  lemma InsertedEntry(params: Context, row: Row, updates: Record, ins: Ordered.ListDict<Record>,
                      table: string, n: nat, f: string)
    requires InsertField(ins, table, n, f)
    requires forall t, n': nat :: t in ins.keys && t != table && n' < |ins.Get(t)| ==>
               InsertedKey(table, n, f) !in Prefixed(InsertedPrefix(t, n'), ins.Get(t)[n'])
    ensures InsertedKey(table, n, f) in ContextSpec(params, row, updates, ins)
    ensures ContextSpec(params, row, updates, ins)[InsertedKey(table, n, f)] == ins.Get(table)[n][f]
  {
    var k := InsertedKey(table, n, f);
    var recs := ins.Get(table);
    forall m: nat | m < |recs| && m != n ensures k !in Prefixed(InsertedPrefix(table, m), recs[m]) {
      OtherRecordMisses(table, n, m, f, recs[m]);
    }
    TablesFoldWritten(BaseContext(params, row, updates), ins.keys, ins, table, n, k);
  }

  /**
   * Within one table an insert key names its record and field: the digits hold no `_`, so the
   * first `_` after `inserted_<table>_` ends the record number.
   */
  lemma InsertedKeyInjective(table: string, n: nat, m: nat, f: string, g: string)
    ensures InsertedKey(table, n, f) == InsertedKey(table, m, g) ==> n == m && f == g
  {
    if InsertedKey(table, n, f) == InsertedKey(table, m, g) {
      var p := "inserted_" + table + "_";
      var a := DecimalString(n);
      var b := DecimalString(m);
      var x := a + "_" + f;
      var y := b + "_" + g;
      assert InsertedKey(table, n, f) == p + x;
      assert InsertedKey(table, m, g) == p + y;
      PrefixInjective(p, x, y);
      assert x[|a|] == '_' && y[|b|] == '_';
      assert a == x[..|a|] && b == y[..|b|];
      DecimalInjective(n, m);
      PrefixInjective(a + "_", f, g);
    }
  }

  /** Two records of the same table never write the same key. */
  lemma OtherRecordMisses(table: string, n: nat, m: nat, f: string, rec: Record)
    requires m != n
    ensures InsertedKey(table, n, f) !in Prefixed(InsertedPrefix(table, m), rec)
  {
    var k := InsertedKey(table, n, f);
    var p := InsertedPrefix(table, m);
    PrefixedKey(p, rec, k);
    if k in Prefixed(p, rec) {
      InsertedKeyInjective(table, n, m, f, k[|p|..]);
    }
  }

  /**
   * Insert keys are not unambiguous: field `a_1_x` of record 0 of table `t` and field `x` of
   * record 1 of table `t_0_a` are both written under `inserted_t_0_a_1_x`, and the later write wins.
   */
  lemma InsertedKeysCanCollide()
    ensures InsertedKey("t", 0, "a_1_x") == InsertedKey("t_0_a", 1, "x") == "inserted_t_0_a_1_x"
  {
    assert DecimalString(0) == "0";
    assert DecimalString(1) == "1";
  }

  /** Adding field `f` to a record adds its prefixed key to the layer. */
  lemma PrefixedInsert(prefix: string, rec: Record, f: string, v: Value)
    ensures Prefixed(prefix, rec[f := v]) == Prefixed(prefix, rec)[prefix + f := v]
  {
    var a := Prefixed(prefix, rec[f := v]);
    var b := Prefixed(prefix, rec)[prefix + f := v];
    forall k ensures (k in a <==> k in b) && (k in a ==> a[k] == b[k]) {
      PrefixedKey(prefix, rec[f := v], k);
      PrefixedKey(prefix, rec, k);
      if k == prefix + f {
        assert k[..|prefix|] == prefix && k[|prefix|..] == f;
      }
    }
  }

  /** Writes every field of `rec` under `prefix`, one item assignment at a time. */
  method WritePrefixed(ctx: Context, prefix: string, rec: Record) returns (r: Context)
    ensures r == ctx + Prefixed(prefix, rec)
  {
    r := ctx;
    var pending := rec.Keys;
    ghost var done: Record := map[];
    while pending != {}
      invariant pending <= rec.Keys
      invariant done == rec - pending
      invariant r == ctx + Prefixed(prefix, done)
      decreases pending
    {
      var f :| f in pending;
      WriteStep(ctx, prefix, rec, pending, done, f);
      pending := pending - {f};
      done := done[f := rec[f]];
      r := r[prefix + f := rec[f]];
    }
    assert done == rec;
  }

  /** One item assignment of `WritePrefixed` keeps its invariant. */
  lemma WriteStep(ctx: Context, prefix: string, rec: Record, pending: set<string>, done: Record, f: string)
    requires f in pending && pending <= rec.Keys && done == rec - pending
    ensures done[f := rec[f]] == rec - (pending - {f})
    ensures (ctx + Prefixed(prefix, done))[prefix + f := rec[f]] == ctx + Prefixed(prefix, done[f := rec[f]])
  {
    PrefixedInsert(prefix, done, f, rec[f]);
    UnionUpdate(ctx, Prefixed(prefix, done), prefix + f, rec[f]);
  }

  /** Assigning a key after a union is assigning it in the right operand. */
  lemma UnionUpdate(a: Context, b: Context, k: string, v: Value)
    ensures (a + b)[k := v] == a + b[k := v]
  {
  }

  /**
   * Builds `exp_context` as the merge loop does: copy the parameters, update with the row, assign
   * each update key, then each insert key table by table and record by record.
   */
  method BuildContext(params: Context, row: Row, updates: Record, ins: Ordered.ListDict<Record>) returns (ctx: Context)
    ensures ctx == ContextSpec(params, row, updates, ins)
  {
    ctx := params + row;
    ctx := WritePrefixed(ctx, "updated_", updates);
    ghost var base := ctx;
    for i := 0 to |ins.keys|
      invariant ctx == TablesFold(base, ins.keys[..i], ins)
    {
      var table := ins.keys[i];
      ctx := WriteRecords(ctx, table, ins.Get(table));
      TakeSnoc(ins.keys, i);
    }
    TakeAll(ins.keys);
  }

  /** The first `i + 1` elements, without their last, are the first `i`. */
  lemma TakeSnoc<T>(s: seq<T>, i: nat)
    requires i < |s|
    ensures s[..i + 1][..i] == s[..i] && s[..i + 1][i] == s[i]
  {
  }

  /** Taking every element leaves the sequence as it is. */
  lemma TakeAll<T>(s: seq<T>)
    ensures s[..|s|] == s
  {
  }

  /** The inner loop of `BuildContext`: each record of one table in turn, each field by item assignment. */
  method WriteRecords(ctx: Context, table: string, recs: seq<Record>) returns (r: Context)
    ensures r == RecordsFold(ctx, table, recs)
  {
    r := ctx;
    for n := 0 to |recs|
      invariant r == Layered(ctx, InsertLayer(table), recs[..n])
    {
      TakeSnoc(recs, n);
      r := WritePrefixed(r, InsertedPrefix(table, n), recs[n]);
    }
    TakeAll(recs);
  }
}
