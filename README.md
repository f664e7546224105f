# grist-mailmerge: the per-row merge core, in Dafny

`grist-mailmerge` sends one email message per row of a Grist SQL query. The job is a YAML file.
It declares parameters, a query, subject and body templates, and recipient lists (`to`, `cc`,
`bcc`). It may also declare Python snippets that compute update fields for the row and insert
records for other tables. For each row the tool:

- runs the snippets;
- builds the template context;
- renders and addresses the message and hands it to `sendmail`, unless `--dry-run` or
  `--no-email` is given;
- keeps the row's database changes only when the message went out (or sending was off).

After the last row, the kept inserts and updates are written back in batches, unless this is a
dry run.

This project models that core of `grist_mailmerge/cli.py` and proves what it guarantees.

| file | module | what it holds |
|---|---|---|
| `wrappers.dfy` | `Wrappers` | `Option` and `Result` |
| `values.dfy` | `Values` | row values, computed records, snippet sites, the conditions that stop a run |
| `text.dfy` | `Text` | `str.split(";")`, `str.strip()` and `re.sub(r"\s+", " ", ...)`, over a whitespace predicate; `IsPySpace` is Python's whitespace |
| `ordered.dfy` | `Ordered` | an insertion-ordered `dict[str, list]` updated only by `setdefault(k, []).extend(...)` |
| `addresses.dfy` | `Addresses` | `convert_email` and `convert_emails` |
| `evaluator.dfy` | `Evaluator` | the last-statement rule of `exec_with_return` |
| `parameters.dfy` | `Parameters` | the parameter count check and the name/value zip |
| `computed.dfy` | `Computed` | a row's update fields and its insert records grouped per table |
| `context.dfy` | `MergeContext` | the layered template context with its `updated_` and `inserted_` keys |
| `merge.dfy` | `Merge` | one row, the row loop with its two write-back buffers, the flush, and the whole run as a trace of outbound calls |
| `guarantees.dfy` | `Guarantees` | what a run promises: which rows keep changes, what the batches hold, which calls each mode allows |

The collaborators are parameters (`Merge.Env`):

- Python's parser, `exec` and `eval`;
- the template engine: whether a template compiles, and a partial `render` that fails where
  Jinja's `StrictUndefined` raises;
- the query service;
- the mail transport: the exit status of `sendmail` for the n-th row, or a launch failure.

A run is modelled as two things:

- the ordered sequence of its outbound calls (`RunQuery`, `SendMail`, `AddRecords`,
  `PatchRecords`);
- its outcome: the number of rows, or the error that ended it.

The imperative parts of `main` are methods proved equal to these functions: `Merge.RunJob`,
`Merge.RunRows`, `Merge.RunRow`, `Merge.ProcessRow`, `Merge.KeepRow`, `Merge.ExtendInserts`,
`Merge.Flush`, `Merge.ComposeMessage`, `MergeContext.BuildContext`, `Computed.ComputeInserts`
and `Computed.EvalFields`. That covers the row loop, item assignment into `row_updates` and
`exp_context`, `setdefault(...).append` and `.extend`, and the batch loop.

A few behaviours of the code are easy to misread. The model keeps each of them as the code has it:

- A snippet whose last statement yields no value stores Python's `None` under its field, so the
  key is present in the computed record (`Evaluator.NoTrailingValue`, `Computed.FieldsSpec`).
- `if row_updates:` tests whether the dict is non-empty. A row whose update fields are all
  `None` or empty still adds an update pair (`Guarantees.AccumulateSpec`).
- Any exception stops the run before the write-back, so rows already processed send no insert
  or update batch at all (`Guarantees.AbortWritesNothing`).
- A `sendmail` process that cannot be started raises, and the run ends there rather than
  moving on to the next row (`Guarantees.RowEnds`).
- `updated_<f>` and `inserted_<t>_<n>_<f>` keys are assigned after the row's fields, so they
  overwrite a row field of the same spelling (`MergeContext.RowFieldsOverParams` holds only for
  keys no generated key spells).
- Insert keys from different tables can coincide, and the later write wins
  (`MergeContext.InsertedKeysCanCollide`); within one table they cannot
  (`MergeContext.InsertedKeyInjective`).
- Names in a semicolon-separated list are split but not stripped; only the emails are
  stripped (`Addresses.SemicolonWithName`).

## Model

| member | source | states |
|---|---|---|
| Text.Split | grist_mailmerge/cli.py:55-56 | `str.split` on one character always yields at least one piece |
| Text.SplitPieces | grist_mailmerge/cli.py:55-56 | there is one piece more than there are separators, and no piece holds the separator |
| Text.JoinSplit | grist_mailmerge/cli.py:55-56 | joining the pieces with the separator gives back the text, so splitting loses nothing |
| Text.SplitJoin | grist_mailmerge/cli.py:55-56 | splitting separator-free pieces joined by the separator gives back the pieces |
| Text.SplitFree | grist_mailmerge/cli.py:60 | a text without the separator splits into itself alone |
| Text.SplitPrefix | grist_mailmerge/cli.py:60 | a separator-free head followed by the separator is a piece of its own, in front of the rest's pieces |
| Text.JoinSplitHead | grist_mailmerge/cli.py:55-56 | a character added to the front of the first piece is added to the front of the joined text |
| Text.LeadingSpaces | grist_mailmerge/cli.py:251 | counts exactly the whitespace that opens the text: all counted characters are whitespace and the next is not |
| Text.TrailingSpaces | grist_mailmerge/cli.py:251 | counts exactly the whitespace that closes the text |
| Text.Strip | grist_mailmerge/cli.py:251 | `strip()` yields the infix that starts after the leading whitespace, begins and ends with non-whitespace, and leaves only whitespace after it |
| Text.StripFixedPoint | grist_mailmerge/cli.py:251 | a text is its own strip exactly when it is empty or starts and ends with non-whitespace |
| Text.StripIdempotent | grist_mailmerge/cli.py:251 | stripping a stripped body changes nothing |
| Text.StripKeepsText | grist_mailmerge/cli.py:251 | stripping removes whitespace only: the non-whitespace characters are unchanged, in order |
| Text.NonSpacePrefix | grist_mailmerge/cli.py:251 | dropping a whitespace-only prefix keeps the non-whitespace text |
| Text.NonSpaceSuffix | grist_mailmerge/cli.py:251 | dropping a whitespace-only suffix keeps the non-whitespace text |
| Text.NonSpaceAll | grist_mailmerge/cli.py:251 | an all-whitespace text has no non-whitespace text |
| Text.CollapseSpaces | grist_mailmerge/cli.py:249-250 | after `re.sub(r"\s+", " ", ...)` the only whitespace is single spaces, never two adjacent; the text is no longer, empty only when the input is, and starts and ends with whitespace exactly when the input does (neither end is stripped) |
| Text.CollapseRun | grist_mailmerge/cli.py:249-250 | a maximal whitespace run becomes exactly one space, and the text on either side of it is collapsed on its own |
| Text.CollapseConcat | grist_mailmerge/cli.py:249-250 | text ending in non-whitespace collapses independently of what follows it |
| Text.CollapseKeepsText | grist_mailmerge/cli.py:249-250 | collapsing changes whitespace only: the non-whitespace characters are unchanged, in order |
| Text.CollapseFixedPoint | grist_mailmerge/cli.py:249-250 | a subject is unchanged by collapsing exactly when its only whitespace is non-adjacent single spaces |
| Text.CollapseKeepsSingle | grist_mailmerge/cli.py:249-250 | a text whose only whitespace is non-adjacent single spaces is left as it is |
| Text.CollapseIdempotent | grist_mailmerge/cli.py:249-250 | collapsing a collapsed subject changes nothing |
| Ordered.ExtendSpec | grist_mailmerge/cli.py:223 | `setdefault(k, []).extend(vs)` grows the list under `k` by exactly `vs` and leaves every other list unchanged |
| Ordered.ExtendValid | grist_mailmerge/cli.py:292 | a new key goes to the end of the key order, an existing key keeps its place, and keys stay distinct and exactly the stored ones |
| Ordered.ExtendListed | grist_mailmerge/cli.py:292 | after extending, the listed keys are the previous ones plus `k`, and exactly they are stored |
| Ordered.Empty | grist_mailmerge/cli.py:204 | `{}` is well formed, lists nothing and holds an empty list under every key |
| Addresses.Nameless | grist_mailmerge/cli.py:58 | filtering out empty emails never yields more addresses than emails |
| Addresses.NamelessMembers | grist_mailmerge/cli.py:58 | every address is nameless and carries a non-empty email of the list, and every non-empty email yields one |
| Addresses.NamelessConcat | grist_mailmerge/cli.py:58 | filtering distributes over concatenation, so the order of the emails is kept |
| Addresses.NamelessNoEmpty | grist_mailmerge/cli.py:58 | with no empty email the i-th email yields the i-th address |
| Addresses.NamelessTwo | grist_mailmerge/cli.py:58 | two non-empty emails yield two nameless addresses, in order |
| Addresses.Paired | grist_mailmerge/cli.py:61-63 | the pairing never yields more addresses than emails |
| Addresses.PairedMembers | grist_mailmerge/cli.py:61-63 | every address pairs the name and the non-empty email at one position, and every position with a non-empty email yields one |
| Addresses.PairedNoEmpty | grist_mailmerge/cli.py:61-63 | with no empty email the i-th address pairs the i-th name with the i-th email |
| Addresses.PairedConcat | grist_mailmerge/cli.py:61-63 | pairing distributes over concatenation, so the kept pairs come in zip order, each once, whatever emails are empty |
| Addresses.PairedOne | grist_mailmerge/cli.py:61-63 | one position yields its named address exactly when its email is non-empty |
| Addresses.StripAddsNothing | grist_mailmerge/cli.py:55-56 | stripping an email segment adds no character, so a segment without `;` stays without it |
| Addresses.SegmentsClean | grist_mailmerge/cli.py:55-56 | stripped separator-free segments are separator-free and already stripped |
| Addresses.SemicolonWithoutName | grist_mailmerge/cli.py:54-58 | split on `;`, each segment stripped, empty segments dropped, one nameless address per remaining segment in order; every address is non-empty, holds no `;` and has no surrounding whitespace |
| Addresses.SemicolonNamelessIs | grist_mailmerge/cli.py:54-58 | a nameless semicolon-separated descriptor yields the filtered, stripped segments of its expanded email |
| Addresses.SemicolonWithName | grist_mailmerge/cli.py:59-63 | the conversion fails exactly when the expanded name and email hold different numbers of `;`, with both counts; otherwise the unstripped names pair positionally with the stripped emails and pairs with an empty email are dropped, the rest kept in zip order (`Addresses.PairedConcat`) |
| Addresses.SingleAddress | grist_mailmerge/cli.py:65-75 | an empty expanded email yields no address and the name is then never expanded; otherwise exactly one address with the unstripped email, carrying a name exactly when a `name` key is present (an empty expanded name included) |
| Addresses.EmailExpandedFirst | grist_mailmerge/cli.py:56 | the email template is expanded first, and when that raises the descriptor fails with that template |
| Addresses.ConvertEmails | grist_mailmerge/cli.py:82-83 | an absent recipient list yields no address |
| Addresses.ConvertAllConcat | grist_mailmerge/cli.py:84-87 | converting a concatenated list is converting both parts: order is kept and the first error wins |
| Addresses.ConvertAllOk | grist_mailmerge/cli.py:84-87 | a list converts exactly when every descriptor does, and then yields the first descriptor's addresses followed by the rest's |
| Addresses.ExampleNamedAddress | grist_mailmerge/cli.py:73-75 | `{name: "A", email: "a@x.com"}` yields exactly `A <a@x.com>` |
| Addresses.SplitTwo | grist_mailmerge/cli.py:56 | two `;`-free texts joined by `;` split back into the two |
| Addresses.StripTwo | grist_mailmerge/cli.py:55 | two texts without surrounding whitespace are left as they are by stripping |
| Addresses.CleanSegments | grist_mailmerge/cli.py:55-58 | two clean emails joined by `;` survive splitting, stripping and filtering as two nameless addresses |
| Addresses.TwoSemicolonEmails | grist_mailmerge/cli.py:54-58 | a nameless descriptor whose email is two clean emails joined by `;` yields those two addresses, in order |
| Addresses.ExampleSemicolonList | grist_mailmerge/cli.py:54-58 | `a@x.com;b@x.com` with `semicolon_separated` yields two nameless addresses, in order |
| Addresses.TwoNamesOneEmail | grist_mailmerge/cli.py:59-63 | two names for one email fail with a count error (2 names, 1 email) rather than dropping a name |
| Addresses.ExampleCountMismatch | grist_mailmerge/cli.py:59-63 | `name: "A;B"` with one email fails with a count error |
| Evaluator.PlanOf | grist_mailmerge/cli.py:95-103 | an empty body runs nothing and yields nothing; otherwise the evaluated expression is what the last statement denotes; a last expression statement is popped and runs only as the evaluated expression; any other last statement stays in the executed body |
| Evaluator.PlanPartitionsBody | grist_mailmerge/cli.py:97-99 | the executed statements, followed by the popped expression statement when there is one, are exactly the parsed body: nothing is lost or run twice |
| Evaluator.ExecWithReturn | grist_mailmerge/cli.py:91-107 | every failure (parse, execution, evaluation) is tagged with the snippet's own table/field site |
| Evaluator.TrailingExpression | grist_mailmerge/cli.py:98-99 | a snippet ending in `e`: the statements before `e` run once, then `e` is evaluated in the bindings they leave |
| Evaluator.TrailingAssignment | grist_mailmerge/cli.py:100-103 | a snippet ending in an assignment: the whole body runs, then the first target (or the annotated or augmented target) is evaluated in the bindings it leaves |
| Evaluator.NoTrailingValue | grist_mailmerge/cli.py:104-107 | an empty snippet, or one ending in any other statement, runs for its effects and yields `None` when they succeed |
| Parameters.ZipKeys | grist_mailmerge/cli.py:188-191 | the comprehension binds exactly the declared names |
| Parameters.ZipLastWins | grist_mailmerge/cli.py:188-191 | a name that does not occur after position i is bound to the i-th value, as a later duplicate wins in a dict comprehension |
| Parameters.BindParams | grist_mailmerge/cli.py:181-194 | with parameters declared, a different number of supplied values is an error naming both counts; otherwise exactly the declared names are bound, each to the value at its last position; without declared parameters the map is empty |
| Parameters.DistinctNamesBindPositionally | grist_mailmerge/cli.py:188-191 | with distinct declared names the i-th name is bound to exactly the i-th value |
| Computed.FieldsFromSucceeds | grist_mailmerge/cli.py:219-222 | evaluating the remaining field rules succeeds exactly when every remaining snippet does |
| Computed.FieldsFromFirstError | grist_mailmerge/cli.py:219-222 | a failed evaluation reports the error of the first failing snippet |
| Computed.FieldsFromKeys | grist_mailmerge/cli.py:219-222 | a successful evaluation adds exactly the remaining rules' field names |
| Computed.FieldsFromKeeps | grist_mailmerge/cli.py:219-222 | a successful evaluation keeps what no remaining rule writes |
| Computed.FieldsFromLast | grist_mailmerge/cli.py:219-222 | a successful evaluation binds each field to the value of the last rule naming it |
| Computed.FieldsSpec | grist_mailmerge/cli.py:229-234 | a computed record succeeds exactly when every snippet does; it then holds exactly the configured fields, each bound to its last rule's snippet run on a fresh copy of the row; otherwise the error is the first failing snippet's |
| Computed.EvalFields | grist_mailmerge/cli.py:219-222 | the item-assignment loop over the fields, with a fresh copy of the row as globals for each, computes the specified record |
| Computed.InsertsErrorPersists | grist_mailmerge/cli.py:215-223 | once an insert entry fails, the grouping fails with that error whatever follows |
| Computed.InsertsSucceed | grist_mailmerge/cli.py:215-223 | the grouping succeeds exactly when every entry's record does |
| Computed.InsertsStep | grist_mailmerge/cli.py:215-223 | one more entry succeeds exactly when those before it did and its own record did |
| Computed.CountPositive | grist_mailmerge/cli.py:217 | some entry names a table exactly when the count of entries naming it is positive |
| Computed.CountBelow | grist_mailmerge/cli.py:223 | an entry naming a table is numbered before every later entry naming it |
| Computed.InsertsCounted | grist_mailmerge/cli.py:223 | each table's list holds one record per entry naming that table |
| Computed.InsertsKeyed | grist_mailmerge/cli.py:223 | a table is listed exactly when a positive number of entries names it |
| Computed.InsertsListed | grist_mailmerge/cli.py:223 | a table is listed exactly when some insert entry names it |
| Computed.InsertsPlaced | grist_mailmerge/cli.py:223 | the k-th record of a table is the record of the k-th entry naming that table, in entry order |
| Computed.InsertsWellFormed | grist_mailmerge/cli.py:223 | the grouping lists each table once, and every listed table has at least one record |
| Computed.ComputeInserts | grist_mailmerge/cli.py:211-223 | the loop over insert entries builds exactly the specified per-table grouping, or stops with the first entry's error |
| Computed.ComputeUpdates | grist_mailmerge/cli.py:227-234 | `row_updates` is the `update` entry's computed record, and empty without an `update` key |
| MergeContext.DecimalString | grist_mailmerge/cli.py:247 | the insert number is written as one or more decimal digits |
| MergeContext.DecimalValue | grist_mailmerge/cli.py:247 | those digits spell the number itself, with no leading zero unless it is zero |
| MergeContext.DecimalInjective | grist_mailmerge/cli.py:247 | different record numbers are written differently |
| MergeContext.PrefixInjective | grist_mailmerge/cli.py:242 | two keys with the same prefix are equal only when their field names are |
| MergeContext.UpdatedNotInserted | grist_mailmerge/cli.py:242-247 | an `updated_` key never equals an `inserted_` key |
| MergeContext.Prefixed | grist_mailmerge/cli.py:241-242 | every field `f` of the record appears as `prefix + f` with its value |
| MergeContext.PrefixedKey | grist_mailmerge/cli.py:241-242 | a key is in a prefixed layer exactly when it is the prefix followed by a field of the record, and it then holds that field's value |
| MergeContext.PrefixedInsert | grist_mailmerge/cli.py:242 | adding a field to a record adds its prefixed key to the layer |
| MergeContext.SomeLayerSnoc | grist_mailmerge/cli.py:245-247 | a key is written by a list of records exactly when it is written by those before the last or by the last one |
| MergeContext.LayeredHas | grist_mailmerge/cli.py:245-247 | writing numbered records adds exactly the keys they write |
| MergeContext.LayeredUntouched | grist_mailmerge/cli.py:245-247 | writing numbered records leaves every key they do not write unchanged |
| MergeContext.LayeredWritten | grist_mailmerge/cli.py:245-247 | a key written by one record only holds that record's value afterwards |
| MergeContext.RecordsFoldHas | grist_mailmerge/cli.py:245-247 | writing one table's records adds exactly their `inserted_<t>_<n>_` keys |
| MergeContext.RecordsFoldUntouched | grist_mailmerge/cli.py:245-247 | writing one table's records leaves every other key unchanged |
| MergeContext.RecordsFoldWritten | grist_mailmerge/cli.py:245-247 | a key only record n of the table writes holds that record's value |
| MergeContext.TablesWriteSnoc | grist_mailmerge/cli.py:244 | a key is written by a list of tables exactly when it is written by those before the last or the last one |
| MergeContext.TablesFoldHas | grist_mailmerge/cli.py:244-247 | writing the tables adds exactly the keys they write |
| MergeContext.TablesFoldUntouched | grist_mailmerge/cli.py:244-247 | writing the tables leaves every key they do not write unchanged |
| MergeContext.TablesFoldWritten | grist_mailmerge/cli.py:244-247 | a key only record n of one table writes holds that record's value after all tables are written |
| MergeContext.ContextKeys | grist_mailmerge/cli.py:238-247 | the context holds exactly the parameters, the row's fields, one `updated_f` per update field and the keys the insert fields write |
| MergeContext.InsertFieldWrites | grist_mailmerge/cli.py:247 | every computed insert field writes its `inserted_<t>_<n>_<f>` key |
| MergeContext.RowFieldsOverParams | grist_mailmerge/cli.py:238-239 | a row field keeps the row's value and wins over a parameter of the same name, and an unshadowed parameter keeps its value, unless a generated key has the same spelling |
| MergeContext.UpdatedEntry | grist_mailmerge/cli.py:241-242 | every computed update field `f` appears as `updated_f` with its computed value |
| MergeContext.InsertedEntry | grist_mailmerge/cli.py:244-247 | field f of the n-th record for a table, n counted within that table, appears as `inserted_<t>_<n>_<f>` with its value when no record of another table writes that key |
| MergeContext.InsertedKeyInjective | grist_mailmerge/cli.py:244-247 | within one table an insert key determines its record number and field |
| MergeContext.OtherRecordMisses | grist_mailmerge/cli.py:244-247 | two records of the same table never write the same key |
| MergeContext.InsertedKeysCanCollide | grist_mailmerge/cli.py:247 | field `a_1_x` of record 0 of `t` and field `x` of record 1 of `t_0_a` share the key `inserted_t_0_a_1_x` |
| MergeContext.WritePrefixed | grist_mailmerge/cli.py:241-242 | assigning a record's fields one at a time under a prefix yields the context with the prefixed layer written over it |
| MergeContext.WriteStep | grist_mailmerge/cli.py:241-242 | one item assignment extends the written part of the layer by one field |
| MergeContext.UnionUpdate | grist_mailmerge/cli.py:242 | assigning a key after a union is assigning it in the overriding layer |
| MergeContext.WriteRecords | grist_mailmerge/cli.py:245-247 | the loop over one table's records, numbered from 0, writes exactly that table's insert keys over the context |
| MergeContext.BuildContext | grist_mailmerge/cli.py:238-247 | the copy, update and item-assignment loops build exactly the layered context: params, then the row, then update keys, then insert keys table by table |
| Merge.Render | grist_mailmerge/cli.py:198-202 | a rendering fails exactly when the engine raises, and the failure names its template |
| Merge.Deliver | grist_mailmerge/cli.py:274-280 | under `--dry-run` or `--no-email` nothing is sent and the row succeeds; otherwise the message is sent once and the row succeeds exactly on exit status 0; a transport that cannot start ends the run without a recorded send |
| Merge.InsertCalls | grist_mailmerge/cli.py:304-305 | one insert batch per buffered table, in the order the tables were first buffered, each carrying that table's whole list |
| Merge.RowKeepsUpdatesConfigured | grist_mailmerge/cli.py:229-230 | a row computes update fields only for a job with an `update` entry |
| Merge.KeptRowIsPrepared | grist_mailmerge/cli.py:284-292 | the changes a kept row contributes are exactly what preparing it computed |
| Merge.PreparedParts | grist_mailmerge/cli.py:211-260 | a prepared row holds its computed inserts and updates and the message composed against the context built from them |
| Merge.RowsKeepUpdatesConfigured | grist_mailmerge/cli.py:282-289 | the row loop buffers update pairs only for a job with an `update` entry, so the flush always has a table to patch |
| Merge.EffectsConfigured | grist_mailmerge/cli.py:229-230 | a row of any job computes update fields only when the job has an `update` entry |
| Merge.ComposeMessage | grist_mailmerge/cli.py:238-260 | building the context, rendering subject and body and converting `to`, `cc`, `bcc` in that order yields the specified message, or the first failure |
| Merge.ExtendInserts | grist_mailmerge/cli.py:291-292 | the loop over the row's tables extends the job-wide buffer exactly as the specification of `setdefault(...).extend` for all tables |
| Merge.ProcessRow | grist_mailmerge/cli.py:211-280 | computing inserts, updates and message and then sending yields exactly the row's specified calls and outcome |
| Merge.KeepRow | grist_mailmerge/cli.py:282-296 | the buffer update gated on `successful` is exactly the specified keep step |
| Merge.RowsErrorPersists | grist_mailmerge/cli.py:208 | once a row ends the run, no later row changes the calls or the result |
| Merge.Flush | grist_mailmerge/cli.py:303-310 | the write-back loop issues exactly the specified batches |
| Merge.RunRow | grist_mailmerge/cli.py:208-296 | one pass of the row loop advances the specified run of the rows by exactly one row |
| Merge.RunRows | grist_mailmerge/cli.py:207-298 | the row loop yields exactly the specified calls and buffers, stopping at the first row that ends the run |
| Merge.RunJob | grist_mailmerge/cli.py:179-310 | the whole `main` from parameter binding to write-back yields exactly the specified run |
| Guarantees.ExtendKeysGet | grist_mailmerge/cli.py:291-292 | extending by distinct tables appends a table's records exactly when it is one of them |
| Guarantees.ExtendKeysValid | grist_mailmerge/cli.py:291-292 | extending a well-formed buffer table by table keeps it well formed |
| Guarantees.ExtendKeysListed | grist_mailmerge/cli.py:291-292 | after extending, a table is listed exactly when it was before or is one of the row's tables |
| Guarantees.ExtendAllSpec | grist_mailmerge/cli.py:291-292 | each table's buffered list grows by exactly the row's records for it; a well-formed buffer stays well formed and gains the row's new tables |
| Guarantees.AccumulateSpec | grist_mailmerge/cli.py:284-292 | a successful row ends the run exactly when it has update fields but no `id` column; otherwise the update batch gains `(id, fields)` exactly when the fields are non-empty, and each table's batch gains the row's records |
| Guarantees.Kept | grist_mailmerge/cli.py:284 | a row contributes changes exactly when it succeeded |
| Guarantees.KeepStep | grist_mailmerge/cli.py:284-292 | one row ends the run exactly when it failed or kept update fields without `id`; otherwise the buffers grow by what it keeps and stay batched |
| Guarantees.RowsBuffers | grist_mailmerge/cli.py:204-296 | after the row loop the update batch holds, in row order, one pair per successful row with update fields, and every table's batch holds, in row order, the successful rows' records; failed rows add nothing |
| Guarantees.RowKept | grist_mailmerge/cli.py:274-292 | a row's changes are kept exactly when it was prepared and sending was off or `sendmail` exited with 0 |
| Guarantees.RowDropped | grist_mailmerge/cli.py:274-284 | a row's changes are dropped, with the run going on, exactly when its message went to `sendmail` and it exited non-zero |
| Guarantees.RowEnds | grist_mailmerge/cli.py:211-276 | a row's own outcome ends the run exactly when preparing it raises (then with that error and no call) or `sendmail` cannot be started; the `KeyError` for a missing `id` is `Guarantees.KeepStep`'s |
| Guarantees.RowCalls | grist_mailmerge/cli.py:274-276 | a row's only traced call is its message to the transport, once, when sending is on; none under `--dry-run` or `--no-email` |
| Guarantees.PreparedMessage | grist_mailmerge/cli.py:249-259 | the subject is `CollapseSpaces` of the rendered subject and the body `Strip` of the rendered body, both rendered against the row's context; so the subject keeps the rendered text with each whitespace run made one space and the body keeps it without surrounding whitespace; the recipients are `to`, `cc`, `bcc` expanded against the row's context |
| Guarantees.ComposedMessage | grist_mailmerge/cli.py:249-259 | the same facts about a message composed against any context |
| Guarantees.RowWellFormed | grist_mailmerge/cli.py:213-223 | a kept row's insert grouping lists each table once, with records |
| Guarantees.EffectsFacts | grist_mailmerge/cli.py:208-296 | every row is well formed and makes mail calls only, and none when sending is off |
| Guarantees.RowsCalls | grist_mailmerge/cli.py:208-280 | the row loop's traced calls are mail calls only, and none when sending is off |
| Guarantees.FlushWrites | grist_mailmerge/cli.py:303-310 | the write-back sends nothing on a dry run, and only write-back calls otherwise |
| Guarantees.FlushInserts | grist_mailmerge/cli.py:303-305 | outside a dry run there is one insert batch per buffered table, carrying exactly its records, and no table gets two |
| Guarantees.FlushBatches | grist_mailmerge/cli.py:303-305 | the insert batches are exactly the buffered tables' non-empty lists, and none on a dry run |
| Guarantees.FlushBatchesOnce | grist_mailmerge/cli.py:304-305 | no table gets two insert batches |
| Guarantees.FlushUpdates | grist_mailmerge/cli.py:307-310 | outside a dry run the update batch goes to the `update` table, as the last call, exactly when there are updates |
| Guarantees.JobParts | grist_mailmerge/cli.py:196-310 | a run is the query, then the row loop's calls, then the write-back; a run that ends in an error writes nothing back |
| Guarantees.PartKinds | grist_mailmerge/cli.py:208-310 | the row loop's traced calls are mail calls only (none on a dry run or with `--no-email`); the write-back makes write-back calls only (none on a dry run) |
| Guarantees.Positions | grist_mailmerge/cli.py:196-310 | the positions of the query, the mail and the write-back in a run's trace |
| Guarantees.WritesAtEnd | grist_mailmerge/cli.py:303-310 | every write-back call of a run is one of the write-back part's calls, at its position |
| Guarantees.CallKinds | grist_mailmerge/cli.py:196-310 | each traced call by position: the main query, then mail only, then write-back only |
| Guarantees.QueryFirstFor | grist_mailmerge/cli.py:179-196 | `QueryFirst`, for any row behaviour with the row facts |
| Guarantees.DryRunOnlyQueriesFor | grist_mailmerge/cli.py:274-310 | `DryRunOnlyQueries`, for any row behaviour with the row facts |
| Guarantees.NoEmailSendsNothingFor | grist_mailmerge/cli.py:274-280 | `NoEmailSendsNothing`, for any row behaviour with the row facts |
| Guarantees.AbortWritesNothingFor | grist_mailmerge/cli.py:303-310 | `AbortWritesNothing`, for any row behaviour with the row facts |
| Guarantees.WriteBackLastFor | grist_mailmerge/cli.py:303-310 | `WriteBackLast`, for any row behaviour with the row facts |
| Guarantees.SuccessParts | grist_mailmerge/cli.py:204-310 | a successful run processed every row, made mail calls only in the loop, and flushed exactly the buffers that hold the successful rows' changes |
| Guarantees.WriteBackInsertsFor | grist_mailmerge/cli.py:303-305 | `WriteBackInserts`, for any row behaviour with the row facts |
| Guarantees.WriteBackUpdatesFor | grist_mailmerge/cli.py:307-310 | `WriteBackUpdates`, for any row behaviour with the row facts |
| Guarantees.ParameterMismatch | grist_mailmerge/cli.py:181-186 | with parameters declared, a different number of supplied values ends the run with both counts before any call, the query included |
| Guarantees.QueryFirst | grist_mailmerge/cli.py:179-196 | a run makes a traced call exactly when its parameters bind and its query renders; the first call is the main query, rendered against the parameters when parameters are declared and as written otherwise; no later traced call is a main query |
| Guarantees.DryRunOnlyQueries | grist_mailmerge/cli.py:274-310 | a dry run makes no traced call but the main query: no mail and no write-back |
| Guarantees.NoEmailSendsNothing | grist_mailmerge/cli.py:274-280 | under `--no-email` no message goes to the transport |
| Guarantees.AbortWritesNothing | grist_mailmerge/cli.py:303-310 | a run that ends in an error sends no insert or update batch, not even for rows that succeeded before it |
| Guarantees.WriteBackLast | grist_mailmerge/cli.py:303-310 | once the write-back has begun only write-back follows: the database is written after all mail |
| Guarantees.WriteBackInserts | grist_mailmerge/cli.py:291-305 | outside a dry run a successful run sends, per table, one insert batch holding in row order the records of every successful row, and none for a table no successful row inserted into; it reports every row |
| Guarantees.WriteBackUpdates | grist_mailmerge/cli.py:284-310 | outside a dry run a successful run patches the `update` table once, as its last call, with the `(id, fields)` pairs of the successful rows with update fields in row order, exactly when there is such a row |

## Left out

- Argument parsing, reading the job and API-key files, and the `sys.path` change
  (`grist_mailmerge/cli.py:139-156`) are process plumbing. The job arrives as a typed `Merge.Job`
  and the switches as `Merge.Modes`. `--verbose` only prints and is not modelled.
- The strictyaml schema and loading (`grist_mailmerge/cli.py:23-50`). The model takes the loaded
  document: absent optional keys are `None`, and field rules keep the file's order.
- `GristClient`, `sql_query` and `Struct`, and the network calls `client.sql`, `add_records` and
  `patch_records` (`grist_mailmerge/cli.py:134-135`, `172-177`, `196`, `305-310`). The query
  is a parameter (`Env.sql`), a total function, so a main query that raises is not modelled. The
  write-back calls are recorded in the trace with their batches, not performed, and their
  failures are not modelled either.
- Jinja2 is a foreign library. `Environment`, `StrictUndefined` and the template language are a
  compile predicate and a partial render function. Template compilation is checked before the
  loop, as `env.from_string` does at lines 201-202. The recipient `expand` is the same partial
  render, not a total `string -> string`, so that an undefined name in a recipient template
  stops the run as it does in the code.
- Python's `ast.parse`, `ast.unparse`, `compile`, `exec` and `eval` are parameters
  (`Evaluator.Python`). The parsed body is a sequence of abstract statements. `a.body.pop()` is
  modelled as the pure split `Evaluator.PlanOf` rather than an in-place update of a list.
- Each snippet runs in its own `dict(row)` (lines 220 and 232). That copy is shallow, but the
  cells of a query row are scalars, so the copy keeps each snippet from changing the row or
  another snippet's globals. The model therefore passes every snippet the row value itself
  instead of a copy. A cell holding a mutable object that a snippet changed in place would be
  seen by later snippets and by `exp_context`. That is not modelled: `Values.Other`, the
  model's value for anything that is not a scalar, is an immutable token.
- The `email.headerregistry.Address` syntax checks and `EmailMessage` serialisation are library
  behaviour. The model does not reject malformed addresses, and a message is its subject,
  recipients and body.
- `format_timestamp` and `format_date_timestamp` (`grist_mailmerge/cli.py:110-126`) and the
  timezone warning. They involve floats, `datetime`, `ZoneInfo` and a locale-dependent
  `strftime`, and reach templates only as filters inside the abstract render.
- The `Popen` invocation (`grist_mailmerge/cli.py:275-278`) is subprocess I/O. It is modelled as
  its result for the n-th row: an exit status, or a launch failure.
- Merge.Deliver: a `sendmail` that could not be started records no `SendMail` call. A message
  in flight when the process dies is not modelled.
- Guarantees.QueryFirst: templates can call the `q` global (`grist_mailmerge/cli.py:177`), which
  sends a query to the server while a template renders. Those queries are part of the abstract
  render, not calls of the trace, so "no later call is a query" speaks of the main query only.
- Guarantees.QueryFirstFor: the same holds for the general form of `QueryFirst`.
- Guarantees.DryRunOnlyQueries: a dry run still renders every row's templates, so the queries they
  issue through `q` reach the server; the member states only that no mail and no write-back is sent.
- Guarantees.DryRunOnlyQueriesFor: the same holds for the general form of `DryRunOnlyQueries`.
- Guarantees.RowCalls: the queries a row's templates issue through `q` are not calls of the trace.
- Guarantees.RowsCalls: the queries rows' templates issue through `q` are not calls of the trace.
- Guarantees.PartKinds: the queries templates issue through `q` are not calls of the trace.
- Guarantees.CallKinds: the queries templates issue through `q` are not calls of the trace.
- Addresses.SingleAddress: a name template that expands to "" gives `Address(Some(""), e)`. Python's
  `Address("", addr_spec=e)` (`grist_mailmerge/cli.py:73-75`) equals the nameless address and
  prints the same header; the model keeps the two apart.
- Addresses.PairedMembers: the same holds for an empty name segment, as in `name: "A;"`
  (`grist_mailmerge/cli.py:60-63`); `Addresses.Paired` and `Addresses.PairedNoEmpty` likewise.
- Every `print` preview and report (`grist_mailmerge/cli.py:262-272`, `287`, `294`, `300-301`).
- Evaluator.ExecWithReturn: the model tags every failure with its `Site`. Python's own report
  carries the location only for errors raised while compiling or executing the body
  (`grist_mailmerge/cli.py:104-105`): `ast.parse` (line 95) reports `<unknown>`, and `eval` of the
  trailing expression (line 107) reports `<string>`.
- `Values.Location`, the location string the body is compiled under, appears only in Python's
  error reports and is not part of `Values.Error`.
- Exceptions that the typed job rules out are not modelled, such as a `KeyError` for a missing
  `subject` key. The conditions that can stop a run are those of `Values.Error`.
